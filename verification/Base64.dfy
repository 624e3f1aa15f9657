/** Base64 with line breaks, section 4 of RFC 4648: what a text means and how data is written. */
module Base64Spec {
  import opened Wrappers

  const GROUPS_PER_LINE := 18

  type Sextet = x: int | 0 <= x < 64

  // ---------- The alphabet ----------

  function Symbol(v: Sextet): char {
    if v < 26 then (v + 65) as char
    else if v < 52 then (v + 71) as char
    else if v < 62 then (v - 4) as char
    else if v == 62 then '+' else '/'
  }

  const INVALID := -1
  const PADDING := -2

  /** The inverse table, indexed by the distance from '+'. */
  function TableEntry(d: int): int
    requires 0 <= d < 80
  {
    if d == 0 then 62
    else if d == 4 then 63
    else if 5 <= d < 15 then d + 47
    else if d == 18 then PADDING
    else if 22 <= d < 48 then d - 22
    else if 54 <= d then d - 28
    else INVALID
  }

  predicate InTable(c: char) { 0x2B <= c as int < 0x7B }

  predicate IsLineSpace(c: char) { c == '\r' || c == '\n' || c == '\t' || c == ' ' }

  datatype Meaning = Value(v: Sextet) | End | Skip | Bad

  /** What the decoder makes of one character. */
  function Classify(c: char): Meaning {
    if InTable(c) then
      var e := TableEntry(c as int - 0x2B);
      if e == PADDING then End else if e == INVALID then Bad else Value(e)
    else if c == '\0' then End
    else if IsLineSpace(c) then Skip
    else Bad
  }

  lemma SymbolMeansValue(v: Sextet)
    ensures Classify(Symbol(v)) == Value(v)
  {
  }

  // ---------- The alphabet, written out ----------

  const UPPER := "ABCDEFGHIJKLMNOPQRSTUVWXYZ"
  const LOWER := "abcdefghijklmnopqrstuvwxyz"
  const DIGITS := "0123456789"
  const ALPHABET := UPPER + LOWER + DIGITS + "+/"

  /** Value v is written as letter v of the alphabet. */
  lemma SymbolIs(v: Sextet)
    ensures |ALPHABET| == 64 && Symbol(v) == ALPHABET[v]
  {
    UpperIs(v);
    LowerIs(v - 26);
    DigitIs(v - 52);
    hide Symbol;
    Parts(UPPER, LOWER, DIGITS, "+/", v);
  }

  lemma Parts(a: string, b: string, c: string, d: string, v: nat)
    requires |a| == 26 && |b| == 26 && |c| == 10 && |d| == 2 && v < 64
    ensures |a + b + c + d| == 64
    ensures (a + b + c + d)[v]
         == if v < 26 then a[v] else if v < 52 then b[v - 26] else if v < 62 then c[v - 52] else d[v - 62]
  {
  }

  lemma UpperIs(v: int)
    ensures |UPPER| == 26 && (0 <= v < 26 ==> Symbol(v) == UPPER[v])
  {
  }

  lemma LowerIs(v: int)
    ensures |LOWER| == 26 && (0 <= v < 26 ==> Symbol(v + 26) == LOWER[v])
  {
  }

  lemma DigitIs(v: int)
    ensures |DIGITS| == 10 && (0 <= v < 10 ==> Symbol(v + 52) == DIGITS[v]) && Symbol(62) == '+' && Symbol(63) == '/'
  {
  }

  /** The decoder takes each letter of the alphabet for its place in it, ends at '=' or NUL,
      skips four kinds of white space, and rejects all else. */
  lemma ClassifyIs(c: char)
    ensures |ALPHABET| == 64
    ensures match Classify(c)
            case Value(v) => ALPHABET[v] == c
            case End => c == '=' || c == '\0'
            case Skip => c == '\r' || c == '\n' || c == '\t' || c == ' '
            case Bad => c !in ALPHABET && c != '=' && c != '\0' && c != '\r' && c != '\n' && c != '\t' && c != ' '
  {
    SymbolIs(0);
    if Classify(c).Value? {
      ValueIsSymbol(c);
      SymbolIs(Classify(c).v);
    } else {
      if i :| 0 <= i < |ALPHABET| && ALPHABET[i] == c {
        SymbolIs(i);
        SymbolMeansValue(i);
      }
      hide Symbol;
    }
  }

  lemma ValueIsSymbol(c: char)
    requires Classify(c).Value?
    ensures Symbol(Classify(c).v) == c
  {
  }

  // ---------- What a text means ----------

  /** The values up to the terminator, and whether no disallowed character precedes it. */
  function Values(text: string, ignoreInvalid: bool): (seq<Sextet>, bool) {
    if text == "" then ([], true)
    else
      match Classify(text[0])
      case End => ([], true)
      case Skip => Values(text[1..], ignoreInvalid)
      case Bad => if ignoreInvalid then Values(text[1..], ignoreInvalid) else ([], false)
      case Value(v) =>
        var rest := Values(text[1..], ignoreInvalid);
        ([v] + rest.0, rest.1)
  }

  /** What a text means, by its first character. */
  lemma ValuesOfChar(c: char, rest: string, ignoreInvalid: bool)
    ensures |ALPHABET| == 64
    ensures var (vs, ok) := Values([c] + rest, ignoreInvalid);
            var (more, moreOk) := Values(rest, ignoreInvalid);
            if c == '=' || c == '\0' then vs == [] && ok
            else if c == '\r' || c == '\n' || c == '\t' || c == ' ' then vs == more && ok == moreOk
            else if c in ALPHABET then vs != [] && ALPHABET[vs[0]] == c && vs[1..] == more && ok == moreOk
            else if ignoreInvalid then vs == more && ok == moreOk
            else vs == [] && !ok
    ensures Values("", ignoreInvalid) == ([], true)
  {
    ClassifyIs(c);
    NoSpaceInAlphabet(c);
    hide Classify, ALPHABET;
    assert ([c] + rest)[0] == c && ([c] + rest)[1..] == rest;
  }

  lemma NoSpaceInAlphabet(c: char)
    ensures Classify(c).Value? ==>
              c in ALPHABET && c != '=' && c != '\0' && c != '\r' && c != '\n' && c != '\t' && c != ' '
  {
    ClassifyIs(c);
    if Classify(c).Value? {
      assert ALPHABET[Classify(c).v] in ALPHABET;
    }
    hide ALPHABET;
  }

  /** The whole bytes in at most four values. */
  function BlockBytes(p: seq<Sextet>): seq<Byte>
    requires |p| <= 4
  {
    if |p| < 2 then []
    else
      var a: int, b: int := p[0], p[1];
      if |p| == 2 then [a * 4 + b / 16]
      else
        var c: int := p[2];
        if |p| == 3 then [a * 4 + b / 16, b % 16 * 16 + c / 4]
        else
          var d: int := p[3];
          [a * 4 + b / 16, b % 16 * 16 + c / 4, c % 4 * 64 + d]
  }

  function Bytes(vs: seq<Sextet>): (b: seq<Byte>)
    ensures |b| == 3 * |vs| / 4
  {
    if |vs| < 4 then BlockBytes(vs) else BlockBytes(vs[..4]) + Bytes(vs[4..])
  }

  // ---------- How data is written ----------

  function Symbols(vs: seq<Sextet>): string {
    seq(|vs|, i requires 0 <= i < |vs| => Symbol(vs[i]))
  }

  /** The values that carry one to three bytes. */
  function GroupValues(d: seq<Byte>): (vs: seq<Sextet>)
    requires 1 <= |d| <= 3
    ensures |vs| == |d| + 1
  {
    if |d| == 1 then [d[0] / 4, d[0] % 4 * 16]
    else if |d| == 2 then [d[0] / 4, d[0] % 4 * 16 + d[1] / 16, d[1] % 16 * 4]
    else [d[0] / 4, d[0] % 4 * 16 + d[1] / 16, d[1] % 16 * 4 + d[2] / 64, d[2] % 64]
  }

  function Group(d: seq<Byte>): (s: string)
    requires 1 <= |d| <= 3
    ensures |s| == 4
  {
    Symbols(GroupValues(d)) + (if |d| == 1 then "==" else if |d| == 2 then "=" else "")
  }

  /** The number that digits stand for, the most significant one first. */
  function Number(digits: seq<int>, base: nat): int {
    if digits == [] then 0 else Number(digits[..|digits| - 1], base) * base + digits[|digits| - 1]
  }

  lemma NumberOfOne(a: int, base: nat)
    ensures Number([a], base) == a
  {
    assert [a][..0] == [];
  }

  lemma NumberOfTwo(a: int, b: int, base: nat)
    ensures Number([a, b], base) == a * base + b
  {
    assert [a, b][..1] == [a];
    NumberOfOne(a, base);
  }

  lemma NumberOfThree(a: int, b: int, c: int, base: nat)
    ensures Number([a, b, c], base) == (a * base + b) * base + c
  {
    assert [a, b, c][..2] == [a, b];
    NumberOfTwo(a, b, base);
  }

  lemma NumberOfFour(a: int, b: int, c: int, d: int, base: nat)
    ensures Number([a, b, c, d], base) == ((a * base + b) * base + c) * base + d
  {
    assert [a, b, c, d][..3] == [a, b, c];
    NumberOfThree(a, b, c, base);
  }

  /** The values of a group are the base-64 digits of the number that its bytes are in base
      256, with zero bits filled in at the end. */
  lemma GroupNumber(d: seq<Byte>)
    requires 1 <= |d| <= 3
    ensures Number(GroupValues(d), 64) == Number(d, 256) * if |d| == 1 then 16 else if |d| == 2 then 4 else 1
  {
    hide Number, GroupValues;
    if |d| == 1 {
      assert d == [d[0]];
      OneByte(d[0]);
    } else if |d| == 2 {
      assert d == [d[0], d[1]];
      TwoBytes(d[0], d[1]);
    } else {
      assert d == [d[0], d[1], d[2]];
      ThreeBytes(d[0], d[1], d[2]);
    }
  }

  lemma OneByte(a: Byte)
    ensures Number(GroupValues([a]), 64) == Number([a], 256) * 16
  {
    NumberOfOne(a, 256);
    NumberOfTwo(a / 4, a % 4 * 16, 64);
    hide Number;
  }

  lemma TwoBytes(a: Byte, b: Byte)
    ensures Number(GroupValues([a, b]), 64) == Number([a, b], 256) * 4
  {
    NumberOfTwo(a, b, 256);
    NumberOfThree(a / 4, a % 4 * 16 + b / 16, b % 16 * 4, 64);
    hide Number;
  }

  lemma ThreeBytes(a: Byte, b: Byte, c: Byte)
    ensures Number(GroupValues([a, b, c]), 64) == Number([a, b, c], 256)
  {
    NumberOfThree(a, b, c, 256);
    NumberOfFour(a / 4, a % 4 * 16 + b / 16, b % 16 * 4 + c / 64, c % 64, 64);
    hide Number;
  }

  /** The bytes of a block are the base-256 digits of the number that its values are in base 64,
      without the bits that do not fill a byte. */
  lemma BlockNumber(p: seq<Sextet>)
    requires 2 <= |p| <= 4
    ensures Number(BlockBytes(p), 256) == Number(p, 64) / if |p| == 2 then 16 else if |p| == 3 then 4 else 1
  {
    hide Number, BlockBytes;
    if |p| == 2 {
      assert p == [p[0], p[1]];
      TwoValues(p[0], p[1]);
    } else if |p| == 3 {
      assert p == [p[0], p[1], p[2]];
      ThreeValues(p[0], p[1], p[2]);
    } else {
      assert p == [p[0], p[1], p[2], p[3]];
      FourValues(p[0], p[1], p[2], p[3]);
    }
  }

  lemma TwoValues(a: Sextet, b: Sextet)
    ensures Number(BlockBytes([a, b]), 256) == Number([a, b], 64) / 16
  {
    var x: int, y: int := a, b;
    NumberOfTwo(x, y, 64);
    NumberOfOne(x * 4 + y / 16, 256);
    hide Number;
  }

  lemma ThreeValues(a: Sextet, b: Sextet, c: Sextet)
    ensures Number(BlockBytes([a, b, c]), 256) == Number([a, b, c], 64) / 4
  {
    var x: int, y: int, z: int := a, b, c;
    NumberOfThree(x, y, z, 64);
    NumberOfTwo(x * 4 + y / 16, y % 16 * 16 + z / 4, 256);
    hide Number;
  }

  lemma FourValues(a: Sextet, b: Sextet, c: Sextet, d: Sextet)
    ensures Number(BlockBytes([a, b, c, d]), 256) == Number([a, b, c, d], 64)
  {
    var x: int, y: int, z: int, w: int := a, b, c, d;
    NumberOfFour(x, y, z, w, 64);
    NumberOfThree(x * 4 + y / 16, y % 16 * 16 + z / 4, z % 4 * 64 + w, 256);
    hide Number;
  }

  /** A group is written with the letters of its digits and '=' for each byte that is missing. */
  lemma GroupIs(d: seq<Byte>)
    requires 1 <= |d| <= 3
    ensures |ALPHABET| == 64
    ensures forall i | 0 <= i < 4 :: Group(d)[i] == if i <= |d| then ALPHABET[GroupValues(d)[i]] else '='
  {
    forall i | 0 <= i <= |d|
      ensures |ALPHABET| == 64 && Group(d)[i] == ALPHABET[GroupValues(d)[i]]
    {
      SymbolIs(GroupValues(d)[i]);
    }
    hide Symbol, GroupValues;
  }

  /** data in groups, a line break before the next group when `left` groups have filled the
      line, and one more at the very end. */
  function Encoding(data: seq<Byte>, lineBreak: string, left: int): string {
    if data == [] then lineBreak
    else
      var n := if |data| < 3 then |data| else 3;
      (if left == 0 then lineBreak else "") + Group(data[..n])
      + Encoding(data[n..], lineBreak, (if left == 0 then GROUPS_PER_LINE else left) - 1)
  }

  function Groups(cb: nat): nat { (cb + 2) / 3 }

  /** Lines hold 54 bytes, which make 72 characters: what fits one line is its groups and a line
      break, and longer data is its first line and then the rest. */
  lemma {:induction false} LinesOf72(data: seq<Byte>, lineBreak: string)
    requires data != []
    ensures |data| <= 54 ==> Encoding(data, lineBreak, 18) == PlainGroups(data) + lineBreak
    ensures |data| > 54 ==>
              && |PlainGroups(data[..54])| == 72
              && Encoding(data, lineBreak, 18)
                 == PlainGroups(data[..54]) + lineBreak + Encoding(data[54..], lineBreak, 18)
  {
    var n := 18;
    OneLine(data, lineBreak, n);
    if |data| > 54 {
      PlainLength(data[..54]);
      NextLine(data[54..], lineBreak);
    }
  }

  /** The groups of data, without line breaks. */
  function PlainGroups(data: seq<Byte>): string {
    if data == [] then ""
    else
      var n := if |data| < 3 then |data| else 3;
      Group(data[..n]) + PlainGroups(data[n..])
  }

  lemma {:induction false} PlainLength(data: seq<Byte>)
    ensures |PlainGroups(data)| == 4 * Groups(|data|)
  {
    if data != [] {
      PlainLength(data[if |data| < 3 then |data| else 3..]);
    }
  }

  lemma NextLine(data: seq<Byte>, lineBreak: string)
    requires data != []
    ensures Encoding(data, lineBreak, 0) == lineBreak + Encoding(data, lineBreak, 18)
  {
  }

  /** As many groups as fit the line, and then what follows on a full line. */
  lemma {:induction false} OneLine(data: seq<Byte>, lineBreak: string, left: nat)
    requires data != [] && left > 0
    ensures |data| <= 3 * left ==> Encoding(data, lineBreak, left) == PlainGroups(data) + lineBreak
    ensures |data| > 3 * left ==>
              Encoding(data, lineBreak, left)
              == PlainGroups(data[..3 * left]) + Encoding(data[3 * left..], lineBreak, 0)
    decreases left
  {
    hide Group, Encoding, PlainGroups;
    var n := if |data| < 3 then |data| else 3;
    var rest := data[n..];
    FirstGroup(data, lineBreak, left);
    if rest == [] {
      NothingPlain(lineBreak);
      assert Group(data[..n]) + "" + lineBreak == Group(data[..n]) + lineBreak;
    } else if left == 1 {
      var first := data[..3];
      FirstGroup(first, lineBreak, left);
      NothingPlain(lineBreak);
      assert first[..3] == first && first[3..] == [];
      assert Group(first) + "" == Group(first);
    } else {
      OneLine(rest, lineBreak, left - 1);
      if |data| > 3 * left {
        var first := data[..3 * left];
        FirstGroup(first, lineBreak, left);
        assert first[..3] == data[..3] && first[3..] == rest[..3 * (left - 1)];
        assert rest[3 * (left - 1)..] == data[3 * left..];
      }
    }
  }

  lemma FirstGroup(data: seq<Byte>, lineBreak: string, left: nat)
    requires data != [] && left > 0
    ensures var n := if |data| < 3 then |data| else 3;
            && Encoding(data, lineBreak, left) == Group(data[..n]) + Encoding(data[n..], lineBreak, left - 1)
            && PlainGroups(data) == Group(data[..n]) + PlainGroups(data[n..])
  {
    hide Group;
    var n := if |data| < 3 then |data| else 3;
    assert "" + Group(data[..n]) == Group(data[..n]);
  }

  lemma NothingPlain(lineBreak: string)
    ensures PlainGroups([]) == "" && forall left: int :: Encoding([], lineBreak, left) == lineBreak
  {
  }

  /** Line breaks inserted before `groups` groups when `left` more fit on the line. */
  function Breaks(groups: nat, left: nat): nat {
    if groups <= left then 0 else 1 + (groups - left - 1) / GROUPS_PER_LINE
  }

  lemma {:induction false} EncodingLength(data: seq<Byte>, lineBreak: string, left: nat)
    ensures |Encoding(data, lineBreak, left)| == 4 * Groups(|data|) + |lineBreak| * (1 + Breaks(Groups(|data|), left))
    decreases |data|
  {
    if data != [] {
      var n := if |data| < 3 then |data| else 3;
      var next := (if left == 0 then GROUPS_PER_LINE else left) - 1;
      EncodingLength(data[n..], lineBreak, next);
      var g := Groups(|data|);
      assert Groups(|data[n..]|) == g - 1;
      assert Breaks(g, left) == Breaks(g - 1, next) + if left == 0 then 1 else 0;
      Distribute(|lineBreak|, 1 + Breaks(g - 1, next));
    }
  }

  lemma Distribute(a: nat, b: nat)
    ensures a * (b + 1) == a * b + a
  {
  }

  const TWO_TO_64 := 0x1_0000_0000_0000_0000

  /** The buffer size a caller is told to provide, in arithmetic modulo `range` and cut to 32
      bits on return. */
  function SizeIn(cbData: nat, lineBreak: string, range: nat): nat
    requires range > 0
  {
    var nGroups := Groups(cbData) % range;
    var breaks := 1 + ((nGroups - 1) % range) / GROUPS_PER_LINE;
    (1 + nGroups * 4 + |lineBreak| * breaks) % range % 0x1_0000_0000
  }

  /** The size where sizes of strings have 64 bits. */
  function MaxOutput(cbData: nat, lineBreak: string): nat {
    SizeIn(cbData, lineBreak, TWO_TO_64)
  }

  /** The advertised size is exactly the text and its NUL, cut to 32 bits, provided there is
      data or no line break. */
  lemma MaxOutputIsExact(data: seq<Byte>, lineBreak: string)
    requires |data| < 0x8000_0000_0000_0000
    requires data != [] || lineBreak == ""
    ensures MaxOutput(|data|, lineBreak) == (|Encoding(data, lineBreak, GROUPS_PER_LINE)| + 1) % 0x1_0000_0000
  {
    SomeGroups(|data|);
    SizeIsExact(data, lineBreak, TWO_TO_64);
    hide Encoding, SizeIn;
  }

  /** The same for either width of string sizes, as long as the groups can be counted in it. */
  lemma SizeIsExact(data: seq<Byte>, lineBreak: string, range: nat)
    requires range == TWO_TO_64 || range == 0x1_0000_0000
    requires Groups(|data|) < range && (data != [] || lineBreak == "")
    ensures SizeIn(|data|, lineBreak, range) == (|Encoding(data, lineBreak, GROUPS_PER_LINE)| + 1) % 0x1_0000_0000
  {
    hide Encoding, SizeIn;
    if data == [] {
      NoData(data, lineBreak, range);
    } else {
      SomeData(data, lineBreak, range);
    }
  }

  lemma SomeData(data: seq<Byte>, lineBreak: string, range: nat)
    requires range == TWO_TO_64 || range == 0x1_0000_0000
    requires data != [] && Groups(|data|) < range
    ensures SizeIn(|data|, lineBreak, range) == (|Encoding(data, lineBreak, GROUPS_PER_LINE)| + 1) % 0x1_0000_0000
  {
    hide Encoding, SizeIn, Groups, Breaks;
    var g, breaks := Groups(|data|), 1 + Breaks(Groups(|data|), GROUPS_PER_LINE);
    EncodingLength(data, lineBreak, GROUPS_PER_LINE);
    OneGroup(|data|);
    BreaksFromFullLine(g);
    NoWrap(|data|, g, lineBreak, breaks, |lineBreak| * breaks, range);
  }

  lemma SomeGroups(cb: nat)
    requires cb < 0x8000_0000_0000_0000
    ensures Groups(cb) < TWO_TO_64
  {
  }

  lemma OneGroup(cb: nat)
    requires cb > 0
    ensures Groups(cb) >= 1
  {
  }

  /** For no data but a line break the size computation wraps around.  What is advertised is
      then the text, which is just the line break, and its NUL iff 2^29 divides its length. */
  lemma MaxOutputOfNothing(lineBreak: string)
    requires 0 < |lineBreak| < 0xFFFF_FFFF
    ensures MaxOutput(0, lineBreak) == |Encoding([], lineBreak, GROUPS_PER_LINE)| + 1
            <==> |lineBreak| % 0x2000_0000 == 0
  {
    var l := |lineBreak|;
    assert Groups(0) == 0 && (0 - 1) % TWO_TO_64 == TWO_TO_64 - 1;
    assert MaxOutput(0, lineBreak) == (1 + l * 1024819115206086201) % TWO_TO_64 % 0x1_0000_0000;
    hide MaxOutput, Groups;
    NarrowMod(1 + l * 1024819115206086201, TWO_TO_64);
    WrappedSize(l);
  }

  /** The same where sizes of strings have 32 bits: then 2^31 has to divide the length. */
  lemma NarrowSizeOfNothing(lineBreak: string, range: nat)
    requires 0 < |lineBreak| < 0xFFFF_FFFF && range == 0x1_0000_0000
    ensures SizeIn(0, lineBreak, range) == |Encoding([], lineBreak, GROUPS_PER_LINE)| + 1
            <==> |lineBreak| % 0x8000_0000 == 0
  {
    var l := |lineBreak|;
    var x := l * 119304647;
    NarrowSize(lineBreak, range);
    hide SizeIn;
    assert 1 + l * 238609295 == (l + 1) + 2 * x;
    SameRest(l + 1, 2 * x, 0);
    OddFactorWide(l, x);
  }

  lemma NarrowSize(lineBreak: string, range: nat)
    requires range == 0x1_0000_0000
    ensures SizeIn(0, lineBreak, range) == (1 + |lineBreak| * 238609295) % 0x1_0000_0000
  {
    assert Groups(0) == 0 && (0 - 1) % range == range - 1;
  }

  lemma TwoTimes(x: nat)
    ensures 2 * x % 0x1_0000_0000 == 0 <==> x % 0x8000_0000 == 0
  {
  }

  /** 119304647 is odd: its inverse modulo 2^31 is 1073741815. */
  lemma OddFactorWide(l: nat, x: nat)
    requires x == l * 119304647
    ensures 2 * x % 0x1_0000_0000 == 0 <==> l % 0x8000_0000 == 0
  {
    TwoTimes(x);
    if x % 0x8000_0000 == 0 {
      Inverse(l, x, x / 0x8000_0000);
    }
    if l % 0x8000_0000 == 0 {
      Multiple(l, x, l / 0x8000_0000);
    }
  }

  lemma Inverse(l: nat, x: nat, q: nat)
    requires x == l * 119304647 && x == 0x8000_0000 * q
    ensures l % 0x8000_0000 == 0
  {
    assert l == 0x8000_0000 * (1073741815 * q - 59652323 * l);
  }

  lemma Multiple(l: nat, x: nat, p: nat)
    requires x == l * 119304647 && l == 0x8000_0000 * p
    ensures x % 0x8000_0000 == 0
  {
    assert x == 0x8000_0000 * (119304647 * p);
  }

  lemma NarrowMod(x: nat, range: nat)
    requires range == TWO_TO_64 || range == 0x1_0000_0000
    ensures x % range % 0x1_0000_0000 == x % 0x1_0000_0000
  {
  }

  lemma WrappedSize(l: nat)
    requires l < 0xFFFF_FFFF
    ensures (1 + l * 1024819115206086201) % 0x1_0000_0000 == l + 1 <==> l % 0x2000_0000 == 0
  {
    var x, y := l * 119304647, l * 238609294;
    Spread(l, x, y);
    SameRest(l + 1, 8 * x, y);
    EightTimes(x);
    OddFactor(l, x);
  }

  lemma Spread(l: nat, x: nat, y: nat)
    requires x == l * 119304647 && y == l * 238609294
    ensures 1 + l * 1024819115206086201 == (l + 1) + 8 * x + 0x1_0000_0000 * y
  {
  }

  lemma EightTimes(x: nat)
    ensures 8 * x % 0x1_0000_0000 == 0 <==> x % 0x2000_0000 == 0
  {
  }

  lemma SameRest(a: nat, b: nat, y: nat)
    requires a < 0x1_0000_0000
    ensures (a + b + 0x1_0000_0000 * y) % 0x1_0000_0000 == a <==> b % 0x1_0000_0000 == 0
  {
  }

  /** 119304647 is odd: its inverse modulo 2^29 is 536870903. */
  lemma OddFactor(l: nat, x: nat)
    requires x == l * 119304647
    ensures x % 0x2000_0000 == 0 <==> l % 0x2000_0000 == 0
  {
    var q, p := x / 0x2000_0000, l / 0x2000_0000;
    if x % 0x2000_0000 == 0 {
      assert l == 0x2000_0000 * (536870903 * q - 119304645 * l);
    } else {
      assert l == 0x2000_0000 * p ==> x == 0x2000_0000 * (p * 119304647);
    }
  }

  lemma BreaksFromFullLine(g: nat)
    requires g >= 1
    ensures Breaks(g, GROUPS_PER_LINE) == (g - 1) / GROUPS_PER_LINE
  {
  }

  lemma NoData(data: seq<Byte>, lineBreak: string, range: nat)
    requires data == [] && lineBreak == "" && (range == TWO_TO_64 || range == 0x1_0000_0000)
    ensures SizeIn(|data|, lineBreak, range) == 1 && |Encoding(data, lineBreak, GROUPS_PER_LINE)| == 0
  {
    NoBreaks(1 + ((0 - 1) % range) / GROUPS_PER_LINE);
    assert 1 % range == 1 && 0 % range == 0 && Groups(0) == 0;
  }

  lemma NoBreaks(x: int)
    ensures 0 * x == 0
  {
  }

  lemma NoWrap(cb: nat, g: nat, lineBreak: string, breaks: nat, z: nat, range: nat)
    requires range == TWO_TO_64 || range == 0x1_0000_0000
    requires z == |lineBreak| * breaks && g == Groups(cb) && 1 <= g < range
             && breaks == 1 + (g - 1) / GROUPS_PER_LINE
    ensures SizeIn(cb, lineBreak, range) == (1 + 4 * g + z) % 0x1_0000_0000
  {
    Unwrapped(g, range);
    hide Groups;
    assert SizeIn(cb, lineBreak, range) == (1 + g * 4 + z) % range % 0x1_0000_0000;
    hide SizeIn;
    NarrowMod(1 + g * 4 + z, range);
  }

  lemma Unwrapped(g: nat, range: nat)
    requires 1 <= g < range
    ensures g % range == g && (g - 1) % range == g - 1
  {
  }

  // ---------- Writing and reading back ----------

  predicate LineSpaces(s: string) {
    forall i | 0 <= i < |s| :: IsLineSpace(s[i])
  }

  lemma {:induction false} ValuesSkipSpaces(s: string, rest: string, ign: bool)
    requires LineSpaces(s)
    ensures Values(s + rest, ign) == Values(rest, ign)
  {
    if s == "" {
      assert s + rest == rest;
    } else {
      assert (s + rest)[1..] == s[1..] + rest;
      ValuesSkipSpaces(s[1..], rest, ign);
    }
  }

  lemma {:induction false} ValuesOfSymbols(vs: seq<Sextet>, rest: string, ign: bool)
    ensures Values(Symbols(vs) + rest, ign) == (vs + Values(rest, ign).0, Values(rest, ign).1)
  {
    if vs == [] {
      assert Symbols(vs) + rest == rest;
      assert vs + Values(rest, ign).0 == Values(rest, ign).0;
    } else {
      SymbolMeansValue(vs[0]);
      assert (Symbols(vs) + rest)[1..] == Symbols(vs[1..]) + rest;
      ValuesOfSymbols(vs[1..], rest, ign);
      var more := Values(rest, ign).0;
      assert [vs[0]] + (vs[1..] + more) == vs + more;
    }
  }

  lemma GroupRoundTrip(d: seq<Byte>)
    requires 1 <= |d| <= 3
    ensures BlockBytes(GroupValues(d)) == d
  {
  }

  /** A padded group ends the text. */
  lemma PaddedGroup(d: seq<Byte>, after: string, ign: bool)
    requires 1 <= |d| <= 2
    ensures Values(Group(d) + after, ign) == (GroupValues(d), true)
    ensures Bytes(GroupValues(d)) == d
  {
    GroupRoundTrip(d);
    var vs := GroupValues(d);
    var pad := (if |d| == 1 then "==" else "=") + after;
    assert pad[0] == '=';
    assert Group(d) + after == Symbols(vs) + pad;
    ValuesOfSymbols(vs, pad, ign);
    assert vs + [] == vs;
  }

  lemma NothingButSpaces(s: string, ign: bool)
    requires LineSpaces(s)
    ensures Values(s, ign) == ([], true) && Bytes([]) == []
  {
    assert s + "" == s;
    ValuesSkipSpaces(s, "", ign);
  }

  lemma FullGroup(d: seq<Byte>, after: string, ign: bool)
    requires |d| == 3
    ensures Values(Group(d) + after, ign) == (GroupValues(d) + Values(after, ign).0, Values(after, ign).1)
    ensures Bytes(GroupValues(d) + Values(after, ign).0) == d + Bytes(Values(after, ign).0)
  {
    var vs, rest := GroupValues(d), Values(after, ign).0;
    assert Group(d) == Symbols(vs);
    ValuesOfSymbols(vs, after, ign);
    GroupRoundTrip(d);
    assert (vs + rest)[..4] == vs && (vs + rest)[4..] == rest;
  }

  /** Decoding what was encoded gives the data back, whether or not invalid characters are
      tolerated. */
  lemma {:induction false} DecodeEncoding(data: seq<Byte>, lineBreak: string, left: int, ign: bool)
    requires LineSpaces(lineBreak)
    ensures Values(Encoding(data, lineBreak, left), ign).1
    ensures Bytes(Values(Encoding(data, lineBreak, left), ign).0) == data
    decreases |data|
  {
    hide Values, Bytes, BlockBytes;
    if data == [] {
      NothingButSpaces(lineBreak, ign);
    } else {
      var n := if |data| < 3 then |data| else 3;
      var before := if left == 0 then lineBreak else "";
      var after := Encoding(data[n..], lineBreak, (if left == 0 then GROUPS_PER_LINE else left) - 1);
      assert Encoding(data, lineBreak, left) == before + (Group(data[..n]) + after);
      ValuesSkipSpaces(before, Group(data[..n]) + after, ign);
      hide Group, GroupValues;
      if n < 3 {
        assert data[..n] == data;
        PaddedGroup(data, after, ign);
      } else {
        FullGroup(data[..n], after, ign);
        DecodeEncoding(data[n..], lineBreak, (if left == 0 then GROUPS_PER_LINE else left) - 1, ign);
      }
    }
  }
}

/** The Base64 routines, working on caller-supplied buffers. */
module Base64 {
  import opened Arithmetic
  import opened Base64Spec
  import opened Wrappers

  const INT_MAX := 0x7FFF_FFFF

  lemma {:induction false} NoBreakNoCounter(data: seq<Byte>, left: int, left': int)
    ensures Encoding(data, "", left) == Encoding(data, "", left')
    decreases |data|
  {
    if data != [] {
      var n := if |data| < 3 then |data| else 3;
      NoBreakNoCounter(data[n..], (if left == 0 then GROUPS_PER_LINE else left) - 1,
                       (if left' == 0 then GROUPS_PER_LINE else left') - 1);
    }
  }

  lemma RoomForOneGroup(data: seq<Byte>, lineBreak: string, left: nat)
    requires data != []
    ensures |Encoding(data, lineBreak, left)| >= 4 + |lineBreak|
  {
    EncodingLength(data, lineBreak, left);
    Distribute(|lineBreak|, Breaks(Groups(|data|), left));
  }

  /** The 24-bit word the code assembles from one to three bytes. */
  function Word(d: seq<Byte>): nat
    requires 1 <= |d| <= 3
  {
    (d[0] as int) * 0x1_0000 + (if |d| > 1 then (d[1] as int) * 0x100 else 0) + (if |d| > 2 then d[2] as int else 0)
  }

  lemma FirstDigit(digit: int, low: int)
    requires 0 <= digit < 64 && 0 <= low < 0x4_0000
    ensures (digit * 0x4_0000 + low) / 0x4_0000 % 64 == digit
  {
  }

  lemma SecondDigit(high: int, digit: int, low: int)
    requires 0 <= digit < 64 && 0 <= low < 0x1000
    ensures ((high * 64 + digit) * 0x1000 + low) / 0x1000 % 64 == digit
  {
  }

  lemma ThirdDigit(high: int, digit: int, low: int)
    requires 0 <= digit < 64 && 0 <= low < 64
    ensures ((high * 64 + digit) * 64 + low) / 64 % 64 == digit
  {
  }

  /** The four digits of a word whose bytes are split at the digit boundaries. */
  lemma SplitDigits(a1: int, a0: int, b1: int, b0: int, c1: int, c0: int)
    requires 0 <= a1 < 64 && 0 <= a0 < 4 && 0 <= b1 < 16 && 0 <= b0 < 16 && 0 <= c1 < 4 && 0 <= c0 < 64
    ensures var w := (4 * a1 + a0) * 0x1_0000 + (16 * b1 + b0) * 0x100 + (64 * c1 + c0);
            && w / 0x4_0000 % 64 == a1 && w / 0x1000 % 64 == a0 * 16 + b1
            && w / 64 % 64 == b0 * 4 + c1 && w % 64 == c0
  {
    FirstDigit(a1, a0 * 0x1_0000 + (16 * b1 + b0) * 0x100 + (64 * c1 + c0));
    SecondDigit(a1, a0 * 16 + b1, b0 * 0x100 + (64 * c1 + c0));
    ThirdDigit(a1 * 64 + a0 * 16 + b1, b0 * 4 + c1, c0);
  }

  lemma WordDigits(a: int, b: int, c: int)
    requires 0 <= a < 256 && 0 <= b < 256 && 0 <= c < 256
    ensures var w := a * 0x1_0000 + b * 0x100 + c;
            && w / 0x4_0000 % 64 == a / 4 && w / 0x1000 % 64 == a % 4 * 16 + b / 16
            && w / 64 % 64 == b % 16 * 4 + c / 64 && w % 64 == c % 64
  {
    SplitDigits(a / 4, a % 4, b / 16, b % 16, c / 64, c % 64);
  }

  lemma GroupFromWord(d: seq<Byte>)
    requires 1 <= |d| <= 3
    ensures Group(d) == [Symbol(Word(d) / 0x4_0000 % 64), Symbol(Word(d) / 0x1000 % 64),
                         if |d| > 1 then Symbol(Word(d) / 64 % 64) else '=',
                         if |d| > 2 then Symbol(Word(d) % 64) else '=']
  {
    hide Symbol;
    WordDigits(d[0], if |d| > 1 then d[1] else 0, if |d| > 2 then d[2] else 0);
  }

  /** Append s at pos to the text that begins at start. */
  method Append(out: array<char>, start: nat, pos: nat, s: string)
    requires start <= pos && pos + |s| <= out.Length
    modifies out
    ensures out[start..pos + |s|] == old(out[start..pos]) + s
    ensures forall k | 0 <= k < out.Length && !(pos <= k < pos + |s|) :: out[k] == old(out[k])
  {
    forall k | 0 <= k < |s| {
      out[pos + k] := s[k];
    }
    assert out[start..pos] == old(out[start..pos]) && out[pos..pos + |s|] == s;
    assert out[start..pos + |s|] == out[start..pos] + out[pos..pos + |s|];
  }

  /** Append a line break if one is due, then the four characters for one to three bytes. */
  method AppendGroup(d: seq<Byte>, out: array<char>, start: nat, pos: nat, lineBreak: string, left: int)
    returns (end: nat)
    requires 1 <= |d| <= 3 && start <= pos && pos + |GroupText(d, lineBreak, left)| <= out.Length
    modifies out
    ensures end == pos + |GroupText(d, lineBreak, left)|
    ensures out[start..end] == old(out[start..pos]) + GroupText(d, lineBreak, left)
    ensures forall k | 0 <= k < out.Length && !(pos <= k < end) :: out[k] == old(out[k])
  {
    hide Group, Symbol;
    end := pos;
    if left == 0 {
      Append(out, start, end, lineBreak);
      end := end + |lineBreak|;
    }
    var w := Word(d);
    GroupFromWord(d);
    var s := [Symbol(w / 0x4_0000 % 64), Symbol(w / 0x1000 % 64),
              if |d| > 1 then Symbol(w / 64 % 64) else '=', if |d| > 2 then Symbol(w % 64) else '='];
    Append(out, start, end, s);
    end := end + 4;
  }

  function GroupText(d: seq<Byte>, lineBreak: string, left: int): string
    requires 1 <= |d| <= 3
  {
    (if left == 0 then lineBreak else "") + Group(d)
  }

  /** Encode data into the cap characters from start on.  It succeeds iff the text and its
      terminating NUL fit.  If it does not, what was written is terminated, even in a buffer of
      size 0. */
  method Base64Encode(data: seq<Byte>, out: array<char>, start: nat, cap: nat, lineBreak: string)
    returns (ok: bool, n: nat)
    requires start < out.Length && start + cap <= out.Length
    modifies out
    ensures ok <==> |Encoding(data, lineBreak, GROUPS_PER_LINE)| < cap
    ensures ok ==> n == |Encoding(data, lineBreak, GROUPS_PER_LINE)|
                   && out[start..start + n] == Encoding(data, lineBreak, GROUPS_PER_LINE) && out[start + n] == '\0'
    ensures !ok ==> n == MaxOutput(|data|, lineBreak)
    ensures var last := start + if ok then n else if cap > 0 then cap - 1 else 0;
            && '\0' in out[start..last + 1]
            && forall k | 0 <= k < out.Length && !(start <= k <= last) :: out[k] == old(out[k])
  {
    hide Encoding, Group, MaxOutput, GroupText;
    if cap == 0 {
      out[start] := '\0';
      return false, MaxOutput(|data|, lineBreak);
    }
    var left := if |lineBreak| > 0 then GROUPS_PER_LINE else INT_MAX;
    ghost var full := Encoding(data, lineBreak, left);
    if lineBreak == "" {
      NoBreakNoCounter(data, left, GROUPS_PER_LINE);
    }
    var room := cap - 1;
    var i, pos := 0, start;
    assert data[0..] == data;
    while |data| - i >= 3
      invariant 0 <= i <= |data| && left >= 0 && start <= pos && 0 <= room && pos + room == start + cap - 1
      invariant out[start..pos] + Encoding(data[i..], lineBreak, left) == full
      invariant forall k | 0 <= k < out.Length && !(start <= k < pos) :: out[k] == old(out[k])
    {
      RoomForOneGroup(data[i..], lineBreak, left);
      if room < 4 + |lineBreak| {
        out[pos] := '\0';
        return false, MaxOutput(|data|, lineBreak);
      }
      EncodingStep(data, i, lineBreak, left, out[start..pos]);
      var end := AppendGroup(data[i..i + 3], out, start, pos, lineBreak, left);
      i := i + 3;
      room := room - (end - pos);
      pos := end;
      left := (if left == 0 then GROUPS_PER_LINE else left) - 1;
    }

    ok, pos := FinishEncoding(data[i..], out, start, pos, room, lineBreak, left);
    n := if ok then pos - start else MaxOutput(|data|, lineBreak);
  }

  /** The last one or two bytes, the final line break and the NUL. */
  method FinishEncoding(rest: seq<Byte>, out: array<char>, start: nat, pos: nat, space: nat, lineBreak: string,
                        left: nat)
    returns (ok: bool, end: nat)
    requires |rest| < 3 && start <= pos && pos + space < out.Length
    modifies out
    ensures ok <==> |Encoding(rest, lineBreak, left)| <= space
    ensures ok ==> end == pos + |Encoding(rest, lineBreak, left)|
                   && out[start..end] == old(out[start..pos]) + Encoding(rest, lineBreak, left) && out[end] == '\0'
    ensures pos <= end <= pos + space && out[end] == '\0'
    ensures forall k | 0 <= k < out.Length && !(pos <= k <= end) :: out[k] == old(out[k])
  {
    hide Encoding, Group, GroupText;
    var room := space;
    end := pos;
    if rest != [] {
      RoomForOneGroup(rest, lineBreak, left);
      if room < 4 + |lineBreak| {
        out[end] := '\0';
        return false, end;
      }
      LastGroup(rest, lineBreak, left);
      end := AppendGroup(rest, out, start, pos, lineBreak, left);
      room := room - (end - pos);
    } else {
      EncodingEnd(rest, lineBreak, left);
    }
    if |lineBreak| > 0 {
      if room < |lineBreak| {
        out[end] := '\0';
        return false, end;
      }
      Append(out, start, end, lineBreak);
      end := end + |lineBreak|;
    }
    out[end] := '\0';
    ok := true;
  }

  lemma LastGroup(rest: seq<Byte>, lineBreak: string, left: int)
    requires 1 <= |rest| < 3
    ensures Encoding(rest, lineBreak, left) == GroupText(rest, lineBreak, left) + lineBreak
    ensures |GroupText(rest, lineBreak, left)| == if left == 0 then 4 + |lineBreak| else 4
  {
    assert rest[..|rest|] == rest && rest[|rest|..] == [];
  }

  lemma EncodingStep(data: seq<Byte>, i: nat, lineBreak: string, left: int, before: string)
    requires i + 3 <= |data|
    ensures |GroupText(data[i..i + 3], lineBreak, left)| == if left == 0 then 4 + |lineBreak| else 4
    ensures before + Encoding(data[i..], lineBreak, left)
         == before + GroupText(data[i..i + 3], lineBreak, left)
            + Encoding(data[i + 3..], lineBreak, (if left == 0 then GROUPS_PER_LINE else left) - 1)
  {
    assert data[i..][..3] == data[i..i + 3] && data[i..][3..] == data[i + 3..];
    var text := GroupText(data[i..i + 3], lineBreak, left);
    var more := Encoding(data[i + 3..], lineBreak, (if left == 0 then GROUPS_PER_LINE else left) - 1);
    assert Encoding(data[i..], lineBreak, left) == text + more;
    assert before + (text + more) == before + text + more;
  }

  lemma EncodingEnd(rest: seq<Byte>, lineBreak: string, left: int)
    requires rest == []
    ensures Encoding(rest, lineBreak, left) == lineBreak
  {
  }

  // ---------- Decoding ----------

  /** The accumulator: a leading one and the values read since the last full block. */
  function Sentinel(p: seq<Sextet>): nat {
    if p == [] then 1 else Sentinel(p[..|p| - 1]) * 64 + p[|p| - 1]
  }

  /** The value of up to four sextets, padded with zeros to 24 bits. */
  function Padded(p: seq<Sextet>): nat
    requires |p| <= 4
  {
    var a: int := if |p| > 0 then p[0] else 0;
    var b: int := if |p| > 1 then p[1] else 0;
    var c: int := if |p| > 2 then p[2] else 0;
    var d: int := if |p| > 3 then p[3] else 0;
    a * 0x4_0000 + b * 0x1000 + c * 64 + d
  }

  function Shift6(acc: nat, n: nat): nat {
    if n == 0 then acc else Shift6(acc, n - 1) * 64
  }

  lemma SentinelPadded(p: seq<Sextet>)
    requires |p| <= 4
    ensures Shift6(Sentinel(p), 4 - |p|) == 0x100_0000 + Padded(p)
    ensures |p| == 0 ==> Sentinel(p) == 1
    ensures |p| == 1 ==> 64 <= Sentinel(p) < 0x80
    ensures |p| == 2 ==> 0x1000 <= Sentinel(p) < 0x2000
    ensures |p| == 3 ==> 0x4_0000 <= Sentinel(p) < 0x8_0000
    ensures |p| == 4 ==> 0x100_0000 <= Sentinel(p) < 0x200_0000
  {
    if |p| > 0 {
      SentinelPadded(p[..|p| - 1]);
    }
    var acc := Sentinel(p);
    assert Shift6(acc, 0) == acc && Shift6(acc, 1) == acc * 64;
    assert Shift6(acc, 2) == acc * 64 * 64 && Shift6(acc, 3) == acc * 64 * 64 * 64;
    assert Shift6(acc, 4) == acc * 64 * 64 * 64 * 64;
  }

  lemma {:induction false} BytesAppend(a: seq<Sextet>, b: seq<Sextet>)
    requires |a| % 4 == 0
    ensures Bytes(a + b) == Bytes(a) + Bytes(b)
    decreases |a|
  {
    if a == [] {
      assert a + b == b;
    } else {
      assert (a + b)[..4] == a[..4] && (a + b)[4..] == a[4..] + b;
      BytesAppend(a[4..], b);
    }
  }

  /** The three bytes of an accumulator whose values are split at the byte boundaries. */
  lemma SplitBlock(a: int, b1: int, b0: int, c1: int, c0: int, d: int)
    requires 0 <= a < 64 && 0 <= b1 < 4 && 0 <= b0 < 16 && 0 <= c1 < 16 && 0 <= c0 < 4 && 0 <= d < 64
    ensures var acc := 0x100_0000 + a * 0x4_0000 + (16 * b1 + b0) * 0x1000 + (4 * c1 + c0) * 64 + d;
            && acc / 0x1_0000 % 256 == a * 4 + b1 && acc / 0x100 % 256 == b0 * 16 + c1 && acc % 256 == c0 * 64 + d
  {
    ThirdByte(a * 4 + b1, b0 * 0x1000 + (4 * c1 + c0) * 64 + d);
    SecondByte(256 + (a * 4 + b1), b0 * 16 + c1, c0 * 64 + d);
    FirstByte((256 + (a * 4 + b1)) * 256 + (b0 * 16 + c1), c0 * 64 + d);
  }

  lemma ThirdByte(x: int, rest: int)
    requires 0 <= x < 256 && 0 <= rest < 0x1_0000
    ensures ((256 + x) * 0x1_0000 + rest) / 0x1_0000 % 256 == x
  {
    DivisionIsUnique((256 + x) * 0x1_0000 + rest, 0x1_0000, 256 + x, rest);
    DivisionIsUnique(256 + x, 256, 1, x);
  }

  lemma SecondByte(high: int, x: int, rest: int)
    requires 0 <= high && 0 <= x < 256 && 0 <= rest < 256
    ensures ((high * 256 + x) * 0x100 + rest) / 0x100 % 256 == x
  {
    DivisionIsUnique((high * 256 + x) * 0x100 + rest, 0x100, high * 256 + x, rest);
    DivisionIsUnique(high * 256 + x, 256, high, x);
  }

  lemma FirstByte(high: int, x: int)
    requires 0 <= high && 0 <= x < 256
    ensures (high * 0x100 + x) % 256 == x
  {
    DivisionIsUnique(high * 0x100 + x, 256, high, x);
  }

  lemma BlockDigits(a: int, b: int, c: int, d: int)
    requires 0 <= a < 64 && 0 <= b < 64 && 0 <= c < 64 && 0 <= d < 64
    ensures var acc := 0x100_0000 + a * 0x4_0000 + b * 0x1000 + c * 64 + d;
            && acc / 0x1_0000 % 256 == a * 4 + b / 16
            && acc / 0x100 % 256 == b % 16 * 16 + c / 4
            && acc % 256 == c % 4 * 64 + d
  {
    SplitBlock(a, b / 16, b % 16, c / 4, c % 4, d);
  }

  /** The bytes of a block can be read off the padded accumulator. */
  lemma BlockFromWord(p: seq<Sextet>)
    requires |p| <= 4
    ensures var acc := 0x100_0000 + Padded(p);
            BlockBytes(p) == [acc / 0x1_0000 % 256, acc / 0x100 % 256, acc % 256][..3 * |p| / 4]
  {
    BlockDigits(if |p| > 0 then p[0] else 0, if |p| > 1 then p[1] else 0,
                if |p| > 2 then p[2] else 0, if |p| > 3 then p[3] else 0);
  }

  /** Shifting the 32-bit accumulator left by bytes brings each byte of the block in turn to
      where it is read. */
  lemma ShiftedBytes(x: int, y: int, z: int)
    requires 0 <= x < 256 && 0 <= y < 256 && 0 <= z < 256
    ensures var acc := 0x100_0000 + x * 0x1_0000 + y * 0x100 + z;
            var one := acc * 256 % 0x1_0000_0000;
            var two := one * 256 % 0x1_0000_0000;
            && acc / 0x1_0000 % 256 == x && one / 0x1_0000 % 256 == y && two / 0x1_0000 % 256 == z
  {
    var acc := 0x100_0000 + x * 0x1_0000 + y * 0x100 + z;
    assert acc / 0x1_0000 == 256 + x;
    var one := acc * 256 % 0x1_0000_0000;
    assert one == x * 0x100_0000 + y * 0x1_0000 + z * 0x100;
    assert one / 0x1_0000 == x * 256 + y;
    var two := one * 256 % 0x1_0000_0000;
    assert two == y * 0x100_0000 + z * 0x1_0000;
    assert two / 0x1_0000 == y * 256 + z;
  }

  function Shift8(acc: nat, n: nat): nat {
    if n == 0 then acc else Shift8(acc, n - 1) * 256 % 0x1_0000_0000
  }

  lemma TailBytes(p: seq<Sextet>, j: nat)
    requires |p| <= 4 && j < 3 * |p| / 4
    ensures Shift8(0x100_0000 + Padded(p), j) / 0x1_0000 % 256 == BlockBytes(p)[j]
  {
    BlockFromWord(p);
    var acc := 0x100_0000 + Padded(p);
    var x, y, z := acc / 0x1_0000 % 256, acc / 0x100 % 256, acc % 256;
    ByteDigits(Padded(p));
    ShiftedBytes(x, y, z);
    assert Shift8(acc, 0) == acc && Shift8(acc, 1) == acc * 256 % 0x1_0000_0000;
    assert Shift8(acc, 2) == Shift8(acc, 1) * 256 % 0x1_0000_0000;
  }

  lemma ByteDigits(v: nat)
    requires v < 0x100_0000
    ensures var acc := 0x100_0000 + v;
            acc == 0x100_0000 + acc / 0x1_0000 % 256 * 0x1_0000 + acc / 0x100 % 256 * 0x100 + acc % 256
  {
    var acc := 0x100_0000 + v;
    assert acc / 0x1_0000 == 256 + v / 0x1_0000;
    assert acc / 0x100 == 0x1_0000 + v / 0x100;
    assert v / 0x100 == v / 0x1_0000 * 256 + v / 0x100 % 256;
  }

  lemma {:induction false} Shift6Grows(acc: nat, s: nat, t: nat)
    requires s < t
    ensures Shift6(acc, s) * 64 <= Shift6(acc, t)
    decreases t
  {
    if s < t - 1 {
      Shift6Grows(acc, s, t - 1);
    }
  }

  /** Shift an unfinished block up to 24 bits and count its whole bytes. */
  method PadBlock(acc0: nat, ghost p: seq<Sextet>) returns (acc: nat, nWriteBytes: int)
    requires 1 <= |p| <= 4 && acc0 == Sentinel(p)
    ensures acc == 0x100_0000 + Padded(p) && nWriteBytes == |p| - 1
  {
    hide Padded, Sentinel;
    SentinelPadded(p);
    acc, nWriteBytes := acc0, 3;
    while acc < 0x100_0000
      invariant |p| - 1 <= nWriteBytes <= 3 && acc == Shift6(acc0, 3 - nWriteBytes)
      decreases nWriteBytes
    {
      nWriteBytes := nWriteBytes - 1;
      acc := acc * 64;
    }
    NotYetPadded(p, 3 - nWriteBytes);
  }

  lemma NotYetPadded(p: seq<Sextet>, s: nat)
    requires |p| <= 4
    ensures s < 4 - |p| ==> Shift6(Sentinel(p), s) < 0x100_0000
  {
    if s < 4 - |p| {
      SentinelPadded(p);
      Shift6Grows(Sentinel(p), s, 4 - |p|);
      SentinelBound(p);
    }
  }

  lemma SentinelBound(p: seq<Sextet>)
    requires |p| <= 4
    ensures Padded(p) < 0x100_0000
  {
  }

  /** Write the whole bytes of an unfinished block, as far as there is room. */
  method WriteTail(out: array?<Byte>, cap: nat, n0: nat, acc0: nat, ghost p: seq<Sextet>) returns (ok: bool, n: nat)
    requires |p| <= 4 && acc0 == Sentinel(p) && n0 <= cap && (out != null ==> cap <= out.Length)
    modifies out
    ensures ok <==> n0 + |BlockBytes(p)| <= cap
    ensures n == if ok then n0 + |BlockBytes(p)| else cap
    ensures out != null ==>
              && out[..n] == old(out[..n0]) + BlockBytes(p)[..n - n0]
              && forall k | n <= k < out.Length :: out[k] == old(out[k])
  {
    hide BlockBytes, Padded, Sentinel;
    SentinelPadded(p);
    assert |BlockBytes(p)| == 3 * |p| / 4 by {
      BlockFromWord(p);
    }
    ok, n := true, n0;
    if acc0 >= 64 {
      var acc, nWriteBytes := PadBlock(acc0, p);
      while nWriteBytes > 0
        invariant 0 <= nWriteBytes && n0 <= n <= cap && n - n0 + nWriteBytes == |BlockBytes(p)|
        invariant acc == Shift8(0x100_0000 + Padded(p), n - n0)
        invariant out != null ==> out[..n] == old(out[..n0]) + BlockBytes(p)[..n - n0]
        invariant out != null ==> forall k | n <= k < out.Length :: out[k] == old(out[k])
      {
        if n == cap {
          return false, n;
        }
        TailBytes(p, n - n0);
        if out != null {
          out[n] := acc / 0x1_0000 % 256;
        }
        n := n + 1;
        acc := acc * 256 % 0x1_0000_0000;
        nWriteBytes := nWriteBytes - 1;
      }
    }
  }

  /** Capacity of the output: without a buffer the size is only computed. */
  function Capacity(out: array?<Byte>, size: nat): nat {
    if out == null then 0xFFFF_FFFF else size
  }

  /** Decode text into a buffer, or only compute the size.  What has been written is always a
      prefix of the decoded bytes; decoding succeeds iff no disallowed character precedes the
      terminator and the bytes fit. */
  method Base64Decode(text: string, out: array?<Byte>, size: nat, ignoreInvalid: bool) returns (ok: bool, n: nat)
    requires out != null ==> size <= out.Length
    modifies out
    ensures var (vs, valid) := Values(text, ignoreInvalid);
            && (ok <==> valid && 3 * |vs| / 4 <= Capacity(out, size))
            && n <= |Bytes(vs)| && n <= Capacity(out, size)
            && (ok ==> n == |Bytes(vs)|)
            && (out != null ==> out[..n] == Bytes(vs)[..n] && forall k | n <= k < out.Length :: out[k] == old(out[k]))
  {
    hide Values, Bytes, BlockBytes, Sentinel;
    var failed, acc;
    ghost var done, p, rest;
    failed, n, acc, done, p, rest := DecodeBlocks(text, out, Capacity(out, size), ignoreInvalid);
    DecodedSoFar(done, p, rest);
    if failed {
      return false, n;
    }
    ok, n := WriteTail(out, Capacity(out, size), n, acc, p);
  }

  /** Decode whole blocks until the text ends, a disallowed character is met or a block does
      not fit.  The values split into those written, those in the accumulator, and the rest. */
  method DecodeBlocks(text: string, out: array?<Byte>, cap: nat, ignoreInvalid: bool)
    returns (failed: bool, n: nat, acc: nat, ghost done: seq<Sextet>, ghost p: seq<Sextet>, ghost rest: seq<Sextet>)
    requires out != null ==> cap <= out.Length
    modifies out
    ensures |done| % 4 == 0 && |p| <= 4 && acc == Sentinel(p) && n == |Bytes(done)| <= cap
    ensures done + p + rest == Values(text, ignoreInvalid).0
    ensures failed ==> !Values(text, ignoreInvalid).1
    ensures !failed ==> (rest == [] && |p| < 4 && Values(text, ignoreInvalid).1) || (|p| == 4 && cap - n < 3)
    ensures out != null ==> out[..n] == Bytes(done) && forall k | n <= k < out.Length :: out[k] == old(out[k])
  {
    hide Values, Bytes, BlockBytes, Classify, Sentinel;
    ghost var all := Values(text, ignoreInvalid);
    done, p, rest := [], [], all.0;
    acc, n, failed := 1, 0, false;
    var i := 0;
    StartDecoding(text, ignoreInvalid);
    while i < |text|
      invariant 0 <= i <= |text| && n <= cap && n == |Bytes(done)| && |done| % 4 == 0 && |p| < 4 && acc == Sentinel(p)
      invariant all.0 == done + p + rest && (rest, all.1) == Values(text[i..], ignoreInvalid)
      invariant out != null ==> out[..n] == Bytes(done) && forall k | n <= k < out.Length :: out[k] == old(out[k])
    {
      ValuesStep(text, i, ignoreInvalid);
      var meaning := Classify(text[i]);
      i := i + 1;
      match meaning {
        case End =>
          return;
        case Skip =>
        case Bad =>
          if !ignoreInvalid {
            failed := true;
            return;
          }
        case Value(v) =>
          PushSextet(p, v);
          MoveOver(done, p, v, Values(text[i..], ignoreInvalid).0);
          acc := acc * 64 + v;
          p := p + [v];
          rest := Values(text[i..], ignoreInvalid).0;
          if acc >= 0x100_0000 {
            if cap - n < 3 {
              return;
            }
            FullBlock(done, p);
            assert done + p + [] + rest == done + p + rest;
            if out != null {
              WriteBlock(out, n, acc);
            }
            n := n + 3;
            acc := 1;
            done, p := done + p, [];
          }
      }
    }
    NoMoreText(text[i..], ignoreInvalid);
  }

  lemma MoveOver(done: seq<Sextet>, p: seq<Sextet>, v: Sextet, rest: seq<Sextet>)
    ensures done + p + ([v] + rest) == done + (p + [v]) + rest
  {
  }

  method WriteBlock(out: array<Byte>, n: nat, acc: nat)
    requires n + 3 <= out.Length
    modifies out
    ensures out[..n + 3] == old(out[..n]) + [acc / 0x1_0000 % 256, acc / 0x100 % 256, acc % 256]
    ensures forall k | n + 3 <= k < out.Length :: out[k] == old(out[k])
  {
    out[n] := acc / 0x1_0000 % 256;
    out[n + 1] := acc / 0x100 % 256;
    out[n + 2] := acc % 256;
  }

  lemma StartDecoding(text: string, ign: bool)
    ensures Bytes([]) == [] && Sentinel([]) == 1 && text[0..] == text
    ensures [] + [] + Values(text, ign).0 == Values(text, ign).0
  {
  }

  lemma NoMoreText(text: string, ign: bool)
    requires text == ""
    ensures Values(text, ign) == ([], true)
  {
  }

  lemma PushSextet(p: seq<Sextet>, v: Sextet)
    requires |p| < 4
    ensures Sentinel(p + [v]) == Sentinel(p) * 64 + v
    ensures Sentinel(p + [v]) >= 0x100_0000 <==> |p| == 3
  {
    assert (p + [v])[..|p|] == p;
    SentinelPadded(p + [v]);
  }

  lemma FullBlock(done: seq<Sextet>, p: seq<Sextet>)
    requires |p| == 4 && |done| % 4 == 0
    ensures var acc := Sentinel(p);
            Bytes(done + p) == Bytes(done) + [acc / 0x1_0000 % 256, acc / 0x100 % 256, acc % 256]
    ensures Sentinel([]) == 1
  {
    BytesAppend(done, p);
    assert p[..4] == p && p[4..] == [];
    BlockFromWord(p);
    SentinelPadded(p);
  }

  lemma DecodedSoFar(done: seq<Sextet>, p: seq<Sextet>, rest: seq<Sextet>)
    requires |done| % 4 == 0 && |p| <= 4
    ensures |BlockBytes(p)| == 3 * |p| / 4
    ensures Bytes(done) <= Bytes(done + p + rest)
    ensures rest == [] || |p| == 4 ==> Bytes(done) + BlockBytes(p) <= Bytes(done + p + rest)
    ensures rest == [] && |p| < 4 ==> Bytes(done + p + rest) == Bytes(done) + BlockBytes(p)
  {
    assert done + p + rest == done + (p + rest);
    BytesAppend(done, p + rest);
    BytesOfStart(p, rest);
  }

  lemma BytesOfStart(p: seq<Sextet>, rest: seq<Sextet>)
    requires |p| <= 4
    ensures |BlockBytes(p)| == 3 * |p| / 4
    ensures |p| == 4 ==> Bytes(p + rest) == BlockBytes(p) + Bytes(rest)
    ensures rest == [] && |p| < 4 ==> Bytes(p + rest) == BlockBytes(p)
  {
    if |p| == 4 {
      assert (p + rest)[..4] == p && (p + rest)[4..] == rest;
    } else if rest == [] {
      assert p + rest == p;
    }
  }

  /** How one character changes what remains to be read. */
  lemma ValuesStep(text: string, i: nat, ign: bool)
    requires i < |text|
    ensures var now, later := Values(text[i..], ign), Values(text[i + 1..], ign);
            match Classify(text[i])
            case End => now == ([], true)
            case Skip => now == later
            case Bad => now == if ign then later else ([], false)
            case Value(v) => now == ([v] + later.0, later.1)
  {
    assert text[i..][0] == text[i] && text[i..][1..] == text[i + 1..];
  }
}
