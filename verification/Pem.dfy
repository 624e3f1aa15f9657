/** Locating the body of a PEM text between its header and footer lines. */
module Pem {
  import opened Base64Spec
  import Base64
  import opened Wrappers

  // ---------- Scanning ----------

  type Class = char -> bool

  /** The first index from i on at which the class does not hold, or the end of the text. */
  function Span(t: string, i: nat, c: Class): (j: nat)
    requires i <= |t|
    ensures i <= j <= |t|
    ensures forall k | i <= k < j :: c(t[k])
    ensures j < |t| ==> !c(t[j])
    decreases |t| - i
  {
    if i < |t| && c(t[i]) then Span(t, i + 1, c) else i
  }

  const SPACES: Class := (c: char) => c == ' ' || '\t' <= c <= '\r'
  const BLANKS: Class := (c: char) => c == ' ' || c == '\t'
  const DASHES: Class := (c: char) => c == '-'
  const TYPE_CHARS: Class := (c: char) => c != '-' && c != '\0' && c != '\r' && c != '\n'
  const NOT_DASH: Class := (c: char) => c != '-'

  function Upper(c: char): char {
    if 'a' <= c <= 'z' then (c as int - 32) as char else c
  }

  predicate SameIgnoringCase(s: string, t: string) {
    |s| == |t| && forall i | 0 <= i < |s| :: Upper(s[i]) == Upper(t[i])
  }

  lemma {:induction false} SpanIs(t: string, i: nat, j: nat, c: Class)
    requires i <= j <= |t| && (forall k | i <= k < j :: c(t[k])) && (j < |t| ==> !c(t[j]))
    ensures Span(t, i, c) == j
    decreases j - i
  {
    if i < j {
      SpanIs(t, i + 1, j, c);
    }
  }

  predicate Ended(t: string, i: nat) {
    i >= |t| || t[i] == '\0'
  }

  /** Where the text goes on after the dashes and the keyword that open a line. */
  function AfterKeyword(t: string, i: nat, keyword: string): (r: Option<nat>)
    requires i <= |t|
    ensures r.Some? ==> i < r.value < |t|
  {
    var dash := Span(t, i, SPACES);
    if Ended(t, dash) || t[dash] != '-' then None
    else
      var blank := Span(t, dash, DASHES);
      if Ended(t, blank) then None
      else
        var word := Span(t, blank, BLANKS);
        if Ended(t, word) || word + |keyword| >= |t| || !SameIgnoringCase(t[word..word + |keyword|], keyword) then None
        else Some(word + |keyword|)
  }

  /** Where the text goes on after the type, the closing dashes and white space. */
  function AfterType(t: string, i: nat, expected: Option<string>): (r: Option<nat>)
    requires i <= |t|
    ensures r.Some? ==> i <= r.value <= |t|
  {
    var kind := Span(t, i, BLANKS);
    if Ended(t, kind) then None
    else
      var end := Span(t, kind, TYPE_CHARS);
      if end >= |t| || t[end] != '-' then None
      else if expected.Some?
        && (kind + |expected.value| > end
            || !SameIgnoringCase(t[kind..kind + |expected.value|], expected.value)) then None
      else Some(Span(t, Span(t, end, DASHES), SPACES))
  }

  /** Where the text goes on after a header or footer line that starts at i, if there is one
      with the given keyword and type. */
  function AfterLine(t: string, i: nat, keyword: string, expected: Option<string>): (r: Option<nat>)
    requires i <= |t|
    ensures r.Some? ==> i < r.value <= |t|
  {
    var k := AfterKeyword(t, i, keyword);
    if k.None? then None else AfterType(t, k.value, expected)
  }

  /** The body of a PEM text: what lies between header and footer. */
  function Body(t: string, expected: Option<string>): (r: Option<(nat, nat)>)
    ensures r.Some? ==> r.value.0 <= r.value.1 < |t|
  {
    var start := AfterLine(t, 0, "BEGIN", expected);
    if start.None? then None
    else
      var end := Span(t, start.value, NOT_DASH);
      if end >= |t| || AfterLine(t, end, "END", expected).None? then None
      else Some((start.value, end))
  }

  // ---------- The shape of a text ----------

  /** The places in a line at which its parts begin: the dashes, the blanks before the keyword,
      the keyword, the type, the closing dashes, the white space after them, and what follows. */
  datatype Marks = Marks(dash: nat, blank: nat, word: nat, kind: nat, close: nat, space: nat, next: nat)

  predicate IsBlank(c: char) { c == ' ' || c == '\t' }

  predicate IsSpace(c: char) { c == ' ' || c == '\t' || c == '\n' || c == '\U{B}' || c == '\U{C}' || c == '\r' }

  /** White space, dashes, blanks, and the keyword. */
  ghost predicate KeywordShape(t: string, i: nat, m: Marks, keyword: string) {
    && i <= m.dash < m.blank <= m.word && m.word + |keyword| < |t|
    && (forall k | i <= k < m.dash :: IsSpace(t[k]))
    && (forall k | m.dash <= k < m.blank :: t[k] == '-') && t[m.blank] != '-' && t[m.blank] != '\0'
    && (forall k | m.blank <= k < m.word :: IsBlank(t[k])) && !IsBlank(t[m.word]) && t[m.word] != '\0'
    && SameIgnoringCase(t[m.word..m.word + |keyword|], keyword)
  }

  /** Blanks, a type that begins as expected and ends before the next dash, dashes, and white
      space. */
  ghost predicate TypeShape(t: string, i: nat, m: Marks, expected: Option<string>) {
    && i <= m.kind <= m.close < m.space <= m.next <= |t|
    && (forall k | i <= k < m.kind :: IsBlank(t[k])) && !IsBlank(t[m.kind]) && t[m.kind] != '\0'
    && (forall k | m.kind <= k < m.close :: IsTypeChar(t[k]))
    && (expected.Some? ==>
          && m.kind + |expected.value| <= m.close
          && SameIgnoringCase(t[m.kind..m.kind + |expected.value|], expected.value))
    && (forall k | m.close <= k < m.space :: t[k] == '-') && (m.space < |t| ==> t[m.space] != '-')
    && (forall k | m.space <= k < m.next :: IsSpace(t[k])) && (m.next < |t| ==> !IsSpace(t[m.next]))
  }

  ghost predicate LineShape(t: string, i: nat, m: Marks, keyword: string, expected: Option<string>) {
    KeywordShape(t, i, m, keyword) && TypeShape(t, m.word + |keyword|, m, expected)
  }

  predicate IsTypeChar(c: char) { c != '-' && c != '\0' && c != '\r' && c != '\n' }

  lemma SpaceSpan(t: string, i: nat, j: nat)
    requires i <= |t|
    ensures Span(t, i, SPACES) == j <==>
              i <= j <= |t| && (forall k | i <= k < j :: IsSpace(t[k])) && (j < |t| ==> !IsSpace(t[j]))
  {
    SpaceClass();
    SpanIff(t, i, j, SPACES);
    hide SPACES, IsSpace;
  }

  lemma SpaceClass()
    ensures forall c: char :: SPACES(c) <==> IsSpace(c)
  {
  }

  lemma BlankSpan(t: string, i: nat, j: nat)
    requires i <= |t|
    ensures Span(t, i, BLANKS) == j <==>
              i <= j <= |t| && (forall k | i <= k < j :: IsBlank(t[k])) && (j < |t| ==> !IsBlank(t[j]))
  {
    SpanIff(t, i, j, BLANKS);
  }

  lemma DashSpan(t: string, i: nat, j: nat)
    requires i <= |t|
    ensures Span(t, i, DASHES) == j <==>
              i <= j <= |t| && (forall k | i <= k < j :: t[k] == '-') && (j < |t| ==> t[j] != '-')
  {
    SpanIff(t, i, j, DASHES);
  }

  lemma TypeSpan(t: string, i: nat, j: nat)
    requires i <= |t|
    ensures Span(t, i, TYPE_CHARS) == j <==>
              i <= j <= |t| && (forall k | i <= k < j :: IsTypeChar(t[k])) && (j < |t| ==> !IsTypeChar(t[j]))
  {
    SpanIff(t, i, j, TYPE_CHARS);
  }

  lemma OtherSpan(t: string, i: nat, j: nat)
    requires i <= |t|
    ensures Span(t, i, NOT_DASH) == j <==>
              i <= j <= |t| && (forall k | i <= k < j :: t[k] != '-') && (j < |t| ==> t[j] == '-')
  {
    SpanIff(t, i, j, NOT_DASH);
  }

  lemma SpanIff(t: string, i: nat, j: nat, c: Class)
    requires i <= |t|
    ensures Span(t, i, c) == j <==>
              i <= j <= |t| && (forall k | i <= k < j :: c(t[k])) && (j < |t| ==> !c(t[j]))
  {
    if i <= j <= |t| && (forall k | i <= k < j :: c(t[k])) && (j < |t| ==> !c(t[j])) {
      SpanIs(t, i, j, c);
    }
  }

  lemma KeywordIff(t: string, i: nat, m: Marks, keyword: string)
    requires i <= |t|
    ensures KeywordShape(t, i, m, keyword) ==> AfterKeyword(t, i, keyword) == Some(m.word + |keyword|)
  {
    hide Span, IsSpace, IsBlank, SameIgnoringCase;
    DashIsNoSpace();
    SpaceSpan(t, i, m.dash);
    if KeywordShape(t, i, m, keyword) {
      DashSpan(t, m.dash, m.blank);
      BlankSpan(t, m.blank, m.word);
    }
  }

  lemma DashIsNoSpace()
    ensures !IsSpace('-') && !IsTypeChar('-')
  {
  }

  lemma TypeIff(t: string, i: nat, m: Marks, expected: Option<string>)
    requires i <= |t|
    ensures TypeShape(t, i, m, expected) ==> AfterType(t, i, expected) == Some(m.next)
  {
    hide Span, IsSpace, IsBlank, IsTypeChar, SameIgnoringCase;
    DashIsNoSpace();
    BlankSpan(t, i, m.kind);
    if TypeShape(t, i, m, expected) {
      TypeSpan(t, m.kind, m.close);
      DashSpan(t, m.close, m.space);
      SpaceSpan(t, m.space, m.next);
    }
  }

  lemma KeywordHasShape(t: string, i: nat, keyword: string, m: Marks)
    requires i <= |t| && AfterKeyword(t, i, keyword).Some?
    requires m.dash == Span(t, i, SPACES) && m.blank == Span(t, m.dash, DASHES) && m.word == Span(t, m.blank, BLANKS)
    ensures KeywordShape(t, i, m, keyword) && AfterKeyword(t, i, keyword) == Some(m.word + |keyword|)
  {
    hide Span, IsSpace, IsBlank, SameIgnoringCase;
    SpaceSpan(t, i, m.dash);
    DashSpan(t, m.dash, m.blank);
    BlankSpan(t, m.blank, m.word);
  }

  lemma TypeHasShape(t: string, i: nat, expected: Option<string>, m: Marks)
    requires i <= |t| && AfterType(t, i, expected).Some?
    requires m.kind == Span(t, i, BLANKS) && m.close == Span(t, m.kind, TYPE_CHARS)
    requires m.space == Span(t, m.close, DASHES) && m.next == Span(t, m.space, SPACES)
    ensures TypeShape(t, i, m, expected) && AfterType(t, i, expected) == Some(m.next)
  {
    hide Span, IsSpace, IsBlank, IsTypeChar, SameIgnoringCase;
    BlankSpan(t, i, m.kind);
    TypeSpan(t, m.kind, m.close);
    DashSpan(t, m.close, m.space);
    SpaceSpan(t, m.space, m.next);
  }

  /** A line is accepted iff it has that shape, and the text goes on where the shape ends. */
  lemma LineIff(t: string, i: nat, keyword: string, expected: Option<string>, next: nat)
    requires i <= |t|
    ensures AfterLine(t, i, keyword, expected) == Some(next)
       <==> exists m :: LineShape(t, i, m, keyword, expected) && m.next == next
  {
    hide LineShape, AfterLine;
    if m :| LineShape(t, i, m, keyword, expected) && m.next == next {
      ShapeAccepted(t, i, keyword, expected, m);
    }
    if AfterLine(t, i, keyword, expected) == Some(next) {
      var m := AcceptedShape(t, i, keyword, expected);
    }
  }

  lemma ShapeAccepted(t: string, i: nat, keyword: string, expected: Option<string>, m: Marks)
    requires i <= |t| && LineShape(t, i, m, keyword, expected)
    ensures AfterLine(t, i, keyword, expected) == Some(m.next)
  {
    hide KeywordShape, TypeShape, AfterKeyword, AfterType;
    KeywordWithin(t, i, m, keyword);
    KeywordIff(t, i, m, keyword);
    TypeIff(t, m.word + |keyword|, m, expected);
  }

  lemma AcceptedShape(t: string, i: nat, keyword: string, expected: Option<string>) returns (m: Marks)
    requires i <= |t| && AfterLine(t, i, keyword, expected).Some?
    ensures LineShape(t, i, m, keyword, expected) && AfterLine(t, i, keyword, expected) == Some(m.next)
  {
    hide KeywordShape, TypeShape, AfterKeyword, AfterType, Span;
    var e := AfterKeyword(t, i, keyword).value;
    var dash := Span(t, i, SPACES);
    var blank := Span(t, dash, DASHES);
    var kind := Span(t, e, BLANKS);
    var close := Span(t, kind, TYPE_CHARS);
    var space := Span(t, close, DASHES);
    m := Marks(dash, blank, Span(t, blank, BLANKS), kind, close, space, Span(t, space, SPACES));
    KeywordHasShape(t, i, keyword, m);
    TypeHasShape(t, e, expected, m);
  }

  lemma KeywordWithin(t: string, i: nat, m: Marks, keyword: string)
    requires KeywordShape(t, i, m, keyword)
    ensures m.word + |keyword| <= |t|
  {
  }

  /** A body is located iff there is a header line, the text up to the next dash, and there a
      footer line of the same type. */
  lemma BodyIff(t: string, expected: Option<string>, from: nat, to: nat)
    ensures Body(t, expected) == Some((from, to)) <==>
              && from <= to < |t| && t[to] == '-' && (forall k | from <= k < to :: t[k] != '-')
              && (exists m :: LineShape(t, 0, m, "BEGIN", expected) && m.next == from)
              && (exists m :: LineShape(t, to, m, "END", expected))
  {
    hide Span, LineShape, AfterLine;
    LineIff(t, 0, "BEGIN", expected, from);
    if to < |t| {
      var end := AfterLine(t, to, "END", expected);
      if end.Some? {
        LineIff(t, to, "END", expected, end.value);
      }
      if m :| LineShape(t, to, m, "END", expected) {
        LineIff(t, to, "END", expected, m.next);
      }
    }
    if from <= |t| {
      OtherSpan(t, from, to);
    }
  }

  // ---------- The scanning loops ----------

  /** Skip tabs and spaces; fail at the end of the text. */
  method EatBlanks(t: string, start: nat) returns (ok: bool, pos: nat)
    requires start <= |t|
    ensures pos == Span(t, start, BLANKS) && (ok <==> !Ended(t, pos))
  {
    pos := start;
    while true
      invariant start <= pos <= |t| && Span(t, pos, BLANKS) == Span(t, start, BLANKS)
      decreases |t| - pos
    {
      if Ended(t, pos) {
        return false, pos;
      }
      if !BLANKS(t[pos]) {
        return true, pos;
      }
      pos := pos + 1;
    }
  }

  /** Skip white space, then one or more dashes; fail at the end of the text. */
  method EatSpacesAndDashes(t: string, start: nat) returns (ok: bool, pos: nat)
    requires start <= |t|
    ensures var dash := Span(t, start, SPACES);
            && (ok <==> !Ended(t, dash) && t[dash] == '-' && !Ended(t, Span(t, dash, DASHES)))
            && (ok ==> pos == Span(t, dash, DASHES))
  {
    pos := start;
    while true
      invariant start <= pos <= |t| && Span(t, pos, SPACES) == Span(t, start, SPACES)
      decreases |t| - pos
    {
      if Ended(t, pos) {
        return false, pos;
      }
      if !SPACES(t[pos]) {
        break;
      }
      pos := pos + 1;
    }
    if t[pos] != '-' {
      return false, pos;
    }
    ghost var dash := pos;
    while t[pos] == '-'
      invariant dash <= pos < |t| && !Ended(t, pos) && Span(t, pos, DASHES) == Span(t, dash, DASHES)
      decreases |t| - pos
    {
      pos := pos + 1;
      if Ended(t, pos) {
        return false, pos;
      }
    }
    ok := true;
  }

  /** Require and skip the dashes and the keyword that open a line. */
  method EatKeyword(t: string, start: nat, keyword: string) returns (ok: bool, pos: nat)
    requires start <= |t|
    ensures ok <==> AfterKeyword(t, start, keyword).Some?
    ensures ok ==> pos == AfterKeyword(t, start, keyword).value
  {
    hide SameIgnoringCase, Span;
    ok, pos := EatSpacesAndDashes(t, start);
    if !ok {
      return;
    }
    ok, pos := EatBlanks(t, pos);
    if !ok {
      return;
    }
    if pos + |keyword| >= |t| || !SameIgnoringCase(t[pos..pos + |keyword|], keyword) {
      return false, pos;
    }
    pos := pos + |keyword|;
  }

  /** Skip over the type to the dashes that end the line; fail at the end of the line. */
  method EatType(t: string, start: nat) returns (ok: bool, pos: nat)
    requires start <= |t|
    ensures pos == Span(t, start, TYPE_CHARS) && (ok <==> pos < |t| && t[pos] == '-')
  {
    pos := start;
    while true
      invariant start <= pos <= |t| && Span(t, pos, TYPE_CHARS) == Span(t, start, TYPE_CHARS)
      decreases |t| - pos
    {
      if pos >= |t| || t[pos] == '\0' || t[pos] == '\r' || t[pos] == '\n' {
        return false, pos;
      }
      if t[pos] == '-' {
        return true, pos;
      }
      pos := pos + 1;
    }
  }

  /** Skip any dashes and then any white space, up to the end of the text. */
  method EatDashesAndSpaces(t: string, start: nat) returns (pos: nat)
    requires start <= |t|
    ensures pos == Span(t, Span(t, start, DASHES), SPACES)
  {
    pos := start;
    while pos < |t| && t[pos] == '-'
      invariant start <= pos <= |t| && Span(t, pos, DASHES) == Span(t, start, DASHES)
    {
      pos := pos + 1;
    }
    ghost var tail := pos;
    while pos < |t| && SPACES(t[pos])
      invariant tail <= pos <= |t| && Span(t, pos, SPACES) == Span(t, tail, SPACES)
    {
      pos := pos + 1;
    }
  }

  /** Skip a header or footer line and the white space after it. */
  method BParsePEMHeaderOrFooter(t: string, start: nat, keyword: string, expected: Option<string>)
    returns (ok: bool, pos: nat)
    requires start <= |t|
    ensures ok <==> AfterLine(t, start, keyword, expected).Some?
    ensures ok ==> pos == AfterLine(t, start, keyword, expected).value
  {
    hide SameIgnoringCase, Span, AfterKeyword;
    ok, pos := EatKeyword(t, start, keyword);
    if !ok {
      return;
    }
    ok, pos := EatBlanks(t, pos);
    if !ok {
      return;
    }
    var kind := pos;
    ok, pos := EatType(t, pos);
    if !ok {
      return;
    }
    if expected.Some? {
      if kind + |expected.value| > pos || !SameIgnoringCase(t[kind..kind + |expected.value|], expected.value) {
        return false, pos;
      }
    }
    pos := EatDashesAndSpaces(t, pos);
  }

  /** Find the body of a PEM text. */
  method LocatePEMBody(t: string, expected: Option<string>) returns (body: Option<(nat, nat)>)
    ensures body == Body(t, expected)
  {
    hide AfterLine;
    if |t| == 0 {
      NothingThere(t, "BEGIN", expected);
      return None;
    }
    var ok, pos := BParsePEMHeaderOrFooter(t, 0, "BEGIN", expected);
    if !ok {
      return None;
    }
    var start := pos;
    while true
      invariant start <= pos <= |t| && Span(t, pos, NOT_DASH) == Span(t, start, NOT_DASH)
      decreases |t| - pos
    {
      if pos >= |t| {
        return None;
      }
      if t[pos] == '-' {
        break;
      }
      pos := pos + 1;
    }
    var end := pos;
    ok, pos := BParsePEMHeaderOrFooter(t, end, "END", expected);
    if !ok {
      return None;
    }
    body := Some((start, end));
  }

  lemma NothingThere(t: string, keyword: string, expected: Option<string>)
    requires t == ""
    ensures AfterLine(t, 0, keyword, expected).None?
  {
  }

  /** The size DecodeBase64ToBuf asks for, in 32-bit arithmetic. */
  function DecodeSize(cch: nat): (n: nat)
  {
    cch * 3 % 0x1_0000_0000 / 4 + 1
  }

  /** Short of a third of 2^32 characters the buffer is always large enough. */
  lemma DecodeSizeEnough(cch: nat, values: nat)
    requires cch * 3 < 0x1_0000_0000 && values <= cch
    ensures 3 * values / 4 <= DecodeSize(cch)
  {
  }

  method DecodeBase64ToBuf(text: string) returns (r: Option<seq<Byte>>)
    requires |text| < 0x1_0000_0000
    ensures var vs := Values(text, true).0;
            r == if 3 * |vs| / 4 <= DecodeSize(|text|) then Some(Bytes(vs)) else None
  {
    hide Values, Bytes;
    var size := DecodeSize(|text|);
    var buf := new Byte[size];
    var ok, n := Base64.Base64Decode(text, buf, size, true);
    IgnoringNothingIsBad(text);
    if ok {
      assert Bytes(Values(text, true).0)[..n] == Bytes(Values(text, true).0);
      r := Some(buf[..n]);
    } else {
      r := None;
    }
  }

  lemma {:induction false} IgnoringNothingIsBad(text: string)
    ensures Values(text, true).1
    ensures |Values(text, true).0| <= |text|
  {
    if text != "" {
      IgnoringNothingIsBad(text[1..]);
    }
  }

  /** What a PEM text decodes to. */
  function Decoded(t: string, expected: Option<string>): Option<seq<Byte>> {
    var body := Body(t, expected);
    if body.None? then None
    else
      var text := t[body.value.0..body.value.1];
      var vs := Values(text, true).0;
      if 3 * |vs| / 4 <= DecodeSize(|text|) then Some(Bytes(vs)) else None
  }

  method DecodePEMBody(t: string, expected: Option<string>) returns (r: Option<seq<Byte>>)
    requires |t| < 0x1_0000_0000
    ensures r == Decoded(t, expected)
  {
    hide Body, Values, Bytes;
    var body := LocatePEMBody(t, expected);
    if body.None? {
      return None;
    }
    r := DecodeBase64ToBuf(t[body.value.0..body.value.1]);
  }

  // ---------- A written PEM text ----------

  predicate Word(s: string) {
    && s != "" && !BLANKS(s[0])
    && forall i | 0 <= i < |s| :: TYPE_CHARS(s[i])
  }

  /** A header or footer line, without its line break. */
  function Line(keyword: string, kind: string): string {
    "-----" + keyword + " " + kind + "-----"
  }

  /** A line with its line break stands at i. */
  predicate LineAt(t: string, i: nat, keyword: string, kind: string) {
    var k := i + 5 + |keyword|;
    var e := k + 1 + |kind|;
    && e + 7 <= |t|
    && t[i..i + 5] == t[e..e + 5] == "-----" && t[i + 5..k] == keyword && t[k] == ' ' && t[k + 1..e] == kind
    && t[e + 5] == '\r' && t[e + 6] == '\n'
  }

  lemma LineStands(before: string, keyword: string, kind: string, after: string)
    ensures LineAt(before + Line(keyword, kind) + "\r\n" + after, |before|, keyword, kind)
  {
    var t := before + Line(keyword, kind) + "\r\n" + after;
    var i, k := |before|, |before| + 5 + |keyword|;
    var e := k + 1 + |kind|;
    assert t[i..e + 5] == Line(keyword, kind);
    assert t[i..i + 5] == Line(keyword, kind)[..5] == "-----";
    assert t[i + 5..k] == Line(keyword, kind)[5..5 + |keyword|] == keyword;
    assert t[k + 1..e] == Line(keyword, kind)[6 + |keyword|..6 + |keyword| + |kind|] == kind;
    assert t[e..e + 5] == Line(keyword, kind)[6 + |keyword| + |kind|..] == "-----";
  }

  lemma ElementsOf(t: string, lo: nat, hi: nat, s: string)
    requires lo <= hi <= |t| && t[lo..hi] == s
    ensures forall j | lo <= j < hi :: t[j] == s[j - lo]
  {
    assert forall j | lo <= j < hi :: t[lo..hi][j - lo] == t[j];
  }

  lemma ReadKeyword(t: string, i: nat, keyword: string, kind: string)
    requires Word(keyword) && Word(kind) && LineAt(t, i, keyword, kind)
    ensures t[i] == '-' && AfterKeyword(t, i, keyword) == Some(i + 5 + |keyword|)
  {
    var k := i + 5 + |keyword|;
    ElementsOf(t, i, i + 5, "-----");
    ElementsOf(t, i + 5, k, keyword);
    SpanIs(t, i, i, SPACES);
    SpanIs(t, i, i + 5, DASHES);
    SpanIs(t, i + 5, i + 5, BLANKS);
    hide Span;
  }

  lemma TypeSpans(t: string, k: nat, e: nat)
    requires k + 1 < e && e + 7 <= |t| && t[k] == ' ' && Word(t[k + 1..e]) && t[e..e + 5] == "-----"
    requires t[e + 5] == '\r' && t[e + 6] == '\n'
    ensures Span(t, k, BLANKS) == k + 1 && Span(t, k + 1, TYPE_CHARS) == e && Span(t, e, DASHES) == e + 5
    ensures !Ended(t, k + 1) && t[e] == '-'
  {
    ElementsOf(t, k + 1, e, t[k + 1..e]);
    ElementsOf(t, e, e + 5, "-----");
    SpanIs(t, k, k + 1, BLANKS);
    SpanIs(t, k + 1, e, TYPE_CHARS);
    SpanIs(t, e, e + 5, DASHES);
  }

  lemma ReadType(t: string, i: nat, keyword: string, kind: string)
    requires Word(kind) && LineAt(t, i, keyword, kind)
    ensures AfterType(t, i + 5 + |keyword|, Some(kind)) == Some(Span(t, i + |Line(keyword, kind)| + 2, SPACES))
  {
    hide Span, Word;
    var k := i + 5 + |keyword|;
    var e := k + 1 + |kind|;
    NonEmpty(kind);
    TypeSpans(t, k, e);
    SkipLineBreak(t, e + 5);
    LineLength(t, i, keyword, kind);
    hide LineAt, Line;
    SameAsItself(kind);
    hide SameIgnoringCase;
  }

  lemma NonEmpty(w: string)
    requires Word(w)
    ensures w != ""
  {
  }

  lemma SameAsItself(s: string)
    ensures SameIgnoringCase(s, s)
  {
  }

  lemma SkipLineBreak(t: string, i: nat)
    requires i + 2 <= |t| && t[i] == '\r' && t[i + 1] == '\n'
    ensures Span(t, i, SPACES) == Span(t, i + 2, SPACES)
  {
    assert Span(t, i, SPACES) == Span(t, i + 1, SPACES);
  }

  lemma ReadLine(t: string, i: nat, keyword: string, kind: string)
    requires Word(keyword) && Word(kind) && LineAt(t, i, keyword, kind)
    ensures t[i] == '-' && AfterLine(t, i, keyword, Some(kind)) == Some(Span(t, i + |Line(keyword, kind)| + 2, SPACES))
  {
    hide Span, LineAt, Word, Line, AfterKeyword, AfterType;
    LineLength(t, i, keyword, kind);
    ReadKeyword(t, i, keyword, kind);
    ReadType(t, i, keyword, kind);
  }

  lemma LineLength(t: string, i: nat, keyword: string, kind: string)
    requires LineAt(t, i, keyword, kind)
    ensures |Line(keyword, kind)| == 11 + |keyword| + |kind| && i + |Line(keyword, kind)| + 2 <= |t|
  {
  }

  /** What lies between a header and a footer of the expected type is found, as long as it
      starts with something visible and holds no dash. */
  lemma LocateBody(kind: string, body: string, after: string)
    requires Word(kind)
    requires body != "" && !SPACES(body[0]) && forall i | 0 <= i < |body| :: body[i] != '-'
    ensures var head := Line("BEGIN", kind) + "\r\n";
            Body(head + body + Line("END", kind) + "\r\n" + after, Some(kind)) == Some((|head|, |head| + |body|))
  {
    hide AfterLine, Line, LineAt, Word, Body;
    var head := Line("BEGIN", kind) + "\r\n";
    var rest := Line("END", kind) + "\r\n" + after;
    var t := head + body + Line("END", kind) + "\r\n" + after;
    LineStands(head + body, "END", kind, after);
    Regrouped(Line("BEGIN", kind), "\r\n", body, Line("END", kind), "\r\n", after);
    LineStands("", "BEGIN", kind, body + rest);
    assert t[|head|..|head| + |body|] == body;
    BodyBetween(t, kind, |head|, |head| + |body|);
  }

  lemma Regrouped(a: string, b: string, c: string, d: string, e: string, f: string)
    ensures "" + a + b + (c + (d + e + f)) == (a + b) + c + d + e + f
  {
  }

  lemma BodyBetween(t: string, kind: string, start: nat, end: nat)
    requires Word(kind) && start == |Line("BEGIN", kind)| + 2
    requires LineAt(t, 0, "BEGIN", kind) && start < end <= |t| && LineAt(t, end, "END", kind)
    requires var body := t[start..end]; !SPACES(body[0]) && forall i | 0 <= i < |body| :: body[i] != '-'
    ensures Body(t, Some(kind)) == Some((start, end))
  {
    SomeWords();
    hide AfterLine, Line, LineAt, Word;
    ReadLine(t, 0, "BEGIN", kind);
    ReadLine(t, end, "END", kind);
    ElementsOf(t, start, end, t[start..end]);
    SpanIs(t, start, start, SPACES);
    SpanIs(t, start, end, NOT_DASH);
    hide Span;
  }

  lemma SomeWords()
    ensures Word("BEGIN") && Word("END") && Word("OPENSSH PRIVATE KEY")
  {
  }
}
