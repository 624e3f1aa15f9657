/** The OpenSSH container of an Ed25519 private key: nested, length-prefixed blocks. */
module SshBlob {
  import opened Wrappers

  type Key32 = s: seq<Byte> | |s| == 32 witness seq(32, _ => 0)

  const INT_LIMIT := 0x8000_0000
  const UINT_LIMIT := 0x1_0000_0000

  function Ascii(s: string): (b: seq<Byte>)
    requires forall i | 0 <= i < |s| :: s[i] < 128 as char
    ensures |b| == |s|
  {
    seq(|s|, i requires 0 <= i < |s| => s[i] as int)
  }

  const MAGIC: seq<Byte> := Ascii("openssh-key-v1\0")
  const NO_CIPHER: seq<Byte> := Ascii("\0\0\0\U{4}none\0\0\0\U{4}none\0\0\0\0")
  const ONE_KEY: seq<Byte> := [0, 0, 0, 1]
  const KEY_TYPE: seq<Byte> := Ascii("\0\0\0\U{B}ssh-ed25519")
  const CHECK := 0x1234_5678

  // ---------- Writing ----------

  /** A number as four bytes, most significant first. */
  function U32(n: nat): (b: seq<Byte>)
    ensures |b| == 4
  {
    var n: int := n;
    [n / 0x100_0000 % 256, n / 0x1_0000 % 256, n / 0x100 % 256, n % 256]
  }

  /** A block preceded by its length. */
  function Sub(b: seq<Byte>): seq<Byte> {
    U32(|b|) + b
  }

  /** Everything that can vary in a container: `after` and the two `extra` parts are ignored
      by the reader and left empty by the writer. */
  datatype Layout = Layout(
    pub: Key32, pubExtra: seq<Byte>, check: nat, secret: Key32, privExtra: seq<Byte>, after: seq<Byte>)

  function PublicPart(l: Layout): seq<Byte> {
    KEY_TYPE + (Sub(l.pub) + l.pubExtra)
  }

  /** The secret is followed by one more copy of the public key. */
  function PrivatePart(l: Layout): seq<Byte> {
    U32(l.check) + (U32(l.check) + (KEY_TYPE + (Sub(l.pub) + (Sub(l.secret + l.pub) + l.privExtra))))
  }

  function Blob(l: Layout): seq<Byte> {
    MAGIC + (NO_CIPHER + (ONE_KEY + (Sub(PublicPart(l)) + (Sub(PrivatePart(l)) + l.after))))
  }

  predicate Fits(l: Layout) {
    |PublicPart(l)| < INT_LIMIT && |PrivatePart(l)| < INT_LIMIT && l.check < UINT_LIMIT
  }

  function Written(seed: Key32, pub: Key32): Layout {
    Layout(pub, [], CHECK, seed, [], [])
  }

  /** What is written for a key, byte by byte: "openssh-key-v1", no cipher, no key derivation and
      no options for it, one key; the public key; twice the check number, the public key, and
      the secret with another copy of the public key. */
  lemma WrittenBytes(seed: Key32, pub: Key32)
    ensures Blob(Written(seed, pub))
         == ([111, 112, 101, 110, 115, 115, 104, 45, 107, 101, 121, 45, 118, 49, 0]
             + ([0, 0, 0, 4, 110, 111, 110, 101, 0, 0, 0, 4, 110, 111, 110, 101, 0, 0, 0, 0]
             + ([0, 0, 0, 1]
             + (([0, 0, 0, 51] + (TypeBytes() + (([0, 0, 0, 32] + pub) + [])))
             + (([0, 0, 0, 127]
                 + ([0x12, 0x34, 0x56, 0x78] + ([0x12, 0x34, 0x56, 0x78]
                 + (TypeBytes() + (([0, 0, 0, 32] + pub) + (([0, 0, 0, 64] + (seed + pub)) + []))))))
             + [])))))
  {
    HeaderBytes();
    var l := Written(seed, pub);
    SmallU32s();
    assert |PublicPart(l)| == 51 && |PrivatePart(l)| == 127;
    hide MAGIC, NO_CIPHER, KEY_TYPE, U32;
  }

  /** A block that says "ssh-ed25519". */
  function TypeBytes(): seq<Byte> {
    [0, 0, 0, 11, 115, 115, 104, 45, 101, 100, 50, 53, 53, 49, 57]
  }

  lemma HeaderBytes()
    ensures MAGIC == [111, 112, 101, 110, 115, 115, 104, 45, 107, 101, 121, 45, 118, 49, 0]
    ensures NO_CIPHER == [0, 0, 0, 4, 110, 111, 110, 101, 0, 0, 0, 4, 110, 111, 110, 101, 0, 0, 0, 0]
    ensures KEY_TYPE == TypeBytes()
  {
  }

  lemma SmallU32s()
    ensures U32(51) == [0, 0, 0, 51] && U32(32) == [0, 0, 0, 32] && U32(64) == [0, 0, 0, 64]
    ensures U32(127) == [0, 0, 0, 127] && U32(CHECK) == [0x12, 0x34, 0x56, 0x78]
  {
  }

  // ---------- Reading ----------

  function FromU32(b: seq<Byte>): (n: nat)
    requires |b| == 4
    ensures n < UINT_LIMIT
  {
    var a: int, b, c, d := b[0], b[1] as int, b[2] as int, b[3] as int;
    ((a * 256 + b) * 256 + c) * 256 + d
  }

  /** Four bytes and the number they stand for, the most significant byte first. */
  lemma U32Is(n: nat, b: seq<Byte>)
    requires n < 0x1_0000_0000 && |b| == 4
    ensures BigEndian(U32(n)[0], U32(n)[1], U32(n)[2], U32(n)[3]) == n
    ensures FromU32(b) == BigEndian(b[0], b[1], b[2], b[3])
  {
    QuotientDigits(n);
  }

  function BigEndian(a: int, b: int, c: int, d: int): int {
    0x100_0000 * a + 0x1_0000 * b + 0x100 * c + d
  }

  lemma QuotientDigits(n: nat)
    requires n < 0x1_0000_0000
    ensures BigEndian(n / 0x100_0000 % 256, n / 0x1_0000 % 256, n / 0x100 % 256, n % 256) == n
  {
    var x, y := n / 0x100, n / 0x1_0000;
    assert x / 0x100 == y && y / 0x100 == n / 0x100_0000;
  }

  function Eat(b: seq<Byte>, lit: seq<Byte>): Option<seq<Byte>> {
    if lit <= b then Some(b[|lit|..]) else None
  }

  function ReadU32(b: seq<Byte>): Option<(nat, seq<Byte>)> {
    if |b| < 4 then None else Some((FromU32(b[..4]), b[4..]))
  }

  /** A length-prefixed block and what follows it. */
  function ReadSub(b: seq<Byte>): Option<(seq<Byte>, seq<Byte>)> {
    var (n, rest) :- ReadU32(b);
    if n >= INT_LIMIT || |rest| < n then None else Some((rest[..n], rest[n..]))
  }

  /** A block is read iff it is all there and its length, as a signed number, is not negative:
      its first byte is below 128. */
  lemma ReadSubIff(b: seq<Byte>)
    ensures ReadSub(b).Some? <==>
              |b| >= 4 && b[0] < 128 && BigEndian(b[0], b[1], b[2], b[3]) <= |b| - 4
    ensures ReadSub(b).Some? ==>
              var n := BigEndian(b[0], b[1], b[2], b[3]);
              0 <= n <= |b| - 4 && ReadSub(b).value == (b[4..4 + n], b[4 + n..])
  {
    hide FromU32, BigEndian;
    if |b| >= 4 {
      var head := b[..4];
      U32Is(0, head);
      SignBit(b[0], b[1], b[2], b[3]);
      assert b[4..][..|b| - 4] == b[4..];
      var n := BigEndian(b[0], b[1], b[2], b[3]);
      if n <= |b| - 4 {
        assert b[4..][..n] == b[4..4 + n] && b[4..][n..] == b[4 + n..];
      }
    }
  }

  lemma SignBit(a: Byte, b: Byte, c: Byte, d: Byte)
    ensures 0 <= BigEndian(a, b, c, d) && (BigEndian(a, b, c, d) < INT_LIMIT <==> a < 128)
  {
  }

  /** A block of exactly `size` bytes and what follows it. */
  function ReadFixed(b: seq<Byte>, size: nat): (r: Option<(seq<Byte>, seq<Byte>)>)
    ensures r.Some? ==> |r.value.0| == size
  {
    var (n, rest) :- ReadU32(b);
    if n != size || |rest| < n then None else Some((rest[..n], rest[n..]))
  }

  function ParsePublic(b: seq<Byte>): (r: Option<Key32>) {
    var rest :- Eat(b, KEY_TYPE);
    var (key, _) :- ReadFixed(rest, 32);
    Some(key)
  }

  /** The two check numbers must agree. */
  function ParseChecks(b: seq<Byte>): Option<seq<Byte>> {
    var (c1, b1) :- ReadU32(b);
    var (c2, b2) :- ReadU32(b1);
    if c1 != c2 then None else Some(b2)
  }

  /** The secret of a private part, if it is for the given public key. */
  function ParsePrivate(b: seq<Byte>, pub: Key32): (r: Option<Key32>) {
    var checked :- ParseChecks(b);
    var rest :- Eat(checked, KEY_TYPE);
    var (key, more) :- ReadFixed(rest, 32);
    var (both, _) :- ReadFixed(more, 64);
    if key != pub || both[32..] != pub then None else Some(both[..32])
  }

  function ParseHeader(b: seq<Byte>): Option<seq<Byte>> {
    var b1 :- Eat(b, MAGIC);
    var b2 :- Eat(b1, NO_CIPHER);
    Eat(b2, ONE_KEY)
  }

  /** The secret and the public key in a container. */
  function Parse(b: seq<Byte>): Option<(Key32, Key32)> {
    var body :- ParseHeader(b);
    var (public, rest) :- ReadSub(body);
    var pub :- ParsePublic(public);
    var (private, _) :- ReadSub(rest);
    var secret :- ParsePrivate(private, pub);
    Some((secret, pub))
  }

  // ---------- Each reader undoes its writer ----------

  lemma U32RoundTrip(n: nat)
    requires n < UINT_LIMIT
    ensures FromU32(U32(n)) == n
  {
    assert n / 0x100 == n / 0x1_0000 * 256 + n / 0x100 % 256;
    assert n / 0x1_0000 == n / 0x100_0000 * 256 + n / 0x1_0000 % 256;
    assert n / 0x100_0000 < 256;
  }

  lemma Digits(a: int, b: int, c: int, d: int)
    requires 0 <= a < 256 && 0 <= b < 256 && 0 <= c < 256 && 0 <= d < 256
    ensures var n := ((a * 256 + b) * 256 + c) * 256 + d;
            && n / 0x100 == (a * 256 + b) * 256 + c && n / 0x1_0000 == a * 256 + b && n / 0x100_0000 == a
  {
  }

  lemma U32IsOnto(b: seq<Byte>)
    requires |b| == 4
    ensures U32(FromU32(b)) == b
  {
    Digits(b[0], b[1], b[2], b[3]);
  }

  lemma EatIs(b: seq<Byte>, lit: seq<Byte>, rest: seq<Byte>)
    ensures Eat(b, lit) == Some(rest) <==> b == lit + rest
  {
    if lit <= b {
      assert b == lit + b[|lit|..];
    }
  }

  lemma ReadU32Is(b: seq<Byte>, n: nat, rest: seq<Byte>)
    ensures ReadU32(b) == Some((n, rest)) <==> n < UINT_LIMIT && b == U32(n) + rest
  {
    if |b| >= 4 {
      U32IsOnto(b[..4]);
      assert b == b[..4] + b[4..];
    }
    if n < UINT_LIMIT {
      U32RoundTrip(n);
      assert (U32(n) + rest)[..4] == U32(n) && (U32(n) + rest)[4..] == rest;
    }
  }

  lemma SplitAt(b: seq<Byte>, n: nat, x: seq<Byte>, rest: seq<Byte>)
    ensures |x| == n && b == x + rest <==> n <= |b| && x == b[..n] && rest == b[n..]
  {
    if n <= |b| {
      assert b == b[..n] + b[n..];
    }
  }

  lemma ReadFixedIs(b: seq<Byte>, size: nat, x: seq<Byte>, rest: seq<Byte>)
    requires size < UINT_LIMIT
    ensures ReadFixed(b, size) == Some((x, rest)) <==> |x| == size && b == Sub(x) + rest
  {
    hide FromU32, U32;
    if |b| >= 4 {
      ReadU32Is(b, FromU32(b[..4]), b[4..]);
      SplitAt(b[4..], size, x, rest);
    }
    ReadU32Is(b, |x|, x + rest);
    assert Sub(x) + rest == U32(|x|) + (x + rest);
  }

  lemma ReadSubIs(b: seq<Byte>, x: seq<Byte>, rest: seq<Byte>)
    ensures ReadSub(b) == Some((x, rest)) <==> |x| < INT_LIMIT && b == Sub(x) + rest
  {
    if |x| < INT_LIMIT {
      ReadFixedIs(b, |x|, x, rest);
    }
    hide FromU32, U32;
  }

  // ---------- The reader accepts exactly the containers ----------

  /** What the reader accepts: b is a container with this secret and public key. */
  ghost predicate Holds(b: seq<Byte>, secret: Key32, pub: Key32) {
    exists l: Layout :: Fits(l) && l.secret == secret && l.pub == pub && b == Blob(l)
  }

  lemma HeaderIs(b: seq<Byte>, rest: seq<Byte>)
    ensures ParseHeader(b) == Some(rest) <==> b == MAGIC + (NO_CIPHER + (ONE_KEY + rest))
  {
    EatIs(b, MAGIC, NO_CIPHER + (ONE_KEY + rest));
    EatIs(NO_CIPHER + (ONE_KEY + rest), NO_CIPHER, ONE_KEY + rest);
    EatIs(ONE_KEY + rest, ONE_KEY, rest);
    var b1 := Eat(b, MAGIC);
    if b1.Some? {
      EatIs(b, MAGIC, b1.value);
      var b2 := Eat(b1.value, NO_CIPHER);
      if b2.Some? {
        EatIs(b1.value, NO_CIPHER, b2.value);
        EatIs(b2.value, ONE_KEY, rest);
      }
    }
  }

  lemma PublicOf(pub: Key32, extra: seq<Byte>)
    ensures ParsePublic(KEY_TYPE + (Sub(pub) + extra)) == Some(pub)
  {
    hide Eat, ReadFixed, Sub;
    EatIs(KEY_TYPE + (Sub(pub) + extra), KEY_TYPE, Sub(pub) + extra);
    ReadFixedIs(Sub(pub) + extra, 32, pub, extra);
  }

  lemma PublicFrom(b: seq<Byte>) returns (extra: seq<Byte>)
    requires ParsePublic(b).Some?
    ensures b == KEY_TYPE + (Sub(ParsePublic(b).value) + extra)
  {
    hide Eat, ReadFixed, Sub;
    var rest := Eat(b, KEY_TYPE).value;
    EatIs(b, KEY_TYPE, rest);
    var key := ReadFixed(rest, 32).value;
    ReadFixedIs(rest, 32, key.0, key.1);
    extra := key.1;
  }

  lemma ChecksOf(check: nat, rest: seq<Byte>)
    requires check < UINT_LIMIT
    ensures ParseChecks(U32(check) + (U32(check) + rest)) == Some(rest)
  {
    hide ReadU32, U32;
    ReadU32Is(U32(check) + (U32(check) + rest), check, U32(check) + rest);
    ReadU32Is(U32(check) + rest, check, rest);
  }

  lemma ChecksFrom(b: seq<Byte>) returns (check: nat)
    requires ParseChecks(b).Some?
    ensures check < UINT_LIMIT && b == U32(check) + (U32(check) + ParseChecks(b).value)
  {
    hide ReadU32, U32;
    var c1 := ReadU32(b).value;
    ReadU32Is(b, c1.0, c1.1);
    var c2 := ReadU32(c1.1).value;
    ReadU32Is(c1.1, c2.0, c2.1);
    check := c1.0;
  }

  lemma PrivateOf(l: Layout)
    requires l.check < UINT_LIMIT
    ensures ParsePrivate(PrivatePart(l), l.pub) == Some(l.secret)
  {
    hide Eat, ReadFixed, Sub, ParseChecks, U32;
    var d := Sub(l.secret + l.pub) + l.privExtra;
    var c := KEY_TYPE + (Sub(l.pub) + d);
    ChecksOf(l.check, c);
    EatIs(c, KEY_TYPE, Sub(l.pub) + d);
    ReadFixedIs(Sub(l.pub) + d, 32, l.pub, d);
    ReadFixedIs(d, 64, l.secret + l.pub, l.privExtra);
    assert (l.secret + l.pub)[32..] == l.pub && (l.secret + l.pub)[..32] == l.secret;
  }

  lemma PrivateFrom(b: seq<Byte>, pub: Key32) returns (check: nat, extra: seq<Byte>)
    requires ParsePrivate(b, pub).Some?
    ensures check < UINT_LIMIT
    ensures var secret := ParsePrivate(b, pub).value;
            b == U32(check) + (U32(check) + (KEY_TYPE + (Sub(pub) + (Sub(secret + pub) + extra))))
  {
    hide Eat, ReadFixed, Sub, ParseChecks, U32;
    check := ChecksFrom(b);
    var checked := ParseChecks(b).value;
    var rest := Eat(checked, KEY_TYPE).value;
    EatIs(checked, KEY_TYPE, rest);
    var key := ReadFixed(rest, 32).value;
    ReadFixedIs(rest, 32, key.0, key.1);
    var both := ReadFixed(key.1, 64).value;
    ReadFixedIs(key.1, 64, both.0, both.1);
    assert both.0 == both.0[..32] + both.0[32..];
    extra := both.1;
  }

  lemma ParseOf(l: Layout)
    requires Fits(l)
    ensures Parse(Blob(l)) == Some((l.secret, l.pub))
  {
    hide ParseHeader, ReadSub, ParsePublic, ParsePrivate, Sub, PrivatePart;
    var rest := Sub(PrivatePart(l)) + l.after;
    HeaderIs(Blob(l), Sub(PublicPart(l)) + rest);
    ReadSubIs(Sub(PublicPart(l)) + rest, PublicPart(l), rest);
    PublicOf(l.pub, l.pubExtra);
    ReadSubIs(rest, PrivatePart(l), l.after);
    PrivateOf(l);
  }

  lemma ParseFrom(b: seq<Byte>) returns (l: Layout)
    requires Parse(b).Some?
    ensures Fits(l) && Parse(b) == Some((l.secret, l.pub)) && b == Blob(l)
  {
    hide ParseHeader, ReadSub, ParsePublic, ParsePrivate, Sub;
    var body := ParseHeader(b).value;
    HeaderIs(b, body);
    var public := ReadSub(body).value;
    ReadSubIs(body, public.0, public.1);
    var pubExtra := PublicFrom(public.0);
    var private := ReadSub(public.1).value;
    ReadSubIs(public.1, private.0, private.1);
    var pub := ParsePublic(public.0).value;
    var check, privExtra := PrivateFrom(private.0, pub);
    l := Layout(pub, pubExtra, check, ParsePrivate(private.0, pub).value, privExtra, private.1);
  }

  /** A byte string parses to a key pair iff it is a container that holds it. */
  lemma ParsesExactly(b: seq<Byte>, secret: Key32, pub: Key32)
    ensures Parse(b) == Some((secret, pub)) <==> Holds(b, secret, pub)
  {
    if Parse(b) == Some((secret, pub)) {
      var l := ParseFrom(b);
    }
    hide Parse, Blob, Fits;
    if l: Layout :| Fits(l) && l.secret == secret && l.pub == pub && b == Blob(l) {
      ParseOf(l);
    }
  }
}

/** Reading and writing the container through a buffer with a cursor, its PEM form, and the
    private key object. */
module SshKey {
  import opened Wrappers
  import opened SshBlob

  /** The value of a 32-bit number taken as a signed one. */
  function AsInt(n: nat): int
    requires n < UINT_LIMIT
  {
    if n < INT_LIMIT then n else n - UINT_LIMIT
  }

  class CUtlBuffer {
    var mem: seq<Byte>
    var get: int
    var maxPut: int

    ghost predicate Readable()
      reads this
    {
      0 <= get && maxPut <= |mem| && (get <= maxPut || maxPut < 0)
    }

    /** What has not been read yet. */
    ghost function Rest(): seq<Byte>
      reads this
      requires Readable()
    {
      if get <= maxPut then mem[get..maxPut] else []
    }

    constructor (data: seq<Byte>, size: int)
      requires size <= |data|
      ensures mem == data && get == 0 && maxPut == size
      ensures Readable() && Rest() == if size < 0 then [] else data[..size]
    {
      mem, get, maxPut := data, 0, size;
    }

    function GetBytesRemaining(): int
      reads this
    {
      maxPut - get
    }

    method SeekGet(offset: int)
      modifies this`get
      ensures get == old(get) + offset
      ensures old(Readable()) && Readable() && 0 <= offset <= |old(Rest())| ==> Rest() == old(Rest())[offset..]
    {
      get := get + offset;
    }

    method BCheckAndEatBytes(data: seq<Byte>) returns (ok: bool)
      requires Readable() && data != []
      modifies this`get
      ensures ok <==> Eat(old(Rest()), data).Some?
      ensures Readable() && Rest() == if ok then Eat(old(Rest()), data).value else old(Rest())
    {
      if GetBytesRemaining() < |data| {
        return false;
      }
      if mem[get..get + |data|] != data {
        return false;
      }
      SeekGet(|data|);
      ok := true;
    }

    method BOpenSSHGetUInt32() returns (ok: bool, n: nat)
      requires Readable()
      modifies this`get
      ensures n < UINT_LIMIT && (ok <==> ReadU32(old(Rest())).Some?)
      ensures Readable() && if ok then ReadU32(old(Rest())) == Some((n, Rest())) else Rest() == old(Rest())
    {
      if GetBytesRemaining() < 4 {
        return false, 0;
      }
      n := FromU32(mem[get..get + 4]);
      SeekGet(4);
      ok := true;
    }

    method BOpenSSHBinaryReadFixedSizeKey(size: nat) returns (ok: bool, key: seq<Byte>)
      requires Readable() && size < INT_LIMIT
      modifies this`get
      ensures ok <==> ReadFixed(old(Rest()), size).Some?
      ensures Readable() && (ok ==> ReadFixed(old(Rest()), size) == Some((key, Rest())))
    {
      hide FromU32;
      key := [];
      var n;
      ok, n := BOpenSSHGetUInt32();
      if !ok {
        return;
      }
      hide ReadU32;
      if n != size || GetBytesRemaining() < AsInt(size) {
        return false, [];
      }
      ghost var rest := Rest();
      key := mem[get..get + size];
      assert key == rest[..size];
      SeekGet(size);
    }

    /** Open a view on a length-prefixed block.  A length that is negative as a signed number
        gives an empty view. */
    method OpenSubBlock() returns (ok: bool, sub: CUtlBuffer, size: int)
      requires Readable()
      modifies this`get
      ensures Readable() && fresh(sub) && sub.Readable()
      ensures ok && 0 <= size ==> size <= |Rest()| && ReadSub(old(Rest())) == Some((sub.Rest(), Rest()[size..]))
      ensures !ok || size < 0 ==> ReadSub(old(Rest())).None?
      ensures ok && size < 0 ==> sub.Rest() == []
    {
      hide FromU32;
      sub := new CUtlBuffer([], 0);
      size := 0;
      var n;
      ok, n := BOpenSSHGetUInt32();
      if !ok {
        return;
      }
      size := AsInt(n);
      if GetBytesRemaining() < size {
        return false, sub, size;
      }
      ghost var rest := Rest();
      sub := new CUtlBuffer(mem[get..], size);
      assert 0 <= size ==> sub.Rest() == rest[..size];
    }

    method BParsePublicPart() returns (r: Option<Key32>)
      requires Readable()
      modifies this`get
      ensures r == ParsePublic(old(Rest()))
    {
      hide Eat, ReadFixed;
      var ok := BCheckAndEatBytes(KEY_TYPE);
      if !ok {
        return None;
      }
      var key;
      ok, key := BOpenSSHBinaryReadFixedSizeKey(32);
      r := if ok then Some(key) else None;
    }

    method BParseChecks() returns (ok: bool)
      requires Readable()
      modifies this`get
      ensures ok <==> ParseChecks(old(Rest())).Some?
      ensures Readable() && (ok ==> ParseChecks(old(Rest())) == Some(Rest()))
    {
      hide ReadU32;
      var check1, check2;
      ok, check1 := BOpenSSHGetUInt32();
      if !ok {
        return;
      }
      ok, check2 := BOpenSSHGetUInt32();
      ok := ok && check1 == check2;
    }

    method BParsePrivatePart(pub: Key32) returns (r: Option<Key32>)
      requires Readable()
      modifies this`get
      ensures r == ParsePrivate(old(Rest()), pub)
    {
      hide Eat, ReadFixed, ParseChecks;
      var ok := BParseChecks();
      if !ok {
        return None;
      }
      ok := BCheckAndEatBytes(KEY_TYPE);
      if !ok {
        return None;
      }
      var key: seq<Byte>, both: seq<Byte>;
      ok, key := BOpenSSHBinaryReadFixedSizeKey(32);
      if !ok || key != pub {
        return None;
      }
      ok, both := BOpenSSHBinaryReadFixedSizeKey(64);
      if !ok || both[32..] != pub {
        return None;
      }
      r := Some(both[..32]);
    }

    method BParseHeader() returns (ok: bool)
      requires Readable()
      modifies this`get
      ensures ok <==> ParseHeader(old(Rest())).Some?
      ensures Readable() && (ok ==> ParseHeader(old(Rest())) == Some(Rest()))
    {
      hide Eat;
      ok := BCheckAndEatBytes(MAGIC);
      if !ok {
        return;
      }
      ok := BCheckAndEatBytes(NO_CIPHER);
      if !ok {
        return;
      }
      ok := BCheckAndEatBytes(ONE_KEY);
    }

    method BParseOpenSSHBinaryEd25519Private() returns (r: Option<(Key32, Key32)>)
      requires Readable()
      modifies this`get
      ensures r == Parse(old(Rest()))
    {
      hide ParseHeader, ReadSub, ParsePublic, ParsePrivate;
      var ok := BParseHeader();
      if !ok {
        return None;
      }
      NothingInNothing();
      var sub, size;
      ok, sub, size := OpenSubBlock();
      if !ok {
        return None;
      }
      SeekGet(size);
      var pub := sub.BParsePublicPart();
      if pub.None? {
        return None;
      }
      ok, sub, size := OpenSubBlock();
      if !ok {
        return None;
      }
      var secret := sub.BParsePrivatePart(pub.value);
      if secret.None? {
        return None;
      }
      r := Some((secret.value, pub.value));
    }

    // ---------- Writing ----------

    ghost predicate Writable()
      reads this
    {
      maxPut == |mem|
    }

    method Put(data: seq<Byte>)
      requires Writable()
      modifies this`mem, this`maxPut
      ensures Writable() && mem == old(mem) + data
    {
      mem, maxPut := mem + data, maxPut + |data|;
    }

    method OpenSSHWriteUInt32(n: nat)
      requires Writable()
      modifies this`mem, this`maxPut
      ensures Writable() && mem == old(mem) + U32(n)
    {
      Put(U32(n));
    }

    method OpenSSHBinaryWriteFixedSizeKey(key: seq<Byte>)
      requires Writable()
      modifies this`mem, this`maxPut
      ensures Writable() && mem == old(mem) + Sub(key)
    {
      OpenSSHWriteUInt32(|key|);
      Put(key);
      assert mem == old(mem) + (U32(|key|) + key);
    }

    /** Leave room for a length; what the four bytes hold until it is known is arbitrary. */
    method OpenSSHBinaryBeginSubBlock() returns (saveTell: nat)
      requires Writable()
      modifies this`mem, this`maxPut
      ensures Writable() && saveTell == |old(mem)|
      ensures |mem| == saveTell + 4 && mem[..saveTell] == old(mem)
    {
      saveTell := |mem|;
      var hole: seq<Byte> := *;
      if |hole| != 4 {
        hole := [0, 0, 0, 0];
      }
      Put(hole);
    }

    /** Fill in the length of what was written since the block was begun. */
    method OpenSSHBinaryEndSubBlock(saveTell: nat)
      requires Writable() && saveTell + 4 <= |mem|
      modifies this`mem
      ensures Writable() && mem == old(mem)[..saveTell] + Sub(old(mem)[saveTell + 4..])
    {
      var nBytesWritten := |mem| - saveTell - 4;
      mem := mem[..saveTell] + U32(nBytesWritten) + mem[saveTell + 4..];
      assert mem == old(mem)[..saveTell] + (U32(nBytesWritten) + old(mem)[saveTell + 4..]);
    }

    method WritePublicPart(pub: Key32)
      requires Writable()
      modifies this`mem, this`maxPut
      ensures Writable() && mem == old(mem) + Sub(KEY_TYPE + Sub(pub))
    {
      hide Sub;
      var saveTell := OpenSSHBinaryBeginSubBlock();
      Put(KEY_TYPE);
      OpenSSHBinaryWriteFixedSizeKey(pub);
      assert mem[saveTell + 4..] == KEY_TYPE + Sub(pub);
      assert mem[..saveTell] == old(mem);
      OpenSSHBinaryEndSubBlock(saveTell);
    }

    method WritePrivatePart(seed: Key32, pub: Key32)
      requires Writable()
      modifies this`mem, this`maxPut
      ensures Writable() && mem == old(mem) + Sub(PrivateWritten(seed, pub))
    {
      hide Sub, U32;
      var saveTell := OpenSSHBinaryBeginSubBlock();
      ghost var head := mem;
      OpenSSHWriteUInt32(CHECK);
      OpenSSHWriteUInt32(CHECK);
      Put(KEY_TYPE);
      OpenSSHBinaryWriteFixedSizeKey(pub);
      OpenSSHWriteUInt32(64);
      Put(seed);
      Put(pub);
      assert mem == head + PrivateWritten(seed, pub);
      assert mem[..saveTell] == old(mem) && mem[saveTell + 4..] == PrivateWritten(seed, pub);
      OpenSSHBinaryEndSubBlock(saveTell);
    }

    method OpenSSHBinaryWriteEd25519Private(seed: Key32, pub: Key32)
      requires Writable()
      modifies this`mem, this`maxPut
      ensures Writable() && mem == old(mem) + Blob(Written(seed, pub))
    {
      hide Sub;
      Put(MAGIC);
      Put(NO_CIPHER);
      Put(ONE_KEY);
      WritePublicPart(pub);
      WritePrivatePart(seed, pub);
      PartsWritten(seed, pub);
    }
  }

  lemma NothingInNothing()
    ensures ParsePublic([]).None? && forall pub :: ParsePrivate([], pub).None?
  {
    assert KEY_TYPE != [];
  }

  /** The parts of a private part, one after another. */
  ghost function PrivateWritten(seed: Key32, pub: Key32): seq<Byte> {
    U32(CHECK) + U32(CHECK) + KEY_TYPE + Sub(pub) + U32(64) + seed + pub
  }

  lemma PartsWritten(seed: Key32, pub: Key32)
    ensures Blob(Written(seed, pub))
         == MAGIC + NO_CIPHER + ONE_KEY + Sub(KEY_TYPE + Sub(pub)) + Sub(PrivateWritten(seed, pub))
  {
    var l := Written(seed, pub);
    assert Sub(l.secret + l.pub) == U32(64) + (l.secret + l.pub);
    hide Sub, U32;
    assert PublicPart(l) == KEY_TYPE + Sub(pub);
    assert PrivatePart(l) == PrivateWritten(seed, pub);
    hide PublicPart, PrivatePart, PrivateWritten;
  }
}
