/** Variable-length unsigned integers: seven bits a byte, least significant first, the high bit
    set on all but the last. */
module VarInt {
  import opened Arithmetic
  import opened Wrappers

  /** The bytes of x. */
  function Serialized(x: nat): (b: seq<Byte>)
    ensures |b| >= 1
  {
    if x < 128 then [x] else [x % 128 + 128] + Serialized(x / 128)
  }

  /** The number at the start of b and how many bytes it takes; none if it does not end. */
  function Read(b: seq<Byte>): (r: Option<(nat, nat)>)
    ensures r.Some? ==> 1 <= r.value.1 <= |b|
  {
    if b == [] then None
    else
      var first: int := b[0];
      if first < 128 then Some((first, 1))
      else
        var (high, n) :- Read(b[1..]);
        Some((first - 128 + 128 * high, n + 1))
  }

  lemma {:induction false} ReadSerialized(x: nat, rest: seq<Byte>)
    ensures Read(Serialized(x) + rest) == Some((x, |Serialized(x)|))
  {
    if x >= 128 {
      ReadSerialized(x / 128, rest);
      assert (Serialized(x) + rest)[1..] == Serialized(x / 128) + rest;
    }
  }

  // ---------- Writing ----------

  /** One byte more has been written. */
  lemma SerializedStep(before: seq<Byte>, x: nat)
    ensures before + Serialized(x)
         == if x < 128 then before + [x] else before + [x % 128 + 128] + Serialized(x / 128)
    ensures |Serialized(x)| == if x < 128 then 1 else 1 + |Serialized(x / 128)|
  {
    if x >= 128 {
      Regroup(before, [x % 128 + 128], Serialized(x / 128));
    }
  }

  lemma Regroup(a: seq<Byte>, b: seq<Byte>, c: seq<Byte>)
    ensures a + (b + c) == a + b + c
  {
  }

  /** Write x at pos, which must have room. */
  method SerializeVarInt(buf: array<Byte>, pos: nat, x0: nat) returns (end: nat)
    requires pos + |Serialized(x0)| <= buf.Length
    modifies buf
    ensures end == pos + |Serialized(x0)| && buf[pos..end] == Serialized(x0)
    ensures forall k | 0 <= k < buf.Length && !(pos <= k < end) :: buf[k] == old(buf[k])
  {
    hide Serialized;
    var p, x := pos, x0;
    while x >= 0x80
      invariant pos <= p && p + |Serialized(x)| <= buf.Length
      invariant buf[pos..p] + Serialized(x) == Serialized(x0)
      invariant forall k | 0 <= k < buf.Length && !(pos <= k < p) :: buf[k] == old(buf[k])
    {
      ghost var before := buf[pos..p];
      SerializedStep(before, x);
      buf[p] := x % 128 + 0x80;
      p := p + 1;
      assert buf[pos..p] == before + [x % 128 + 0x80];
      x := x / 128;
    }
    SerializedStep(buf[pos..p], x);
    buf[p] := x;
    end := p + 1;
    assert buf[pos..end] == buf[pos..p] + [x];
  }

  /** Write x at pos unless that would go past the end; on failure only a part is written. */
  method SerializeVarIntBounded(buf: array<Byte>, pos: nat, x0: nat, end: nat) returns (r: Option<nat>)
    requires pos <= end <= buf.Length
    modifies buf
    ensures r.None? <==> |Serialized(x0)| > end - pos
    ensures r.Some? ==> r.value == pos + |Serialized(x0)| && buf[pos..r.value] == Serialized(x0)
    ensures forall k | 0 <= k < buf.Length && !(pos <= k < end) :: buf[k] == old(buf[k])
  {
    hide Serialized;
    var p, x := pos, x0;
    while x >= 0x80
      invariant pos <= p <= end
      invariant buf[pos..p] + Serialized(x) == Serialized(x0)
      invariant forall k | 0 <= k < buf.Length && !(pos <= k < end) :: buf[k] == old(buf[k])
    {
      if p >= end {
        return None;
      }
      ghost var before := buf[pos..p];
      SerializedStep(before, x);
      buf[p] := x % 128 + 0x80;
      p := p + 1;
      assert buf[pos..p] == before + [x % 128 + 0x80];
      x := x / 128;
    }
    SerializedStep(buf[pos..p], x);
    if p >= end {
      return None;
    }
    buf[p] := x;
    assert buf[pos..p + 1] == buf[pos..p] + [x];
    r := Some(p + 1);
  }

  method VarIntSerializedSize32(x: nat) returns (n: nat)
    requires x < 0x1_0000_0000
    ensures n == |Serialized(x)|
  {
    SizeUpTo(x, 1);
    SizeUpTo(x, 2);
    SizeUpTo(x, 3);
    SizeUpTo(x, 4);
    SizeUpTo(x, 5);
    hide Serialized;
    if x < 0x80 {
      return 1;
    }
    if x < 0x4000 {
      return 2;
    }
    if x < 0x20_0000 {
      return 3;
    }
    if x < 0x1000_0000 {
      return 4;
    }
    return 5;
  }

  method VarIntSerializedSize64(x: nat) returns (n: nat)
    requires x < 0x1_0000_0000_0000_0000
    ensures n == |Serialized(x)|
  {
    SizeUpTo(x, 1);
    SizeUpTo(x, 2);
    SizeUpTo(x, 3);
    SizeUpTo(x, 4);
    SizeUpTo(x, 5);
    SizeUpTo(x, 6);
    SizeUpTo(x, 7);
    SizeUpTo(x, 8);
    SizeUpTo(x, 9);
    SizeUpTo(x, 10);
    hide Serialized;
    if x < 0x8_0000_0000 {
      if x < 0x80 {
        return 1;
      }
      if x < 0x4000 {
        return 2;
      }
      if x < 0x20_0000 {
        return 3;
      }
      if x < 0x1000_0000 {
        return 4;
      }
      return 5;
    }
    if x < 0x400_0000_0000 {
      return 6;
    }
    if x < 0x2_0000_0000_0000 {
      return 7;
    }
    if x < 0x100_0000_0000_0000 {
      return 8;
    }
    if x < 0x8000_0000_0000_0000 {
      return 9;
    }
    return 10;
  }

  /** The thresholds 2^7, 2^14, ..., 2^70. */
  function Threshold(n: nat): nat
    requires 1 <= n <= 10
  {
    [0x80, 0x4000, 0x20_0000, 0x1000_0000, 0x8_0000_0000, 0x400_0000_0000, 0x2_0000_0000_0000,
     0x100_0000_0000_0000, 0x8000_0000_0000_0000, 0x40_0000_0000_0000_0000][n - 1]
  }

  lemma {:induction false} SizeUpTo(x: nat, n: nat)
    requires 1 <= n <= 10
    ensures |Serialized(x)| <= n <==> x < Threshold(n)
  {
    if n > 1 && x >= 128 {
      SizeUpTo(x / 128, n - 1);
      assert Threshold(n) == 128 * Threshold(n - 1);
    }
  }

  // ---------- Reading ----------

  /** The most bytes a number of a given width can take. */
  function MaxBytes(bits: nat): nat {
    (bits + 6) / 7
  }

  /** As many bytes as it takes for the bits, seven each: 5 for 32 bits, 10 for 64. */
  lemma MaxBytesIs(bits: nat)
    requires bits > 0
    ensures 7 * (MaxBytes(bits) - 1) < bits <= 7 * MaxBytes(bits)
    ensures MaxBytes(32) == 5 && MaxBytes(64) == 10
  {
  }

  /** Two numbers joined bit by bit. */
  function Or(a: nat, b: nat): nat {
    if a == 0 then b
    else if b == 0 then a
    else 2 * Or(a / 2, b / 2) + if a % 2 == 1 || b % 2 == 1 then 1 else 0
  }

  /** Numbers without common bits may as well be added. */
  lemma {:induction false} OrIsSum(a: nat, c: nat, shift: nat)
    requires a < Pow2(shift)
    ensures Or(a, c * Pow2(shift)) == a + c * Pow2(shift)
    decreases shift
  {
    if a > 0 && c > 0 {
      var b := c * Pow2(shift - 1);
      Twice(c, Pow2(shift - 1));
      assert c * Pow2(shift) == 2 * b;
      OrIsSum(a / 2, c, shift - 1);
      hide Pow2;
      assert Or(a, 2 * b) == if b == 0 then a else 2 * Or(a / 2, b) + a % 2;
    }
  }

  lemma Twice(c: nat, x: nat)
    ensures c * (2 * x) == 2 * (c * x)
  {
  }

  /** The value of the first n bytes, seven bits each. */
  function Low(b: seq<Byte>, n: nat): nat
    requires n <= |b|
  {
    if n == 0 then 0 else Low(b, n - 1) + b[n - 1] % 128 * Pow2(7 * (n - 1))
  }

  lemma {:induction false} LowBound(b: seq<Byte>, n: nat)
    requires n <= |b|
    ensures Low(b, n) < Pow2(7 * n)
  {
    if n > 0 {
      LowBound(b, n - 1);
      Pow2Add(7, 7 * (n - 1));
      assert Pow2(7) == 128;
      Scale(b[n - 1] % 128, Pow2(7 * (n - 1)));
    }
  }

  lemma Scale(d: nat, a: nat)
    requires d < 128
    ensures d * a + a <= 128 * a
  {
  }

  /** The bytes of a number, told without the loop: seven bits each, the lowest first; all but
      the last announce another one, and the last is not 0 unless it is the only one. */
  lemma {:induction false} SerializedIs(x: nat)
    ensures var b := Serialized(x);
            && Low(b, |b|) == x
            && (forall k | 0 <= k < |b| - 1 :: b[k] >= 128)
            && b[|b| - 1] < 128 && (|b| > 1 ==> b[|b| - 1] > 0)
  {
    hide Pow2, Low;
    var b := Serialized(x);
    if x < 128 {
      LowOne(b);
    } else {
      SerializedIs(x / 128);
      LowTail(b, |b|);
      assert b[1..] == Serialized(x / 128);
    }
  }

  /** Bytes that all announce another one, and then one that does not. */
  lemma {:induction false} ReadsLow(b: seq<Byte>, n: nat)
    requires n < |b| && (forall k | 0 <= k < n :: b[k] >= 128) && b[n] < 128
    ensures Read(b) == Some((Low(b, n + 1), n + 1))
    decreases n
  {
    hide Low;
    if n == 0 {
      LowOne(b);
    } else {
      ReadsLow(b[1..], n - 1);
      LowTail(b, n + 1);
    }
  }

  lemma LowOne(b: seq<Byte>)
    requires b != []
    ensures Low(b, 1) == b[0] % 128
  {
    assert Low(b, 1) == Low(b, 0) + b[0] % 128 * Pow2(0);
  }

  lemma {:induction false} LowTail(b: seq<Byte>, n: nat)
    requires 1 <= n <= |b|
    ensures Low(b, n) == b[0] % 128 + 128 * Low(b[1..], n - 1)
  {
    if n == 1 {
      LowOne(b);
    } else {
      LowTail(b, n - 1);
      var m := 7 * (n - 2);
      assert Pow2(m + 7) == 128 * Pow2(m) by {
        Pow2Add(7, m);
        assert Pow2(7) == 128;
      }
      Spread(b[n - 1] % 128, Pow2(m));
    }
  }

  lemma Spread(d: nat, a: nat)
    ensures d * (128 * a) == 128 * (d * a)
  {
  }

  lemma {:induction false} NothingRead(b: seq<Byte>)
    requires forall k | 0 <= k < |b| :: b[k] >= 128
    ensures Read(b).None?
  {
    if b != [] {
      NothingRead(b[1..]);
    }
  }

  /** Cutting the shifted digit to the width of the type is cutting the sum. */
  lemma CutSum(low: nat, g: nat, a: nat, d: nat)
    requires low < a && d > 0
    ensures a * d > 0 && low + g * a % (a * d) == (low + g * a) % (a * d)
    ensures g * a % (a * d) == g % d * a
  {
    var q, r := g / d, g % d;
    Expand(g, q, r, a, d);
    ModIs(g * a, a * d, q, r * a, low);
  }

  lemma Expand(g: nat, q: nat, r: nat, a: nat, d: nat)
    requires g == d * q + r && r < d && a > 0
    ensures g * a == (a * d) * q + r * a && r * a + a <= a * d
  {
    assert g * a == (d * q) * a + r * a;
    ProductGrows(a, r + 1, d);
  }

  lemma ModIs(x: nat, m: nat, q: nat, rest: nat, low: nat)
    requires m > 0 && x == m * q + rest && rest + low < m
    ensures x % m == rest && (low + x) % m == low + rest
  {
    DivisionIsUnique(x, m, q, rest);
    DivisionIsUnique(low + x, m, q, low + rest);
  }

  /** The bytes the reader may look at. */
  function Visible(buf: seq<Byte>, pos: nat, end: nat, bits: nat): seq<Byte>
    requires end <= |buf|
  {
    if pos >= end then [] else if end > pos + MaxBytes(bits) then buf[pos..pos + MaxBytes(bits)] else buf[pos..end]
  }

  /** Read a number of the given width.  What is read depends on no byte beyond the end or
      beyond the longest such number; bits that do not fit the width are lost. */
  method DeserializeVarInt(buf: seq<Byte>, pos: nat, end0: nat, bits: nat) returns (r: Option<(nat, nat)>)
    requires end0 <= |buf| && bits >= 7
    ensures var v := Read(Visible(buf, pos, end0, bits));
            r == if v.None? then None else Some((v.value.0 % Pow2(bits), pos + v.value.1))
  {
    hide Read, Pow2, Low, Or;
    var end := end0;
    if pos >= end {
      NothingRead([]);
      return None;
    }
    if end > pos + MaxBytes(bits) {
      end := pos + MaxBytes(bits);
    }
    ghost var b := buf[pos..end];
    var p, shift := pos, 7;
    var result: nat := buf[p] % 128;
    FirstDigit(b, bits);
    while buf[p] >= 128
      invariant pos <= p < end && shift == 7 * (p - pos + 1)
      invariant forall k | 0 <= k < p - pos :: b[k] >= 128
      invariant result == Low(b, p - pos + 1) % Pow2(bits)
      decreases end - p
    {
      p := p + 1;
      if p >= end {
        NothingRead(b);
        return None;
      }
      NextDigit(b, p - pos, shift, bits);
      result := Or(result, buf[p] % 128 * Pow2(shift) % Pow2(bits));
      shift := shift + 7;
    }
    ReadsLow(b, p - pos);
    r := Some((result, p + 1));
  }

  lemma FirstDigit(b: seq<Byte>, bits: nat)
    requires b != [] && bits >= 7
    ensures b[0] % 128 == Low(b, 1) % Pow2(bits)
  {
    LowOne(b);
    SmallPower(7, bits);
    assert Pow2(7) == 128;
    SmallMod(b[0] % 128, Pow2(bits));
  }

  lemma SmallPower(m: nat, n: nat)
    requires m <= n
    ensures Pow2(m) <= Pow2(n)
  {
    Pow2Add(m, n - m);
    ProductGrows(Pow2(m), 1, Pow2(n - m));
  }

  lemma SmallMod(x: nat, m: nat)
    requires x < m
    ensures x % m == x
  {
  }

  lemma NextDigit(b: seq<Byte>, n: nat, shift: nat, bits: nat)
    requires n < |b| <= MaxBytes(bits) && shift == 7 * n
    ensures Or(Low(b, n) % Pow2(bits), b[n] % 128 * Pow2(shift) % Pow2(bits)) == Low(b, n + 1) % Pow2(bits)
  {
    LowBound(b, n);
    SmallPower(shift, bits);
    Pow2Add(shift, bits - shift);
    assert Low(b, n + 1) == Low(b, n) + b[n] % 128 * Pow2(shift);
    hide Pow2, Low, Or;
    SmallMod(Low(b, n), Pow2(bits));
    CutSum(Low(b, n), b[n] % 128, Pow2(shift), Pow2(bits - shift));
    OrIsSum(Low(b, n), b[n] % 128 % Pow2(bits - shift), shift);
  }

  /** A number needs at most n bytes iff it has at most 7 * n bits. */
  lemma {:induction false} SerializedLength(x: nat, n: nat)
    requires n > 0
    ensures |Serialized(x)| <= n <==> x < Pow2(7 * n)
  {
    var m := 7 * (n - 1);
    Pow2Add(7, m);
    assert Pow2(7) == 128;
    if n == 1 {
      assert Pow2(m) == 1;
    } else if x >= 128 {
      SerializedLength(x / 128, n - 1);
    }
  }

  /** Reading what was written, whatever surrounds it, gives the number and its size. */
  lemma RoundTrip(x: nat, bits: nat, buf: seq<Byte>, pos: nat, end: nat)
    requires bits >= 7 && x < Pow2(bits)
    requires pos + |Serialized(x)| <= end <= |buf| && buf[pos..pos + |Serialized(x)|] == Serialized(x)
    ensures Read(Visible(buf, pos, end, bits)) == Some((x, |Serialized(x)|)) && x % Pow2(bits) == x
  {
    var n := MaxBytes(bits);
    SmallPower(bits, 7 * n);
    SerializedLength(x, n);
    SmallMod(x, Pow2(bits));
    var b := Visible(buf, pos, end, bits);
    var size := |Serialized(x)|;
    assert b == Serialized(x) + b[size..];
    ReadSerialized(x, b[size..]);
  }

  /** Write with a limit, then read: it fails iff there is no room. */
  method WriteAndRead(buf: array<Byte>, pos: nat, end: nat, x: nat, bits: nat) returns (r: Option<(nat, nat)>)
    requires pos <= end <= buf.Length && bits >= 7 && x < Pow2(bits)
    modifies buf
    ensures r == if |Serialized(x)| > end - pos then None else Some((x, pos + |Serialized(x)|))
    ensures r.Some? ==> buf[pos..r.value.1] == Serialized(x)
    ensures forall k | 0 <= k < buf.Length && !(pos <= k < end) :: buf[k] == old(buf[k])
  {
    hide Serialized, Read, Pow2, Visible;
    var next := SerializeVarIntBounded(buf, pos, x, end);
    if next.None? {
      return None;
    }
    RoundTrip(x, bits, buf[..], pos, end);
    r := DeserializeVarInt(buf[..], pos, end, bits);
  }
}
