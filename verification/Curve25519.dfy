/** Arithmetic modulo 2^255 - 19 and the X25519 function of section 5 of RFC 7748. */
module Field25519 {
  import opened Arithmetic

  const P: int := 0x7FFF_FFFF_FFFF_FFFF_FFFF_FFFF_FFFF_FFFF_FFFF_FFFF_FFFF_FFFF_FFFF_FFFF_FFFF_FFED

  type Felem = x: int | 0 <= x < P

  function Add(a: Felem, b: Felem): Felem { (a + b) % P }

  function Sub(a: Felem, b: Felem): Felem { (a - b) % P }

  function Mul(a: Felem, b: Felem): Felem { (a * b) % P }

  lemma Pow2Product(m: nat, n: nat, a: nat, b: nat)
    requires Pow2(m) == a && Pow2(n) == b
    ensures Pow2(m + n) == a * b
  {
    Pow2Add(m, n);
  }

  /** P is 2^255 - 19. */
  lemma PIsTwoTo255Minus19(n: nat)
    requires n == 255
    ensures P == Pow2(n) - 19
  {
    var a := n / 51;
    assert a == 5 && Pow2(a) == 32 by {
      assert Pow2(5) == 32;
    }
    Pow2Product(a, a, 0x20, 0x20);
    Pow2Product(2 * a, a, 0x400, 0x20);
    Pow2Product(3 * a, 3 * a, 0x8000, 0x8000);
    Pow2Product(6 * a, 6 * a, 0x4000_0000, 0x4000_0000);
    Pow2Product(12 * a, 12 * a, 0x1000_0000_0000_0000, 0x1000_0000_0000_0000);
    Pow2Product(24 * a, 24 * a, 0x100_0000_0000_0000_0000_0000_0000_0000,
                0x100_0000_0000_0000_0000_0000_0000_0000);
    Pow2Product(48 * a, 3 * a, 0x1_0000_0000_0000_0000_0000_0000_0000_0000_0000_0000_0000_0000_0000_0000_0000, 0x8000);
  }

  // ---------- Laws of the field operations ----------

  lemma ModMul(a: int, b: int)
    ensures ((a % P) * b) % P == (a * b) % P
  {
    var q := a / P;
    assert a == P * q + a % P;
    assert a * b == P * (q * b) + (a % P) * b;
    ModShift(q * b, (a % P) * b);
  }

  lemma ModShift(k: int, x: int)
    ensures (P * k + x) % P == x % P
  {
  }

  lemma MulCommutes(a: Felem, b: Felem)
    ensures Mul(a, b) == Mul(b, a)
  {
  }

  lemma MulAssociates(a: Felem, b: Felem, c: Felem)
    ensures Mul(Mul(a, b), c) == Mul(a, Mul(b, c))
  {
    ModMul(a * b, c);
    ModMul(b * c, a);
    assert a * b * c == b * c * a;
  }

  lemma SquareMod(x: int)
    ensures ((x % P) * (x % P)) % P == (x * x) % P
  {
    ModMul(x, x % P);
    ModMul(x, x);
  }

  /** The sign of a difference does not matter once it is squared. */
  lemma SquareOfDifference(a: Felem, b: Felem)
    ensures Mul(Sub(a, b), Sub(a, b)) == Mul(Sub(b, a), Sub(b, a))
  {
    SquareMod(a - b);
    SquareMod(b - a);
    OppositeSquares(a - b, b - a);
  }

  lemma OppositeSquares(x: int, y: int)
    requires x == -y
    ensures x * x == y * y
  {
  }
}

/** The X25519 function as section 5 of RFC 7748 defines it. */
module Rfc7748 {
  import opened Arithmetic
  import opened Field25519
  import opened Wrappers

  const A24: Felem := 121665

  function Power(z: Felem, e: nat): Felem {
    if e == 0 then 1 else Mul(z, Power(z, e - 1))
  }

  function DecodeLittleEndian(b: seq<Byte>): nat {
    if b == [] then 0 else b[0] + 256 * DecodeLittleEndian(b[1..])
  }

  function EncodeLittleEndian(n: nat, len: nat): (b: seq<Byte>)
    ensures |b| == len
  {
    if len == 0 then [] else [n % 256] + EncodeLittleEndian(n / 256, len - 1)
  }

  /** Clear the three lowest bits, clear bit 255 and set bit 254. */
  function Clamp(b: seq<Byte>): seq<Byte>
    requires |b| == 32
  {
    b[0 := b[0] - b[0] % 8][31 := 64 + b[31] % 64]
  }

  /** Bit t of a scalar. */
  function BitOf(k: nat, t: nat): int {
    (k / Pow2(t)) % 2
  }

  /** The points (x2 : z2) and (x3 : z3) that the ladder carries. */
  datatype Ladder = Ladder(x2: Felem, z2: Felem, x3: Felem, z3: Felem)

  function ConditionalSwap(swap: bool, s: Ladder): Ladder {
    if swap then Ladder(s.x3, s.z3, s.x2, s.z2) else s
  }

  function Step(x1: Felem, s: Ladder): Ladder {
    var A := Add(s.x2, s.z2);
    var AA := Mul(A, A);
    var B := Sub(s.x2, s.z2);
    var BB := Mul(B, B);
    var E := Sub(AA, BB);
    var C := Add(s.x3, s.z3);
    var D := Sub(s.x3, s.z3);
    var DA := Mul(D, A);
    var CB := Mul(C, B);
    Ladder(Mul(AA, BB), Mul(E, Add(AA, Mul(A24, E))),
           Mul(Add(DA, CB), Add(DA, CB)), Mul(x1, Mul(Sub(DA, CB), Sub(DA, CB))))
  }

  /** The loop over bits t-1 .. 0, with the swap that is still pending. */
  function Loop(k: nat, x1: Felem, t: nat, s: Ladder, swap: int): Ladder {
    if t == 0 then ConditionalSwap(swap != 0, s)
    else
      var kt := BitOf(k, t - 1);
      Loop(k, x1, t - 1, Step(x1, ConditionalSwap(swap != kt, s)), kt)
  }

  /** x2 / z2 after the 255 steps, as an element of the field. */
  function ScalarMult(k: nat, u: Felem): Felem {
    var s := Loop(k, u, 255, Ladder(1, 0, u, 1), 0);
    Mul(s.x2, Power(s.z2, P - 2))
  }

  function DecodeUCoordinate(u: seq<Byte>): Felem
    requires |u| == 32
  {
    DecodeLittleEndian(u[31 := u[31] % 128]) % P
  }

  function X25519(k: seq<Byte>, u: seq<Byte>): seq<Byte>
    requires |k| == 32 && |u| == 32
  {
    EncodeLittleEndian(ScalarMult(DecodeLittleEndian(Clamp(k)), DecodeUCoordinate(u)), 32)
  }

  // ---------- The curve ----------

  /** The element of the field that a number stands for. */
  function Reduced(n: int): Felem { n % P }

  lemma AddIs(a: int, b: int)
    ensures Add(Reduced(a), Reduced(b)) == Reduced(a + b)
  {
    var q := a / P + b / P;
    assert a + b == P * q + (a % P + b % P);
    ModShift(q, a % P + b % P);
  }

  lemma SubIs(a: int, b: int)
    ensures Sub(Reduced(a), Reduced(b)) == Reduced(a - b)
  {
    var q := a / P - b / P;
    assert a - b == P * q + (a % P - b % P);
    ModShift(q, a % P - b % P);
  }

  lemma MulIs(a: int, b: int)
    ensures Mul(Reduced(a), Reduced(b)) == Reduced(a * b)
  {
    ModMul(a, b % P);
    ModMul(b, a);
    assert a * (b % P) == (b % P) * a && b * a == a * b;
  }

  lemma SmallMod(x: Felem)
    ensures Reduced(x) == x
  {
  }

  /** The four sums and differences of a step, as numbers. */
  lemma SumProducts(x2: int, z2: int, x3: int, z3: int)
    ensures (x2 + z2) * (x2 + z2) == x2 * x2 + 2 * (x2 * z2) + z2 * z2
    ensures (x2 - z2) * (x2 - z2) == x2 * x2 - 2 * (x2 * z2) + z2 * z2
    ensures (x2 + z2) * (x2 - z2) == x2 * x2 - z2 * z2
    ensures (x3 - z3) * (x2 + z2) + (x3 + z3) * (x2 - z2) == 2 * (x2 * x3 - z2 * z3)
    ensures (x3 - z3) * (x2 + z2) - (x3 + z3) * (x2 - z2) == 2 * (x3 * z2 - x2 * z3)
  {
  }

  lemma SquareOfProduct(a: int, b: int, c: int)
    requires a * b == c
    ensures (a * a) * (b * b) == c * c
  {
    assert (a * a) * (b * b) == (a * b) * (a * b);
  }

  lemma FourSquares(d: int)
    ensures (2 * d) * (2 * d) == 4 * (d * d)
  {
  }

  lemma OppositeSquare(a: int, b: int)
    ensures (a - b) * (a - b) == (b - a) * (b - a)
  {
  }

  lemma MulFour(x: int, y: int)
    ensures (4 * x) * y == 4 * (x * y) && x * (4 * y) == 4 * (x * y)
  {
  }

  /** One step doubles the point (x2 : z2) of the curve y^2 = x^3 + 486662 x^2 + x and adds
      (x3 : z3) to it, given that the difference of the two has the coordinate x1. */
  lemma StepDoubles(x1: Felem, s: Ladder)
    ensures Step(x1, s).x2 == DoubledX(s.x2, s.z2) && Step(x1, s).z2 == DoubledZ(s.x2, s.z2)
  {
    hide Mul, Add, Sub, Reduced;
    var x: int, z: int := s.x2, s.z2;
    SmallMod(s.x2);
    SmallMod(s.z2);
    AddIs(x, z);
    SubIs(x, z);
    MulIs(x + z, x + z);
    MulIs(x - z, x - z);
    var aa, bb := (x + z) * (x + z), (x - z) * (x - z);
    MulIs(aa, bb);
    SubIs(aa, bb);
    SmallMod(A24);
    MulIs(A24, aa - bb);
    AddIs(aa, A24 * (aa - bb));
    MulIs(aa - bb, aa + A24 * (aa - bb));
    DoublingFormulas(x, z, aa, bb);
  }

  function DoubledX(x: int, z: int): Felem {
    Reduced((x * x - z * z) * (x * x - z * z))
  }

  function DoubledZ(x: int, z: int): Felem {
    Reduced(4 * ((x * z) * (x * x + 486662 * (x * z) + z * z)))
  }

  lemma DoublingFormulas(x: int, z: int, aa: int, bb: int)
    requires aa == (x + z) * (x + z) && bb == (x - z) * (x - z)
    ensures aa * bb == (x * x - z * z) * (x * x - z * z)
    ensures (aa - bb) * (aa + A24 * (aa - bb)) == 4 * ((x * z) * (x * x + 486662 * (x * z) + z * z))
  {
    SumProducts(x, z, 0, 0);
    SquareOfProduct(x + z, x - z, x * x - z * z);
    var w := x * z;
    assert aa - bb == 4 * w;
    assert aa + A24 * (aa - bb) == x * x + 486662 * w + z * z;
    MulFour(w, x * x + 486662 * w + z * z);
  }

  lemma StepAdds(x1: Felem, s: Ladder)
    ensures var sum, difference := s.x2 * s.x3 - s.z2 * s.z3, s.x2 * s.z3 - s.z2 * s.x3;
            && Step(x1, s).x3 == Reduced(4 * (sum * sum))
            && Step(x1, s).z3 == Reduced(4 * (x1 * (difference * difference)))
  {
    hide Mul, Add, Sub, Reduced;
    var x2: int, z2: int, x3: int, z3: int := s.x2, s.z2, s.x3, s.z3;
    SmallMod(s.x2);
    SmallMod(s.z2);
    SmallMod(s.x3);
    SmallMod(s.z3);
    SmallMod(x1);
    AddIs(x2, z2);
    SubIs(x2, z2);
    AddIs(x3, z3);
    SubIs(x3, z3);
    MulIs(x3 - z3, x2 + z2);
    MulIs(x3 + z3, x2 - z2);
    var da, cb := (x3 - z3) * (x2 + z2), (x3 + z3) * (x2 - z2);
    AddIs(da, cb);
    SubIs(da, cb);
    MulIs(da + cb, da + cb);
    MulIs(da - cb, da - cb);
    MulIs(x1, (da - cb) * (da - cb));
    AdditionFormulas(x1, x2, z2, x3, z3, da, cb);
  }

  lemma AdditionFormulas(x1: int, x2: int, z2: int, x3: int, z3: int, da: int, cb: int)
    requires da == (x3 - z3) * (x2 + z2) && cb == (x3 + z3) * (x2 - z2)
    ensures var sum, difference := x2 * x3 - z2 * z3, x2 * z3 - z2 * x3;
            && (da + cb) * (da + cb) == 4 * (sum * sum)
            && x1 * ((da - cb) * (da - cb)) == 4 * (x1 * (difference * difference))
  {
    SumProducts(x2, z2, x3, z3);
    var sum, difference := x2 * x3 - z2 * z3, x2 * z3 - z2 * x3;
    assert z2 * x3 == x3 * z2;
    FourSquares(sum);
    FourSquares(-difference);
    OppositeSquare(0, difference);
    assert da - cb == 2 * (-difference);
    MulFour(x1, difference * difference);
  }

  /** The ladder without swaps: a pair of points, of which each bit from the top down says
      which one is doubled; the other one becomes their sum. */
  function Pair(k: nat, x1: Felem, t: nat): Ladder
    requires t <= 255
    decreases 255 - t
  {
    if t == 255 then Ladder(1, 0, x1, 1)
    else
      var s := Pair(k, x1, t + 1);
      if BitOf(k, t) == 0 then Step(x1, s)
      else
        var r := Step(x1, Ladder(s.x3, s.z3, s.x2, s.z2));
        Ladder(r.x3, r.z3, r.x2, r.z2)
  }

  /** One bit of the ladder, by the formulas of the curve alone. */
  lemma PairOnCurve(k: nat, x1: Felem, t: nat)
    requires t < 255
    ensures var s, r := Pair(k, x1, t + 1), Pair(k, x1, t);
            var sum, difference := s.x2 * s.x3 - s.z2 * s.z3, s.x2 * s.z3 - s.z2 * s.x3;
            var zero := BitOf(k, t) == 0;
            var x, z := if zero then s.x2 else s.x3, if zero then s.z2 else s.z3;
            && (if zero then r.x2 else r.x3) == ((x * x - z * z) * (x * x - z * z)) % P
            && (if zero then r.z2 else r.z3) == (4 * ((x * z) * (x * x + 486662 * (x * z) + z * z))) % P
            && (if zero then r.x3 else r.x2) == (4 * (sum * sum)) % P
            && (if zero then r.z3 else r.z2) == (4 * (x1 * (difference * difference))) % P
    ensures Pair(k, x1, 255) == Ladder(1, 0, x1, 1)
  {
    hide Step, BitOf, Pow2;
    var s := Pair(k, x1, t + 1);
    var swapped := Ladder(s.x3, s.z3, s.x2, s.z2);
    StepDoubles(x1, s);
    StepAdds(x1, s);
    StepDoubles(x1, swapped);
    StepAdds(x1, swapped);
    SwappedSquares(s.x2, s.z2, s.x3, s.z3);
  }

  lemma SwappedSquares(x2: int, z2: int, x3: int, z3: int)
    ensures x3 * x2 - z3 * z2 == x2 * x3 - z2 * z3
    ensures (x3 * z2 - z3 * x2) * (x3 * z2 - z3 * x2) == (x2 * z3 - z2 * x3) * (x2 * z3 - z2 * x3)
  {
    assert x3 * x2 == x2 * x3 && z3 * z2 == z2 * z3 && x3 * z2 == z2 * x3 && z3 * x2 == x2 * z3;
    OppositeSquare(x3 * z2, z3 * x2);
  }

  /** The swaps of the loop come to the pair without swaps. */
  lemma {:induction false} LoopIsPair(k: nat, x1: Felem, t: nat, swap: int)
    requires t <= 255 && (swap == 0 || swap == 1)
    ensures Loop(k, x1, t, ConditionalSwap(swap != 0, Pair(k, x1, t)), swap) == Pair(k, x1, 0)
    decreases t
  {
    hide Step, BitOf;
    if t > 0 {
      BitIsBit(k, t - 1);
      LoopIsPair(k, x1, t - 1, BitOf(k, t - 1));
      var s := Pair(k, x1, t);
      assert Step(x1, ConditionalSwap(swap != BitOf(k, t - 1), ConditionalSwap(swap != 0, s)))
          == ConditionalSwap(BitOf(k, t - 1) != 0, Pair(k, x1, t - 1));
    }
  }

  lemma BitIsBit(k: nat, t: nat)
    ensures BitOf(k, t) == 0 || BitOf(k, t) == 1
  {
  }

  /** X25519 by the pair after all bits. */
  lemma ScalarMultIsPair(k: nat, u: Felem, n: nat)
    requires n == 255
    ensures ScalarMult(k, u) == Mul(Pair(k, u, 0).x2, Power(Pair(k, u, 0).z2, P - 2))
  {
    hide Loop, Power, Mul, Step, BitOf;
    LoopIsPair(k, u, n, 0);
    assert Pair(k, u, n) == Ladder(1, 0, u, 1);
    hide Pair;
  }

  // ---------- Powers ----------

  lemma {:induction false} PowerAdd(z: Felem, a: nat, b: nat)
    ensures Mul(Power(z, a), Power(z, b)) == Power(z, a + b)
  {
    hide Mul;
    if a == 0 {
      MulOne(Power(z, b));
    } else {
      PowerAdd(z, a - 1, b);
      MulAssociates(z, Power(z, a - 1), Power(z, b));
    }
  }

  lemma MulOne(x: Felem)
    ensures Mul(1, x) == x
  {
  }

  /** Squaring n times over. */
  function SquareTimes(x: Felem, n: nat): Felem
    decreases n
  {
    if n == 0 then x else SquareTimes(Mul(x, x), n - 1)
  }

  lemma {:induction false} SquareTimesIsPower(z: Felem, e: nat, n: nat)
    ensures SquareTimes(Power(z, e), n) == Power(z, e * Pow2(n))
    decreases n
  {
    if n > 0 {
      PowerAdd(z, e, e);
      SquareTimesIsPower(z, e + e, n - 1);
      DoubledExponent(e, Pow2(n - 1));
    }
  }

  lemma DoubledExponent(e: nat, m: nat)
    ensures (e + e) * m == e * (2 * m)
  {
  }
}

/** curve25519-donna: the pre-swapped ladder and the addition chain for the inverse. */
module Donna {
  import opened Arithmetic
  import opened Field25519
  import opened Wrappers
  import opened Rfc7748

  /** b = z^(2^5 - 1) becomes z^(2^250 - 1). */
  method PowTwo5mTwo0ToTwo250mTwo0(b0: Felem, ghost z: Felem) returns (b: Felem)
    requires b0 == Power(z, Pow2(5) - 1)
    ensures b == Power(z, Pow2(250) - 1)
  {
    hide *;
    b := b0;
    var t0 := SquareTimes(b, 5);
    b := Mul(t0, b);
    Chain(z, 5, 5);
    t0 := SquareTimes(b, 10);
    var c := Mul(t0, b);
    Chain(z, 10, 10);
    t0 := SquareTimes(c, 20);
    t0 := Mul(t0, c);
    Chain(z, 20, 20);
    t0 := SquareTimes(t0, 10);
    b := Mul(t0, b);
    Chain(z, 40, 10);
    t0 := SquareTimes(b, 50);
    c := Mul(t0, b);
    Chain(z, 50, 50);
    t0 := SquareTimes(c, 100);
    t0 := Mul(t0, c);
    Chain(z, 100, 100);
    t0 := SquareTimes(t0, 50);
    b := Mul(t0, b);
    Chain(z, 200, 50);
  }

  /** z^(2^m - 1), squared n times and multiplied by z^(2^n - 1), is z^(2^(m+n) - 1). */
  lemma Chain(z: Felem, m: nat, n: nat)
    ensures Mul(SquareTimes(Power(z, Pow2(m) - 1), n), Power(z, Pow2(n) - 1)) == Power(z, Pow2(m + n) - 1)
  {
    SquareTimesIsPower(z, Pow2(m) - 1, n);
    PowerAdd(z, (Pow2(m) - 1) * Pow2(n), Pow2(n) - 1);
    Pow2Add(m, n);
    assert (Pow2(m) - 1) * Pow2(n) + (Pow2(n) - 1) == Pow2(m) * Pow2(n) - 1;
  }

  /** z to the power p - 2, by 254 squarings and 11 multiplications. */
  method Recip(z: Felem) returns (out: Felem)
    ensures out == Power(z, P - 2)
  {
    hide *;
    SmallPowers(z);
    var a := Mul(z, z);
    var t0 := SquareTimes(a, 2);
    var b := Mul(t0, z);
    a := Mul(b, a);
    t0 := Mul(a, a);
    b := Mul(t0, b);
    b := PowTwo5mTwo0ToTwo250mTwo0(b, z);
    b := SquareTimes(b, 5);
    out := Mul(b, a);
    LastPowers(z, 250);
  }

  lemma SmallPowers(z: Felem)
    ensures var z2 := Mul(z, z);
            var z9 := Mul(SquareTimes(z2, 2), z);
            var z11 := Mul(z9, z2);
            && z11 == Power(z, 11)
            && Mul(Mul(z11, z11), z9) == Power(z, Pow2(5) - 1)
  {
    FirstPower(z);
    hide Mul;
    PowerAdd(z, 1, 1);
    SquareTimesIsPower(z, 2, 2);
    PowerAdd(z, 8, 1);
    PowerAdd(z, 9, 2);
    PowerAdd(z, 11, 11);
    PowerAdd(z, 22, 9);
    assert Pow2(2) == 4 && Pow2(5) == 32;
  }

  lemma FirstPower(z: Felem)
    ensures Power(z, 1) == z
  {
    assert Power(z, 1) == Mul(z, Power(z, 0));
  }

  lemma LastPowers(z: Felem, n: nat)
    requires n == 250
    ensures Mul(SquareTimes(Power(z, Pow2(250) - 1), 5), Power(z, 11)) == Power(z, P - 2)
  {
    hide Mul, SquareTimes, Power;
    SquareTimesIsPower(z, Pow2(n) - 1, 5);
    PowerAdd(z, (Pow2(n) - 1) * Pow2(5), 11);
    Pow2Add(n, 5);
    PIsTwoTo255Minus19(n + 5);
    assert Pow2(5) == 32;
  }

  // ---------- The ladder ----------

  /** The order of operands in which donna computes a step makes no difference. */
  lemma DonnaStep(q: Felem, s: Ladder)
    ensures var qx, nqz := Add(s.x2, s.z2), Sub(s.x2, s.z2);
            var qpqx, nqpqz := Add(s.x3, s.z3), Sub(s.x3, s.z3);
            var cb, da := Mul(qpqx, nqz), Mul(qx, nqpqz);
            var sum, difference := Add(cb, da), Sub(cb, da);
            var aa, bb := Mul(qx, qx), Mul(nqz, nqz);
            var e := Sub(aa, bb);
            Step(q, s) == Ladder(Mul(aa, bb), Mul(e, Add(Mul(e, A24), aa)),
                                 Mul(sum, sum), Mul(Mul(difference, difference), q))
  {
    var A, B := Add(s.x2, s.z2), Sub(s.x2, s.z2);
    var C, D := Add(s.x3, s.z3), Sub(s.x3, s.z3);
    var AA, BB := Mul(A, A), Mul(B, B);
    var E := Sub(AA, BB);
    var CB, DA := Mul(C, B), Mul(D, A);
    MulCommutes(D, A);
    MulCommutes(A24, E);
    AddCommutes(AA, Mul(A24, E));
    AddCommutes(DA, CB);
    SquareOfDifference(CB, DA);
    MulCommutes(q, Mul(Sub(CB, DA), Sub(CB, DA)));
    hide Mul, Add, Sub;
  }

  lemma AddCommutes(a: Felem, b: Felem)
    ensures Add(a, b) == Add(b, a)
  {
  }

  /** A doubling, which is all the last steps of a clamped scalar need. */
  function Double(x: Felem, z: Felem): (Felem, Felem) {
    var s := Step(0, Ladder(x, z, 0, 0));
    (s.x2, s.z2)
  }

  lemma DoublesOnly(q: Felem, s: Ladder)
    ensures (Step(q, s).x2, Step(q, s).z2) == Double(s.x2, s.z2)
  {
  }

  /** Over two remaining zero bits the loop is two steps without a swap. */
  lemma LastTwoBits(k: nat, q: Felem, s: Ladder)
    requires BitOf(k, 0) == 0 && BitOf(k, 1) == 0
    ensures Loop(k, q, 2, s, 0) == Step(q, Step(q, s))
  {
    hide Step;
    assert Loop(k, q, 1, Step(q, s), 0) == Loop(k, q, 0, Step(q, Step(q, s)), 0);
  }

  /** Bit i of a little-endian number is bit i % 8 of byte i / 8. */
  lemma {:induction false} BitOfByte(n: seq<Byte>, i: nat)
    requires i < 8 * |n|
    ensures BitOf(DecodeLittleEndian(n), i) == (n[i / 8] / Pow2(i % 8)) % 2
    decreases i
  {
    hide Pow2;
    var rest := DecodeLittleEndian(n[1..]);
    assert DecodeLittleEndian(n) == n[0] + 256 * rest;
    if i < 8 {
      LowByteBit(n[0], rest, i);
    } else {
      var j := i - 8;
      assert i / 8 == j / 8 + 1 && i % 8 == j % 8;
      BitOfByte(n[1..], j);
      HighByteBit(n[0], rest, i);
    }
  }

  lemma LowByteBit(b: Byte, rest: nat, i: nat)
    requires i < 8
    ensures ((b + 256 * rest) / Pow2(i)) % 2 == (b / Pow2(i)) % 2
  {
    assert Pow2(i) * (2 * Pow2(7 - i)) == 256 by {
      Pow2Add(i, 8 - i);
      assert Pow2(8) == 256;
    }
    LowQuotient(b, rest, Pow2(i), Pow2(7 - i), 256);
  }

  lemma LowQuotient(b: nat, rest: nat, m: nat, k: nat, top: nat)
    requires m > 0 && m * (2 * k) == top
    ensures ((b + top * rest) / m) % 2 == (b / m) % 2
  {
    var q, even := b / m, 2 * (k * rest);
    assert b + top * rest == m * (q + even) + b % m by {
      Regroup(m, k, rest, q);
    }
    DivisionIsUnique(b + top * rest, m, q + even, b % m);
    SameParity(q, k * rest);
  }

  lemma SameParity(q: nat, x: nat)
    ensures (q + 2 * x) % 2 == q % 2
  {
  }

  lemma Regroup(m: nat, k: nat, rest: nat, q: nat)
    ensures m * (q + 2 * (k * rest)) == m * q + (m * (2 * k)) * rest
  {
  }

  lemma HighByteBit(b: Byte, rest: nat, i: nat)
    requires i >= 8
    ensures (b + 256 * rest) / Pow2(i) == rest / Pow2(i - 8)
  {
    Pow2Add(8, i - 8);
    assert Pow2(8) == 256;
    HighQuotient(b, rest, Pow2(i - 8), 256);
  }

  lemma HighQuotient(b: nat, rest: nat, m: nat, top: nat)
    requires m > 0 && b < top
    ensures top * m > 0 && (b + top * rest) / (top * m) == rest / m
  {
    var q, r := rest / m, rest % m;
    assert rest == m * q + r;
    assert (top * m) * q == top * (m * q);
    ProductGrows(top, r + 1, m);
    DivisionIsUnique(b + top * rest, top * m, q, top * r + b);
  }

  ghost predicate Clamped(n: seq<Byte>)
    requires |n| == 32
  {
    var k := DecodeLittleEndian(n);
    BitOf(k, 0) == 0 && BitOf(k, 1) == 0 && BitOf(k, 2) == 0 && BitOf(k, 254) == 1
  }

  lemma ClampClamps(b: seq<Byte>)
    requires |b| == 32
    ensures Clamped(Clamp(b))
  {
    var n := Clamp(b);
    ClampedLowBits(n[0]);
    ClampedHighBit(n[31]);
    hide BitOf, DecodeLittleEndian, Pow2;
    BitOfByte(n, 0);
    BitOfByte(n, 1);
    BitOfByte(n, 2);
    BitOfByte(n, 254);
  }

  /** Clamping clears bits 0, 1, 2 and 255, sets bit 254, and leaves all others. */
  lemma ClampBits(b: seq<Byte>, i: nat)
    requires |b| == 32 && i < 256
    ensures BitOf(DecodeLittleEndian(Clamp(b)), i)
         == if i < 3 || i == 255 then 0 else if i == 254 then 1 else BitOf(DecodeLittleEndian(b), i)
  {
    hide BitOf, DecodeLittleEndian, Pow2;
    BitOfByte(b, i);
    BitOfByte(Clamp(b), i);
    if i < 8 {
      LowByteBits(b[0], i);
    } else if i >= 248 {
      HighByteBits(b[31], i - 248);
    }
  }

  lemma LowByteBits(x: Byte, j: nat)
    requires j < 8
    ensures ((x - x % 8) / Pow2(j)) % 2 == if j < 3 then 0 else (x / Pow2(j)) % 2
  {
    var w, low := x / 8, x % 8;
    assert x == low + 8 * w;
    ThreeBits();
    if j < 3 {
      TwoFactors(j, 3);
      hide Pow2;
      LowQuotient(0, w, Pow2(j), Pow2(2 - j), 8);
    } else {
      Pow2Add(3, j - 3);
      hide Pow2;
      HighQuotient(0, w, Pow2(j - 3), 8);
      HighQuotient(low, w, Pow2(j - 3), 8);
    }
  }

  lemma ThreeBits()
    ensures Pow2(3) == 8 && Pow2(6) == 64
  {
  }

  lemma TwoFactors(j: nat, n: nat)
    requires j < n
    ensures Pow2(j) * (2 * Pow2(n - 1 - j)) == Pow2(n)
  {
    Pow2Add(j, n - j);
  }

  lemma HighByteBits(x: Byte, j: nat)
    requires j < 8
    ensures ((64 + x % 64) / Pow2(j)) % 2 == if j == 7 then 0 else if j == 6 then 1 else (x / Pow2(j)) % 2
  {
    var q, y := x / 64, x % 64;
    assert x == y + 64 * q;
    ThreeBits();
    SevenBits();
    if j < 6 {
      TwoFactors(j, 6);
      hide Pow2;
      LowQuotient(y, q, Pow2(j), Pow2(5 - j), 64);
      LowQuotient(y, 1, Pow2(j), Pow2(5 - j), 64);
    } else {
      TopBits(y, j, Pow2(j));
      hide Pow2;
    }
  }

  lemma TopBits(y: nat, j: nat, m: nat)
    requires y < 64 && (j == 6 || j == 7) && m == if j == 6 then 64 else 128
    ensures ((64 + y) / m) % 2 == if j == 7 then 0 else 1
  {
  }

  /** The coordinate is the lower 255 bits of the point, modulo p. */
  lemma CoordinateIs(u: seq<Byte>, n: nat)
    requires |u| == 32 && n == 255
    ensures DecodeUCoordinate(u) == (DecodeLittleEndian(u) % Pow2(n)) % P
  {
    hide Pow2, DecodeLittleEndian;
    var low, top := u[..31], u[31];
    assert u == low + [top] && u[31 := top % 128] == low + [top % 128];
    TopCut(low, top);
  }

  lemma TopCut(low: seq<Byte>, top: Byte)
    ensures DecodeLittleEndian(low + [top % 128]) == DecodeLittleEndian(low + [top]) % Pow2(8 * |low| + 7)
  {
    hide Pow2, DecodeLittleEndian;
    var m := 8 * |low|;
    LastByte(low, top);
    LastByte(low, top % 128);
    LittleEndianBound(low);
    Pow2Add(m, 7);
    SevenBits();
    CutTop(DecodeLittleEndian(low), Pow2(m), top);
  }

  lemma SevenBits()
    ensures Pow2(7) == 128
  {
  }

  lemma CutTop(low: nat, m: nat, top: nat)
    requires low < m && top < 256
    ensures (low + m * top) % (m * 128) == low + m * (top % 128)
  {
    var q, r := top / 128, top % 128;
    assert m * top == (m * 128) * q + m * r;
    ProductGrows(m, r + 1, 128);
    DivisionIsUnique(low + m * top, m * 128, q, low + m * r);
  }

  lemma {:induction false} LastByte(low: seq<Byte>, top: Byte)
    ensures DecodeLittleEndian(low + [top]) == DecodeLittleEndian(low) + Pow2(8 * |low|) * top
  {
    if low == [] {
      assert low + [top] == [top] && [top][1..] == [];
    } else {
      LastByte(low[1..], top);
      assert (low + [top])[1..] == low[1..] + [top];
      Pow2Add(8, 8 * |low[1..]|);
      EightBits();
      Scaled(Pow2(8 * |low[1..]|), top);
      hide Pow2;
    }
  }

  lemma EightBits()
    ensures Pow2(8) == 256
  {
  }

  lemma Scaled(m: nat, x: nat)
    ensures 256 * (m * x) == (256 * m) * x
  {
  }

  lemma {:induction false} LittleEndianBound(b: seq<Byte>)
    ensures DecodeLittleEndian(b) < Pow2(8 * |b|)
  {
    if b != [] {
      LittleEndianBound(b[1..]);
      Pow2Add(8, 8 * |b[1..]|);
      EightBits();
      hide Pow2;
    }
  }

  /** The result, read back as a little-endian number, is the coordinate. */
  lemma {:induction false} EncodedIs(n: nat, len: nat)
    requires n < Pow2(8 * len)
    ensures DecodeLittleEndian(EncodeLittleEndian(n, len)) == n
    decreases len
  {
    if len > 0 {
      Pow2Add(8, 8 * (len - 1));
      EightBits();
      hide Pow2;
      EncodedIs(n / 256, len - 1);
      assert EncodeLittleEndian(n, len)[1..] == EncodeLittleEndian(n / 256, len - 1);
    }
  }

  /** X25519, read as numbers: with the scalar clamped bit by bit and the coordinate cut to 255
      bits, the result is x / z of the first point of the pair after all bits. */
  lemma X25519Is(k: seq<Byte>, u: seq<Byte>, c: nat, x1: Felem, n: nat)
    requires |k| == 32 && |u| == 32 && n == 255
    requires c == DecodeLittleEndian(Clamp(k)) && x1 == DecodeUCoordinate(u)
    ensures forall i: nat | i < 256 ::
              BitOf(c, i) == if i < 3 || i == 255 then 0 else if i == 254 then 1 else BitOf(DecodeLittleEndian(k), i)
    ensures x1 == (DecodeLittleEndian(u) % Pow2(n)) % P
    ensures |X25519(k, u)| == 32
    ensures DecodeLittleEndian(X25519(k, u)) == Mul(Pair(c, x1, 0).x2, Power(Pair(c, x1, 0).z2, P - 2))
  {
    hide BitOf, DecodeLittleEndian, EncodeLittleEndian, Pow2, Clamp, DecodeUCoordinate, ScalarMult, Mul, Power, Pair;
    forall i: nat | i < 256
      ensures BitOf(c, i) == if i < 3 || i == 255 then 0 else if i == 254 then 1 else BitOf(DecodeLittleEndian(k), i)
    {
      ClampBits(k, i);
    }
    CoordinateIs(u, n);
    ScalarMultIsPair(c, x1, n);
    PIsTwoTo255Minus19(n);
    Pow2Add(n, 1);
    assert n + 1 == 8 * 32;
    EncodedIs(ScalarMult(c, x1), 32);
  }

  lemma ClampedLowBits(x: Byte)
    requires x % 8 == 0
    ensures (x / Pow2(0)) % 2 == (x / Pow2(1)) % 2 == (x / Pow2(2)) % 2 == 0
  {
    assert Pow2(0) == 1 && Pow2(1) == 2 && Pow2(2) == 4;
  }

  lemma ClampedHighBit(x: Byte)
    requires 64 <= x < 128
    ensures (x / Pow2(6)) % 2 == 1
  {
    assert Pow2(6) == 64;
  }

  /** The first bit of the RFC's loop finds the points swapped, which is where donna starts. */
  lemma PreSwapped(k: nat, q: Felem, t: nat)
    requires t == 254 && BitOf(k, 254) == 1
    ensures Loop(k, q, t + 1, Ladder(1, 0, q, 1), 0) == Loop(k, q, t, Step(q, Ladder(q, 1, 1, 0)), 1)
  {
    hide Step, BitOf;
  }

  method ScalarMultDonna(n: seq<Byte>, basepoint: seq<Byte>) returns (mypublic: seq<Byte>)
    requires |n| == 32 && |basepoint| == 32 && Clamped(n)
    ensures mypublic == EncodeLittleEndian(ScalarMult(DecodeLittleEndian(n), DecodeUCoordinate(basepoint)), 32)
  {
    var nqpqx: Felem, nqpqz: Felem, nqz: Felem := 1, 0, 1;
    var q := DecodeUCoordinate(basepoint);
    var nqx := q;
    var qx: Felem, qpqx: Felem, qqx: Felem, zzz: Felem;
    var lastbit := 1;

    ghost var k := DecodeLittleEndian(n);
    ghost var rfc := Loop(k, q, 255, Ladder(1, 0, q, 1), 0);
    PreSwapped(k, q, 254);
    hide Add, Sub, Mul, Step, BitOf, Loop, Pow2, DecodeLittleEndian;
    for i := 254 downto 2
      invariant rfc == Loop(k, q, i, Step(q, Ladder(nqx, nqz, nqpqx, nqpqz)), lastbit)
      invariant lastbit == BitOf(k, i)
    {
      ghost var s := Ladder(nqx, nqz, nqpqx, nqpqz);
      DonnaStep(q, s);
      qx := Add(nqx, nqz);
      nqz := Sub(nqx, nqz);
      qpqx := Add(nqpqx, nqpqz);
      nqpqz := Sub(nqpqx, nqpqz);
      nqpqx := Mul(qpqx, nqz);
      nqpqz := Mul(qx, nqpqz);
      qqx := Add(nqpqx, nqpqz);
      nqpqz := Sub(nqpqx, nqpqz);
      nqpqz := Mul(nqpqz, nqpqz);
      nqpqx := Mul(qqx, qqx);
      nqpqz := Mul(nqpqz, q);
      qx := Mul(qx, qx);
      nqz := Mul(nqz, nqz);
      nqx := Mul(qx, nqz);
      nqz := Sub(qx, nqz);
      zzz := Mul(nqz, 121665);
      zzz := Add(zzz, qx);
      nqz := Mul(nqz, zzz);
      assert Ladder(nqx, nqz, nqpqx, nqpqz) == Step(q, s);

      var bit := (n[i / 8] / Pow2(i % 8)) % 2;
      BitOfByte(n, i);
      LoopStep(k, q, i, Step(q, s), lastbit);
      if bit != lastbit {
        nqx, nqpqx := nqpqx, nqx;
        nqz, nqpqz := nqpqz, nqz;
      }
      lastbit := bit;
    }

    ghost var s := Ladder(nqx, nqz, nqpqx, nqpqz);
    LastTwoBits(k, q, Step(q, s));
    DoublesOnly(q, s);
    DoublesOnly(q, Step(q, s));
    DoublesOnly(q, Step(q, Step(q, s)));
    for i := 0 to 3
      invariant (rfc.x2, rfc.z2) == Doublings(nqx, nqz, 3 - i)
    {
      DonnaDouble(nqx, nqz);
      qx := Add(nqx, nqz);
      nqz := Sub(nqx, nqz);
      qx := Mul(qx, qx);
      nqz := Mul(nqz, nqz);
      nqx := Mul(qx, nqz);
      nqz := Sub(qx, nqz);
      zzz := Mul(nqz, 121665);
      zzz := Add(zzz, qx);
      nqz := Mul(nqz, zzz);
    }

    var zmone := Recip(nqz);
    nqz := Mul(nqx, zmone);
    mypublic := EncodeLittleEndian(nqz, 32);
  }

  /** One turn of the RFC's loop: swap if the bit differs from the last one, then step. */
  lemma LoopStep(k: nat, q: Felem, t: nat, s: Ladder, swap: int)
    requires t > 0
    ensures Loop(k, q, t + 1, s, swap) == Loop(k, q, t, Step(q, ConditionalSwap(swap != BitOf(k, t), s)), BitOf(k, t))
  {
    hide Step, BitOf;
  }

  function Doublings(x: Felem, z: Felem, n: nat): (Felem, Felem)
    decreases n
  {
    if n == 0 then (x, z) else Doublings(Double(x, z).0, Double(x, z).1, n - 1)
  }

  lemma DonnaDouble(x: Felem, z: Felem)
    ensures var qx, nqz := Add(x, z), Sub(x, z);
            var aa, bb := Mul(qx, qx), Mul(nqz, nqz);
            var e := Sub(aa, bb);
            Double(x, z) == (Mul(aa, bb), Mul(e, Add(Mul(e, A24), aa)))
  {
    DonnaStep(0, Ladder(x, z, 0, 0));
  }

  /** The whole key exchange function: clamp, then run the ladder.  It is X25519. */
  method Curve25519Donna(secret: seq<Byte>, basepoint: seq<Byte>) returns (mypublic: seq<Byte>)
    requires |secret| == 32 && |basepoint| == 32
    ensures mypublic == X25519(secret, basepoint)
  {
    var e := secret;
    e := e[0 := e[0] - e[0] % 8];
    e := e[31 := e[31] % 128];
    e := e[31 := 64 + e[31] % 64];
    assert e == Clamp(secret);
    ClampClamps(secret);
    mypublic := ScalarMultDonna(e, basepoint);
  }
}
