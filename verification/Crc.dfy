/** The parametric CRC register of tsk/base/crc.c as a linear map over GF(2). */
module CrcRegister {
  import opened Unsigned
  import opened Gf2

  /** A width in [8, 32] and a polynomial of that many bits; the generator adds the top term x^width. */
  ghost predicate Params(w: nat, poly: nat) { 8 <= w <= 32 && poly < Pow2(w) }

  function Generator(w: nat, poly: nat): nat { Pow2(w) + poly }

  /** One pass of the loop in cm_nxt: multiply by x, and subtract the generator when the degree reaches w. */
  function Step(w: nat, g: nat, reg: nat): nat
    requires w > 0
  {
    if reg >= Pow2(w - 1) then Xor(2 * reg, g) else 2 * reg
  }

  function StepN(w: nat, g: nat, reg: nat, n: nat): nat
    requires w > 0
    decreases n
  {
    if n == 0 then reg else StepN(w, g, Step(w, g, reg), n - 1)
  }

  /** cm_nxt on a byte already reflected as required. */
  function Feed(w: nat, g: nat, reg: nat, c: Byte): nat
    requires w >= 8
  {
    StepN(w, g, Xor(reg, Shl(c, w - 8)), 8)
  }

  function FeedAll(w: nat, g: nat, reg: nat, message: seq<Byte>): nat
    requires w >= 8
    decreases |message|
  {
    if |message| == 0 then reg else FeedAll(w, g, Feed(w, g, reg, message[0]), message[1..])
  }

  /** The message as a polynomial, first byte most significant. */
  function Value(message: seq<Byte>): nat
    decreases |message|
  {
    if |message| == 0 then 0 else 256 * Value(message[..|message| - 1]) + message[|message| - 1]
  }

  // ----- one step

  lemma GeneratorDegree(w: nat, poly: nat)
    requires poly < Pow2(w)
    ensures Pow2(w) <= Generator(w, poly) < Pow2(w + 1)
  {
  }

  /** The register keeps its width. */
  lemma StepBound(w: nat, g: nat, reg: nat)
    requires w > 0 && Pow2(w) <= g < Pow2(w + 1) && reg < Pow2(w)
    ensures Step(w, g, reg) < Pow2(w)
  {
    if reg >= Pow2(w - 1) {
      TopCancels(w, 2 * reg, g);
    }
  }

  /** Two polynomials of degree w differ by one of smaller degree. */
  lemma TopCancels(w: nat, a: nat, b: nat)
    requires Pow2(w) <= a < Pow2(w + 1) && Pow2(w) <= b < Pow2(w + 1)
    ensures Xor(a, b) == Xor(a - Pow2(w), b - Pow2(w)) < Pow2(w)
  {
    PowNext(w);
    hide *;
    ShlOne(w);
    XorHalves(1, 1, a - Pow2(w), b - Pow2(w), w);
    XorSelf(1);
    ShlZero(0, w);
    XorBound(a - Pow2(w), b - Pow2(w), w);
  }

  /** A step multiplies by x modulo the generator. */
  lemma StepCongruent(w: nat, g: nat, reg: nat)
    requires w > 0
    ensures Congruent(Step(w, g, reg), 2 * reg, g)
  {
    if reg >= Pow2(w - 1) {
      XorCommutes(2 * reg, g);
      XorCancels(g, 2 * reg);
      MulOne(g);
      assert Xor(Step(w, g, reg), 2 * reg) == Mul(1, g);
    } else {
      CongruentRefl(2 * reg, g);
    }
  }

  lemma StepIs(w: nat, g: nat, reg: nat)
    requires w > 0
    ensures Step(w, g, reg) == if reg >= Pow2(w - 1) then Xor(2 * reg, g) else 2 * reg
  {
  }

  /** A step is linear. */
  lemma StepLinear(w: nat, g: nat, a: nat, b: nat)
    requires w > 0 && a < Pow2(w) && b < Pow2(w)
    ensures Step(w, g, Xor(a, b)) == Xor(Step(w, g, a), Step(w, g, b))
  {
    PowNext(w - 1);
    hide *;
    XorCommutes(a, b);
    XorCommutes(Step(w, g, a), Step(w, g, b));
    if a < Pow2(w - 1) {
      StepLinearLow(w, g, b, a);
    } else if b < Pow2(w - 1) {
      StepLinearLow(w, g, a, b);
    } else {
      StepLinearHigh(w, g, a, b);
    }
  }

  lemma StepLinearLow(w: nat, g: nat, a: nat, b: nat)
    requires w > 0 && b < Pow2(w - 1)
    ensures Step(w, g, Xor(a, b)) == Xor(Step(w, g, a), Step(w, g, b))
  {
    hide *;
    StepIs(w, g, a);
    StepIs(w, g, b);
    StepIs(w, g, Xor(a, b));
    XorDoubles(a, b);
    if a >= Pow2(w - 1) {
      XorKeepsDegree(a, b, w - 1);
      XorAssociates(2 * a, g, 2 * b);
      XorCommutes(g, 2 * b);
      XorAssociates(2 * a, 2 * b, g);
    } else {
      XorBound(a, b, w - 1);
    }
  }

  lemma StepLinearHigh(w: nat, g: nat, a: nat, b: nat)
    requires w > 0 && Pow2(w - 1) <= a < 2 * Pow2(w - 1) && Pow2(w - 1) <= b < 2 * Pow2(w - 1)
    ensures Step(w, g, Xor(a, b)) == Xor(Step(w, g, a), Step(w, g, b))
  {
    PowNext(w - 1);
    hide *;
    StepIs(w, g, a);
    StepIs(w, g, b);
    StepIs(w, g, Xor(a, b));
    XorDoubles(a, b);
    TopCancels(w - 1, a, b);
    XorBoth(2 * a, 2 * b, g);
  }

  /** Adding one polynomial to both sides does not change their sum. */
  lemma XorBoth(a: nat, b: nat, g: nat)
    ensures Xor(Xor(a, g), Xor(b, g)) == Xor(a, b)
  {
    hide *;
    XorSwaps(a, g, b, g);
    XorSelf(g);
    XorZeroRight(Xor(a, b));
  }

  // ----- many steps

  lemma {:induction false} StepNBound(w: nat, g: nat, reg: nat, n: nat)
    requires w > 0 && Pow2(w) <= g < Pow2(w + 1) && reg < Pow2(w)
    ensures StepN(w, g, reg, n) < Pow2(w)
    decreases n
  {
    if n != 0 {
      StepBound(w, g, reg);
      StepNBound(w, g, Step(w, g, reg), n - 1);
    }
  }

  lemma {:induction false} StepNLinear(w: nat, g: nat, a: nat, b: nat, n: nat)
    requires w > 0 && Pow2(w) <= g < Pow2(w + 1) && a < Pow2(w) && b < Pow2(w)
    ensures StepN(w, g, Xor(a, b), n) == Xor(StepN(w, g, a, n), StepN(w, g, b, n))
    decreases n
  {
    if n != 0 {
      StepLinear(w, g, a, b);
      StepBound(w, g, a);
      StepBound(w, g, b);
      StepNLinear(w, g, Step(w, g, a), Step(w, g, b), n - 1);
    }
  }

  lemma {:induction false} StepNAdds(w: nat, g: nat, reg: nat, m: nat, n: nat)
    requires w > 0
    ensures StepN(w, g, StepN(w, g, reg, m), n) == StepN(w, g, reg, m + n)
    decreases m
  {
    if m != 0 {
      StepNAdds(w, g, Step(w, g, reg), m - 1, n);
    }
  }

  /** As long as nothing reaches degree w, steps only shift. */
  lemma {:induction false} StepNShifts(w: nat, g: nat, e: nat, n: nat)
    requires w > 0 && Shl(e, n) < Pow2(w)
    ensures StepN(w, g, e, n) == Shl(e, n)
    decreases n
  {
    if n != 0 {
      ShlInside(e, n - 1);
      ShlGrows(e, n - 1);
      StepNShifts(w, g, 2 * e, n - 1);
    }
  }

  lemma {:induction false} ShlGrows(e: nat, n: nat)
    ensures e <= Shl(e, n)
    decreases n
  {
    if n != 0 {
      ShlGrows(e, n - 1);
    }
  }

  lemma {:induction false} StepNZero(w: nat, g: nat, n: nat)
    requires w > 0
    ensures StepN(w, g, 0, n) == 0
    decreases n
  {
    if n != 0 {
      StepNZero(w, g, n - 1);
    }
  }

  lemma {:induction false} StepNCongruent(w: nat, g: nat, reg: nat, n: nat)
    requires w > 0
    ensures Congruent(StepN(w, g, reg, n), Shl(reg, n), g)
    decreases n
  {
    if n == 0 {
      CongruentRefl(reg, g);
    } else {
      StepNCongruent(w, g, Step(w, g, reg), n - 1);
      StepCongruent(w, g, reg);
      CongruentShift(Step(w, g, reg), 2 * reg, g, n - 1);
      ShlInside(reg, n - 1);
      CongruentTrans(StepN(w, g, reg, n), Shl(Step(w, g, reg), n - 1), Shl(reg, n), g);
    }
  }

  // ----- bytes

  lemma PreloadBound(w: nat, reg: nat, c: Byte)
    requires w >= 8 && reg < Pow2(w)
    ensures Shl(c, w - 8) < Pow2(w) && Xor(reg, Shl(c, w - 8)) < Pow2(w)
  {
    EightBits(c);
    ShlBound(c, 8, w - 8);
    XorBound(reg, Shl(c, w - 8), w);
  }

  lemma FeedBound(w: nat, g: nat, reg: nat, c: Byte)
    requires w >= 8 && Pow2(w) <= g < Pow2(w + 1) && reg < Pow2(w)
    ensures Feed(w, g, reg, c) < Pow2(w)
  {
    PreloadBound(w, reg, c);
    StepNBound(w, g, Xor(reg, Shl(c, w - 8)), 8);
  }

  lemma {:induction false} FeedAllBound(w: nat, g: nat, reg: nat, message: seq<Byte>)
    requires w >= 8 && Pow2(w) <= g < Pow2(w + 1) && reg < Pow2(w)
    ensures FeedAll(w, g, reg, message) < Pow2(w)
    decreases |message|
  {
    if |message| != 0 {
      FeedBound(w, g, reg, message[0]);
      FeedAllBound(w, g, Feed(w, g, reg, message[0]), message[1..]);
    }
  }

  /** Feeding two messages one after the other is feeding their concatenation. */
  lemma {:induction false} FeedAllAppend(w: nat, g: nat, reg: nat, a: seq<Byte>, b: seq<Byte>)
    requires w >= 8
    ensures FeedAll(w, g, reg, a + b) == FeedAll(w, g, FeedAll(w, g, reg, a), b)
    decreases |a|
  {
    if |a| == 0 {
      assert a + b == b;
    } else {
      assert (a + b)[0] == a[0] && (a + b)[1..] == a[1..] + b;
      FeedAllAppend(w, g, Feed(w, g, reg, a[0]), a[1..], b);
    }
  }

  /** The dividend: init * x^(8n) + M(x) * x^w. */
  function Dividend(w: nat, init: nat, message: seq<Byte>): nat {
    Xor(Shl(init, 8 * |message|), Shl(Value(message), w))
  }

  /** The dividend of a message one byte longer. */
  lemma DividendNext(w: nat, init: nat, message: seq<Byte>, c: Byte)
    requires w >= 8
    ensures Dividend(w, init, message + [c]) == Xor(Shl(Dividend(w, init, message), 8), Shl(c, w))
  {
    var v, n := Value(message), |message|;
    ValueNext(message, c);
    hide *;
    XorShifts(Shl(v, 8), c, w);
    ShlAdds(v, 8, w);
    ShlAdds(v, w, 8);
    ShlAdds(init, 8 * n, 8);
    XorShifts(Shl(init, 8 * n), Shl(v, w), 8);
    XorAssociates(Shl(init, 8 * n + 8), Shl(v, w + 8), Shl(c, w));
    DividendIs(w, init, message);
    DividendIs(w, init, message + [c]);
  }

  lemma DividendIs(w: nat, init: nat, message: seq<Byte>)
    ensures Dividend(w, init, message) == Xor(Shl(init, 8 * |message|), Shl(Value(message), w))
  {
  }

  lemma ValueNext(message: seq<Byte>, c: Byte)
    ensures Value(message + [c]) == Xor(Shl(Value(message), 8), c)
  {
    var v := Value(message);
    assert (message + [c])[..|message|] == message;
    EightBits(v);
    XorIsSum(v, c, 8);
  }

  lemma EightBits(v: nat)
    ensures Pow2(8) == 256 && Shl(v, 8) == 256 * v
  {
    assert Pow2(4) == 16 && Shl(v, 4) == 16 * v;
  }

  lemma FeedIs(w: nat, g: nat, reg: nat, c: Byte)
    requires w >= 8
    ensures Feed(w, g, reg, c) == StepN(w, g, Xor(reg, Shl(c, w - 8)), 8)
  {
    hide StepN, Xor, Shl;
  }

  /** One byte multiplies the register by x^8 and adds the byte, modulo the generator. */
  lemma FeedCongruent(w: nat, g: nat, reg: nat, c: Byte, p: nat)
    requires w >= 8 && Congruent(reg, p, g)
    ensures Congruent(Feed(w, g, reg, c), Xor(Shl(p, 8), Shl(c, w)), g)
  {
    hide *;
    var start := Xor(reg, Shl(c, w - 8));
    FeedIs(w, g, reg, c);
    StepNCongruent(w, g, start, 8);
    XorShifts(reg, Shl(c, w - 8), 8);
    ShlAdds(c, w - 8, 8);
    CongruentShift(reg, p, g, 8);
    CongruentAdd(Shl(reg, 8), Shl(p, 8), Shl(c, w), g);
    CongruentTrans(Feed(w, g, reg, c), Shl(start, 8), Xor(Shl(p, 8), Shl(c, w)), g);
  }

  lemma {:induction false} FeedAllCongruent(w: nat, g: nat, init: nat, message: seq<Byte>)
    requires w >= 8
    ensures Congruent(FeedAll(w, g, init, message), Dividend(w, init, message), g)
    decreases |message|
  {
    if |message| == 0 {
      ShlZero(0, w);
      XorCommutes(init, 0);
      CongruentRefl(init, g);
    } else {
      var n := |message| - 1;
      var front, c := message[..n], message[n];
      assert message == front + [c];
      FeedAllCongruent(w, g, init, front);
      FeedAllAppend(w, g, init, front, [c]);
      var reg := FeedAll(w, g, init, front);
      assert FeedAll(w, g, reg, [c]) == Feed(w, g, reg, c);
      FeedCongruent(w, g, reg, c, Dividend(w, init, front));
      DividendNext(w, init, front, c);
    }
  }

  /** The register after a message is the remainder of init * x^(8n) + M(x) * x^w on division
      by x^w + poly, and it is the only one. */
  lemma RegisterIsRemainder(w: nat, poly: nat, init: nat, message: seq<Byte>, r: nat)
    requires Params(w, poly) && init < Pow2(w)
    ensures IsRemainder(r, Dividend(w, init, message), Generator(w, poly), w)
       <==> r == FeedAll(w, Generator(w, poly), init, message)
  {
    var g := Generator(w, poly);
    var reg := FeedAll(w, g, init, message);
    GeneratorDegree(w, poly);
    FeedAllBound(w, g, init, message);
    FeedAllCongruent(w, g, init, message);
    CongruentIsRemainder(reg, Dividend(w, init, message), g, w);
    if IsRemainder(r, Dividend(w, init, message), g, w) {
      RemainderIsUnique(r, reg, Dividend(w, init, message), g, w);
    }
  }
}

/** Reversing the low bits of a number. */
module BitReflection {
  import opened Unsigned
  import opened Gf2

  /** The low b bits of v in reverse order. */
  function ReflectLow(v: nat, b: nat): nat
    decreases b
  {
    if b == 0 then 0 else 2 * ReflectLow(v, b - 1) + Bit(v, b - 1)
  }

  /** v with its low b bits reversed. */
  function Reflect(v: nat, b: nat): nat { Shl(High(v, b), b) + ReflectLow(v, b) }

  lemma {:induction false} ReflectLowBound(v: nat, b: nat)
    ensures ReflectLow(v, b) < Pow2(b)
    decreases b
  {
    if b != 0 {
      ReflectLowBound(v, b - 1);
    }
  }

  lemma {:induction false} ReflectLowBit(v: nat, b: nat, j: nat)
    requires j < b
    ensures Bit(ReflectLow(v, b), j) == Bit(v, b - 1 - j)
    decreases b
  {
    if j != 0 {
      ReflectLowBit(v, b - 1, j - 1);
    }
  }

  /** A number of b bits stays one, and bit i becomes bit b - 1 - i. */
  lemma ReflectBit(v: nat, b: nat)
    requires v < Pow2(b)
    ensures Reflect(v, b) < Pow2(b)
    ensures forall i :: 0 <= i < b ==> Bit(Reflect(v, b), i) == Bit(v, b - 1 - i)
  {
    SmallHigh(v, b);
    ReflectLowBound(v, b);
    hide Bit, ReflectLow;
    forall i | 0 <= i < b ensures Bit(Reflect(v, b), i) == Bit(v, b - 1 - i) {
      ReflectLowBit(v, b, i);
    }
  }

  /** Reversing twice restores the number. */
  lemma ReflectInvolutive(v: nat, b: nat)
    requires v < Pow2(b)
    ensures Reflect(v, b) < Pow2(b) && Reflect(Reflect(v, b), b) == v
  {
    hide *;
    ReflectBit(v, b);
    var r := Reflect(v, b);
    ReflectBit(r, b);
    forall i | 0 <= i < b ensures Bit(Reflect(r, b), i) == Bit(v, i) {
      assert Bit(r, b - 1 - i) == Bit(v, b - 1 - (b - 1 - i));
    }
    SameBits(Reflect(r, b), v, b);
  }

  lemma SmallHigh(v: nat, b: nat)
    requires v < Pow2(b)
    ensures High(v, b) == 0 && Shl(High(v, b), b) == 0
  {
    ShlZero(0, b);
    SplitIsUnique(0, v, b);
  }

  /** v |= 1 << k. */
  function SetBit(v: nat, k: nat): nat { if Bit(v, k) == 1 then v else v + Pow2(k) }

  /** v &= ~(1 << k). */
  function ClearBit(v: nat, k: nat): nat {
    if Bit(v, k) == 1 then (Split(v, k); PowBelow(High(v, k), k); v - Pow2(k)) else v
  }

  lemma {:induction false} PowBelow(h: nat, k: nat)
    requires h >= 1
    ensures Shl(h, k) >= Pow2(k)
    decreases k
  {
    if k != 0 {
      PowBelow(h, k - 1);
    }
  }

  /** Writing one bit leaves the bits above and below alone. */
  lemma WriteBit(a: nat, bit: nat, low: nat, k: nat)
    requires bit < 2 && low < Pow2(k)
    ensures SetBit(Shl(2 * a + bit, k) + low, k) == Shl(2 * a + 1, k) + low
    ensures ClearBit(Shl(2 * a + bit, k) + low, k) == Shl(2 * a, k) + low
  {
    hide Shl, High, Low, Pow2;
    SplitIsUnique(2 * a + bit, low, k);
    ShlSum(2 * a, 1, k);
    ShlOne(k);
    assert (2 * a + bit) % 2 == bit;
  }

  /** The low part up to bit k, split at bit k. */
  lemma {:induction false} LowTop(v: nat, k: nat)
    ensures Low(v, k + 1) == Shl(Bit(v, k), k) + Low(v, k)
    decreases k
  {
    if k != 0 {
      LowTop(v / 2, k - 1);
    }
  }

  lemma {:induction false} HighNext(v: nat, i: nat)
    ensures High(v, i + 1) == High(v, i) / 2
    decreases i
  {
    if i != 0 {
      HighNext(v / 2, i - 1);
    }
  }

  /** The value of v in the loop of reflect after i passes. */
  function Partial(v: nat, b: nat, i: nat): nat
    requires i <= b
  {
    Shl(High(v, b), b) + Shl(ReflectLow(v, i), b - i) + Low(v, b - i)
  }

  lemma PartialNext(v: nat, b: nat, i: nat)
    requires i < b
    ensures Partial(v, b, i + 1)
         == if Bit(v, i) == 1 then SetBit(Partial(v, b, i), b - 1 - i) else ClearBit(Partial(v, b, i), b - 1 - i)
  {
    hide *;
    var k := b - 1 - i;
    var upper := Shl(High(v, b), i) + ReflectLow(v, i);
    PartialNow(v, b, i);
    PartialAfter(v, b, i);
    Split(v, k);
    BitIsBit(v, k);
    BitIsBit(v, i);
    WriteBit(upper, Bit(v, k), Low(v, k), k);
  }

  /** Before the pass: the bits above position b - 1 - i, the bit itself, and the bits below. */
  lemma PartialNow(v: nat, b: nat, i: nat)
    requires i < b
    ensures var k := b - 1 - i;
            Partial(v, b, i) == Shl(2 * (Shl(High(v, b), i) + ReflectLow(v, i)) + Bit(v, k), k) + Low(v, k)
  {
    hide *;
    var k := b - 1 - i;
    var top, r := Shl(High(v, b), i), ReflectLow(v, i);
    PartialParts(v, b, i);
    LowTop(v, k);
    ShlAdds(High(v, b), i, k + 1);
    ShlSum(top, r, k + 1);
    ShlNext(top + r, k);
    ShlInside(top + r, k);
    ShlSum(2 * (top + r), Bit(v, k), k);
  }

  /** After the pass, that bit is bit i of v. */
  lemma PartialAfter(v: nat, b: nat, i: nat)
    requires i < b
    ensures var k := b - 1 - i;
            Partial(v, b, i + 1) == Shl(2 * (Shl(High(v, b), i) + ReflectLow(v, i)) + Bit(v, i), k) + Low(v, k)
  {
    hide *;
    var k := b - 1 - i;
    var top, r := Shl(High(v, b), i), ReflectLow(v, i);
    PartialParts(v, b, i + 1);
    ShlAdds(High(v, b), i, k + 1);
    ShlNext(top, k);
    ShlInside(top, k);
    ShlSum(2 * top, 2 * r + Bit(v, i), k);
  }

  lemma BitIsBit(v: nat, k: nat)
    ensures Bit(v, k) < 2
  {
  }

  lemma PartialParts(v: nat, b: nat, i: nat)
    requires i <= b
    ensures Partial(v, b, i) == Shl(High(v, b), b) + Shl(ReflectLow(v, i), b - i) + Low(v, b - i)
    ensures i > 0 ==> ReflectLow(v, i) == 2 * ReflectLow(v, i - 1) + Bit(v, i - 1)
  {
    hide Shl, High, Low, Bit;
  }

  /** reflect: the loop reverses the low b bits and keeps the others. */
  method ReflectBits(v: nat, b: nat) returns (r: nat)
    ensures r == Reflect(v, b)
  {
    r := v;
    var t := v;
    Split(v, b);
    ShlZero(0, b);
    var i := 0;
    while i < b
      invariant i <= b && t == High(v, i) && r == Partial(v, b, i)
    {
      hide SetBit, ClearBit, Partial, Low;
      PartialNext(v, b, i);
      HighNext(v, i);
      if t % 2 == 1 {
        r := SetBit(r, (b - 1) - i);
      } else {
        r := ClearBit(r, (b - 1) - i);
      }
      t := t / 2;
      i := i + 1;
    }
  }
}
