/** What the register of a CRC tells apart: a window of bytes that fits into the register
    is lost exactly when a low power of x divides the generator. */
module CrcDetection {
  import opened Unsigned
  import opened Digits
  import opened Gf2
  import opened CrcRegister

  // ----- a window of bytes as one addition to the register

  lemma {:induction false} ValueBound(bytes: seq<Byte>)
    ensures Value(bytes) < Pow2(8 * |bytes|)
    decreases |bytes|
  {
    var k := |bytes|;
    if k != 0 {
      ValueBound(bytes[..k - 1]);
      PowAddsEight(8 * (k - 1));
    }
  }

  lemma PowAddsEight(n: nat)
    ensures Pow2(n + 8) == 256 * Pow2(n)
  {
    assert Pow2(n + 2) == 4 * Pow2(n);
    assert Pow2(n + 4) == 4 * Pow2(n + 2);
    assert Pow2(n + 6) == 4 * Pow2(n + 4);
  }

  lemma {:induction false} ValueInjective(a: seq<Byte>, b: seq<Byte>)
    requires |a| == |b| && Value(a) == Value(b)
    ensures a == b
    decreases |a|
  {
    var k := |a|;
    if k != 0 {
      ValueInjective(a[..k - 1], b[..k - 1]);
      assert a == a[..k - 1] + [a[k - 1]] && b == b[..k - 1] + [b[k - 1]];
    }
  }

  lemma {:induction false} ValueOfBytes(v: nat, k: nat)
    requires v < Pow2(8 * k)
    ensures Value(HighFirst(v, k)) == v
    decreases k
  {
    if k != 0 {
      PowAddsEight(8 * (k - 1));
      ValueOfBytes(v / 256, k - 1);
      var bytes := HighFirst(v, k);
      assert bytes[..k - 1] == HighFirst(v / 256, k - 1);
    }
  }

  lemma WindowBound(w: nat, bytes: seq<Byte>)
    requires 8 * |bytes| <= w
    ensures Shl(Value(bytes), w - 8 * |bytes|) < Pow2(w)
  {
    ValueBound(bytes);
    ShlBound(Value(bytes), 8 * |bytes|, w - 8 * |bytes|);
  }

  /** Feeding bytes that fit into the register: add them all at the top, then step. */
  lemma {:induction false} FeedWindow(w: nat, g: nat, reg: nat, bytes: seq<Byte>)
    requires w >= 8 && Pow2(w) <= g < Pow2(w + 1) && reg < Pow2(w)
    requires 8 * |bytes| <= w
    ensures FeedAll(w, g, reg, bytes) == StepN(w, g, Xor(reg, Shl(Value(bytes), w - 8 * |bytes|)), 8 * |bytes|)
    decreases |bytes|
  {
    hide *;
    if |bytes| == 0 {
      WindowOfNothing(w, g, reg, bytes);
    } else {
      var front, c := bytes[..|bytes| - 1], bytes[|bytes| - 1];
      FeedWindow(w, g, reg, front);
      FeedOneMore(w, g, reg, front, c);
      assert bytes == front + [c];
    }
  }

  lemma WindowOfNothing(w: nat, g: nat, reg: nat, bytes: seq<Byte>)
    requires w >= 8 && |bytes| == 0
    ensures FeedAll(w, g, reg, bytes) == StepN(w, g, Xor(reg, Shl(Value(bytes), w)), 0)
  {
    ShlZero(0, w);
    XorZeroRight(reg);
  }

  lemma FeedOneMore(w: nat, g: nat, reg: nat, front: seq<Byte>, c: Byte)
    requires w >= 8 && Pow2(w) <= g < Pow2(w + 1) && reg < Pow2(w)
    requires 8 * |front| + 8 <= w
    requires FeedAll(w, g, reg, front) == StepN(w, g, Xor(reg, Shl(Value(front), w - 8 * |front|)), 8 * |front|)
    ensures FeedAll(w, g, reg, front + [c])
         == StepN(w, g, Xor(reg, Shl(Value(front + [c]), w - 8 * |front| - 8)), 8 * |front| + 8)
  {
    hide *;
    var n, v := 8 * |front|, Value(front);
    var s := w - n - 8;
    var start := Xor(reg, Shl(v, w - n));
    WindowBound(w, front);
    XorBound(reg, Shl(v, w - n), w);
    FeedAllAppend(w, g, reg, front, [c]);
    FeedSingle(w, g, StepN(w, g, start, n), c);
    PreloadBound(w, 0, c);
    ShlAdds(c, s, n);
    ShlSmaller(c, s, n, w);
    StepNShifts(w, g, Shl(c, s), n);
    StepNLinear(w, g, start, Shl(c, s), n);
    StepNAdds(w, g, Xor(start, Shl(c, s)), n, 8);
    ValueNext(front, c);
    XorShifts(Shl(v, 8), c, s);
    ShlAdds(v, 8, s);
    XorAssociates(reg, Shl(v, w - n), Shl(c, s));
  }

  lemma FeedSingle(w: nat, g: nat, reg: nat, c: Byte)
    requires w >= 8
    ensures FeedAll(w, g, reg, [c]) == StepN(w, g, Xor(reg, Shl(c, w - 8)), 8)
  {
    hide StepN, Xor, Shl;
  }

  lemma ShlSmaller(c: Byte, s: nat, n: nat, w: nat)
    requires s + n + 8 == w && Shl(c, w - 8) < Pow2(w)
    ensures Shl(c, s) < Pow2(w)
  {
    hide *;
    ShlAdds(c, s, n);
    ShlGrows(Shl(c, s), n);
  }

  /** The difference of two registers fed the same bytes evolves by steps alone. */
  lemma {:induction false} FeedDifference(w: nat, g: nat, a: nat, b: nat, message: seq<Byte>)
    requires w >= 8 && Pow2(w) <= g < Pow2(w + 1) && a < Pow2(w) && b < Pow2(w)
    ensures Xor(FeedAll(w, g, a, message), FeedAll(w, g, b, message)) == StepN(w, g, Xor(a, b), 8 * |message|)
    decreases |message|
  {
    hide *;
    if |message| == 0 {
      FeedNothing(w, g, a, message);
      FeedNothing(w, g, b, message);
      StepNone(w, g, Xor(a, b), 8 * |message|);
    } else {
      var c, rest := message[0], message[1..];
      FeedOneDifference(w, g, a, b, c);
      FeedBound(w, g, a, c);
      FeedBound(w, g, b, c);
      FeedDifference(w, g, Feed(w, g, a, c), Feed(w, g, b, c), rest);
      StepNAdds(w, g, Xor(a, b), 8, 8 * |rest|);
      assert 8 + 8 * |rest| == 8 * |message|;
      FeedFirst(w, g, a, message);
      FeedFirst(w, g, b, message);
    }
  }

  lemma StepNone(w: nat, g: nat, reg: nat, n: nat)
    requires w > 0 && n == 0
    ensures StepN(w, g, reg, n) == reg
  {
  }

  lemma FeedNothing(w: nat, g: nat, reg: nat, message: seq<Byte>)
    requires w >= 8 && |message| == 0
    ensures FeedAll(w, g, reg, message) == reg
  {
  }

  lemma FeedFirst(w: nat, g: nat, reg: nat, message: seq<Byte>)
    requires w >= 8 && |message| > 0
    ensures FeedAll(w, g, reg, message) == FeedAll(w, g, Feed(w, g, reg, message[0]), message[1..])
  {
    hide Feed;
  }

  lemma FeedOneDifference(w: nat, g: nat, a: nat, b: nat, c: Byte)
    requires w >= 8 && Pow2(w) <= g < Pow2(w + 1) && a < Pow2(w) && b < Pow2(w)
    ensures Xor(Feed(w, g, a, c), Feed(w, g, b, c)) == StepN(w, g, Xor(a, b), 8)
  {
    hide *;
    var e := Shl(c, w - 8);
    PreloadBound(w, a, c);
    PreloadBound(w, b, c);
    FeedIs(w, g, a, c);
    FeedIs(w, g, b, c);
    StepNLinear(w, g, Xor(a, e), Xor(b, e), 8);
    XorSwaps(a, e, b, e);
    XorSelf(e);
    XorCommutes(Xor(a, b), 0);
    XorZeroRight(Xor(a, b));
  }

  /** Two windows of the same length, from the same register: the difference of their
      values, at the top of the register, evolves by steps. */
  lemma WindowDifference(w: nat, g: nat, reg: nat, x: seq<Byte>, y: seq<Byte>)
    requires w >= 8 && Pow2(w) <= g < Pow2(w + 1) && reg < Pow2(w)
    requires |x| == |y| && 8 * |x| <= w
    ensures Xor(FeedAll(w, g, reg, x), FeedAll(w, g, reg, y))
         == StepN(w, g, Shl(Xor(Value(x), Value(y)), w - 8 * |x|), 8 * |x|)
  {
    hide *;
    var s, n := w - 8 * |x|, 8 * |x|;
    var ex, ey := Shl(Value(x), s), Shl(Value(y), s);
    FeedWindow(w, g, reg, x);
    FeedWindow(w, g, reg, y);
    WindowBound(w, x);
    WindowBound(w, y);
    XorBound(reg, ex, w);
    XorBound(reg, ey, w);
    StepNLinear(w, g, Xor(reg, ex), Xor(reg, ey), n);
    XorSwaps(reg, ex, reg, ey);
    XorSelf(reg);
    XorCommutes(0, Xor(ex, ey));
    XorZeroRight(Xor(ex, ey));
    XorShifts(Value(x), Value(y), s);
  }

  /** The same, with bytes before and after the window. */
  lemma MessageDifference(w: nat, g: nat, init: nat, pre: seq<Byte>, x: seq<Byte>, y: seq<Byte>, post: seq<Byte>)
    requires w >= 8 && Pow2(w) <= g < Pow2(w + 1) && init < Pow2(w)
    requires |x| == |y| && 8 * |x| <= w
    ensures Xor(FeedAll(w, g, init, pre + x + post), FeedAll(w, g, init, pre + y + post))
         == StepN(w, g, Shl(Xor(Value(x), Value(y)), w - 8 * |x|), 8 * |x| + 8 * |post|)
  {
    hide *;
    var reg := FeedAll(w, g, init, pre);
    FeedAllBound(w, g, init, pre);
    FeedAllAppend(w, g, init, pre + x, post);
    FeedAllAppend(w, g, init, pre + y, post);
    FeedAllAppend(w, g, init, pre, x);
    FeedAllAppend(w, g, init, pre, y);
    FeedAllBound(w, g, reg, x);
    FeedAllBound(w, g, reg, y);
    WindowDifference(w, g, reg, x, y);
    FeedDifference(w, g, FeedAll(w, g, reg, x), FeedAll(w, g, reg, y), post);
    StepNAdds(w, g, Shl(Xor(Value(x), Value(y)), w - 8 * |x|), 8 * |x|, 8 * |post|);
  }

  // ----- the kernel of the steps

  /** A factor x^m of the generator can be divided out of a step. */
  lemma StepScales(w: nat, g: nat, m: nat, z: nat)
    requires m < w
    ensures Step(w, Shl(g, m), Shl(z, m)) == Shl(Step(w - m, g, z), m)
  {
    ShlOrder(z, w - m - 1, m);
    ShlInside(z, m);
    XorShifts(2 * z, g, m);
  }

  lemma {:induction false} ShlOrder(z: nat, k: nat, m: nat)
    ensures Shl(z, m) >= Pow2(k + m) <==> z >= Pow2(k)
    decreases m
  {
    if m != 0 {
      ShlOrder(z, k, m - 1);
    }
  }

  /** With an odd generator no step loses a nonzero register. */
  lemma StepNonzero(w: nat, g: nat, z: nat)
    requires w > 0 && g % 2 == 1 && z != 0
    ensures Step(w, g, z) != 0
  {
    XorZero(2 * z, g);
  }

  /** A nonzero multiple of x^m stays nonzero when x^m is the largest power of x in the generator. */
  lemma {:induction false} StepNNonzero(w: nat, g: nat, m: nat, z: nat, n: nat)
    requires m < w && g % 2 == 1 && z != 0
    ensures StepN(w, Shl(g, m), Shl(z, m), n) != 0
    decreases n
  {
    if n == 0 {
      ShlZero(z, m);
    } else {
      StepScales(w, g, m, z);
      StepNonzero(w - m, g, z);
      StepNNonzero(w, g, m, Step(w - m, g, z), n - 1);
    }
  }

  /** A number whose low bits are not all zero is an odd number times a small power of two. */
  lemma {:induction false} OddPart(v: nat, k: nat) returns (m: nat, odd: nat)
    requires Low(v, k) != 0
    ensures m < k && odd % 2 == 1 && v == Shl(odd, m)
    decreases k
  {
    if v % 2 == 1 {
      m, odd := 0, v;
    } else {
      m, odd := OddPart(v / 2, k - 1);
      m := m + 1;
    }
  }

  lemma GeneratorFactors(w: nat, odd: nat, m: nat)
    requires m < w && odd % 2 == 1
    ensures Generator(w, Shl(odd, m)) == Shl(Generator(w - m, odd), m) && Generator(w - m, odd) % 2 == 1
  {
    PowEven(w - m);
    hide Shl, Pow2;
    ShlSum(Pow2(w - m), odd, m);
    ShlOne(w - m);
    ShlAdds(1, w - m, m);
    ShlOne(w);
  }

  lemma PowEven(k: nat)
    requires k > 0
    ensures Pow2(k) % 2 == 0
  {
  }

  lemma WindowRoom(w: nat, k: nat)
    requires 8 * k <= w
    ensures w % 8 <= w - 8 * k
  {
  }

  /** Bytes before and after a window do not matter: when the polynomial is not a multiple
      of x^(w mod 8 + 1), windows with different bytes leave different registers. */
  lemma WindowIsSeen(w: nat, poly: nat, init: nat, pre: seq<Byte>, x: seq<Byte>, y: seq<Byte>, post: seq<Byte>)
    requires Params(w, poly) && init < Pow2(w)
    requires Low(poly, w % 8 + 1) != 0
    requires |x| == |y| && 8 * |x| <= w && x != y
    ensures FeedAll(w, Generator(w, poly), init, pre + x + post) != FeedAll(w, Generator(w, poly), init, pre + y + post)
  {
    hide *;
    var m, odd := OddPart(poly, w % 8 + 1);
    var g, s := Generator(w, poly), w - 8 * |x|;
    var e := Xor(Value(x), Value(y));
    WidthOf(w, poly);
    WindowRoom(w, |x|);
    GeneratorDegree(w, poly);
    GeneratorFactors(w, odd, m);
    MessageDifference(w, g, init, pre, x, y, post);
    if Value(x) == Value(y) {
      ValueInjective(x, y);
    }
    XorZero(Value(x), Value(y));
    ShlZero(e, s - m);
    ShlAdds(e, s - m, m);
    StepNNonzero(w, Generator(w - m, odd), m, Shl(e, s - m), 8 * |x| + 8 * |post|);
    XorZero(FeedAll(w, g, init, pre + x + post), FeedAll(w, g, init, pre + y + post));
  }

  lemma WidthOf(w: nat, poly: nat)
    requires Params(w, poly)
    ensures 8 <= w <= 32 && poly < Pow2(w)
  {
  }

  lemma {:induction false} LowIsZero(v: nat, k: nat)
    requires Low(v, k) == 0
    ensures v == Shl(High(v, k), k)
  {
    Split(v, k);
  }

  /** Half the generator is lost in one step. */
  lemma HalfGenerator(w: nat, poly: nat)
    requires w > 0 && poly < Pow2(w) && poly % 2 == 0
    ensures Step(w, Generator(w, poly), Pow2(w - 1) + poly / 2) == 0
  {
    XorSelf(Generator(w, poly));
  }

  /** Otherwise two windows of w / 8 bytes, different but with the same register. */
  lemma WindowIsLost(w: nat, poly: nat, init: nat) returns (x: seq<Byte>, y: seq<Byte>)
    requires Params(w, poly) && init < Pow2(w)
    requires Low(poly, w % 8 + 1) == 0
    ensures |x| == |y| == w / 8 && x != y
    ensures FeedAll(w, Generator(w, poly), init, x) == FeedAll(w, Generator(w, poly), init, y)
  {
    hide *;
    var k, g := w / 8, Generator(w, poly);
    WidthOf(w, poly);
    assert w - 8 * k == w % 8 && k > 0;
    var e := HalfAsWindow(w, poly);
    var half := Pow2(w - 1) + poly / 2;
    HalfGenerator(w, poly);
    GeneratorDegree(w, poly);
    StepNFirst(w, g, half, 8 * k);
    StepNZero(w, g, 8 * k - 1);
    x, y := HighFirst(e, k), HighFirst(0, k);
    ValueOfBytes(e, k);
    ValueOfBytes(0, k);
    XorZeroRight(e);
    WindowDifference(w, g, init, x, y);
    XorZero(FeedAll(w, g, init, x), FeedAll(w, g, init, y));
  }

  lemma StepNFirst(w: nat, g: nat, reg: nat, n: nat)
    requires w > 0 && n > 0
    ensures StepN(w, g, reg, n) == StepN(w, g, Step(w, g, reg), n - 1)
  {
  }

  /** Half the generator, read as the value of a window at the top of the register. */
  lemma HalfAsWindow(w: nat, poly: nat) returns (e: nat)
    requires Params(w, poly) && Low(poly, w % 8 + 1) == 0
    ensures poly % 2 == 0 && 0 < e < Pow2(8 * (w / 8)) && Pow2(w - 1) + poly / 2 == Shl(e, w % 8)
  {
    hide Shl, Low, High, Pow2;
    var r := w % 8;
    var n := w - r;
    assert n == 8 * (w / 8);
    LowIsZero(poly, r + 1);
    var q := High(poly, r + 1);
    ShlNext(q, r);
    e := Pow2(n - 1) + q;
    ShlOne(n - 1);
    ShlAdds(1, n - 1, r);
    ShlOne(w - 1);
    ShlSum(Pow2(n - 1), q, r);
    ShlOrder(q, n - 1, r);
    PowNext(n - 1);
    PowNext(w - 1);
  }

  /** With w a multiple of 8, feeding the register its own bytes, most significant first, clears it. */
  lemma Residue(w: nat, g: nat, reg: nat)
    requires w >= 8 && w % 8 == 0 && Pow2(w) <= g < Pow2(w + 1) && reg < Pow2(w)
    ensures FeedAll(w, g, reg, HighFirst(reg, w / 8)) == 0
  {
    hide *;
    var bytes := HighFirst(reg, w / 8);
    ValueOfBytes(reg, w / 8);
    FeedWindow(w, g, reg, bytes);
    ShlNothing(reg);
    XorSelf(reg);
    StepNZero(w, g, w);
  }

  lemma ShlNothing(v: nat)
    ensures Shl(v, 0) == v
  {
  }
}

/** The parametric CRC model of tsk/base/crc.c. */
module CrcModel {
  import opened Unsigned
  import opened Digits
  import opened Chunks
  import opened Gf2
  import opened CrcRegister
  import opened BitReflection
  import opened CrcDetection

  /** The parameter fields of cm_t. */
  datatype Model = Model(width: nat, poly: nat, init: nat, refin: bool, refot: bool, xorot: nat) {
    ghost predicate WellFormed() { Params(width, poly) && init < Pow2(width) }

    function G(): nat { Generator(width, poly) }

    /** A message byte as it enters the register. */
    function Fed(c: Byte): Byte {
      if refin then ByteReflection(c); Reflect(c, 8) else c
    }

    function FedAll(message: seq<Byte>): (fed: seq<Byte>)
      ensures |fed| == |message|
      ensures forall i :: 0 <= i < |fed| ==> fed[i] == Fed(message[i])
    {
      seq(|message|, i requires 0 <= i < |message| => Fed(message[i]))
    }

    /** The register after a message. */
    function Register(message: seq<Byte>): nat
      requires width >= 8
    {
      FeedAll(width, G(), init, FedAll(message))
    }

    /** cm_crc on a register. */
    function Output(reg: nat): nat {
      Xor(xorot, if refot then Reflect(reg, width) else reg)
    }

    function Crc(message: seq<Byte>): nat
      requires width >= 8
    {
      Output(Register(message))
    }
  }

  lemma ByteReflection(c: Byte)
    ensures Reflect(c, 8) < 256 && Reflect(Reflect(c, 8), 8) == c
  {
    hide Reflect;
    EightBits(c);
    ReflectInvolutive(c, 8);
  }

  // ----- the code

  /** widmask: 2^width - 1 without a shift by the full width. */
  function Widmask(width: nat): (mask: nat)
    requires width >= 1
    ensures mask == Pow2(width) - 1
  {
    2 * (Pow2(width - 1) - 1) + 1
  }

  /** The body of the loop in cm_nxt. */
  function CodeStep(w: nat, poly: nat, reg: nat): nat
    requires w >= 1
  {
    And(if And(reg, Pow2(w - 1)) != 0 then Xor(2 * reg, poly) else 2 * reg, Widmask(w))
  }

  lemma CodeStepIsStep(w: nat, poly: nat, reg: nat)
    requires w >= 1 && poly < Pow2(w) && reg < Pow2(w)
    ensures CodeStep(w, poly, reg) == Step(w, Generator(w, poly), reg) < Pow2(w)
  {
    hide *;
    PowNext(w - 1);
    WidmaskIs(w, poly, reg);
    GeneratorIs(w, poly);
    StepIs(w, Generator(w, poly), reg);
    TopBit(w, reg);
    AndMask(Xor(2 * reg, poly), w);
    AndMask(2 * reg, w);
    if reg >= Pow2(w - 1) {
      PowNext(w);
      CutTop(w, 2 * reg, poly);
    } else {
      LowOfSmall(2 * reg, w);
    }
  }

  lemma GeneratorIs(w: nat, poly: nat)
    ensures Generator(w, poly) == Pow2(w) + poly
  {
  }

  lemma WidmaskIs(w: nat, poly: nat, reg: nat)
    requires w >= 1
    ensures CodeStep(w, poly, reg)
            == And(if And(reg, Pow2(w - 1)) != 0 then Xor(2 * reg, poly) else 2 * reg, Pow2(w) - 1)
  {
    hide And, Xor;
  }

  lemma TopBit(w: nat, reg: nat)
    requires w >= 1 && reg < Pow2(w)
    ensures And(reg, Pow2(w - 1)) != 0 <==> reg >= Pow2(w - 1)
  {
    AndBit(reg, w - 1);
    Split(reg, w - 1);
    hide And, Low, High, Shl, Xor;
    var h := High(reg, w - 1);
    ShlZero(h, w - 1);
    ShlZero(Bit(reg, w - 1), w - 1);
    if h != 0 {
      PowBelow(h, w - 1);
      if h >= 2 {
        ShlSum(2, h - 2, w - 1);
        ShlSum(1, 1, w - 1);
        ShlOne(w - 1);
      }
    }
  }

  /** Cutting off the bit that left the register is subtracting the top term of the generator. */
  lemma CutTop(w: nat, a: nat, poly: nat)
    requires Pow2(w) <= a < Pow2(w + 1) && poly < Pow2(w)
    ensures Low(Xor(a, poly), w) == Xor(a, Pow2(w) + poly) < Pow2(w)
  {
    PowNext(w);
    hide *;
    TopCancels(w, a, Pow2(w) + poly);
    var r := a - Pow2(w);
    ShlOne(w);
    XorHalves(1, 0, r, poly, w);
    ShlZero(0, w);
    XorZeroRight(1);
    SplitIsUnique(1, Xor(r, poly), w);
  }

  lemma LowOfSmall(v: nat, w: nat)
    requires v < Pow2(w)
    ensures Low(v, w) == v
  {
    SplitIsUnique(0, v, w);
    ShlZero(0, w);
  }

  class Context {
    const model: Model
    var reg: nat

    ghost predicate Valid()
      reads this
    {
      model.WellFormed() && reg < Pow2(model.width)
    }

    constructor (parameters: Model)
      ensures model == parameters
    {
      model := parameters;
      reg := 0;
    }

    /** cm_ini. */
    method Ini()
      requires model.WellFormed()
      modifies this
      ensures Valid() && reg == model.init
    {
      reg := model.init;
    }

    /** cm_nxt: one message byte. */
    method Nxt(ch: Byte)
      requires Valid()
      modifies this
      ensures Valid() && reg == Feed(model.width, model.G(), old(reg), model.Fed(ch))
    {
      hide Shl, Xor, And, StepN, Reflect, Step, Low, High, Pow2;
      var w, g := model.width, model.G();
      GeneratorDegree(w, model.poly);
      var uch: nat := ch;
      if model.refin {
        uch := ReflectBits(uch, 8);
        ByteReflection(ch);
      }
      var fed: Byte := uch;
      FeedIs(w, g, reg, fed);
      PreloadBound(w, reg, fed);
      reg := Xor(reg, Shl(uch, w - 8));
      ghost var start := reg;
      hide Generator;
      StepNone(w, g, start, 0);
      for i := 0 to 8
        invariant reg < Pow2(w) && StepN(w, g, start, i) == reg
      {
        CodeStepIsStep(w, model.poly, reg);
        StepNLast(w, g, start, i);
        if And(reg, Pow2(w - 1)) != 0 {
          reg := Xor(2 * reg, model.poly);
        } else {
          reg := 2 * reg;
        }
        reg := And(reg, Widmask(w));
      }
    }

    lemma StepNLast(w: nat, g: nat, reg: nat, n: nat)
      requires w > 0
      ensures StepN(w, g, reg, n + 1) == Step(w, g, StepN(w, g, reg, n))
    {
      StepNAdds(w, g, reg, n, 1);
      StepNFirst(w, g, StepN(w, g, reg, n), 1);
      StepNone(w, g, Step(w, g, StepN(w, g, reg, n)), 0);
    }

    /** cm_blk, and crc16 in the same way: the bytes of a block in order. */
    method Blk(block: seq<Byte>)
      requires Valid()
      modifies this
      ensures Valid() && reg == FeedAll(model.width, model.G(), old(reg), model.FedAll(block))
    {
      hide Feed;
      ghost var w, g, start, fed := model.width, model.G(), reg, model.FedAll(block);
      var i := 0;
      while i < |block|
        invariant i <= |block| && Valid() && reg == FeedAll(w, g, start, fed[..i])
      {
        FeedAllAppend(w, g, start, fed[..i], [fed[i]]);
        assert fed[..i + 1] == fed[..i] + [fed[i]];
        FeedFirst(w, g, reg, [fed[i]]);
        FeedNothing(w, g, Feed(w, g, reg, fed[i]), [fed[i]][1..]);
        hide FeedAll;
        Nxt(block[i]);
        i := i + 1;
      }
      assert fed[..i] == fed;
    }

    /** cm_crc. */
    method CrcValue() returns (crc: nat)
      requires Valid()
      ensures crc == model.Output(reg)
    {
      if model.refot {
        var r := ReflectBits(reg, model.width);
        crc := Xor(model.xorot, r);
      } else {
        crc := Xor(model.xorot, reg);
      }
    }
  }

  /** cm_ini, one cm_blk for each chunk, and cm_crc: the result depends on the joined message only. */
  method CrcOfChunks(model: Model, chunks: seq<seq<Byte>>) returns (crc: nat)
    requires model.WellFormed()
    ensures crc == model.Crc(Joined(chunks))
  {
    var context := new Context(model);
    context.Ini();
    for i := 0 to |chunks|
      invariant context.Valid() && context.model == model
      invariant context.reg == model.Register(Joined(chunks[..i]))
    {
      RegisterAppend(model, Joined(chunks[..i]), chunks[i]);
      hide FeedAll;
      context.Blk(chunks[i]);
      assert chunks[..i + 1][..i] == chunks[..i];
    }
    assert chunks[..|chunks|] == chunks;
    crc := context.CrcValue();
  }

  // ----- the laws

  lemma RegisterAppend(model: Model, a: seq<Byte>, b: seq<Byte>)
    requires model.width >= 8
    ensures model.Register(a + b) == FeedAll(model.width, model.G(), model.Register(a), model.FedAll(b))
  {
    FedAllAppend(model, a, b);
    FeedAllAppend(model.width, model.G(), model.init, model.FedAll(a), model.FedAll(b));
    hide FeedAll, Generator;
  }

  lemma FedAllAppend(model: Model, a: seq<Byte>, b: seq<Byte>)
    ensures model.FedAll(a + b) == model.FedAll(a) + model.FedAll(b)
  {
    hide Reflect;
  }

  /** The CRC register is the one remainder of init * x^(8n) + M(x) * x^width on division by
      x^width + poly, where M takes the bytes as they enter the register. */
  lemma RegisterIsTheRemainder(model: Model, message: seq<Byte>, r: nat)
    requires model.WellFormed()
    ensures IsRemainder(r, Dividend(model.width, model.init, model.FedAll(message)), model.G(), model.width)
       <==> r == model.Register(message)
  {
    RegisterIsRemainder(model.width, model.poly, model.init, model.FedAll(message), r);
  }

  /** Messages of one length that differ, but only inside a window of k bytes. */
  ghost predicate DifferInWindow(a: seq<Byte>, b: seq<Byte>, k: nat) {
    |a| == |b| && a != b
    && exists s: nat, e: nat :: s <= e <= |a| && e - s <= k && a[..s] == b[..s] && a[e..] == b[e..]
  }

  /** No such pair of messages has the same CRC when the window is as long as the register in whole bytes. */
  ghost predicate DetectsWindows(model: Model)
    requires model.WellFormed()
  {
    forall a: seq<Byte>, b: seq<Byte> :: DifferInWindow(a, b, model.width / 8) ==> model.Crc(a) != model.Crc(b)
  }

  /** Different registers of the right width give different outputs. */
  lemma OutputInjective(model: Model, r: nat, s: nat)
    requires model.WellFormed() && r < Pow2(model.width) && s < Pow2(model.width)
    requires model.Output(r) == model.Output(s)
    ensures r == s
  {
    hide Reflect, Xor, Pow2;
    ReflectInvolutive(r, model.width);
    ReflectInvolutive(s, model.width);
    var x, y := if model.refot then Reflect(r, model.width) else r, if model.refot then Reflect(s, model.width) else s;
    XorCommutes(model.xorot, x);
    XorCommutes(model.xorot, y);
    XorCancels(x, model.xorot);
    XorCancels(y, model.xorot);
  }

  lemma FedInjective(model: Model, a: seq<Byte>, b: seq<Byte>)
    requires |a| == |b| && model.FedAll(a) == model.FedAll(b)
    ensures a == b
  {
    hide Reflect;
    forall i | 0 <= i < |a| ensures a[i] == b[i] {
      assert model.FedAll(a)[i] == model.FedAll(b)[i];
      ByteReflection(a[i]);
      ByteReflection(b[i]);
    }
  }

  lemma RegisterBound(model: Model, message: seq<Byte>)
    requires model.WellFormed()
    ensures model.Register(message) < Pow2(model.width)
  {
    GeneratorDegree(model.width, model.poly);
    FeedAllBound(model.width, model.G(), model.init, model.FedAll(message));
  }

  lemma DetectsOne(model: Model, a: seq<Byte>, b: seq<Byte>)
    requires model.WellFormed() && Low(model.poly, model.width % 8 + 1) != 0
    requires DifferInWindow(a, b, model.width / 8)
    ensures model.Crc(a) != model.Crc(b)
  {
    hide FeedAll, Low, Xor, Pow2, Generator;
    var s: nat, e: nat :| s <= e <= |a| && e - s <= model.width / 8 && a[..s] == b[..s] && a[e..] == b[e..];
    var pre, x, y, post := a[..s], a[s..e], b[s..e], a[e..];
    assert a == pre + x + post && b == pre + y + post;
    DetectsParts(model, pre, x, y, post);
  }

  lemma FedParts(model: Model, pre: seq<Byte>, x: seq<Byte>, post: seq<Byte>)
    ensures model.FedAll(pre + x + post) == model.FedAll(pre) + model.FedAll(x) + model.FedAll(post)
  {
    hide Reflect;
  }

  lemma DetectsParts(model: Model, pre: seq<Byte>, x: seq<Byte>, y: seq<Byte>, post: seq<Byte>)
    requires model.WellFormed() && Low(model.poly, model.width % 8 + 1) != 0
    requires |x| == |y| <= model.width / 8 && x != y
    ensures model.Crc(pre + x + post) != model.Crc(pre + y + post)
  {
    hide FeedAll, Low, Xor, Reflect;
    var a, b := pre + x + post, pre + y + post;
    FedParts(model, pre, x, post);
    FedParts(model, pre, y, post);
    if model.FedAll(x) == model.FedAll(y) {
      FedInjective(model, x, y);
    }
    WindowIsSeen(model.width, model.poly, model.init, model.FedAll(pre), model.FedAll(x), model.FedAll(y),
                 model.FedAll(post));
    RegisterBound(model, a);
    RegisterBound(model, b);
    if model.Crc(a) == model.Crc(b) {
      OutputInjective(model, model.Register(a), model.Register(b));
    }
  }

  /** Every change inside a window of width / 8 bytes is seen exactly when the polynomial is not
      a multiple of x^(width mod 8 + 1); for whole-byte widths, exactly when it is odd. */
  lemma DetectsWindowsExactly(model: Model)
    requires model.WellFormed()
    ensures DetectsWindows(model) <==> Low(model.poly, model.width % 8 + 1) != 0
    ensures model.width % 8 == 0 ==> (DetectsWindows(model) <==> model.poly % 2 == 1)
  {
    if Low(model.poly, model.width % 8 + 1) != 0 {
      forall a: seq<Byte>, b: seq<Byte> | DifferInWindow(a, b, model.width / 8) ensures model.Crc(a) != model.Crc(b) {
        DetectsOne(model, a, b);
      }
    } else {
      var x, y := WindowIsLost(model.width, model.poly, model.init);
      var a, b := model.FedAll(x), model.FedAll(y);
      FedTwice(model, x);
      FedTwice(model, y);
      assert a[..0] == b[..0] && a[|a|..] == b[|b|..];
      assert DifferInWindow(a, b, model.width / 8);
      assert model.Crc(a) == model.Crc(b);
    }
    LowOne(model.poly);
  }

  lemma LowOne(v: nat)
    ensures Low(v, 1) == v % 2
  {
    assert Low(v / 2, 0) == 0;
  }

  lemma FedTwice(model: Model, x: seq<Byte>)
    ensures model.FedAll(model.FedAll(x)) == x
  {
    hide Reflect;
    forall i | 0 <= i < |x| ensures model.FedAll(model.FedAll(x))[i] == x[i] {
      ByteReflection(x[i]);
    }
  }

  /** Without input reflection, and for whole-byte widths, a message followed by its own register,
      most significant byte first, leaves the register 0. */
  lemma ResidueIsZero(model: Model, message: seq<Byte>)
    requires model.WellFormed() && !model.refin && model.width % 8 == 0
    ensures model.Register(message + HighFirst(model.Register(message), model.width / 8)) == 0
  {
    var tail := HighFirst(model.Register(message), model.width / 8);
    RegisterAppend(model, message, tail);
    RegisterBound(model, message);
    GeneratorDegree(model.width, model.poly);
    Residue(model.width, model.G(), model.Register(message));
    assert model.FedAll(tail) == tail;
  }
}
