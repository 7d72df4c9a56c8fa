/** Bursts of errors: changes inside consecutive bits, in the order in which the bits enter the register. */
module CrcBursts {
  import opened Unsigned
  import opened Digits
  import opened Gf2
  import opened CrcRegister
  import opened CrcDetection
  import opened CrcModel

  /** Two messages of one length whose bits differ, but only inside n consecutive places: their
      difference is a polynomial below degree n, shifted. */
  ghost predicate DifferInBurst(model: Model, a: seq<Byte>, b: seq<Byte>, n: nat) {
    |a| == |b| && exists e: nat, t: nat :: BurstAt(model, a, b, n, e, t)
  }

  predicate BurstAt(model: Model, a: seq<Byte>, b: seq<Byte>, n: nat, e: nat, t: nat) {
    0 < e < Pow2(n) && Xor(Value(model.FedAll(a)), Value(model.FedAll(b))) == Shl(e, t)
  }

  /** No burst that fits into the register is lost. */
  ghost predicate DetectsBursts(model: Model)
    requires model.WellFormed()
  {
    forall a: seq<Byte>, b: seq<Byte> :: DifferInBurst(model, a, b, model.width) ==> model.Crc(a) != model.Crc(b)
  }

  lemma CongruentSum(a: nat, p: nat, b: nat, q: nat, g: nat)
    requires Congruent(a, p, g) && Congruent(b, q, g)
    ensures Congruent(Xor(a, b), Xor(p, q), g)
  {
    hide *;
    CongruentAdd(a, p, b, g);
    CongruentAdd(b, q, p, g);
    XorCommutes(b, p);
    XorCommutes(q, p);
    CongruentTrans(Xor(a, b), Xor(p, b), Xor(p, q), g);
  }

  /** The difference of two dividends is the difference of the messages times x^w. */
  lemma DividendDifference(w: nat, init: nat, x: seq<Byte>, y: seq<Byte>)
    requires |x| == |y|
    ensures Xor(Dividend(w, init, x), Dividend(w, init, y)) == Shl(Xor(Value(x), Value(y)), w)
  {
    hide *;
    var i, v, u := Shl(init, 8 * |x|), Shl(Value(x), w), Shl(Value(y), w);
    DividendIs(w, init, x);
    DividendIs(w, init, y);
    XorSwaps(i, v, i, u);
    XorSelf(i);
    XorCommutes(0, Xor(v, u));
    XorZeroRight(Xor(v, u));
    XorShifts(Value(x), Value(y), w);
  }

  /** The registers after two messages that differ in a burst differ by the burst, stepped on. */
  lemma BurstInRegister(w: nat, poly: nat, init: nat, x: seq<Byte>, y: seq<Byte>, e: nat, t: nat)
    requires Params(w, poly) && init < Pow2(w) && |x| == |y|
    requires e < Pow2(w) && Xor(Value(x), Value(y)) == Shl(e, t)
    ensures var g := Generator(w, poly);
            Xor(FeedAll(w, g, init, x), FeedAll(w, g, init, y)) == StepN(w, g, e, t + w)
  {
    hide *;
    WidthOf(w, poly);
    GeneratorDegree(w, poly);
    var g := Generator(w, poly);
    var r, s := FeedAll(w, g, init, x), FeedAll(w, g, init, y);
    FeedAllBound(w, g, init, x);
    FeedAllBound(w, g, init, y);
    XorBound(r, s, w);
    FeedAllCongruent(w, g, init, x);
    FeedAllCongruent(w, g, init, y);
    CongruentSum(r, Dividend(w, init, x), s, Dividend(w, init, y), g);
    DividendDifference(w, init, x, y);
    ShlAdds(e, t, w);
    CongruentIsRemainder(Xor(r, s), Shl(e, t + w), g, w);
    StepNBound(w, g, e, t + w);
    StepNCongruent(w, g, e, t + w);
    CongruentIsRemainder(StepN(w, g, e, t + w), Shl(e, t + w), g, w);
    RemainderIsUnique(Xor(r, s), StepN(w, g, e, t + w), Shl(e, t + w), g, w);
  }

  lemma BurstIsSeen(model: Model, a: seq<Byte>, b: seq<Byte>, e: nat, t: nat)
    requires model.WellFormed() && model.poly % 2 == 1
    requires |a| == |b| && BurstAt(model, a, b, model.width, e, t)
    ensures model.Crc(a) != model.Crc(b)
  {
    var w, g := model.width, model.G();
    hide Pow2, Shl, Xor, StepN, FeedAll, Value, Generator;
    GeneratorIs(w, model.poly);
    PowEven(w);
    BurstInRegister(w, model.poly, model.init, model.FedAll(a), model.FedAll(b), e, t);
    StepNNonzero(w, g, 0, e, t + w);
    ShlNothing(g);
    ShlNothing(e);
    XorZero(model.Register(a), model.Register(b));
    RegisterBound(model, a);
    RegisterBound(model, b);
    if model.Crc(a) == model.Crc(b) {
      OutputInjective(model, model.Register(a), model.Register(b));
    }
  }

  lemma {:induction false} PowOrder(j: nat, k: nat)
    requires j <= k
    ensures Pow2(j) <= Pow2(k)
    decreases k
  {
    if j < k {
      PowOrder(j, k - 1);
      PowNext(k - 1);
    }
  }

  /** With an even polynomial half the generator is a burst that is lost. */
  lemma HalfIsLost(w: nat, poly: nat, init: nat) returns (x: seq<Byte>, y: seq<Byte>, e: nat)
    requires Params(w, poly) && init < Pow2(w) && poly % 2 == 0
    ensures |x| == |y| && 0 < e < Pow2(w) && Xor(Value(x), Value(y)) == Shl(e, 0)
    ensures FeedAll(w, Generator(w, poly), init, x) == FeedAll(w, Generator(w, poly), init, y)
  {
    hide *;
    var g, k := Generator(w, poly), (w + 7) / 8;
    WidthOf(w, poly);
    e := Pow2(w - 1) + poly / 2;
    PowNext(w - 1);
    PowOrder(w, 8 * k);
    x, y := HighFirst(e, k), HighFirst(0, k);
    ValueOfBytes(e, k);
    ValueOfBytes(0, k);
    XorZeroRight(e);
    ShlNothing(e);
    BurstInRegister(w, poly, init, x, y, e, 0);
    HalfGenerator(w, poly);
    StepNFirst(w, g, e, w);
    StepNZero(w, g, w - 1);
    XorZero(FeedAll(w, g, init, x), FeedAll(w, g, init, y));
  }

  lemma BurstIsLost(model: Model) returns (a: seq<Byte>, b: seq<Byte>)
    requires model.WellFormed() && model.poly % 2 == 0
    ensures DifferInBurst(model, a, b, model.width) && model.Crc(a) == model.Crc(b)
  {
    var x, y, e := HalfIsLost(model.width, model.poly, model.init);
    hide Pow2, Shl, Xor, FeedAll, Value, Generator;
    a, b := model.FedAll(x), model.FedAll(y);
    FedTwice(model, x);
    FedTwice(model, y);
    assert BurstAt(model, a, b, model.width, e, 0);
  }

  /** Every burst of at most width bits changes the value exactly when the polynomial is odd. */
  lemma DetectsBurstsExactly(model: Model)
    requires model.WellFormed()
    ensures DetectsBursts(model) <==> model.poly % 2 == 1
  {
    if model.poly % 2 == 1 {
      forall a: seq<Byte>, b: seq<Byte> | DifferInBurst(model, a, b, model.width) ensures model.Crc(a) != model.Crc(b) {
        var e: nat, t: nat :| BurstAt(model, a, b, model.width, e, t);
        BurstIsSeen(model, a, b, e, t);
      }
    } else {
      var a, b := BurstIsLost(model);
    }
  }
}
