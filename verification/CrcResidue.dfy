/** What is left in the register when a message is followed by its own CRC value. */
module CrcResidue {
  import opened Unsigned
  import opened Digits
  import opened Gf2
  import opened CrcRegister
  import opened BitReflection
  import opened CrcDetection
  import opened CrcModel

  /** The value as it is sent behind a message: in the order of the register's bits. */
  function CrcBytes(model: Model, message: seq<Byte>): (bytes: seq<Byte>)
    requires model.width >= 8
    ensures |bytes| == model.width / 8
  {
    var k := model.width / 8;
    if model.refin then LowFirst(model.Crc(message), k) else HighFirst(model.Crc(message), k)
  }

  /** The output mask as the register holds it, stepped on by a whole register. */
  function ResidueOf(model: Model): nat
    requires model.width >= 8
  {
    StepN(model.width, model.G(), if model.refot then Reflect(model.xorot, model.width) else model.xorot, model.width)
  }

  // ----- bits in reverse order

  lemma {:induction false} HighHigh(v: nat, a: nat, b: nat)
    ensures High(High(v, a), b) == High(v, a + b)
    decreases a
  {
    if a != 0 {
      HighHigh(v / 2, a - 1, b);
    }
  }

  lemma {:induction false} LowBit(v: nat, k: nat, i: nat)
    requires i < k
    ensures Bit(Low(v, k), i) == Bit(v, i)
    decreases k
  {
    assert Low(v, k) / 2 == Low(v / 2, k - 1) && Low(v, k) % 2 == v % 2;
    if i != 0 {
      LowBit(v / 2, k - 1, i - 1);
    }
  }

  lemma {:induction false} ReflectLowOfLow(v: nat, k: nat, b: nat)
    requires b <= k
    ensures ReflectLow(Low(v, k), b) == ReflectLow(v, b)
    decreases b
  {
    hide Low, Bit;
    if b != 0 {
      ReflectLowOfLow(v, k, b - 1);
      LowBit(v, k, b - 1);
    }
  }

  lemma LowByte(v: nat)
    ensures v % 256 == Low(v, 8)
  {
    hide *;
    Split(v, 8);
    EightBits(High(v, 8));
    assert v == 256 * High(v, 8) + Low(v, 8);
  }

  /** Reversing a + b bits is reversing the first a of them and then the next b. */
  lemma {:induction false} ReflectLowJoins(v: nat, a: nat, b: nat)
    ensures ReflectLow(v, a + b) == Shl(ReflectLow(v, a), b) + ReflectLow(High(v, a), b)
    decreases b
  {
    if b != 0 {
      ReflectLowJoins(v, a, b - 1);
      HighHigh(v, a, b - 1);
    }
  }

  lemma {:induction false} XorBit(a: nat, b: nat, i: nat)
    ensures Bit(Xor(a, b), i) == if Bit(a, i) == Bit(b, i) then 0 else 1
    decreases i
  {
    XorStep(a, b);
    hide Xor;
    if i != 0 {
      XorBit(a / 2, b / 2, i - 1);
    }
  }

  lemma {:induction false} ReflectLowXor(a: nat, b: nat, n: nat)
    ensures ReflectLow(Xor(a, b), n) == Xor(ReflectLow(a, n), ReflectLow(b, n))
    decreases n
  {
    hide Xor, High;
    if n != 0 {
      ReflectLowXor(a, b, n - 1);
      XorBit(a, b, n - 1);
      XorDigits(ReflectLow(a, n - 1), Bit(a, n - 1), ReflectLow(b, n - 1), Bit(b, n - 1));
    } else {
      XorZeroRight(0);
    }
  }

  lemma ReflectXor(a: nat, b: nat, w: nat)
    requires a < Pow2(w) && b < Pow2(w)
    ensures Reflect(Xor(a, b), w) == Xor(Reflect(a, w), Reflect(b, w))
  {
    hide *;
    XorBound(a, b, w);
    ReflectSmall(a, w);
    ReflectSmall(b, w);
    ReflectSmall(Xor(a, b), w);
    ReflectLowXor(a, b, w);
  }

  /** Bytes sent least significant first, each reflected, enter as the reversed number. */
  lemma {:induction false} ReflectedBytes(model: Model, v: nat, k: nat)
    requires model.refin
    ensures Value(model.FedAll(LowFirst(v, k))) == ReflectLow(v, 8 * k)
    decreases k
  {
    hide *;
    if k == 0 {
      ReflectedNothing(model, v);
    } else {
      ReflectedBytes(model, v, k - 1);
      LowFirstNext(v, k - 1);
      ReflectedByte(model, LowFirst(v, k - 1), High(v, 8 * (k - 1)));
      ReflectLowJoins(v, 8 * (k - 1), 8);
      assert 8 * (k - 1) + 8 == 8 * k;
    }
  }

  lemma ReflectedNothing(model: Model, v: nat)
    ensures Value(model.FedAll(LowFirst(v, 0))) == ReflectLow(v, 0)
  {
  }

  lemma {:induction false} LowFirstNext(v: nat, k: nat)
    ensures LowFirst(v, k + 1) == LowFirst(v, k) + [High(v, 8 * k) % 256]
    decreases k
  {
    hide High;
    if k == 0 {
      assert High(v, 0) == v by {
        HighNothing(v);
      }
      assert LowFirst(v / 256, 0) == [];
    } else {
      LowFirstNext(v / 256, k - 1);
      HighByte(v);
      HighHigh(v, 8, 8 * (k - 1));
    }
  }

  lemma HighNothing(v: nat)
    ensures High(v, 0) == v
  {
  }

  lemma HighByte(v: nat)
    ensures High(v, 8) == v / 256
  {
    LowByte(v);
    hide *;
    Split(v, 8);
    EightBits(High(v, 8));
    assert v == 256 * High(v, 8) + Low(v, 8);
  }

  lemma ReflectedByte(model: Model, front: seq<Byte>, h: nat)
    requires model.refin
    ensures Value(model.FedAll(front + [h % 256])) == Shl(Value(model.FedAll(front)), 8) + ReflectLow(h, 8)
  {
    var c: Byte := h % 256;
    hide *;
    FedNext(model, front, c);
    ValueNext(model.FedAll(front), model.Fed(c));
    FedByte(model, c);
    LowByte(h);
    ReflectLowOfLow(h, 8, 8);
    ReflectLowBound(c, 8);
    XorIsSum(Value(model.FedAll(front)), ReflectLow(c, 8), 8);
  }

  lemma FedNext(model: Model, front: seq<Byte>, c: Byte)
    ensures model.FedAll(front + [c]) == model.FedAll(front) + [model.Fed(c)]
  {
    hide Reflect;
  }

  lemma FedByte(model: Model, c: Byte)
    ensures model.refin ==> model.Fed(c) == ReflectLow(c, 8)
  {
    EightBits(0);
    SmallHigh(c, 8);
    hide ReflectLow, High, Shl, Pow2;
  }

  // ----- the residue

  /** The CRC value, as its bytes enter the register, is the register with the mask added. */
  lemma CrcEnters(model: Model, message: seq<Byte>)
    requires model.WellFormed() && model.refin == model.refot && model.width % 8 == 0 && model.xorot < Pow2(model.width)
    ensures Value(model.FedAll(CrcBytes(model, message)))
         == Xor(model.Register(message), if model.refot then Reflect(model.xorot, model.width) else model.xorot)
  {
    var w, r, k := model.width, model.Register(message), model.width / 8;
    assert 8 * k == w;
    RegisterBound(model, message);
    hide Value, FeedAll, LowFirst, HighFirst, Reflect, ReflectLow, Pow2, Xor;
    if model.refin {
      ReflectInvolutive(r, w);
      XorBound(model.xorot, Reflect(r, w), w);
      ReflectedBytes(model, model.Crc(message), k);
      ReflectSmall(model.Crc(message), w);
      ReflectXor(model.xorot, Reflect(r, w), w);
      XorCommutes(Reflect(model.xorot, w), r);
    } else {
      XorBound(model.xorot, r, w);
      ValueOfBytes(model.Crc(message), k);
      XorCommutes(model.xorot, r);
      assert model.FedAll(CrcBytes(model, message)) == CrcBytes(model, message);
    }
  }

  lemma ReflectSmall(v: nat, w: nat)
    requires v < Pow2(w)
    ensures Reflect(v, w) == ReflectLow(v, w)
  {
    SmallHigh(v, w);
  }

  /** A message followed by its CRC value leaves the residue, whatever the message is. */
  lemma ResidueIsConstant(model: Model, message: seq<Byte>)
    requires model.WellFormed() && model.refin == model.refot && model.width % 8 == 0 && model.xorot < Pow2(model.width)
    ensures model.Register(message + CrcBytes(model, message)) == ResidueOf(model)
    ensures model.Crc(message + CrcBytes(model, message)) == model.Output(ResidueOf(model))
  {
    hide Value, FeedAll, Xor, Shl, StepN, Reflect, Pow2, CrcBytes, Generator;
    var r, tail := model.Register(message), CrcBytes(model, message);
    var x := if model.refot then Reflect(model.xorot, model.width) else model.xorot;
    RegisterAppend(model, message, tail);
    CrcEnters(model, message);
    RegisterBound(model, message);
    GeneratorDegree(model.width, model.poly);
    RegisterCleared(model.width, model.G(), r, x, model.FedAll(tail));
  }

  /** Bytes that hold the register and a mask leave the mask, stepped on. */
  lemma RegisterCleared(w: nat, g: nat, r: nat, x: nat, bytes: seq<Byte>)
    requires w >= 8 && 8 * |bytes| == w && Pow2(w) <= g < Pow2(w + 1) && r < Pow2(w)
    requires Value(bytes) == Xor(r, x)
    ensures FeedAll(w, g, r, bytes) == StepN(w, g, x, w)
  {
    hide *;
    FeedWindow(w, g, r, bytes);
    ShlNothing(Value(bytes));
    XorAssociates(r, r, x);
    XorSelf(r);
    XorCommutes(0, x);
    XorZeroRight(x);
  }

  /** With an odd polynomial nothing but the CRC value, sent behind the message, leaves the residue. */
  lemma ResidueTellsCrc(model: Model, message: seq<Byte>, tail: seq<Byte>)
    requires model.WellFormed() && model.refin == model.refot && model.width % 8 == 0 && model.xorot < Pow2(model.width)
    requires model.poly % 2 == 1 && |tail| == model.width / 8
    ensures model.Register(message + tail) == ResidueOf(model) <==> tail == CrcBytes(model, message)
  {
    var own := CrcBytes(model, message);
    ResidueIsConstant(model, message);
    hide CrcBytes, ResidueOf, FeedAll, Low, Pow2, Reflect, Generator;
    if tail != own {
      if model.FedAll(tail) == model.FedAll(own) {
        FedInjective(model, tail, own);
      }
      LowOne(model.poly);
      WindowIsSeen(model.width, model.poly, model.init, model.FedAll(message), model.FedAll(tail), model.FedAll(own),
                   []);
      FedParts(model, message, tail, []);
      FedParts(model, message, own, []);
      assert message + tail + [] == message + tail && message + own + [] == message + own;
      assert model.FedAll([]) == [];
    }
  }
}
