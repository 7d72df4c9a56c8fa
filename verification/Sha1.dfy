/** SHA-1 as section 6.1.2 of FIPS 180-4 defines it: an 80-word message
    schedule and a loop that moves five registers. */
module Sha1Spec {
  import opened Words
  import opened BlockStream

  datatype Regs = Regs(a: word, b: word, c: word, d: word, e: word)

  const H0 := Regs(0x67452301, 0xEFCDAB89, 0x98BADCFE, 0x10325476, 0xC3D2E1F0)

  function Ch(x: word, y: word, z: word): word { (x & y) ^ (!x & z) }

  function Parity(x: word, y: word, z: word): word { x ^ y ^ z }

  function Maj(x: word, y: word, z: word): word { (x & y) ^ (x & z) ^ (y & z) }

  function Ft(t: nat, x: word, y: word, z: word): word {
    if t < 20 then Ch(x, y, z)
    else if t < 40 then Parity(x, y, z)
    else if t < 60 then Maj(x, y, z)
    else Parity(x, y, z)
  }

  function Kt(t: nat): word {
    if t < 20 then 0x5A827999
    else if t < 40 then 0x6ED9EBA1
    else if t < 60 then 0x8F1BBCDC
    else 0xCA62C1D6
  }

  function Xor4(p: word, q: word, r: word, s: word): word { p ^ q ^ r ^ s }

  /** Word t of the message schedule. */
  function Schedule(block: seq<word>, t: nat): word
    requires |block| == 16
  {
    if t < 16 then block[t]
    else Rotl(1, Xor4(Schedule(block, t - 3), Schedule(block, t - 8), Schedule(block, t - 14), Schedule(block, t - 16)))
  }

  /** The sum, modulo 2^32, that becomes register a. */
  function Sum(x: word, f: word, e: word, k: word, w: word): word { x + f + e + k + w }

  /** One round: every register moves. */
  function Round(r: Regs, t: nat, w: word): Regs {
    Regs(Sum(Rotl(5, r.a), Ft(t, r.b, r.c, r.d), r.e, Kt(t), w), r.a, Rotl(30, r.b), r.c, r.d)
  }

  /** The registers after t rounds. */
  function Rounds(block: seq<word>, h: Regs, t: nat): Regs
    requires |block| == 16
  {
    if t == 0 then h else Round(Rounds(block, h, t - 1), t - 1, Schedule(block, t - 1))
  }

  function AddRegs(h: Regs, r: Regs): Regs {
    Regs(Add(h.a, r.a), Add(h.b, r.b), Add(h.c, r.c), Add(h.d, r.d), Add(h.e, r.e))
  }

  function CompressWords(h: Regs, block: seq<word>): Regs
    requires |block| == 16
  {
    AddRegs(h, Rounds(block, h, 80))
  }

  function Compress(h: Regs, block: Block): Regs {
    CompressWords(h, BigEndianWords(block))
  }
}

/** The optimised compression function of tsk/base/sha1c.c. */
module Sha1Transform {
  import opened Words
  import opened Sha1Spec

  /** f1 and f3 each save an operation over the functions of section 4.1.1. */
  function F1(x: word, y: word, z: word): word { z ^ (x & (y ^ z)) }

  function F2(x: word, y: word, z: word): word { x ^ y ^ z }

  function F3(x: word, y: word, z: word): word { (x & y) | (z & (x | y)) }

  function F4(x: word, y: word, z: word): word { x ^ y ^ z }

  function F(phase: nat, x: word, y: word, z: word): word {
    if phase == 1 then F1(x, y, z)
    else if phase == 2 then F2(x, y, z)
    else if phase == 3 then F3(x, y, z)
    else F4(x, y, z)
  }

  /** K1 to K4. */
  function K(phase: nat): word {
    if phase == 1 then 0x5A827999
    else if phase == 2 then 0x6ED9EBA1
    else if phase == 3 then 0x8F1BBCDC
    else 0xCA62C1D6
  }

  /** The largest schedule index below i that lives in slot j of the circular buffer. */
  function Latest(i: nat, j: nat): nat
    requires 16 <= i && j < 16
  {
    if j < i % 16 then i - i % 16 + j else i - i % 16 + j - 16
  }

  /** Before round i, slot j of the circular buffer holds the latest schedule word
      whose index is j modulo 16; the first 16 words are the block itself. */
  ghost predicate Window(eData: seq<word>, block: seq<word>, i: nat)
    requires |block| == 16
  {
    if i < 16 then eData == block
    else |eData| == 16 && forall j :: 0 <= j < 16 ==> eData[j] == Schedule(block, Latest(i, j))
  }

  lemma LatestIs(i: nat, k: nat)
    requires 16 <= i && i - 16 <= k < i
    ensures Latest(i, k % 16) == k
  {
  }

  /** Every slot but the one of index i keeps its word when i is scheduled. */
  lemma LatestNext(i: nat, j: nat)
    requires 16 <= i && j < 16
    ensures Latest(i + 1, j) == if j == i % 16 then i else Latest(i, j)
  {
  }

  /** The slots that expand(W, i) reads, found by the index of their schedule word. */
  lemma SlotOf(eData: seq<word>, block: seq<word>, i: nat, k: nat)
    requires |block| == 16 && 16 <= i && Window(eData, block, i)
    requires i - 16 <= k < i
    ensures eData[k % 16] == Schedule(block, k)
  {
    hide Schedule;
    LatestIs(i, k);
  }

  /** The word that expand(W, i) computes from the circular buffer. */
  function Expanded(eData: seq<word>, i: nat): word
    requires |eData| == 16 && 16 <= i
  {
    Rotl(1, Xor4(eData[i % 16], eData[(i - 14) % 16], eData[(i - 8) % 16], eData[(i - 3) % 16]))
  }

  lemma ExpandedIsSchedule(eData: seq<word>, block: seq<word>, i: nat)
    requires |block| == 16 && 16 <= i && Window(eData, block, i)
    ensures |eData| == 16 && Expanded(eData, i) == Schedule(block, i)
  {
    hide *;
    WindowSize(eData, block, i);
    SlotOf(eData, block, i, i - 16);
    SlotOf(eData, block, i, i - 14);
    SlotOf(eData, block, i, i - 8);
    SlotOf(eData, block, i, i - 3);
    SlotComesBack(i);
    ExpandedIs(eData, i);
    ScheduleIs(block, i);
    XorOrder(Schedule(block, i - 16), Schedule(block, i - 14), Schedule(block, i - 8), Schedule(block, i - 3));
  }

  lemma SlotComesBack(i: nat)
    requires 16 <= i
    ensures (i - 16) % 16 == i % 16
  {
  }

  lemma WindowSize(eData: seq<word>, block: seq<word>, i: nat)
    requires |block| == 16 && 16 <= i && Window(eData, block, i)
    ensures |eData| == 16
  {
  }

  lemma ExpandedIs(eData: seq<word>, i: nat)
    requires |eData| == 16 && 16 <= i
    ensures Expanded(eData, i)
         == Rotl(1, Xor4(eData[i % 16], eData[(i - 14) % 16], eData[(i - 8) % 16], eData[(i - 3) % 16]))
  {
    hide Rotl, Xor4;
  }

  lemma ScheduleIs(block: seq<word>, i: nat)
    requires |block| == 16 && 16 <= i
    ensures Schedule(block, i)
         == Rotl(1, Xor4(Schedule(block, i - 3), Schedule(block, i - 8),
                         Schedule(block, i - 14), Schedule(block, i - 16)))
  {
    hide Rotl, Xor4;
  }

  lemma XorOrder(a: word, b: word, c: word, d: word)
    ensures Xor4(a, b, c, d) == Xor4(d, c, b, a)
  {
  }

  lemma WindowNext(eData: seq<word>, block: seq<word>, i: nat)
    requires |block| == 16 && 16 <= i && Window(eData, block, i)
    ensures Window(eData[i % 16 := Schedule(block, i)], block, i + 1)
  {
    hide Schedule;
    forall j | 0 <= j < 16 ensures Latest(i + 1, j) == if j == i % 16 then i else Latest(i, j) {
      LatestNext(i, j);
    }
    hide Latest;
  }

  lemma WindowStart(block: seq<word>, i: nat)
    requires |block| == 16 && i < 16
    ensures Window(block, block, i + 1)
    ensures Schedule(block, i) == block[i]
  {
  }

  /** The data word of round i: a word of the block for the first 16 rounds, and from
      then on expand(W, i), which overwrites word i - 16 by word i. */
  method DataWord(eData: array<word>, i: nat, ghost block: seq<word>) returns (w: word)
    requires eData.Length == 16 && |block| == 16
    requires Window(eData[..], block, i)
    modifies eData
    ensures w == Schedule(block, i)
    ensures Window(eData[..], block, i + 1)
  {
    ghost var before := eData[..];
    if i < 16 {
      WindowStart(block, i);
      w := eData[i];
    } else {
      ExpandedIsSchedule(before, block, i);
      w := Expanded(eData[..], i);
      WindowNext(before, block, i);
      hide *;
      eData[i % 16] := w;
      assert eData[..] == before[i % 16 := w];
    }
  }

  lemma RoundsNext(block: seq<word>, h: Regs, t: nat)
    requires |block| == 16
    ensures Rounds(block, h, t + 1) == Round(Rounds(block, h, t), t, Schedule(block, t))
  {
    hide Round, Schedule;
  }

  /** The assignment e += x + f + k + w of subRound. */
  function AddTo(e: word, x: word, f: word, k: word, w: word): word { e + (x + f + k + w) }

  /** The macro subRound: only e and b change, and the caller renames the registers. */
  method SubRound(a: word, b: word, c: word, d: word, e: word, phase: nat, data: word, ghost block: seq<word>,
                  ghost h: Regs, ghost t: nat)
    returns (e': word, b': word)
    requires |block| == 16
    requires 1 <= phase <= 4 && 20 * (phase - 1) <= t < 20 * phase
    requires Rounds(block, h, t) == Regs(a, b, c, d, e)
    requires data == Schedule(block, t)
    ensures Rounds(block, h, t + 1) == Regs(e', a, b', c, d)
  {
    hide *;
    e' := AddTo(e, Rotl(5, a), F(phase, b, c, d), K(phase), data);
    b' := Rotl(30, b);
    RoundsNext(block, h, t);
    FMeetsFt(phase, t, b, c, d);
    SumsAgree(Rotl(5, a), Ft(t, b, c, d), e, Kt(t), data);
    RoundIs(Regs(a, b, c, d, e), t, data);
  }

  lemma RoundIs(r: Regs, t: nat, w: word)
    ensures Round(r, t, w) == Regs(Sum(Rotl(5, r.a), Ft(t, r.b, r.c, r.d), r.e, Kt(t), w), r.a, Rotl(30, r.b), r.c, r.d)
  {
    hide Sum, Rotl, Ft, Kt;
  }

  /** Each phase computes the function and the constant of its rounds. */
  lemma FMeetsFt(phase: nat, t: nat, x: word, y: word, z: word)
    requires 1 <= phase <= 4 && 20 * (phase - 1) <= t < 20 * phase
    ensures F(phase, x, y, z) == Ft(t, x, y, z) && K(phase) == Kt(t)
  {
    hide F1, F2, F3, F4, Ch, Parity, Maj;
    F1IsCh(x, y, z);
    F2AndF4AreParity(x, y, z);
    F3IsMaj(x, y, z);
  }

  lemma F1IsCh(x: word, y: word, z: word)
    ensures F1(x, y, z) == Ch(x, y, z)
  {
    assert z ^ (x & (y ^ z)) == (x & y) ^ (!x & z) by { hide *; }
  }

  lemma F2AndF4AreParity(x: word, y: word, z: word)
    ensures F2(x, y, z) == F4(x, y, z) == Parity(x, y, z)
  {
  }

  lemma F3IsMaj(x: word, y: word, z: word)
    ensures F3(x, y, z) == Maj(x, y, z)
  {
    assert (x & y) | (z & (x | y)) == (x & y) ^ (x & z) ^ (y & z) by { hide *; }
  }

  lemma SumsAgree(x: word, f: word, e: word, k: word, w: word)
    ensures AddTo(e, x, f, k, w) == Sum(x, f, e, k, w)
  {
  }

  /** Five sub-rounds, after which every register is back in its own role. */
  method FiveRounds(eData: array<word>, phase: nat, i: nat, ra: word, rb: word, rc: word, rd: word, re: word,
                    ghost block: seq<word>, ghost h: Regs)
    returns (a: word, b: word, c: word, d: word, e: word)
    requires eData.Length == 16 && |block| == 16
    requires 1 <= phase <= 4 && 20 * (phase - 1) <= i <= 20 * phase - 5
    requires Window(eData[..], block, i)
    requires Rounds(block, h, i) == Regs(ra, rb, rc, rd, re)
    modifies eData
    ensures Window(eData[..], block, i + 5)
    ensures Rounds(block, h, i + 5) == Regs(a, b, c, d, e)
  {
    hide *;
    a, b, c, d, e := ra, rb, rc, rd, re;
    var w := DataWord(eData, i, block);
    e, b := SubRound(a, b, c, d, e, phase, w, block, h, i);
    w := DataWord(eData, i + 1, block);
    d, a := SubRound(e, a, b, c, d, phase, w, block, h, i + 1);
    w := DataWord(eData, i + 2, block);
    c, e := SubRound(d, e, a, b, c, phase, w, block, h, i + 2);
    w := DataWord(eData, i + 3, block);
    b, d := SubRound(c, d, e, a, b, phase, w, block, h, i + 3);
    w := DataWord(eData, i + 4, block);
    a, c := SubRound(b, c, d, e, a, phase, w, block, h, i + 4);
  }

  /** The twenty rounds of one phase. */
  method TwentyRounds(eData: array<word>, phase: nat, ra: word, rb: word, rc: word, rd: word, re: word,
                    ghost block: seq<word>, ghost h: Regs)
    returns (a: word, b: word, c: word, d: word, e: word)
    requires eData.Length == 16 && |block| == 16
    requires 1 <= phase <= 4
    requires Window(eData[..], block, 20 * (phase - 1))
    requires Rounds(block, h, 20 * (phase - 1)) == Regs(ra, rb, rc, rd, re)
    modifies eData
    ensures Window(eData[..], block, 20 * phase)
    ensures Rounds(block, h, 20 * phase) == Regs(a, b, c, d, e)
  {
    hide *;
    var i := 20 * (phase - 1);
    a, b, c, d, e := FiveRounds(eData, phase, i, ra, rb, rc, rd, re, block, h);
    a, b, c, d, e := FiveRounds(eData, phase, i + 5, a, b, c, d, e, block, h);
    a, b, c, d, e := FiveRounds(eData, phase, i + 10, a, b, c, d, e, block, h);
    a, b, c, d, e := FiveRounds(eData, phase, i + 15, a, b, c, d, e, block, h);
  }

  function AsRegs(digest: seq<word>): Regs
    requires |digest| == 5
  {
    Regs(digest[0], digest[1], digest[2], digest[3], digest[4])
  }

  /** SHSTransform: the optimised form computes the compression function of
      section 6.1.2 of FIPS 180-4, for every chaining value and every block. */
  method SHSTransform(digest: array<word>, data: seq<word>)
    requires digest.Length == 5 && |data| == 16
    modifies digest
    ensures AsRegs(digest[..]) == CompressWords(AsRegs(old(digest[..])), data)
  {
    ghost var h := AsRegs(digest[..]);
    var eData := new word[16](i requires 0 <= i < 16 => data[i]);
    assert eData[..] == data;
    assert Window(eData[..], data, 0) && Rounds(data, h, 0) == h;
    var a, b, c, d, e := digest[0], digest[1], digest[2], digest[3], digest[4];
    assert CompressWords(h, data) == AddRegs(h, Rounds(data, h, 80));
    hide *;
    a, b, c, d, e := TwentyRounds(eData, 1, a, b, c, d, e, data, h);
    a, b, c, d, e := TwentyRounds(eData, 2, a, b, c, d, e, data, h);
    a, b, c, d, e := TwentyRounds(eData, 3, a, b, c, d, e, data, h);
    a, b, c, d, e := TwentyRounds(eData, 4, a, b, c, d, e, data, h);
    AddToDigest(digest, a, b, c, d, e);
  }

  method AddToDigest(digest: array<word>, a: word, b: word, c: word, d: word, e: word)
    requires digest.Length == 5
    modifies digest
    ensures AsRegs(digest[..]) == AddRegs(AsRegs(old(digest[..])), Regs(a, b, c, d, e))
  {
    hide Add;
    digest[0] := Add(digest[0], a);
    digest[1] := Add(digest[1], b);
    digest[2] := Add(digest[2], c);
    digest[3] := Add(digest[3], d);
    digest[4] := Add(digest[4], e);
  }
}
