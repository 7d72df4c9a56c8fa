/** Padding and the digest of a whole message, sections 3.1 to 3.5 of RFC 1321. */
module Md5Digest {
  import opened Words
  import opened BitCount
  import opened BlockStream
  import opened Md5Spec

  /** The message length in bits modulo 2^64, as eight bytes, least significant first. */
  function LengthBytes(n: nat): (bytes: seq<byte>)
    ensures |bytes| == 8
  {
    LittleEndianBytes([WordOf(LowWord(n)), WordOf(HighWord(n))])
  }

  function Padding(n: nat): (bytes: seq<byte>)
    ensures |bytes| == 9 + Zeros(n)
  {
    [0x80] + Zeroes(Zeros(n)) + LengthBytes(n)
  }

  function ToWords(r: Regs): seq<word> { [r.a, r.b, r.c, r.d] }

  /** The state after the message alone. */
  function Chain(message: seq<byte>): Regs { Absorb(Compress, H0, message) }

  /** The MD5 digest of a message. */
  function Md5(message: seq<byte>): seq<byte> {
    LittleEndianBytes(ToWords(Chain(message + Padding(|message|))))
  }
}

/** The incremental interface of tsk/base/md5c.c. */
module Md5Stream {
  import opened Unsigned
  import opened Chunks
  import opened Words
  import opened BitCount
  import opened BlockStream
  import opened Md5Spec
  import opened Md5Transform
  import opened Md5Digest

  /** The guard of the loop in TSK_MD5_Update, in 32-bit arithmetic. */
  predicate LoopGuard(i: nat, inputLen: nat) { (i + 63) % LIMIT32 < inputLen }

  /** A value the loop counter can reach: the end of the block that was pending, or of a later one. */
  predicate LoopValue(index: nat, inputLen: nat, i: nat) {
    index < 64 <= i + index && (i + index) % 64 == 0 && i <= inputLen
  }

  /** The guard asks what it is meant to ask, at every value the counter can reach, exactly
      when the pending bytes and the input together are fewer than 2^32. */
  lemma GuardIsExact(index: nat, inputLen: nat)
    requires index < 64 && inputLen < LIMIT32
    ensures (forall i: nat :: LoopValue(index, inputLen, i) ==> (LoopGuard(i, inputLen) <==> i + 64 <= inputLen))
       <==> index + inputLen < LIMIT32
  {
    if index + inputLen >= LIMIT32 {
      var i := LIMIT32 - index;
      assert LoopValue(index, inputLen, i) && LoopGuard(i, inputLen) && i + 64 > inputLen;
    } else {
      forall i: nat | LoopValue(index, inputLen, i) ensures LoopGuard(i, inputLen) <==> i + 64 <= inputLen {
        NoWrap(index, inputLen, i);
      }
    }
  }

  /** The counter of the loop after n blocks, with index bytes pending before. */
  function Counter(index: nat, n: nat): nat
    requires index < 64
  {
    (64 - index + 64 * n) % LIMIT32
  }

  /** The loop ends exactly when the pending bytes and the input together are fewer than 2^32. */
  lemma LoopEndsExactly(index: nat, inputLen: nat)
    requires index < 64 && 64 - index <= inputLen < LIMIT32
    ensures (exists n: nat :: !LoopGuard(Counter(index, n), inputLen)) <==> index + inputLen < LIMIT32
  {
    if index + inputLen < LIMIT32 {
      var blocks := (index + inputLen) / 64;
      assert 64 * blocks <= index + inputLen < 64 * blocks + 64 && 64 * blocks + 64 <= LIMIT32;
      var n: nat := blocks - 1;
      assert Counter(index, n) == 64 * blocks - index;
      assert !LoopGuard(Counter(index, n), inputLen);
    } else {
      forall n: nat ensures LoopGuard(Counter(index, n), inputLen) {
        GuardHolds(index, inputLen, n);
      }
    }
  }

  lemma GuardHolds(index: nat, inputLen: nat, n: nat)
    requires 0 < index < 64 && inputLen < LIMIT32 <= index + inputLen
    ensures LoopGuard(Counter(index, n), inputLen)
  {
    var i := Counter(index, n);
    var q := (64 - index + 64 * n) / LIMIT32;
    assert i + index == 64 * (1 + n - q * (LIMIT32 / 64));
    assert i <= LIMIT32 - index;
    if i < LIMIT32 - index {
      assert i + 64 <= LIMIT32 - index;
    }
  }

  /** One pending byte and an input of 2^32 - 1 bytes: the loop does not end, and one of its blocks
      reaches beyond the input. */
  lemma LoopNeverEnds()
    ensures forall n: nat :: LoopGuard(Counter(1, n), LIMIT32 - 1)
    ensures exists n: nat :: Counter(1, n) + 64 > LIMIT32 - 1
  {
    LoopEndsExactly(1, LIMIT32 - 1);
    assert Counter(1, LIMIT32 / 64 - 1) == LIMIT32 - 1;
  }

  lemma NoWrap(index: nat, inputLen: nat, i: nat)
    requires index + inputLen < LIMIT32 && LoopValue(index, inputLen, i)
    ensures LoopGuard(i, inputLen) <==> i + 64 <= inputLen
  {
    var q := (i + index) / 64;
    assert i + index == 64 * q;
  }

  lemma LoopValueEnds(index: nat, inputLen: nat)
    ensures forall i: nat :: LoopValue(index, inputLen, i) ==> i <= inputLen
  {
  }

  lemma LoopValueNext(index: nat, inputLen: nat, i: nat)
    requires LoopValue(index, inputLen, i) && i + 64 <= inputLen
    ensures LoopValue(index, inputLen, i + 64)
  {
    assert (i + index + 64) % 64 == (i + index) % 64;
  }

  class Md5Context {
    const state: array<word>
    const buffer: array<byte>
    var countLo: nat
    var countHi: nat

    /** The bytes added so far. */
    ghost var absorbed: seq<byte>

    ghost predicate Valid()
      reads this, state, buffer
    {
      && state.Length == 4 && buffer.Length == 64
      && Counts(countHi, countLo, |absorbed|)
      && AsRegs(state[..]) == Chain(absorbed)
      && buffer[..|absorbed| % 64] == Tail(absorbed)
    }

    /** TSK_MD5_Init. */
    constructor ()
      ensures Valid() && absorbed == [] && fresh(state) && fresh(buffer)
    {
      state := new word[4];
      buffer := new byte[64];
      countLo, countHi := 0, 0;
      absorbed := [];
      new;
      state[0] := 0x67452301;
      state[1] := 0xefcdab89;
      state[2] := 0x98badcfe;
      state[3] := 0x10325476;
    }

    /** MD5_memcpy into the buffer. */
    method Memcpy(at: nat, bytes: seq<byte>)
      requires buffer.Length == 64 && at + |bytes| <= 64
      modifies buffer
      ensures buffer[..] == old(buffer[..at]) + bytes + old(buffer[at + |bytes|..])
    {
      ghost var before := buffer[..];
      var i := 0;
      while i < |bytes|
        invariant i <= |bytes|
        invariant buffer[..] == before[..at] + bytes[..i] + before[at + i..]
      {
        buffer[at + i] := bytes[i];
        i := i + 1;
      }
    }

    /** The bit count at the head of TSK_MD5_Update. Returns the number of bytes already in the buffer. */
    method CountBits(inputLen: nat) returns (index: nat)
      requires Counts(countHi, countLo, |absorbed|) && inputLen < LIMIT32
      modifies this`countLo, this`countHi
      ensures Counts(countHi, countLo, |absorbed| + inputLen)
      ensures index == |absorbed| % 64
    {
      CountsNext(countHi, countLo, |absorbed|, inputLen);
      PendingBytes(countHi, countLo, |absorbed|);
      Carry(countLo, inputLen * 8 % LIMIT32);
      TwoStepSum(countHi, 1, inputLen / 0x2000_0000);
      hide Counts;
      index := countLo / 8 % 64;
      var low := inputLen * 8 % LIMIT32;
      countLo := (countLo + low) % LIMIT32;
      if countLo < low {
        countHi := (countHi + 1) % LIMIT32;
      }
      countHi := (countHi + inputLen / 0x2000_0000) % LIMIT32;
    }

    /** A block that completes the bytes seen so far goes through MD5Transform. */
    method TransformBlock(ghost seen: seq<byte>, ghost bytes: seq<byte>, block: Block)
      requires state.Length == 4
      requires |seen| % 64 + |bytes| == 64
      requires AsRegs(state[..]) == Chain(seen) && block == Tail(seen) + bytes
      modifies state
      ensures AsRegs(state[..]) == Chain(seen + bytes) && Tail(seen + bytes) == []
    {
      AbsorbBlock(Compress, H0, seen, bytes);
      ChainIs(seen);
      ChainIs(seen + bytes);
      hide *;
      MD5Transform(state, block);
    }

    lemma ChainIs(seen: seq<byte>)
      ensures Chain(seen) == Absorb(Compress, H0, seen)
    {
    }

    /** The loop of TSK_MD5_Update over the blocks of the input. */
    method TransformInput(ghost before: seq<byte>, input: seq<byte>, partLen: nat) returns (i: nat)
      requires state.Length == 4
      requires |before| % 64 + |input| < LIMIT32 && partLen == 64 - |before| % 64 <= |input|
      requires AsRegs(state[..]) == Chain(before + input[..partLen]) && Tail(before + input[..partLen]) == []
      modifies state
      ensures i <= |input| < i + 64
      ensures AsRegs(state[..]) == Chain(before + input[..i]) && Tail(before + input[..i]) == []
    {
      ghost var index := |before| % 64;
      i := partLen;
      assert LoopValue(index, |input|, i);
      LoopValueEnds(index, |input|);
      hide *;
      while LoopGuard(i, |input|)
        invariant LoopValue(index, |input|, i)
        invariant AsRegs(state[..]) == Chain(before + input[..i]) && Tail(before + input[..i]) == []
        decreases |input| - i
      {
        NoWrap(index, |input|, i);
        i := NextBlock(index, before, input, i);
      }
      NoWrap(index, |input|, i);
    }

    method NextBlock(ghost index: nat, ghost before: seq<byte>, input: seq<byte>, i: nat) returns (next: nat)
      requires state.Length == 4
      requires LoopValue(index, |input|, i) && i + 64 <= |input|
      requires AsRegs(state[..]) == Chain(before + input[..i]) && Tail(before + input[..i]) == []
      modifies state
      ensures next == i + 64 && LoopValue(index, |input|, next)
      ensures AsRegs(state[..]) == Chain(before + input[..next]) && Tail(before + input[..next]) == []
    {
      hide *;
      LoopValueNext(index, |input|, i);
      next := i + 64;
      ghost var seen, block := before + input[..i], input[i..i + 64];
      TailIsEmpty(seen);
      NextPart(before, input, i);
      assert Tail(seen) + block == block;
      TransformBlock(seen, block, input[i..i + 64]);
    }

    /** Bytes left after the last whole block wait in the buffer. */
    method KeepRest(ghost seen: seq<byte>, rest: seq<byte>)
      requires state.Length == 4 && buffer.Length == 64 && |rest| < 64
      requires AsRegs(state[..]) == Chain(seen) && Tail(seen) == []
      modifies buffer
      ensures AsRegs(state[..]) == Chain(seen + rest)
      ensures buffer[..|seen + rest| % 64] == Tail(seen + rest)
    {
      TailIsEmpty(seen);
      AbsorbPartial(Compress, H0, seen, rest);
      assert |seen + rest| % 64 == |Tail(seen + rest)|;
      hide Absorb, Tail;
      Memcpy(0, rest);
    }

    /** Input that does not complete the pending block. */
    method KeepPartial(ghost before: seq<byte>, input: seq<byte>, index: nat)
      requires state.Length == 4 && buffer.Length == 64
      requires index == |before| % 64 && index + |input| < 64
      requires AsRegs(state[..]) == Chain(before) && buffer[..index] == Tail(before)
      modifies buffer
      ensures AsRegs(state[..]) == Chain(before + input)
      ensures buffer[..|before + input| % 64] == Tail(before + input)
    {
      AbsorbPartial(Compress, H0, before, input);
      assert |before + input| % 64 == index + |input|;
      hide Absorb, Tail;
      Memcpy(index, input);
    }

    /** TSK_MD5_Update after the bit count. */
    method AddBytes(ghost before: seq<byte>, input: seq<byte>, index: nat)
      requires state.Length == 4 && buffer.Length == 64
      requires index == |before| % 64 && index + |input| < LIMIT32
      requires AsRegs(state[..]) == Chain(before) && buffer[..index] == Tail(before)
      modifies state, buffer
      ensures AsRegs(state[..]) == Chain(before + input)
      ensures buffer[..|before + input| % 64] == Tail(before + input)
    {
      hide *;
      var partLen := 64 - index;
      if |input| >= partLen {
        Memcpy(index, input[..partLen]);
        TransformBlock(before, input[..partLen], buffer[..]);
        var i := TransformInput(before, input, partLen);
        assert before + input[..i] + input[i..] == before + input;
        KeepRest(before + input[..i], input[i..]);
      } else {
        KeepPartial(before, input, index);
      }
    }

    /** TSK_MD5_Update. The pending bytes and the input together must be fewer than 2^32:
        GuardIsExact shows that the loop counter wraps around otherwise. */
    method Update(input: seq<byte>)
      requires Valid() && |absorbed| % 64 + |input| < LIMIT32
      modifies this, state, buffer
      ensures Valid() && absorbed == old(absorbed) + input
    {
      ValidParts();
      hide *;
      var index := CountBits(|input|);
      AddBytes(absorbed, input, index);
      absorbed := absorbed + input;
      PartsValid();
    }

    lemma ValidParts()
      requires Valid()
      ensures state.Length == 4 && buffer.Length == 64 && Counts(countHi, countLo, |absorbed|)
      ensures AsRegs(state[..]) == Chain(absorbed) && buffer[..|absorbed| % 64] == Tail(absorbed)
    {
    }

    lemma PartsValid()
      requires state.Length == 4 && buffer.Length == 64 && Counts(countHi, countLo, |absorbed|)
      requires AsRegs(state[..]) == Chain(absorbed) && buffer[..|absorbed| % 64] == Tail(absorbed)
      ensures Valid()
    {
    }

    /** TSK_MD5_Final: the digest of the bytes added before the call. */
    method Final() returns (digest: seq<byte>)
      requires Valid()
      modifies this, state, buffer
      ensures digest == Md5(old(absorbed))
    {
      Md5Is(absorbed);
      Pad();
      hide Chain, AsRegs, Tail, Counts, LittleEndianBytes, Padding, ToWords, Md5;
      RegsToWords(state[..]);
      var bytes := Encode(state[..]);
      digest := bytes[..];
    }

    /** The first half of TSK_MD5_Final: 0x80 and zeros, and then the bit count from before. */
    method Pad()
      requires Valid()
      modifies this, state, buffer
      ensures Valid() && absorbed == old(absorbed) + Padding(|old(absorbed)|)
    {
      var index, lo, hi := countLo / 8 % 64, WordOf(countLo), WordOf(countHi);
      var padLen := if index < 56 then 56 - index else 120 - index;
      PadIs(countHi, countLo, absorbed, padLen);
      hide *;
      var bits := Encode([lo, hi]);
      UpdateTwice([0x80] + Zeroes(padLen - 1), bits[..]);
    }

    /** Two short inputs one after the other. */
    method UpdateTwice(first: seq<byte>, second: seq<byte>)
      requires Valid() && |first| <= 64 && |second| <= 64
      modifies this, state, buffer
      ensures Valid() && absorbed == old(absorbed) + (first + second)
    {
      FewBytes(absorbed, first);
      FewBytes(absorbed + first, second);
      JoinedTwice(absorbed, first, second);
      hide *;
      Update(first);
      Update(second);
    }

    lemma JoinedTwice(a: seq<byte>, b: seq<byte>, c: seq<byte>)
      ensures a + b + c == a + (b + c)
    {
    }

    lemma FewBytes(seen: seq<byte>, input: seq<byte>)
      requires |input| <= 64
      ensures |seen| % 64 + |input| < LIMIT32
    {
    }

    /** The padding and the encoded bit count that TSK_MD5_Final appends. */
    lemma PadIs(hi: nat, lo: nat, message: seq<byte>, padLen: nat)
      requires Counts(hi, lo, |message|)
      requires var index := lo / 8 % 64; padLen == if index < 56 then 56 - index else 120 - index
      ensures [0x80] + Zeroes(padLen - 1) + LittleEndianBytes([WordOf(lo), WordOf(hi)]) == Padding(|message|)
    {
      FinalCount(hi, lo, |message|);
      ZerosIs(|message|);
      hide LittleEndianBytes, WordOf, LowWord, HighWord, Zeros, Zeroes, Counts;
    }

    lemma Md5Is(message: seq<byte>)
      ensures Md5(message) == LittleEndianBytes(ToWords(Chain(message + Padding(|message|))))
    {
      hide Chain, Padding, LittleEndianBytes, ToWords;
    }

    lemma RegsToWords(words: seq<word>)
      requires |words| == 4
      ensures ToWords(AsRegs(words)) == words
    {
    }
  }

  /** Any way to cut a message into chunks gives the digest of the whole message. */
  method HashChunks(chunks: seq<seq<byte>>) returns (digest: seq<byte>)
    requires forall c :: c in chunks ==> |c| <= 0xffff_ffc0
    ensures digest == Md5(Joined(chunks))
  {
    var context := new Md5Context();
    for i := 0 to |chunks|
      invariant context.Valid() && fresh(context) && fresh(context.state) && fresh(context.buffer)
      invariant context.absorbed == Joined(chunks[..i])
    {
      context.Update(chunks[i]);
      assert chunks[..i + 1][..i] == chunks[..i];
    }
    assert chunks[..|chunks|] == chunks;
    digest := context.Final();
  }
}
