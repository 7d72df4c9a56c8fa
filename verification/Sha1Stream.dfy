/** Padding and the digest of a whole message, sections 5.1.1 and 6.1.2 of FIPS 180-4. */
module Sha1Digest {
  import opened Words
  import opened BitCount
  import opened BlockStream
  import opened Sha1Spec

  /** The message length in bits modulo 2^64, as eight bytes, most significant first. */
  function LengthBytes(n: nat): (bytes: seq<byte>)
    ensures |bytes| == 8
  {
    BigEndianBytes([WordOf(HighWord(n)), WordOf(LowWord(n))])
  }

  function Padding(n: nat): (bytes: seq<byte>)
    ensures |bytes| == 9 + Zeros(n)
  {
    [0x80] + Zeroes(Zeros(n)) + LengthBytes(n)
  }

  function ToWords(r: Regs): seq<word> { [r.a, r.b, r.c, r.d, r.e] }

  /** The chaining value after the message alone. */
  function Chain(message: seq<byte>): Regs { Absorb(Compress, H0, message) }

  /** The SHA-1 digest of a message. */
  function Sha1(message: seq<byte>): seq<byte> {
    BigEndianBytes(ToWords(Chain(message + Padding(|message|))))
  }
}

/** The incremental interface of tsk/base/sha1c.c. */
module Sha1Stream {
  import opened Unsigned
  import opened Chunks
  import opened Words
  import opened BitCount
  import opened BlockStream
  import opened Sha1Spec
  import opened Sha1Transform
  import opened Sha1Digest

  /** The words of the data area as the host reads them. */
  function HostWords(bigEndian: bool, bytes: seq<byte>): (words: seq<word>)
    requires |bytes| % 4 == 0
    ensures |words| == |bytes| / 4
  {
    if bigEndian then BigEndianWords(bytes) else LittleEndianWords(bytes)
  }

  /** The exchange of the bytes of a word in longReverse. */
  function Swapped(value: word): word {
    var halves := ((value & 0xFF00FF00) >> 8) | ((value & 0x00FF00FF) << 8);
    (halves << 16) | (halves >> 16)
  }

  lemma SwappedReverses(b0: byte, b1: byte, b2: byte, b3: byte)
    ensures Swapped(LittleEndianWord(b0, b1, b2, b3)) == LittleEndianWord(b3, b2, b1, b0)
            == BigEndianWord(b0, b1, b2, b3)
  {
  }

  /** Word k of the data area has its bytes in reverse order. */
  predicate WordReversed(now: seq<byte>, before: seq<byte>, k: nat)
    requires |now| == |before| == 64 && k < 16
  {
    && now[4 * k] == before[4 * k + 3] && now[4 * k + 1] == before[4 * k + 2]
    && now[4 * k + 2] == before[4 * k + 1] && now[4 * k + 3] == before[4 * k]
  }

  /** The first n words have their bytes reversed, and the others are untouched. */
  predicate Reversed(now: seq<byte>, before: seq<byte>, n: nat)
    requires |now| == |before| == 64 && n <= 16
  {
    && (forall k :: 0 <= k < n ==> WordReversed(now, before, k))
    && (forall k :: n <= k < 16 ==> SameFour(now, before, k))
  }

  lemma ReversedIsBigEndian(now: seq<byte>, before: seq<byte>, n: nat)
    requires |now| == |before| == 64 && n <= 16 && Reversed(now, before, n)
    ensures forall k :: 0 <= k < n ==> LittleEndianWords(now)[k] == BigEndianWords(before)[k]
    ensures forall k :: n <= k < 16 ==> LittleEndianWords(now)[k] == LittleEndianWords(before)[k]
  {
    forall k | 0 <= k < n ensures LittleEndianWords(now)[k] == BigEndianWords(before)[k] {
      assert WordReversed(now, before, k);
      SwappedReverses(before[4 * k], before[4 * k + 1], before[4 * k + 2], before[4 * k + 3]);
      hide Swapped, BigEndianWord, LittleEndianWord;
    }
    forall k | n <= k < 16 ensures LittleEndianWords(now)[k] == LittleEndianWords(before)[k] {
      assert SameFour(now, before, k);
      hide BigEndianWord, LittleEndianWord;
    }
  }

  method StoreLittleEndian(data: array<byte>, k: nat, value: word)
    requires data.Length == 64 && k < 16
    modifies data
    ensures forall j :: 0 <= j < 4 ==> data[4 * k + j] == ByteOf(value, j)
    ensures forall i :: 0 <= i < 64 && !(4 * k <= i < 4 * k + 4) ==> data[i] == old(data[i])
  {
    hide ByteOf;
    data[4 * k] := ByteOf(value, 0);
    data[4 * k + 1] := ByteOf(value, 1);
    data[4 * k + 2] := ByteOf(value, 2);
    data[4 * k + 3] := ByteOf(value, 3);
  }

  /** longReverse on a little-endian host. */
  method LongReverse(data: array<byte>, byteCount: nat, bigEndian: bool)
    requires data.Length == 64 && byteCount <= 64
    modifies data
    ensures bigEndian ==> data[..] == old(data[..])
    ensures !bigEndian ==> Reversed(data[..], old(data[..]), byteCount / 4)
  {
    if bigEndian {
      return;
    }
    ghost var before := data[..];
    var n := byteCount / 4;
    var k := 0;
    while k < n
      invariant 0 <= k <= n
      invariant Reversed(data[..], before, k)
    {
      ghost var now := data[..];
      assert SameFour(now, before, k);
      SwappedReverses(before[4 * k], before[4 * k + 1], before[4 * k + 2], before[4 * k + 3]);
      BytesFromWord(before[4 * k + 3], before[4 * k + 2], before[4 * k + 1], before[4 * k]);
      hide LittleEndianWord, Swapped, ByteOf, BigEndianWord;
      var value := LittleEndianWord(data[4 * k], data[4 * k + 1], data[4 * k + 2], data[4 * k + 3]);
      StoreLittleEndian(data, k, Swapped(value));
      ReversedStep(data[..], now, before, k);
      k := k + 1;
    }
  }

  lemma ReversedStep(next: seq<byte>, now: seq<byte>, before: seq<byte>, k: nat)
    requires |next| == |now| == |before| == 64 && k < 16
    requires Reversed(now, before, k)
    requires WordReversed(next, before, k)
    requires forall i :: 0 <= i < 64 && !(4 * k <= i < 4 * k + 4) ==> next[i] == now[i]
    ensures Reversed(next, before, k + 1)
  {
    forall m | 0 <= m < k ensures WordReversed(next, before, m) {
      assert WordReversed(now, before, m);
    }
    forall m | k < m < 16 ensures SameFour(next, before, m) {
      assert SameFour(now, before, m);
    }
  }

  /** Four bytes decide a word. */
  lemma SameWord(bigEndian: bool, x: seq<byte>, y: seq<byte>, k: nat)
    requires |x| == |y| == 64 && k < 16
    requires SameFour(x, y, k)
    ensures HostWords(bigEndian, x)[k] == HostWords(bigEndian, y)[k] && BigEndianWords(x)[k] == BigEndianWords(y)[k]
  {
    hide BigEndianWord, LittleEndianWord;
  }

  /** The bytes at word k are those of a value, in the host's order. */
  predicate HoldsWord(bigEndian: bool, bytes: seq<byte>, k: nat, value: word)
    requires |bytes| == 64 && k < 16
  {
    if bigEndian then
      && bytes[4 * k] == ByteOf(value, 3) && bytes[4 * k + 1] == ByteOf(value, 2)
      && bytes[4 * k + 2] == ByteOf(value, 1) && bytes[4 * k + 3] == ByteOf(value, 0)
    else
      && bytes[4 * k] == ByteOf(value, 0) && bytes[4 * k + 1] == ByteOf(value, 1)
      && bytes[4 * k + 2] == ByteOf(value, 2) && bytes[4 * k + 3] == ByteOf(value, 3)
  }

  /** A word written in the host's byte order is read back. */
  lemma StoredWord(bigEndian: bool, bytes: seq<byte>, k: nat, value: word)
    requires |bytes| == 64 && k < 16
    requires HoldsWord(bigEndian, bytes, k, value)
    ensures HostWords(bigEndian, bytes)[k] == value
  {
    hide ByteOf, LittleEndianWord, BigEndianWord;
    WordFromBytes(value);
    HostWordAt(bigEndian, bytes, k);
    hide HostWords;
  }

  lemma HostWordAt(bigEndian: bool, bytes: seq<byte>, k: nat)
    requires |bytes| == 64 && k < 16
    ensures HostWords(bigEndian, bytes)[k]
         == if bigEndian then BigEndianWord(bytes[4 * k], bytes[4 * k + 1], bytes[4 * k + 2], bytes[4 * k + 3])
            else LittleEndianWord(bytes[4 * k], bytes[4 * k + 1], bytes[4 * k + 2], bytes[4 * k + 3])
  {
    if bigEndian {
      WordAt(bytes, k);
    } else {
      LittleWordAt(bytes, k);
    }
    hide BigEndianWord, LittleEndianWord, BigEndianWords, LittleEndianWords;
  }

  lemma LittleWordAt(bytes: seq<byte>, k: nat)
    requires |bytes| == 64 && k < 16
    ensures |LittleEndianWords(bytes)| == 16
    ensures LittleEndianWords(bytes)[k]
         == LittleEndianWord(bytes[4 * k], bytes[4 * k + 1], bytes[4 * k + 2], bytes[4 * k + 3])
  {
    hide LittleEndianWord;
  }

  /** The last two words of a block that ends with the bytes of hi and lo. */
  lemma LengthWords(head: seq<byte>, hi: word, lo: word)
    requires |head| == 56
    ensures var block := head + BigEndianBytes([hi, lo]);
            BigEndianWords(block)[14] == hi && BigEndianWords(block)[15] == lo
  {
    WordFromBytes(hi);
    WordFromBytes(lo);
    BigEndianBytesAt([hi, lo], 0);
    BigEndianBytesAt([hi, lo], 1);
    WordAt(head + BigEndianBytes([hi, lo]), 14);
    WordAt(head + BigEndianBytes([hi, lo]), 15);
    hide ByteOf, BigEndianWord, BigEndianBytes, BigEndianWords;
  }

  lemma WordAt(block: seq<byte>, i: nat)
    requires |block| % 4 == 0 && 4 * i + 4 <= |block|
    ensures |BigEndianWords(block)| > i
    ensures BigEndianWords(block)[i]
         == BigEndianWord(block[4 * i], block[4 * i + 1], block[4 * i + 2], block[4 * i + 3])
  {
    hide BigEndianWord;
  }

  /** A word of the message part of the last block, as SHSTransform sees it. */
  lemma MessageWord(bigEndian: bool, block: seq<byte>, before: seq<byte>, now: seq<byte>, k: nat)
    requires |block| == |before| == |now| == 64 && k < 14
    requires SameFour(before, block, k)
    requires if bigEndian then now == before else Reversed(now, before, 14)
    ensures HostWords(bigEndian, now)[k] == BigEndianWords(block)[k]
  {
    SameWord(bigEndian, before, block, k);
    if !bigEndian {
      ReversedIsBigEndian(now, before, 14);
    }
    hide BigEndianWords, LittleEndianWords;
  }

  /** A word of the length, stored as a word and left alone by longReverse. */
  lemma LengthWord(bigEndian: bool, before: seq<byte>, now: seq<byte>, k: nat)
    requires |before| == |now| == 64 && 14 <= k < 16
    requires if bigEndian then now == before else Reversed(now, before, 14)
    ensures HostWords(bigEndian, now)[k] == HostWords(bigEndian, before)[k]
  {
    if !bigEndian {
      ReversedIsBigEndian(now, before, 14);
    }
    hide BigEndianWords, LittleEndianWords;
  }

  /** What SHSTransform sees in TSK_SHA_Final: 14 reversed words and two stored as words. */
  lemma LastBlockWords(bigEndian: bool, head: seq<byte>, before: seq<byte>, now: seq<byte>, hi: word, lo: word)
    requires |head| == 56 && |before| == |now| == 64
    requires before[..56] == head
    requires HostWords(bigEndian, before)[14] == hi && HostWords(bigEndian, before)[15] == lo
    requires if bigEndian then now == before else Reversed(now, before, 14)
    ensures HostWords(bigEndian, now) == BigEndianWords(head + BigEndianBytes([hi, lo]))
  {
    hide *;
    var tail := BigEndianBytes([hi, lo]);
    LengthWords(head, hi, lo);
    LengthWord(bigEndian, before, now, 14);
    LengthWord(bigEndian, before, now, 15);
    forall k | 0 <= k < 14 ensures HostWords(bigEndian, now)[k] == BigEndianWords(head + tail)[k] {
      HeadWord(before, head, tail, k);
      MessageWord(bigEndian, head + tail, before, now, k);
    }
    assert forall k :: 0 <= k < 16 ==> HostWords(bigEndian, now)[k] == BigEndianWords(head + tail)[k];
  }

  lemma HeadWord(before: seq<byte>, head: seq<byte>, tail: seq<byte>, k: nat)
    requires |before| == 64 && |head| == 56 && |tail| == 8 && k < 14
    requires before[..56] == head
    ensures SameFour(before, head + tail, k)
  {
    assert forall i :: 0 <= i < 56 ==> before[i] == before[..56][i] == (head + tail)[i];
  }

  /** SHAtoByte: words to bytes, most significant first. */
  method SHAtoByte(input: seq<word>) returns (output: array<byte>)
    ensures fresh(output) && output[..] == BigEndianBytes(input)
  {
    hide ByteOf, BigEndianBytes;
    ghost var spec := BigEndianBytes(input);
    output := new byte[4 * |input|];
    var i, j := 0, 0;
    while j < output.Length
      invariant j == 4 * i && i <= |input| && output.Length == 4 * |input|
      invariant forall k :: 0 <= k < i ==> SameFour(output[..], spec, k)
    {
      ghost var before := output[..];
      output[j + 3] := ByteOf(input[i], 0);
      output[j + 2] := ByteOf(input[i], 1);
      output[j + 1] := ByteOf(input[i], 2);
      output[j] := ByteOf(input[i], 3);
      BigEndianBytesAt(input, i);
      forall k | 0 <= k < i ensures SameFour(output[..], spec, k) {
        assert SameFour(before, spec, k);
      }
      i, j := i + 1, j + 4;
    }
    SameByFours(output[..], spec);
  }

  class Sha1Context {
    const bigEndian: bool
    const digest: array<word>
    const data: array<byte>
    var countLo: nat
    var countHi: nat

    /** The bytes added so far. */
    ghost var absorbed: seq<byte>

    ghost predicate Valid()
      reads this, digest, data
    {
      && digest.Length == 5 && data.Length == 64
      && Counts(countHi, countLo, |absorbed|)
      && AsRegs(digest[..]) == Chain(absorbed)
      && data[..|absorbed| % 64] == Tail(absorbed)
    }

    /** TSK_SHA_Init on a host of the given byte order. */
    constructor (hostIsBigEndian: bool)
      ensures Valid() && absorbed == [] && fresh(digest) && fresh(data)
    {
      bigEndian := hostIsBigEndian;
      digest := new word[5];
      data := new byte[64];
      countLo, countHi := 0, 0;
      absorbed := [];
      new;
      digest[0] := 0x67452301;
      digest[1] := 0xEFCDAB89;
      digest[2] := 0x98BADCFE;
      digest[3] := 0x10325476;
      digest[4] := 0xC3D2E1F0;
    }

    /** A full data area goes through longReverse and SHSTransform. */
    method TransformData()
      requires digest.Length == 5 && data.Length == 64
      modifies digest, data
      ensures AsRegs(digest[..]) == Compress(AsRegs(old(digest[..])), old(data[..]))
    {
      ghost var before := data[..];
      LongReverse(data, 64, bigEndian);
      ghost var now := data[..];
      hide AsRegs;
      assert HostWords(bigEndian, now) == BigEndianWords(before) by {
        if !bigEndian {
          ReversedIsBigEndian(now, before, 16);
        }
      }
      hide HostWords, CompressWords;
      SHSTransform(digest, HostWords(bigEndian, data[..]));
    }

    /** A data area filled up to 64 bytes is compressed into the chaining value. */
    method CompressPending(ghost seen: seq<byte>, ghost bytes: seq<byte>)
      requires digest.Length == 5 && data.Length == 64
      requires |seen| % 64 + |bytes| == 64
      requires AsRegs(digest[..]) == Chain(seen) && data[..] == Tail(seen) + bytes
      modifies digest, data
      ensures AsRegs(digest[..]) == Chain(seen + bytes) && Tail(seen + bytes) == []
    {
      AbsorbBlock(Compress, H0, seen, bytes);
      hide *;
      TransformData();
      assert Chain(seen + bytes) == Compress(Chain(seen), Tail(seen) + bytes);
    }

    /** memcpy into the data area. */
    method Memcpy(at: nat, bytes: seq<byte>)
      requires data.Length == 64 && at + |bytes| <= 64
      modifies data
      ensures data[..] == old(data[..at]) + bytes + old(data[at + |bytes|..])
    {
      forall i | 0 <= i < |bytes| {
        data[at + i] := bytes[i];
      }
    }

    /** The bit count at the head of TSK_SHA_Update. Returns the number of bytes already in the data area. */
    method CountBits(count: nat) returns (dataCount: nat)
      requires Counts(countHi, countLo, |absorbed|) && count < LIMIT32
      modifies this`countLo, this`countHi
      ensures Counts(countHi, countLo, |absorbed| + count)
      ensures dataCount == |absorbed| % 64
    {
      CountsNext(countHi, countLo, |absorbed|, count);
      PendingBytes(countHi, countLo, |absorbed|);
      var tmp := countLo;
      Carry(tmp, count * 8 % LIMIT32);
      TwoStepSum(countHi, 1, count / 0x2000_0000);
      hide Counts;
      countLo := (tmp + count * 8 % LIMIT32) % LIMIT32;
      if countLo < tmp {
        countHi := (countHi + 1) % LIMIT32;
      }
      countHi := (countHi + count / 0x2000_0000) % LIMIT32;
      dataCount := tmp / 8 % 64;
    }

    /** The loop of TSK_SHA_Update over whole blocks, started on a block boundary. */
    method CompressWhole(ghost before: seq<byte>, buffer: seq<byte>, start: nat) returns (at: nat)
      requires digest.Length == 5 && data.Length == 64 && start <= |buffer|
      requires AsRegs(digest[..]) == Chain(before + buffer[..start]) && Tail(before + buffer[..start]) == []
      modifies digest, data
      ensures at <= |buffer| < at + 64
      ensures AsRegs(digest[..]) == Chain(before + buffer[..at]) && Tail(before + buffer[..at]) == []
    {
      at := start;
      var count := |buffer| - start;
      while count >= 64
        invariant at + count == |buffer| && 0 <= count
        invariant AsRegs(digest[..]) == Chain(before + buffer[..at])
        invariant Tail(before + buffer[..at]) == []
      {
        ghost var seen, block := before + buffer[..at], buffer[at..at + 64];
        hide *;
        TailIsEmpty(seen);
        NextPart(before, buffer, at);
        Memcpy(0, buffer[at..at + 64]);
        CompressPending(seen, block);
        at := at + 64;
        count := count - 64;
      }
    }

    /** Bytes left after the last whole block wait in the data area. */
    method KeepRest(ghost seen: seq<byte>, rest: seq<byte>)
      requires digest.Length == 5 && data.Length == 64 && |rest| < 64
      requires AsRegs(digest[..]) == Chain(seen) && Tail(seen) == []
      modifies data
      ensures AsRegs(digest[..]) == Chain(seen + rest)
      ensures |seen + rest| % 64 == |rest| && data[..|rest|] == Tail(seen + rest)
    {
      TailIsEmpty(seen);
      AbsorbPartial(Compress, H0, seen, rest);
      assert |seen + rest| % 64 == |Tail(seen + rest)|;
      hide Absorb, Tail;
      Memcpy(0, rest);
    }

    /** Input that does not complete the pending block. */
    method KeepPartial(ghost before: seq<byte>, buffer: seq<byte>, dataCount: nat)
      requires digest.Length == 5 && data.Length == 64
      requires dataCount == |before| % 64 && dataCount + |buffer| < 64
      requires AsRegs(digest[..]) == Chain(before) && data[..dataCount] == Tail(before)
      modifies data
      ensures AsRegs(digest[..]) == Chain(before + buffer)
      ensures data[..|before + buffer| % 64] == Tail(before + buffer)
    {
      AbsorbPartial(Compress, H0, before, buffer);
      assert |before + buffer| % 64 == dataCount + |buffer|;
      hide Absorb, Tail;
      Memcpy(dataCount, buffer);
    }

    /** Input that completes the pending block. Returns how much of it was used. */
    method FillPending(ghost before: seq<byte>, buffer: seq<byte>, dataCount: nat) returns (at: nat)
      requires digest.Length == 5 && data.Length == 64
      requires dataCount == |before| % 64 && dataCount + |buffer| >= 64
      requires AsRegs(digest[..]) == Chain(before) && data[..dataCount] == Tail(before)
      modifies digest, data
      ensures at <= |buffer|
      ensures AsRegs(digest[..]) == Chain(before + buffer[..at]) && Tail(before + buffer[..at]) == []
    {
      at := 64 - dataCount;
      hide *;
      Memcpy(dataCount, buffer[..at]);
      CompressPending(before, buffer[..at]);
    }

    /** TSK_SHA_Update after the bit count. */
    method AddBytes(ghost before: seq<byte>, buffer: seq<byte>, dataCount: nat)
      requires digest.Length == 5 && data.Length == 64
      requires dataCount == |before| % 64
      requires AsRegs(digest[..]) == Chain(before) && data[..dataCount] == Tail(before)
      modifies digest, data
      ensures AsRegs(digest[..]) == Chain(before + buffer)
      ensures data[..|before + buffer| % 64] == Tail(before + buffer)
    {
      hide *;
      var at := 0;
      if dataCount != 0 {
        if |buffer| < 64 - dataCount {
          KeepPartial(before, buffer, dataCount);
          return;
        }
        at := FillPending(before, buffer, dataCount);
      } else {
        assert before + buffer[..0] == before && Tail(before) == [];
      }
      at := CompressWhole(before, buffer, at);
      assert before + buffer[..at] + buffer[at..] == before + buffer;
      KeepRest(before + buffer[..at], buffer[at..]);
    }

    /** TSK_SHA_Update. The byte count of one call is a C int. */
    method Update(buffer: seq<byte>)
      requires Valid() && |buffer| < 0x8000_0000
      modifies this, digest, data
      ensures Valid() && absorbed == old(absorbed) + buffer
    {
      var dataCount := CountBits(|buffer|);
      hide Absorb, Tail, Chain, Counts;
      AddBytes(absorbed, buffer, dataCount);
      absorbed := absorbed + buffer;
    }

    /** Word k of the data area is written the way the host stores words. */
    method StoreWord(k: nat, value: word)
      requires data.Length == 64 && k < 16
      modifies data
      ensures forall i :: 0 <= i < 64 && !(4 * k <= i < 4 * k + 4) ==> data[i] == old(data[i])
      ensures HostWords(bigEndian, data[..])[k] == value
    {
      WriteWord(k, value);
      hide *;
      StoredWord(bigEndian, data[..], k, value);
    }

    method WriteWord(k: nat, value: word)
      requires data.Length == 64 && k < 16
      modifies data
      ensures forall i :: 0 <= i < 64 && !(4 * k <= i < 4 * k + 4) ==> data[i] == old(data[i])
      ensures HoldsWord(bigEndian, data[..], k, value)
    {
      hide ByteOf;
      if bigEndian {
        data[4 * k] := ByteOf(value, 3);
        data[4 * k + 1] := ByteOf(value, 2);
        data[4 * k + 2] := ByteOf(value, 1);
        data[4 * k + 3] := ByteOf(value, 0);
      } else {
        data[4 * k] := ByteOf(value, 0);
        data[4 * k + 1] := ByteOf(value, 1);
        data[4 * k + 2] := ByteOf(value, 2);
        data[4 * k + 3] := ByteOf(value, 3);
      }
    }

    method StoreLength(hi: word, lo: word)
      requires data.Length == 64
      modifies data
      ensures data[..56] == old(data[..56])
      ensures HostWords(bigEndian, data[..])[14] == hi && HostWords(bigEndian, data[..])[15] == lo
    {
      StoreWord(14, hi);
      ghost var first := data[..];
      StoreWord(15, lo);
      SameWord(bigEndian, data[..], first, 14);
    }

    /** The last block: 56 bytes in message order, then the two words of the bit count. */
    method TransformLast(hi: word, lo: word)
      requires digest.Length == 5 && data.Length == 64
      modifies digest, data
      ensures AsRegs(digest[..]) == Compress(AsRegs(old(digest[..])), old(data[..56]) + BigEndianBytes([hi, lo]))
    {
      hide *;
      ghost var h, head := AsRegs(digest[..]), data[..56];
      StoreLength(hi, lo);
      ghost var before := data[..];
      LongReverse(data, 56, bigEndian);
      LastBlockWords(bigEndian, head, before, data[..], hi, lo);
      CompressOfWords(h, head + BigEndianBytes([hi, lo]));
      SHSTransform(digest, HostWords(bigEndian, data[..]));
    }

    lemma CompressOfWords(h: Regs, block: Block)
      ensures Compress(h, block) == CompressWords(h, BigEndianWords(block))
    {
    }

    /** Two lots of padding: the pending block is filled up and compressed first. */
    method PadTwoBlocks(ghost seen: seq<byte>, count: nat)
      requires digest.Length == 5 && data.Length == 64
      requires count == |seen| % 64 && 56 <= count
      requires AsRegs(digest[..]) == Chain(seen) && data[..count] == Tail(seen)
      modifies digest, data
      ensures AsRegs(digest[..]) == Chain(seen + [0x80] + Zeroes(119 - count))
      ensures data[..56] == Tail(seen + [0x80] + Zeroes(119 - count))
    {
      hide Absorb, Tail, Chain, AsRegs;
      ghost var first := [0x80] + Zeroes(63 - count);
      assert |first| == 64 - count;
      Memcpy(count, [0x80] + Zeroes(63 - count));
      CompressPending(seen, first);
      TailIsEmpty(seen + first);
      AbsorbPartial(Compress, H0, seen + first, Zeroes(56));
      assert seen + first + Zeroes(56) == seen + [0x80] + Zeroes(119 - count);
      ChainIs(seen + first);
      ChainIs(seen + first + Zeroes(56));
      Memcpy(0, Zeroes(56));
    }

    /** One lot of padding. */
    method PadOneBlock(ghost seen: seq<byte>, count: nat)
      requires digest.Length == 5 && data.Length == 64
      requires count == |seen| % 64 && count < 56
      requires AsRegs(digest[..]) == Chain(seen) && data[..count] == Tail(seen)
      modifies data
      ensures AsRegs(digest[..]) == Chain(seen + [0x80] + Zeroes(55 - count))
      ensures data[..56] == Tail(seen + [0x80] + Zeroes(55 - count))
    {
      hide Absorb, Tail, Chain, AsRegs;
      ghost var padding := [0x80] + Zeroes(55 - count);
      assert seen + padding == seen + [0x80] + Zeroes(55 - count);
      AbsorbPartial(Compress, H0, seen, padding);
      ChainIs(seen);
      ChainIs(seen + padding);
      Memcpy(count, [0x80] + Zeroes(55 - count));
    }

    /** The padding at the head of TSK_SHA_Final. */
    method PadTo56(ghost seen: seq<byte>, count: nat, ghost zeros: nat)
      requires digest.Length == 5 && data.Length == 64
      requires count == |seen| % 64 && zeros == if 56 <= count then 119 - count else 55 - count
      requires AsRegs(digest[..]) == Chain(seen) && data[..count] == Tail(seen)
      modifies digest, data
      ensures AsRegs(digest[..]) == Chain(seen + [0x80] + Zeroes(zeros))
      ensures data[..56] == Tail(seen + [0x80] + Zeroes(zeros))
    {
      hide *;
      if 63 - count < 8 {
        PadTwoBlocks(seen, count);
      } else {
        PadOneBlock(seen, count);
      }
    }

    lemma ChainIs(seen: seq<byte>)
      ensures Chain(seen) == Absorb(Compress, H0, seen)
    {
    }

    /** Everything before the length, appended to a message of n bytes. */
    lemma PadBeforeLength(message: seq<byte>)
      ensures var padded := message + [0x80] + Zeroes(Zeros(|message|));
              padded + BigEndianBytes([WordOf(HighWord(|message|)), WordOf(LowWord(|message|))])
              == message + Padding(|message|)
              && |padded| % 64 == 56
    {
      PaddedLength(|message|);
      hide BigEndianBytes, HighWord, LowWord, WordOf, Zeros, Zeroes;
    }

    /** TSK_SHA_Final: the digest of the bytes added. The context is not used afterwards. */
    method Final() returns (output: seq<byte>)
      requires Valid()
      modifies this, digest, data
      ensures output == Sha1(absorbed) && absorbed == old(absorbed)
    {
      ghost var zeros := Zeros(|absorbed|);
      FinalCount(countHi, countLo, |absorbed|);
      ZerosIs(|absorbed|);
      PadBeforeLength(absorbed);
      hide WordOf, Zeros, Counts, HighWord, LowWord, Absorb, Tail, Chain, AsRegs, Padding, Zeroes, Sha1;
      var count, hi, lo := countLo / 8 % 64, WordOf(countHi), WordOf(countLo);
      PadTo56(absorbed, count, zeros);
      output := FinishAt(absorbed + [0x80] + Zeroes(zeros), absorbed, hi, lo);
    }

    /** The last block: the padded message waits in the data area, and its bit count is appended. */
    method FinishAt(ghost padded: seq<byte>, ghost message: seq<byte>, hi: word, lo: word) returns (output: seq<byte>)
      requires digest.Length == 5 && data.Length == 64
      requires |padded| % 64 == 56 && padded + BigEndianBytes([hi, lo]) == message + Padding(|message|)
      requires AsRegs(digest[..]) == Chain(padded) && data[..56] == Tail(padded)
      modifies digest, data
      ensures output == Sha1(message)
    {
      AbsorbBlock(Compress, H0, padded, BigEndianBytes([hi, lo]));
      ChainIs(padded);
      ChainIs(message + Padding(|message|));
      Sha1Is(message);
      hide *;
      TransformLast(hi, lo);
      RegsToWords(digest[..]);
      var bytes := SHAtoByte(digest[..]);
      output := bytes[..];
    }

    lemma Sha1Is(message: seq<byte>)
      ensures Sha1(message) == BigEndianBytes(ToWords(Chain(message + Padding(|message|))))
    {
      hide Chain, Padding, BigEndianBytes, ToWords;
    }

    lemma RegsToWords(words: seq<word>)
      requires |words| == 5
      ensures ToWords(AsRegs(words)) == words
    {
    }
  }

  /** Any way to cut a message into chunks gives the digest of the whole message, on a host
      of either byte order. */
  method HashChunks(hostIsBigEndian: bool, chunks: seq<seq<byte>>) returns (output: seq<byte>)
    requires forall c :: c in chunks ==> |c| < 0x8000_0000
    ensures output == Sha1(Joined(chunks))
  {
    var context := new Sha1Context(hostIsBigEndian);
    for i := 0 to |chunks|
      invariant context.Valid() && fresh(context) && fresh(context.digest) && fresh(context.data)
      invariant context.absorbed == Joined(chunks[..i])
    {
      context.Update(chunks[i]);
      assert chunks[..i + 1][..i] == chunks[..i];
    }
    assert chunks[..|chunks|] == chunks;
    output := context.Final();
  }
}
