/** The iteration both digests share: a compression function is folded over
    the 64-byte blocks of a message, and the bytes after the last whole block
    wait for more input. */
module BlockStream {
  import opened Words

  /** The chaining value after every whole block of the message. */
  function Absorb<S>(compress: (S, Block) -> S, s: S, message: seq<byte>): S
    decreases |message|
  {
    if |message| < 64 then s
    else Absorb(compress, compress(s, message[..64]), message[64..])
  }

  /** The bytes after the last whole block. */
  function Tail(message: seq<byte>): (tail: seq<byte>)
    ensures |tail| == |message| % 64
  {
    message[|message| - |message| % 64..]
  }

  lemma TailIsEmpty(seen: seq<byte>)
    requires Tail(seen) == []
    ensures |seen| % 64 == 0
  {
    assert |Tail(seen)| == 0;
  }

  /** The input up to the next 64 bytes. */
  lemma NextPart(before: seq<byte>, input: seq<byte>, at: nat)
    requires at + 64 <= |input|
    ensures before + input[..at + 64] == before + input[..at] + input[at..at + 64]
  {
  }

  /** Everything up to the last whole block. */
  function Whole(message: seq<byte>): (whole: seq<byte>)
    ensures |whole| % 64 == 0
  {
    message[..|message| - |message| % 64]
  }

  /** Appending after whole blocks continues from the chaining value reached so far. */
  lemma {:induction false} AbsorbAppend<S>(compress: (S, Block) -> S, s: S, a: seq<byte>, b: seq<byte>)
    requires |a| % 64 == 0
    ensures Absorb(compress, s, a + b) == Absorb(compress, Absorb(compress, s, a), b)
    decreases |a|
  {
    if |a| == 0 {
      assert a + b == b;
    } else {
      assert (a + b)[..64] == a[..64] && (a + b)[64..] == a[64..] + b;
      AbsorbAppend(compress, compress(s, a[..64]), a[64..], b);
    }
  }

  /** Whole blocks followed by less than one block: the chaining value depends
      on the whole blocks only, and the rest is pending. */
  lemma AbsorbWhole<S>(compress: (S, Block) -> S, s: S, whole: seq<byte>, rest: seq<byte>)
    requires |whole| % 64 == 0 && |rest| < 64
    ensures Absorb(compress, s, whole + rest) == Absorb(compress, s, whole)
  {
    AbsorbAppend(compress, s, whole, rest);
  }

  /** Whole blocks followed by one more block. */
  lemma AbsorbOne<S>(compress: (S, Block) -> S, s: S, whole: seq<byte>, block: Block)
    requires |whole| % 64 == 0
    ensures Absorb(compress, s, whole + block) == compress(Absorb(compress, s, whole), block)
  {
    AbsorbAppend(compress, s, whole, block);
    assert block[..64] == block && |block[64..]| == 0;
  }

  lemma TailOf(whole: seq<byte>, rest: seq<byte>)
    requires |whole| % 64 == 0 && |rest| < 64
    ensures Tail(whole + rest) == rest
  {
    assert (|whole| + |rest|) % 64 == |rest|;
  }

  lemma Parts(message: seq<byte>, bytes: seq<byte>)
    ensures Whole(message) + Tail(message) == message
    ensures Whole(message) + (Tail(message) + bytes) == message + bytes
  {
    assert Whole(message) + (Tail(message) + bytes) == (Whole(message) + Tail(message)) + bytes;
  }

  lemma WholeTail(message: seq<byte>, n: nat)
    requires n % 64 == 0 && |message| == n + 64
    ensures Tail(message) == []
  {
    assert (n + 64) % 64 == 0;
  }

  /** One step of a streaming update: bytes that complete the pending block are
      compressed, and the rest of the input starts on a block boundary. */
  lemma AbsorbBlock<S>(compress: (S, Block) -> S, s: S, message: seq<byte>, bytes: seq<byte>)
    requires |message| % 64 + |bytes| == 64
    ensures Absorb(compress, s, message + bytes) == compress(Absorb(compress, s, message), Tail(message) + bytes)
    ensures Tail(message + bytes) == []
  {
    Parts(message, bytes);
    AbsorbBlockAt(compress, s, Whole(message), Tail(message), bytes);
  }

  lemma AbsorbBlockAt<S>(compress: (S, Block) -> S, s: S, whole: seq<byte>, tail: seq<byte>, bytes: seq<byte>)
    requires |whole| % 64 == 0 && |tail| < 64 && |tail| + |bytes| == 64
    ensures Absorb(compress, s, whole + (tail + bytes)) == compress(Absorb(compress, s, whole + tail), tail + bytes)
    ensures Tail(whole + (tail + bytes)) == []
  {
    AbsorbWhole(compress, s, whole, tail);
    AbsorbOne(compress, s, whole, tail + bytes);
    WholeTail(whole + (tail + bytes), |whole|);
  }

  /** One step of a streaming update: bytes that do not complete the pending block. */
  lemma AbsorbPartial<S>(compress: (S, Block) -> S, s: S, message: seq<byte>, bytes: seq<byte>)
    requires |message| % 64 + |bytes| < 64
    ensures Absorb(compress, s, message + bytes) == Absorb(compress, s, message)
    ensures Tail(message + bytes) == Tail(message) + bytes
  {
    Parts(message, bytes);
    AbsorbPartialAt(compress, s, Whole(message), Tail(message), bytes);
  }

  lemma AbsorbPartialAt<S>(compress: (S, Block) -> S, s: S, whole: seq<byte>, tail: seq<byte>, bytes: seq<byte>)
    requires |whole| % 64 == 0 && |tail| + |bytes| < 64
    ensures Absorb(compress, s, whole + (tail + bytes)) == Absorb(compress, s, whole + tail)
    ensures Tail(whole + (tail + bytes)) == tail + bytes
  {
    AbsorbWhole(compress, s, whole, tail);
    AbsorbWhole(compress, s, whole, tail + bytes);
    TailOf(whole, tail + bytes);
  }

  /** Padding a message of n bytes with 0x80, zero bytes and an eight-byte length: the
      least number of zero bytes that completes a block. */
  function Zeros(n: nat): nat { (119 - n % 64) % 64 }

  lemma ZerosIs(n: nat)
    ensures Zeros(n) == if n % 64 < 56 then 55 - n % 64 else 119 - n % 64
  {
  }

  function Zeroes(k: nat): (bytes: seq<byte>)
    ensures |bytes| == k
  {
    seq(k, _ => 0)
  }

  /** The padded message is a whole number of blocks. */
  lemma PaddedLength(n: nat)
    ensures (n + 9 + Zeros(n)) % 64 == 0 && (n + 1 + Zeros(n)) % 64 == 56
  {
  }
}
