/** Machine words and bytes as the digest code sees them: 8-bit and 32-bit
    unsigned values whose arithmetic wraps around. */
module Words {
  import opened Unsigned

  type byte = bv8
  type word = bv32

  /** A 64-byte message block. */
  type Block = b: seq<byte> | |b| == 64 witness seq(64, _ => 0)

  const TWO_TO_THE_64: nat := 0x1_0000_0000_0000_0000

  /** Circular left shift by n bits. */
  function Rotl(n: word, x: word): word
    requires 0 < n < 32
  {
    (x << n) | (x >> (32 - n))
  }

  /** The word that holds a number below 2^32. */
  function WordOf(n: nat): word
    requires n < LIMIT32
  {
    n as word
  }

  /** Addition modulo 2^32. */
  function Add(x: word, y: word): word { x + y }

  function BigEndianWord(b0: byte, b1: byte, b2: byte, b3: byte): word {
    (b0 as word << 24) | (b1 as word << 16) | (b2 as word << 8) | b3 as word
  }

  function LittleEndianWord(b0: byte, b1: byte, b2: byte, b3: byte): word {
    b0 as word | (b1 as word << 8) | (b2 as word << 16) | (b3 as word << 24)
  }

  /** Byte k of a word, counted from the least significant one. */
  function ByteOf(w: word, k: nat): byte
    requires k < 4
  {
    if k == 0 then (w & 0xff) as byte
    else if k == 1 then ((w >> 8) & 0xff) as byte
    else if k == 2 then ((w >> 16) & 0xff) as byte
    else ((w >> 24) & 0xff) as byte
  }

  lemma WordFromBytes(w: word)
    ensures LittleEndianWord(ByteOf(w, 0), ByteOf(w, 1), ByteOf(w, 2), ByteOf(w, 3)) == w
    ensures BigEndianWord(ByteOf(w, 3), ByteOf(w, 2), ByteOf(w, 1), ByteOf(w, 0)) == w
  {
  }

  lemma BytesFromWord(b0: byte, b1: byte, b2: byte, b3: byte)
    ensures var w := LittleEndianWord(b0, b1, b2, b3);
            ByteOf(w, 0) == b0 && ByteOf(w, 1) == b1 && ByteOf(w, 2) == b2 && ByteOf(w, 3) == b3
    ensures var w := BigEndianWord(b0, b1, b2, b3);
            ByteOf(w, 3) == b0 && ByteOf(w, 2) == b1 && ByteOf(w, 1) == b2 && ByteOf(w, 0) == b3
  {
  }

  /** The words of a byte string, most significant byte first. */
  function BigEndianWords(bytes: seq<byte>): (words: seq<word>)
    requires |bytes| % 4 == 0
    ensures |words| == |bytes| / 4
  {
    seq(|bytes| / 4, i requires 0 <= i < |bytes| / 4 =>
      BigEndianWord(bytes[4 * i], bytes[4 * i + 1], bytes[4 * i + 2], bytes[4 * i + 3]))
  }

  /** The words of a byte string, least significant byte first. */
  function LittleEndianWords(bytes: seq<byte>): (words: seq<word>)
    requires |bytes| % 4 == 0
    ensures |words| == |bytes| / 4
  {
    seq(|bytes| / 4, i requires 0 <= i < |bytes| / 4 =>
      LittleEndianWord(bytes[4 * i], bytes[4 * i + 1], bytes[4 * i + 2], bytes[4 * i + 3]))
  }

  /** The bytes of a word list, most significant byte of each word first. */
  function BigEndianBytes(words: seq<word>): (bytes: seq<byte>)
    ensures |bytes| == 4 * |words|
  {
    seq(4 * |words|, i requires 0 <= i < 4 * |words| => ByteOf(words[i / 4], 3 - i % 4))
  }

  /** The bytes of a word list, least significant byte of each word first. */
  function LittleEndianBytes(words: seq<word>): (bytes: seq<byte>)
    ensures |bytes| == 4 * |words|
  {
    seq(4 * |words|, i requires 0 <= i < 4 * |words| => ByteOf(words[i / 4], i % 4))
  }

  lemma LittleEndianBytesAt(words: seq<word>, i: nat)
    requires i < |words|
    ensures var bytes := LittleEndianBytes(words);
            && bytes[4 * i] == ByteOf(words[i], 0) && bytes[4 * i + 1] == ByteOf(words[i], 1)
            && bytes[4 * i + 2] == ByteOf(words[i], 2) && bytes[4 * i + 3] == ByteOf(words[i], 3)
  {
    hide ByteOf;
    assert 4 * i / 4 == (4 * i + 1) / 4 == (4 * i + 2) / 4 == (4 * i + 3) / 4 == i;
    assert 4 * i % 4 == 0 && (4 * i + 1) % 4 == 1 && (4 * i + 2) % 4 == 2 && (4 * i + 3) % 4 == 3;
  }

  lemma BigEndianBytesAt(words: seq<word>, i: nat)
    requires i < |words|
    ensures var bytes := BigEndianBytes(words);
            && bytes[4 * i] == ByteOf(words[i], 3) && bytes[4 * i + 1] == ByteOf(words[i], 2)
            && bytes[4 * i + 2] == ByteOf(words[i], 1) && bytes[4 * i + 3] == ByteOf(words[i], 0)
  {
    hide ByteOf;
    assert 4 * i / 4 == (4 * i + 1) / 4 == (4 * i + 2) / 4 == (4 * i + 3) / 4 == i;
    assert 4 * i % 4 == 0 && (4 * i + 1) % 4 == 1 && (4 * i + 2) % 4 == 2 && (4 * i + 3) % 4 == 3;
  }

  /** Byte strings that agree four bytes at a time are equal. */
  lemma SameByFours(x: seq<byte>, y: seq<byte>)
    requires |x| == |y| && |x| % 4 == 0
    requires forall i :: 0 <= i < |x| / 4 ==> SameFour(x, y, i)
    ensures x == y
  {
    forall j | 0 <= j < |x| ensures x[j] == y[j] {
      assert SameFour(x, y, j / 4);
    }
  }

  /** Four bytes of one string equal four bytes of another. */
  predicate SameFour(x: seq<byte>, y: seq<byte>, i: nat)
    requires |x| == |y| && 4 * i + 4 <= |x|
  {
    && x[4 * i] == y[4 * i] && x[4 * i + 1] == y[4 * i + 1]
    && x[4 * i + 2] == y[4 * i + 2] && x[4 * i + 3] == y[4 * i + 3]
  }
}
