/** What the word operations under both digests compute. */
module WordLaws {
  import opened Words

  /** Rotating moves bit i to place i + n modulo 32. */
  lemma RotatedBit(n: word, x: word, i: word)
    requires 0 < n < 32 && i < 32
    ensures (Rotl(n, x) >> ((i + n) % 32)) & 1 == (x >> i) & 1
  {
    if n == 1 {
    } else if n == 2 {
    } else if n == 3 {
    } else if n == 4 {
    } else if n == 5 {
    } else if n == 6 {
    } else if n == 7 {
    } else if n == 8 {
    } else if n == 9 {
    } else if n == 10 {
    } else if n == 11 {
    } else if n == 12 {
    } else if n == 13 {
    } else if n == 14 {
    } else if n == 15 {
    } else if n == 16 {
    } else if n == 17 {
    } else if n == 18 {
    } else if n == 19 {
    } else if n == 20 {
    } else if n == 21 {
    } else if n == 22 {
    } else if n == 23 {
    } else if n == 24 {
    } else if n == 25 {
    } else if n == 26 {
    } else if n == 27 {
    } else if n == 28 {
    } else if n == 29 {
    } else if n == 30 {
    }
  }

  lemma AddedWords(x: word, y: word)
    ensures Add(x, y) as bv64 == (x as bv64 + y as bv64) & 0xffff_ffff
  {
  }

  /** A number that a word stands for is read as that word. */
  lemma WordOfNumber(w: word)
    ensures WordOf(w as nat) == w
  {
  }

  /** The first byte counts most in one order and least in the other. */
  lemma WordOfDigits(b0: byte, b1: byte, b2: byte, b3: byte)
    ensures BigEndianWord(b0, b1, b2, b3)
         == b0 as word * 0x100_0000 + b1 as word * 0x1_0000 + b2 as word * 0x100 + b3 as word
    ensures LittleEndianWord(b0, b1, b2, b3)
         == b0 as word + b1 as word * 0x100 + b2 as word * 0x1_0000 + b3 as word * 0x100_0000
  {
  }

  lemma WordAt(bytes: seq<byte>, i: nat)
    requires |bytes| % 4 == 0 && i < |bytes| / 4
    ensures BigEndianWords(bytes)[i]
         == BigEndianWord(bytes[4 * i], bytes[4 * i + 1], bytes[4 * i + 2], bytes[4 * i + 3])
  {
    hide BigEndianWord;
  }

  /** Bytes and words undo each other, most significant byte first. */
  lemma WordsOfBytes(words: seq<word>)
    ensures BigEndianWords(BigEndianBytes(words)) == words
  {
    hide *;
    var bytes := BigEndianBytes(words);
    forall i | 0 <= i < |words| ensures BigEndianWords(bytes)[i] == words[i] {
      WordFromBytes(words[i]);
      BigEndianBytesAt(words, i);
      WordAt(bytes, i);
    }
  }

  lemma BytesOfWords(bytes: seq<byte>)
    requires |bytes| % 4 == 0
    ensures BigEndianBytes(BigEndianWords(bytes)) == bytes
  {
    hide *;
    var words := BigEndianWords(bytes);
    forall i | 0 <= i < |bytes| / 4 ensures SameFour(BigEndianBytes(words), bytes, i) {
      BytesFromWord(bytes[4 * i], bytes[4 * i + 1], bytes[4 * i + 2], bytes[4 * i + 3]);
      BigEndianBytesAt(words, i);
      WordAt(bytes, i);
      FourAre(BigEndianBytes(words), bytes, i);
    }
    SameByFours(BigEndianBytes(words), bytes);
  }

  lemma FourAre(x: seq<byte>, y: seq<byte>, i: nat)
    requires |x| == |y| && 4 * i + 4 <= |x|
    requires x[4 * i] == y[4 * i] && x[4 * i + 1] == y[4 * i + 1]
    requires x[4 * i + 2] == y[4 * i + 2] && x[4 * i + 3] == y[4 * i + 3]
    ensures SameFour(x, y, i)
  {
  }
}

module Sha1Laws {
  import opened WordLaws
  import opened Words
  import opened BitCount
  import opened Sha1Spec
  import opened Sha1Digest

  /** Wherever x has ones Ch has the bits of y, and wherever x has zeros those of z. */
  lemma Chosen(x: word, y: word, z: word, places: word)
    ensures x & places == places ==> Ch(x, y, z) & places == y & places
    ensures x & places == 0 ==> Ch(x, y, z) & places == z & places
  {
  }

  /** Wherever two of the words agree Maj has their bits. */
  lemma Majority(x: word, y: word, z: word, places: word)
    ensures x & places == y & places || x & places == z & places ==> Maj(x, y, z) & places == x & places
    ensures y & places == z & places ==> Maj(x, y, z) & places == y & places
  {
  }

  /** Wherever two of the words agree Parity has the bits of the third, and wherever they differ its opposite. */
  lemma ParityBits(x: word, y: word, z: word, places: word)
    ensures x & places == y & places ==> Parity(x, y, z) & places == z & places
    ensures x & places == !y & places ==> Parity(x, y, z) & places == !z & places
  {
  }

  /** The constant of each phase is the integer part of 2^30 times the square root of 2, 3, 5 or 10. */
  lemma ConstantsAreRoots(t: nat)
    requires t < 80
    ensures var (k, p) := (Kt(t) as nat, if t < 20 then 2 else if t < 40 then 3 else if t < 60 then 5 else 10);
            k * k <= p * 0x1000_0000_0000_0000 < (k + 1) * (k + 1)
  {
  }

  /** The padding ends with the number of bits modulo 2^64. */
  lemma LengthIsCounted(n: nat, hi: word, lo: word)
    requires hi as nat * 0x1_0000_0000 + lo as nat == 8 * n % 0x1_0000_0000_0000_0000
    ensures BigEndianWords(LengthBytes(n)) == [hi, lo]
  {
    CountsAreWords(hi as nat, lo as nat, n);
    WordOfNumber(hi);
    WordOfNumber(lo);
    assert LengthBytes(n) == BigEndianBytes([hi, lo]);
    hide LengthBytes;
    WordsOfBytes([hi, lo]);
  }
}

module Md5Laws {
  import opened WordLaws
  import opened Md5Transform
  import opened Words
  import opened BitCount
  import opened Md5Spec
  import opened Md5Digest

  /** F takes y where x has ones and z elsewhere. */
  lemma ChosenByFirst(x: word, y: word, z: word, places: word)
    ensures x & places == places ==> F(x, y, z) & places == y & places
    ensures x & places == 0 ==> F(x, y, z) & places == z & places
  {
  }

  /** G takes x where z has ones and y elsewhere. */
  lemma ChosenByThird(x: word, y: word, z: word, places: word)
    ensures z & places == places ==> G(x, y, z) & places == x & places
    ensures z & places == 0 ==> G(x, y, z) & places == y & places
  {
  }

  lemma ParityBits(x: word, y: word, z: word, places: word)
    ensures x & places == y & places ==> H(x, y, z) & places == z & places
    ensures x & places == !y & places ==> H(x, y, z) & places == !z & places
  {
  }

  /** I has the bits of y, turned over wherever x has ones or z has zeros. */
  lemma TurnedOver(x: word, y: word, z: word, places: word)
    ensures x & places == places || z & places == 0 ==> I(x, y, z) & places == !y & places
    ensures x & places == 0 && z & places == places ==> I(x, y, z) & places == y & places
  {
    TurnedByFirst(x, y, z, places);
    hide I;
    NotTurned(x, y, z, places);
  }

  lemma TurnedByFirst(x: word, y: word, z: word, places: word)
    ensures x & places == places ==> I(x, y, z) & places == !y & places
    ensures z & places == 0 ==> I(x, y, z) & places == !y & places
  {
  }

  lemma NotTurned(x: word, y: word, z: word, places: word)
    ensures x & places == 0 && z & places == places ==> I(x, y, z) & places == y & places
  {
  }

  lemma LengthIsCounted(n: nat, hi: word, lo: word)
    requires hi as nat * 0x1_0000_0000 + lo as nat == 8 * n % 0x1_0000_0000_0000_0000
    ensures LittleEndianWords(LengthBytes(n)) == [lo, hi]
  {
    CountsAreWords(hi as nat, lo as nat, n);
    WordOfNumber(hi);
    WordOfNumber(lo);
    assert LengthBytes(n) == LittleEndianBytes([lo, hi]);
    hide LengthBytes;
    EncodeDecode([lo, hi]);
  }
}
