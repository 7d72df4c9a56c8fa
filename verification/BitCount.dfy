/** The 64-bit message length in bits, kept as two 32-bit words with a carry. */
module BitCount {
  import opened Unsigned
  import opened Words

  /** The pair hi:lo counts the bits of n bytes, modulo 2^64. */
  predicate Counts(hi: nat, lo: nat, n: nat) {
    hi < LIMIT32 && lo < LIMIT32 && hi * LIMIT32 + lo == 8 * n % TWO_TO_THE_64
  }

  /** The two words of the bit length of n bytes, modulo 2^64. */
  function HighWord(n: nat): (hi: nat)
    ensures hi < LIMIT32
  {
    8 * n % TWO_TO_THE_64 / LIMIT32
  }

  function LowWord(n: nat): (lo: nat)
    ensures lo < LIMIT32
  {
    8 * n % LIMIT32
  }

  lemma CountsAreWords(hi: nat, lo: nat, n: nat)
    requires Counts(hi, lo, n)
    ensures hi == HighWord(n) && lo == LowWord(n)
  {
    var q := CountsAs(hi, lo, n);
    Remainder32(8 * n, q * LIMIT32 + hi, lo);
    assert (hi * LIMIT32 + lo) / LIMIT32 == hi;
  }

  /** The number of bytes in the last, partial block can be read off the low word. */
  lemma PendingBytes(hi: nat, lo: nat, n: nat)
    requires Counts(hi, lo, n)
    ensures lo / 8 % 64 == n % 64
  {
    var q := CountsAs(hi, lo, n);
    hide Counts;
    EighthOf(lo, n, q * (TWO_TO_THE_64 / 512) + hi * (LIMIT32 / 512));
  }

  /** The count at the end of a message: its two words, and the bytes of the last block. */
  lemma FinalCount(hi: nat, lo: nat, n: nat)
    requires Counts(hi, lo, n)
    ensures hi == HighWord(n) && lo == LowWord(n) && lo / 8 % 64 == n % 64
  {
    PendingBytes(hi, lo, n);
    CountsAreWords(hi, lo, n);
  }

  lemma CountsAs(hi: nat, lo: nat, n: nat) returns (q: nat)
    requires Counts(hi, lo, n)
    ensures 8 * n == q * TWO_TO_THE_64 + hi * LIMIT32 + lo
  {
    q := 8 * n / TWO_TO_THE_64;
  }

  lemma EighthOf(lo: nat, n: nat, m: nat)
    requires lo == 8 * (n - 64 * m)
    ensures lo / 8 % 64 == n % 64
  {
    BlocksDoNotCount(n - 64 * m, m);
  }

  lemma BlocksDoNotCount(k: nat, m: int)
    ensures (k + 64 * m) % 64 == k % 64
  {
  }

  /** A 32-bit sum is smaller than either operand exactly when it carried. */
  lemma Carry(x: nat, y: nat)
    requires x < LIMIT32 && y < LIMIT32
    ensures var sum := (x + y) % LIMIT32;
            (sum < x <==> x + y >= LIMIT32) && (sum < y <==> x + y >= LIMIT32)
  {
  }

  /** Adding the bits of m bytes: the low 29 bits of m, shifted, go to the low word, its
      carry and the top 3 bits to the high word. */
  lemma CountsNext(hi: nat, lo: nat, n: nat, m: nat)
    requires Counts(hi, lo, n) && m < LIMIT32
    ensures var low := m * 8 % LIMIT32;
            var carry := if lo + low >= LIMIT32 then 1 else 0;
            Counts((hi + carry + m / 0x2000_0000) % LIMIT32, (lo + low) % LIMIT32, n + m)
  {
    var low, high := m * 8 % LIMIT32, m / 0x2000_0000;
    assert m * 8 == high * LIMIT32 + low;
    var q := CountsAs(hi, lo, n);
    var carry := if lo + low >= LIMIT32 then 1 else 0;
    var lo' := lo + low - carry * LIMIT32;
    assert lo' == (lo + low) % LIMIT32 by { Remainder32(lo + low, carry, lo'); }
    CarryInto(q, hi + carry + high, lo', 8 * (n + m));
  }

  lemma Remainder32(x: nat, q: nat, r: nat)
    requires x == q * LIMIT32 + r && r < LIMIT32
    ensures x % LIMIT32 == r
  {
  }

  lemma CarryInto(q: nat, top: nat, lo: nat, bits: nat)
    requires lo < LIMIT32 && bits == q * TWO_TO_THE_64 + top * LIMIT32 + lo
    ensures top % LIMIT32 * LIMIT32 + lo == bits % TWO_TO_THE_64
  {
    var wrap := top / LIMIT32;
    var hi := top % LIMIT32;
    assert top == wrap * LIMIT32 + hi;
    assert bits == (q + wrap) * TWO_TO_THE_64 + (hi * LIMIT32 + lo);
    Remainder(bits, q + wrap, hi * LIMIT32 + lo);
  }

  /** The carry and the high bits may be added in two steps. */
  lemma TwoStepSum(hi: nat, carry: nat, high: nat)
    ensures ((hi + carry) % LIMIT32 + high) % LIMIT32 == (hi + carry + high) % LIMIT32
  {
  }

  lemma Remainder(x: nat, q: nat, r: nat)
    requires x == q * TWO_TO_THE_64 + r && r < TWO_TO_THE_64
    ensures x % TWO_TO_THE_64 == r
  {
  }
}
