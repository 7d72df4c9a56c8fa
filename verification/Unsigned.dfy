/** Bytes and unsigned 32-bit numbers, as natural numbers. */
module Unsigned {
  type Byte = b: nat | b < 256

  const LIMIT32: nat := 0x1_0000_0000

  type U32 = n: nat | n < LIMIT32

  /** The 32-bit result of an operation. */
  function Wrap(n: int): U32 { n % LIMIT32 }

  lemma WrapSmall(n: nat)
    ensures n < LIMIT32 ==> Wrap(n) == n
  {
  }
}

/** Numbers as byte strings of a given length: their last digits to the base 256. */
module Digits {
  import opened Unsigned

  /** The last k digits, most significant first. */
  function HighFirst(v: nat, k: nat): (bytes: seq<Byte>)
    ensures |bytes| == k
    decreases k
  {
    if k == 0 then [] else HighFirst(v / 256, k - 1) + [v % 256]
  }

  /** The last k digits, least significant first. */
  function LowFirst(v: nat, k: nat): (bytes: seq<Byte>)
    ensures |bytes| == k
    decreases k
  {
    if k == 0 then [] else [v % 256] + LowFirst(v / 256, k - 1)
  }

  lemma TwoDigits(v: nat)
    ensures HighFirst(v, 2) == [v / 256 % 256, v % 256]
    ensures LowFirst(v, 2) == [v % 256, v / 256 % 256]
  {
    assert HighFirst(v / 256, 1) == [v / 256 % 256] && HighFirst(v / 256 / 256, 0) == [];
    assert LowFirst(v / 256, 1) == [v / 256 % 256];
  }

  lemma FourDigits(v: nat)
    ensures HighFirst(v, 4) == [v / 0x100_0000 % 256, v / 0x1_0000 % 256, v / 256 % 256, v % 256]
    ensures LowFirst(v, 4) == [v % 256, v / 256 % 256, v / 0x1_0000 % 256, v / 0x100_0000 % 256]
  {
    var d := v / 256;
    Quotients(v);
    TwoDigits(v / 0x1_0000);
    assert HighFirst(d, 3) == HighFirst(d / 256, 2) + [d % 256];
    assert LowFirst(d, 3) == [d % 256] + LowFirst(d / 256, 2);
    hide HighFirst, LowFirst;
  }

  lemma TwoDigitsMake(v: nat)
    requires v < 0x1_0000
    ensures v / 256 % 256 * 256 + v % 256 == v
  {
  }

  lemma FourDigitsMake(v: nat)
    requires v < LIMIT32
    ensures (v / 0x100_0000 % 256 * 256 + v / 0x1_0000 % 256) * 0x1_0000 + (v / 256 % 256 * 256 + v % 256) == v
  {
    Quotients(v);
    var q, r := v / 256, v / 256 / 256;
    assert v == 256 * q + v % 256 && q == 256 * r + q % 256 && r == 256 * (r / 256) + r % 256;
  }

  lemma Quotients(v: nat)
    ensures v / 0x1_0000 == v / 256 / 256 && v / 0x100_0000 == v / 256 / 256 / 256
  {
  }
}
