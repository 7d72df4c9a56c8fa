/** Cells and lists as they stand in a hive, and the values that are read from them. */
module HiveWriting {
  import opened Options
  import opened Unsigned
  import opened Digits
  import opened HiveCells

  /** Four bytes at the offset hold the number, least significant first. */
  predicate HoldsNumber(hive: seq<Byte>, offset: nat, v: U32) {
    offset + 4 <= |hive| && hive[offset..offset + 4] == LowFirst(v, 4)
  }

  /** A number is read back; behind the end of the hive the code reads 0. */
  lemma NumberReadBack(hive: seq<Byte>, offset: U32, v: U32)
    ensures HoldsNumber(hive, offset, v) ==> DWordAt(hive, offset) == v
    ensures offset + 4 > |hive| ==> DWordAt(hive, offset) == 0
  {
    if HoldsNumber(hive, offset, v) {
      FourDigits(v);
      FourDigitsMake(v);
      var four := hive[offset..offset + 4];
      assert four[0] == hive[offset] && four[1] == hive[offset + 1];
      assert four[2] == hive[offset + 2] && four[3] == hive[offset + 3];
      hide LowFirst;
    }
  }

  lemma LengthOfWord(hive: seq<Byte>, cell: U32, v: U32)
    requires HoldsNumber(hive, cell, v)
    ensures CellLength(hive, cell) == if v < 0x8000_0000 then v else 0x1_0000_0000 - v
  {
    NumberReadBack(hive, cell, v);
    hide DWordAt, HoldsNumber;
  }

  /** The length of a cell reads the same negated and, below 2^31, as it is. */
  lemma LengthReadBack(hive: seq<Byte>, cell: U32, n: nat)
    requires 0 < n <= 0x8000_0000
    ensures HoldsNumber(hive, cell, 0x1_0000_0000 - n) ==> CellLength(hive, cell) == n
    ensures n < 0x8000_0000 && HoldsNumber(hive, cell, n) ==> CellLength(hive, cell) == n
  {
    hide CellLength, HoldsNumber;
    if HoldsNumber(hive, cell, 0x1_0000_0000 - n) {
      LengthOfWord(hive, cell, 0x1_0000_0000 - n);
    }
    if n < 0x8000_0000 && HoldsNumber(hive, cell, n) {
      LengthOfWord(hive, cell, n);
    }
  }

  /** A cell in use: its negated length, and its data behind it. */
  predicate HoldsCell(hive: seq<Byte>, cell: nat, data: seq<Byte>) {
    && 4 + |data| <= 0x8000_0000 && cell + 4 + |data| <= |hive|
    && HoldsNumber(hive, cell, 0x1_0000_0000 - (4 + |data|))
    && hive[cell + 4..cell + 4 + |data|] == data
  }

  lemma CellReadBack(hive: seq<Byte>, cell: U32, data: seq<Byte>)
    requires |hive| < 0x1_0000_0000 && HoldsCell(hive, cell, data)
    ensures Measurable(hive, cell) && CellData(hive, cell) == Ok(data)
  {
    HoldsCellIs(hive, cell, data);
    var start: U32 := cell + 4;
    hide *;
    LengthReadBack(hive, cell, 4 + |data|);
    DataBehindLength(hive, cell, |data|);
    SliceInside(hive, start, |data|);
    SliceOfCell(hive, cell, start, |data|);
  }

  lemma HoldsCellIs(hive: seq<Byte>, cell: U32, data: seq<Byte>)
    requires |hive| < 0x1_0000_0000 && HoldsCell(hive, cell, data)
    ensures 4 + |data| <= 0x8000_0000 && cell + 4 + |data| <= |hive| && cell + 4 < 0x1_0000_0000
    ensures HoldsNumber(hive, cell, 0x1_0000_0000 - (4 + |data|)) && hive[cell + 4..cell + 4 + |data|] == data
  {
    hide HoldsNumber;
  }

  lemma SliceOfCell(hive: seq<Byte>, cell: U32, start: U32, length: U32)
    requires DataStart(cell) == start && DataLength(hive, cell) == length && start + length < 0x1_0000_0000
    ensures Measurable(hive, cell) && CellData(hive, cell) == Slice(hive, start, length)
  {
    hide DataStart, DataLength, Slice;
  }

  lemma DataBehindLength(hive: seq<Byte>, cell: U32, n: nat)
    requires cell + 4 < 0x1_0000_0000 && 4 + n <= 0x8000_0000
    ensures DataStart(cell) == cell + 4 && (CellLength(hive, cell) == 4 + n ==> DataLength(hive, cell) == n)
  {
    WrapSmall(cell + 4);
    WrapSmall(n);
    hide CellLength, Wrap;
  }

  lemma SliceInside(hive: seq<Byte>, start: nat, length: nat)
    requires start + length <= |hive| < 0x1_0000_0000
    ensures Slice(hive, start, length) == Ok(hive[start..start + length])
  {
  }

  /** An entry of the offset list, which counts from the first bin of the hive, and the data of its cell. */
  datatype Stored = Stored(entry: nat, data: seq<Byte>)

  function Min(a: nat, b: nat): nat { if a < b then a else b }

  /** From place k on the list names cells that hold the value, 0x3FD8 bytes in each but the last;
      what else a cell may hold does not belong to the value. */
  ghost predicate Spread(hive: seq<Byte>, list: nat, store: seq<Stored>, k: nat, value: seq<Byte>)
    decreases |value|
  {
    value == []
    || var size := Min(|value|, 0x3FD8);
       && k < |store| && store[k].entry + 0x1000 < 0x1_0000_0000
       && HoldsNumber(hive, list + 4 * k, store[k].entry)
       && HoldsCell(hive, store[k].entry + 0x1000, store[k].data)
       && size <= |store[k].data| && store[k].data[..size] == value[..size]
       && Spread(hive, list, store, k + 1, value[size..])
  }

  lemma EntryReadBack(hive: seq<Byte>, list: U32, entry: nat, k: nat)
    requires |hive| < 0x1_0000_0000 && entry + 0x1000 < 0x1_0000_0000
    requires HoldsNumber(hive, list + 4 * k, entry)
    ensures ListedCell(hive, list, k) == entry + 0x1000
  {
    NumberReadBack(hive, list + 4 * k, entry);
    hide DWordAt, HoldsNumber;
    WrapSmall(4 * k);
    WrapSmall(list + 4 * k);
    WrapSmall(entry + 0x1000);
  }

  /** A value spread over cells is put together again. */
  lemma {:induction false} ValueReadBack(hive: seq<Byte>, list: U32, store: seq<Stored>, k: nat, value: seq<Byte>)
    requires |hive| < 0x1_0000_0000 && Spread(hive, list, store, k, value)
    ensures Usable(hive, list, |value|, k) && Assemble(hive, list, |value|, k) == Ok(value)
    decreases |value|
  {
    if value != [] {
      var size := Min(|value|, 0x3FD8);
      var cell := store[k].entry + 0x1000;
      EntryReadBack(hive, list, store[k].entry, k);
      CellReadBack(hive, cell, store[k].data);
      ValueReadBack(hive, list, store, k + 1, value[size..]);
      assert SegmentSize(|value|) == size;
      hide ListedCell, CellData, Measurable, HoldsNumber, HoldsCell;
      assert value == value[..size] + value[size..];
    }
  }

  // ----- copies

  /** A copy passes the checks exactly when the offset lies in the destination, the length covers what
      is behind it, and start and end lie in the hive, both modulo 2^32. */
  lemma ChecksExactly(hive: seq<Byte>, position: U32, dstSize: nat, offset: U32, length: U32)
    ensures ChecksPass(hive, position, dstSize, offset, length)
       <==> && offset <= dstSize <= offset + length
            && (position + offset) % 0x1_0000_0000 <= |hive|
            && (position + offset + length) % 0x1_0000_0000 <= |hive|
  {
    var start := position + offset;
    assert Wrap(start) == start || Wrap(start) == start - 0x1_0000_0000;
    SameWrap(Wrap(start) + length, start + length);
  }

  lemma SameWrap(x: nat, y: nat)
    requires x == y || x == y - 0x1_0000_0000
    ensures Wrap(x) == y % 0x1_0000_0000
  {
  }

  /** The first bytes of the destination are copied, and the others stay. */
  lemma FilledExactly(hive: seq<Byte>, start: nat, length: nat, dst: seq<Byte>, i: nat)
    requires start + length <= |hive| && length <= |dst| && i < |dst|
    ensures |Filled(hive, start, length, dst)| == |dst|
    ensures Filled(hive, start, length, dst)[i] == if i < length then hive[start + i] else dst[i]
  {
  }
}
