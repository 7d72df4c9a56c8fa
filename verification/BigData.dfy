/** Registry values that are spread over an indirect list of cells (rejistry++/src). */
module HiveCells {
  import opened Options
  import opened Unsigned

  /** std::invalid_argument and RegistryParseException. */
  datatype Failure = InvalidArgument | ParseFailure

  const FIRST_HBIN_OFFSET: U32 := 0x1000

  /** The most bytes of a value that one cell holds. */
  const DB_DATA_SIZE: U32 := 0x3FD8

  /** A little-endian word of the hive; beyond its end the code reads 0. */
  function DWordAt(hive: seq<Byte>, offset: U32): U32 {
    if offset + 4 <= |hive| then
      Word(hive[offset], hive[offset + 1]) + 0x1_0000 * Word(hive[offset + 2], hive[offset + 3])
    else 0
  }

  function Word(low: nat, high: nat): nat { low + 0x100 * high }

  /** The size of a cell is stored negated while the cell is in use. */
  function CellLength(hive: seq<Byte>, cell: U32): U32 {
    var w := DWordAt(hive, cell);
    if w < 0x8000_0000 then w else LIMIT32 - w
  }

  function DataStart(cell: U32): U32 { Wrap(cell + 4) }

  function DataLength(hive: seq<Byte>, cell: U32): U32 { Wrap(CellLength(hive, cell) as int - 4) }

  /** The end of the cell's data is computed without wrap-around, or its start is rejected before. */
  predicate Measurable(hive: seq<Byte>, cell: U32) {
    DataStart(cell) > |hive| || DataStart(cell) + DataLength(hive, cell) < LIMIT32
  }

  // ----- what ByteBuffer::get checks, and what it copies

  /** The four checks before a copy, in 32-bit arithmetic. */
  predicate ChecksPass(hive: seq<Byte>, position: U32, dstSize: nat, offset: U32, length: U32) {
    && offset <= dstSize && dstSize - offset <= length
    && Wrap(position + offset) <= |hive|
    && Wrap(Wrap(position + offset) + length) <= |hive|
  }

  /** The bytes copied exist, and there is room for them. */
  predicate InBounds(hive: seq<Byte>, position: U32, dstSize: nat, offset: U32, length: U32) {
    Wrap(position + offset) + length <= |hive| && length <= dstSize
  }

  /** The destination after a copy: the bytes go to its beginning. */
  function Filled(hive: seq<Byte>, start: nat, length: nat, dst: seq<Byte>): seq<Byte>
    requires start + length <= |hive| && length <= |dst|
  {
    hive[start..start + length] + dst[length..]
  }

  /** What the documentation promises: the bytes at the position go to the given offset of the
      destination, and the position grows by the length. */
  predicate AsDocumented(hive: seq<Byte>, before: nat, after: nat, dst: seq<Byte>, now: seq<Byte>, offset: nat,
                         length: nat)
  {
    && after == before + length
    && if length == 0 then now == dst
       else
         && before + length <= |hive| && offset + length <= |dst|
         && now == dst[..offset] + hive[before..before + length] + dst[offset + length..]
  }

  /** A copy does as documented exactly when the offset is the length, the destination has twice that
      size, and either half already holds what belongs into the other. */
  lemma GetAsDocumented(hive: seq<Byte>, before: U32, dst: seq<Byte>, offset: U32, length: U32)
    requires length > 0 && |hive| < LIMIT32
    requires ChecksPass(hive, before, |dst|, offset, length) && InBounds(hive, before, |dst|, offset, length)
    ensures AsDocumented(hive, before, Wrap(before + offset), dst,
                         Filled(hive, Wrap(before + offset), length, dst), offset, length)
       <==> && offset == length && |dst| == 2 * length && before + 2 * length <= |hive|
            && dst[..length] == hive[before + length..before + 2 * length]
            && dst[length..] == hive[before..before + length]
  {
    var now := Filled(hive, Wrap(before + offset), length, dst);
    if Wrap(before + offset) == before + length {
      assert offset == length;
      assert now[..length] == hive[before + length..before + 2 * length] && now[length..] == dst[length..];
      if |dst| == 2 * length {
        var documented := dst[..length] + hive[before..before + length] + dst[2 * length..];
        assert documented[..length] == dst[..length] && documented[length..] == hive[before..before + length];
      }
    }
  }

  /** Whatever the contents, the documentation is met exactly by the calls that copy nothing. */
  lemma DocumentedOnlyForNothing(hiveSize: nat, before: U32, dstSize: nat, offset: U32, length: U32)
    requires hiveSize < LIMIT32 && before <= hiveSize
    requires length > 0 ==>
               offset <= dstSize <= offset + length && length <= dstSize && Wrap(before + offset) + length <= hiveSize
    ensures length == 0 <==>
              forall hive: seq<Byte>, dst: seq<Byte> | |hive| == hiveSize && |dst| == dstSize ::
                AsDocumented(hive, before, if length == 0 then before else Wrap(before + offset), dst,
                             if length == 0 then dst else Filled(hive, Wrap(before + offset), length, dst),
                             offset, length)
  {
    if length > 0 {
      var hive: seq<Byte> := seq(hiveSize, _ => 0);
      var dst: seq<Byte> := seq(dstSize, _ => 1);
      WrapSmall(Wrap(before + offset) + length);
      GetAsDocumented(hive, before, dst, offset, length);
      assert dst[..length][0] == 1;
    }
  }

  // ----- reading a cell

  /** A range of the hive, or the exception that reading it raises. */
  function Slice(hive: seq<Byte>, offset: U32, length: U32): Result<seq<Byte>, Failure>
    requires offset > |hive| || offset + length < LIMIT32
  {
    if offset > |hive| then Err(InvalidArgument)
    else if offset + length > |hive| then Err(ParseFailure)
    else Ok(hive[offset..offset + length])
  }

  function CellData(hive: seq<Byte>, cell: U32): Result<seq<Byte>, Failure>
    requires Measurable(hive, cell)
  {
    Slice(hive, DataStart(cell), DataLength(hive, cell))
  }

  /** The checks let a copy through that runs past the end of the hive. */
  predicate CopyOverruns(hive: seq<Byte>, start: U32, length: U32) {
    start <= |hive| && ChecksPass(hive, start, length, 0, length) && start + length > |hive|
  }

  /** The data of a cell cannot be measured exactly when the copy of it runs past the end of the hive. */
  lemma MeasurableExactly(hive: seq<Byte>, cell: U32)
    requires |hive| < LIMIT32
    ensures Measurable(hive, cell) <==> !CopyOverruns(hive, DataStart(cell), DataLength(hive, cell))
  {
    var start, length := DataStart(cell), DataLength(hive, cell);
    WrapSmall(start);
    hide DataStart, DataLength;
  }

  /** A cell whose length word is 0: the length of its data wraps around, and so does its end. */
  lemma EmptyCellOverruns()
    ensures CopyOverruns([0, 0, 0, 0], DataStart(0), DataLength([0, 0, 0, 0], 0))
  {
  }

  /** A cell that holds fewer bytes than are taken from it. */
  predicate TakeOverruns(hive: seq<Byte>, cell: U32, size: nat) {
    Measurable(hive, cell) && CellData(hive, cell).Ok? && |CellData(hive, cell).value| < size
  }

  lemma ShortCellOverruns()
    ensures TakeOverruns([8, 0, 0, 0, 1, 2, 3, 4], 0, 5)
  {
    assert DWordAt([8, 0, 0, 0, 1, 2, 3, 4], 0) == 8;
  }

  /** The cell the k-th entry of the offset list points at. */
  function ListedCell(hive: seq<Byte>, list: U32, k: nat): U32 {
    Wrap(DWordAt(hive, Wrap(list + Wrap(4 * k))) + FIRST_HBIN_OFFSET)
  }

  function SegmentSize(length: nat): nat { if length < DB_DATA_SIZE then length else DB_DATA_SIZE }

  /** How many cells a value of this length takes. */
  function Segments(length: nat): nat { (length + DB_DATA_SIZE - 1) / DB_DATA_SIZE }

  /** What the code asks of the listed cells: each that can be read holds the bytes asked of it. */
  predicate Usable(hive: seq<Byte>, list: U32, length: nat, k: nat)
    decreases length
  {
    length > 0 ==>
      var cell := ListedCell(hive, list, k);
      && Measurable(hive, cell)
      && (CellData(hive, cell).Ok? ==>
            && |CellData(hive, cell).value| >= SegmentSize(length)
            && Usable(hive, list, length - SegmentSize(length), k + 1))
  }

  /** The value put together from entry k on, or the first failure. */
  function Assemble(hive: seq<Byte>, list: U32, length: nat, k: nat): Result<seq<Byte>, Failure>
    requires Usable(hive, list, length, k)
    decreases length
  {
    if length == 0 then Ok([])
    else
      match CellData(hive, ListedCell(hive, list, k))
      case Err(e) => Err(e)
      case Ok(data) =>
        var size := SegmentSize(length);
        Preceded(data[..size], Assemble(hive, list, length - size, k + 1))
  }

  function Preceded(data: seq<Byte>, later: Result<seq<Byte>, Failure>): Result<seq<Byte>, Failure> {
    match later
    case Ok(rest) => Ok(data + rest)
    case Err(e) => Err(e)
  }

  /** The cell of entry e can be read. */
  predicate Readable(hive: seq<Byte>, list: U32, e: nat) {
    var cell := ListedCell(hive, list, e);
    Measurable(hive, cell) && CellData(hive, cell).Ok?
  }

  /** Byte i of the data of the cell of entry e. */
  predicate ByteOfCell(hive: seq<Byte>, list: U32, e: nat, i: nat, b: Byte) {
    Readable(hive, list, e) && var data := CellData(hive, ListedCell(hive, list, e)).value; i < |data| && data[i] == b
  }

  /** Byte i of a value lies so many entries on, and so many bytes into the data of that cell. */
  function EntryOf(i: nat): nat { i / DB_DATA_SIZE }

  function PlaceOf(i: nat): nat { i % DB_DATA_SIZE }

  /** The bytes of a value that starts at entry k come from the cells of k, k + 1, ... in order. */
  ghost predicate FromCells(hive: seq<Byte>, list: U32, k: nat, value: seq<Byte>) {
    forall i :: 0 <= i < |value| ==> ByteOfCell(hive, list, k + EntryOf(i), PlaceOf(i), value[i])
  }

  lemma OneEntryOn(i: nat)
    ensures i < DB_DATA_SIZE ==> EntryOf(i) == 0 && PlaceOf(i) == i
    ensures i >= DB_DATA_SIZE ==> EntryOf(i) == EntryOf(i - DB_DATA_SIZE) + 1 && PlaceOf(i) == PlaceOf(i - DB_DATA_SIZE)
  {
  }

  lemma FromCellsBefore(hive: seq<Byte>, list: U32, k: nat, data: seq<Byte>, size: nat, rest: seq<Byte>)
    requires FromCells(hive, list, k + 1, rest)
    requires Readable(hive, list, k) && CellData(hive, ListedCell(hive, list, k)) == Ok(data)
    requires size <= |data| && size <= DB_DATA_SIZE && (rest != [] ==> size == DB_DATA_SIZE)
    ensures FromCells(hive, list, k, data[..size] + rest)
  {
    hide *;
    var value := data[..size] + rest;
    forall i | 0 <= i < |value| ensures ByteOfCell(hive, list, k + EntryOf(i), PlaceOf(i), value[i]) {
      if i < size {
        InFirstCell(hive, list, k, data, i);
      } else {
        InLaterCells(hive, list, k, rest, i);
      }
    }
    FromCellsIs(hive, list, k, value);
  }

  lemma InFirstCell(hive: seq<Byte>, list: U32, k: nat, data: seq<Byte>, i: nat)
    requires Readable(hive, list, k) && CellData(hive, ListedCell(hive, list, k)) == Ok(data)
    requires i < |data| && i < DB_DATA_SIZE
    ensures ByteOfCell(hive, list, k + EntryOf(i), PlaceOf(i), data[i])
  {
    OneEntryOn(i);
    hide EntryOf, PlaceOf, CellData, ListedCell, Measurable;
  }

  lemma InLaterCells(hive: seq<Byte>, list: U32, k: nat, rest: seq<Byte>, i: nat)
    requires FromCells(hive, list, k + 1, rest) && DB_DATA_SIZE <= i < DB_DATA_SIZE + |rest|
    ensures ByteOfCell(hive, list, k + EntryOf(i), PlaceOf(i), rest[i - DB_DATA_SIZE])
  {
    OneEntryOn(i);
    hide EntryOf, PlaceOf, ByteOfCell;
  }

  lemma FromCellsIs(hive: seq<Byte>, list: U32, k: nat, value: seq<Byte>)
    requires forall i :: 0 <= i < |value| ==> ByteOfCell(hive, list, k + EntryOf(i), PlaceOf(i), value[i])
    ensures FromCells(hive, list, k, value)
  {
  }

  lemma SegmentsStep(length: nat)
    ensures length > 0 ==> Segments(length) == 1 + Segments(length - SegmentSize(length))
    ensures length - SegmentSize(length) > 0 ==> SegmentSize(length) == DB_DATA_SIZE
    ensures Segments(0) == 0
  {
  }

  /** The size of the j-th piece of a value. */
  function PieceSize(length: nat, j: nat): nat {
    if length <= DB_DATA_SIZE * j then 0 else SegmentSize(length - DB_DATA_SIZE * j)
  }

  /** Entry e is come to, and what is copied from its cell, or taken from its data, runs past the end. */
  ghost predicate OverrunsAt(hive: seq<Byte>, list: U32, length: nat, k: nat, e: nat) {
    && k <= e < k + Segments(length)
    && (forall j :: k <= j < e ==> Readable(hive, list, j))
    && PieceOverruns(hive, list, e, PieceSize(length, e - k))
  }

  /** Reading the cell of entry k runs past the end. */
  predicate PieceOverruns(hive: seq<Byte>, list: U32, k: nat, size: nat) {
    var cell := ListedCell(hive, list, k);
    CopyOverruns(hive, DataStart(cell), DataLength(hive, cell)) || TakeOverruns(hive, cell, size)
  }

  lemma SegmentSizeIs(length: nat)
    ensures SegmentSize(length) == if DB_DATA_SIZE < length then DB_DATA_SIZE else length
  {
  }

  /** What is asked of the listed cells is exactly that no reading runs past the end. */
  lemma {:induction false} UsableExactly(hive: seq<Byte>, list: U32, length: nat, k: nat)
    requires |hive| < LIMIT32
    ensures Usable(hive, list, length, k) <==> forall e: nat :: !OverrunsAt(hive, list, length, k, e)
    decreases length
  {
    hide *;
    SegmentsStep(length);
    if length == 0 {
      AssembleNothing(hive, list, k);
      NoOverruns(hive, list, k);
    } else {
      SegmentSizeIs(length);
      var size := SegmentSize(length);
      UsableNext(hive, list, length, k);
      UsableExactly(hive, list, length - size, k + 1);
      OverrunsFirst(hive, list, length, k);
      NotBefore(hive, list, length - size, k + 1);
      forall e: nat ensures e != k ==> (OverrunsAt(hive, list, length, k, e)
                                   <==> Readable(hive, list, k) && OverrunsAt(hive, list, length - size, k + 1, e)) {
        if e != k {
          OverrunsLater(hive, list, length, k, e);
        }
      }
      if Usable(hive, list, length, k) {
        forall e: nat ensures !OverrunsAt(hive, list, length, k, e) {
          assert e == k || !Readable(hive, list, k) || !OverrunsAt(hive, list, length - size, k + 1, e);
        }
      } else if !PieceOverruns(hive, list, k, size) {
        var e: nat :| OverrunsAt(hive, list, length - size, k + 1, e);
        assert OverrunsAt(hive, list, length, k, e);
      }
    }
  }

  lemma NoOverruns(hive: seq<Byte>, list: U32, k: nat)
    ensures forall e :: !OverrunsAt(hive, list, 0, k, e)
  {
  }

  lemma NotBefore(hive: seq<Byte>, list: U32, length: nat, k: nat)
    ensures k > 0 ==> !OverrunsAt(hive, list, length, k, k - 1)
  {
  }

  lemma UsableNext(hive: seq<Byte>, list: U32, length: nat, k: nat)
    requires |hive| < LIMIT32 && length > 0
    ensures SegmentSize(length) <= length
    ensures Usable(hive, list, length, k)
       <==> && !PieceOverruns(hive, list, k, SegmentSize(length))
            && (Readable(hive, list, k) ==> Usable(hive, list, length - SegmentSize(length), k + 1))
  {
    MeasurableExactly(hive, ListedCell(hive, list, k));
    hide CopyOverruns, DataStart, DataLength, Measurable, ListedCell, CellData;
  }

  lemma OverrunsFirst(hive: seq<Byte>, list: U32, length: nat, k: nat)
    requires length > 0
    ensures OverrunsAt(hive, list, length, k, k) <==> PieceOverruns(hive, list, k, SegmentSize(length))
  {
    SegmentsStep(length);
    hide Segments, PieceOverruns, Readable;
    assert PieceSize(length, 0) == SegmentSize(length);
  }

  lemma OverrunsLater(hive: seq<Byte>, list: U32, length: nat, k: nat, e: nat)
    requires length > 0 && e != k
    ensures SegmentSize(length) <= length
    ensures OverrunsAt(hive, list, length, k, e)
       <==> Readable(hive, list, k) && OverrunsAt(hive, list, length - SegmentSize(length), k + 1, e)
  {
    SegmentsStep(length);
    if k < e < k + Segments(length) {
      assert PieceSize(length, e - k) == PieceSize(length - SegmentSize(length), e - k - 1);
    }
    hide Segments, PieceOverruns, PieceSize, Readable;
  }

  /** The value is read exactly when every listed cell it needs can be; it then has the length asked
      for and comes from the cells piece by piece. */
  lemma {:induction false} AssembleExact(hive: seq<Byte>, list: U32, length: nat, k: nat)
    requires Usable(hive, list, length, k)
    ensures var result := Assemble(hive, list, length, k);
            && (result.Ok? <==> forall e :: k <= e < k + Segments(length) ==> Readable(hive, list, e))
            && (result.Ok? ==> |result.value| == length && FromCells(hive, list, k, result.value))
    decreases length
  {
    hide *;
    SegmentsStep(length);
    if length == 0 {
      AssembleNothing(hive, list, k);
    } else {
      var size, cell := AssembleNext(hive, list, length, k);
      if cell.Ok? {
        AssembleExact(hive, list, length - size, k + 1);
        PrecededIs(cell.value[..size], Assemble(hive, list, length - size, k + 1));
        var rest := Assemble(hive, list, length - size, k + 1);
        if rest.Ok? {
          FromCellsBefore(hive, list, k, cell.value, size, rest.value);
        }
      }
    }
  }

  lemma AssembleNothing(hive: seq<Byte>, list: U32, k: nat)
    ensures Usable(hive, list, 0, k) && Assemble(hive, list, 0, k) == Ok([]) && FromCells(hive, list, k, [])
  {
  }

  lemma PrecededIs(data: seq<Byte>, later: Result<seq<Byte>, Failure>)
    ensures Preceded(data, later) == if later.Ok? then Ok(data + later.value) else later
  {
  }

  /** The entry at k. */
  lemma AssembleNext(hive: seq<Byte>, list: U32, length: nat, k: nat)
    returns (size: nat, cell: Result<seq<Byte>, Failure>)
    requires Usable(hive, list, length, k) && length > 0
    ensures size == SegmentSize(length) && 0 < size <= length && size <= DB_DATA_SIZE
    ensures Measurable(hive, ListedCell(hive, list, k)) && cell == CellData(hive, ListedCell(hive, list, k))
    ensures cell.Ok? <==> Readable(hive, list, k)
    ensures cell.Ok? ==> |cell.value| >= size && Usable(hive, list, length - size, k + 1)
    ensures Assemble(hive, list, length, k)
         == if cell.Ok? then Preceded(cell.value[..size], Assemble(hive, list, length - size, k + 1))
            else Err(cell.error)
  {
    size := SegmentSize(length);
    cell := CellData(hive, ListedCell(hive, list, k));
    hide CellData, ListedCell, Measurable;
  }
}

/** The positioned byte buffer of rejistry++/src and what is read through it. */
module HiveBuffer {
  import opened Options
  import opened Unsigned
  import opened HiveCells

  /** A destination of just the length asked for is filled whole. */
  lemma FilledWhole(hive: seq<Byte>, start: nat, length: nat)
    requires start + length <= |hive|
    ensures forall dst: seq<Byte> | |dst| == length :: Filled(hive, start, length, dst) == hive[start..start + length]
    ensures length == 0 ==> hive[start..start + length] == []
  {
  }

  lemma SliceOfFront(s: seq<Byte>, limit: nat, from: nat, to: nat)
    requires from <= to <= limit <= |s|
    ensures s[..limit][from..to] == s[from..to]
  {
  }

  lemma SplitHere(s: seq<Byte>, k: nat)
    requires k <= |s|
    ensures s == s[..k] + s[k..]
  {
  }

  /** ByteBuffer, with the fields of Buffer. */
  class ByteBuffer {
    const buffer: seq<Byte>
    const capacity: U32
    const limit: U32
    var position: U32

    ghost predicate Valid()
      reads this
    {
      position <= limit <= capacity == |buffer|
    }

    /** The bytes that may be read. */
    ghost function Hive(): seq<Byte> {
      if limit <= |buffer| then buffer[..limit] else []
    }

    constructor (buf: seq<Byte>)
      requires |buf| < LIMIT32
      ensures Valid() && Hive() == buf && position == 0
    {
      buffer := buf;
      capacity := |buf|;
      limit := |buf|;
      position := 0;
    }

    method SetPosition(newPosition: U32) returns (r: Result<(), Failure>)
      requires Valid()
      modifies this`position
      ensures Valid()
      ensures newPosition > limit ==> r == Err(InvalidArgument) && position == old(position)
      ensures newPosition <= limit ==> r == Ok(()) && position == newPosition
    {
      if newPosition > limit {
        return Err(InvalidArgument);
      }
      position := newPosition;
      return Ok(());
    }

    /** getInt: four bytes as a little-endian number, or 0 when they are not all there. */
    method GetInt(offset: U32) returns (r: U32)
      requires Valid()
      ensures r == DWordAt(Hive(), offset)
    {
      if offset + 4 <= limit {
        r := Word(buffer[offset], buffer[offset + 1]) + 0x1_0000 * Word(buffer[offset + 2], buffer[offset + 3]);
      } else {
        r := 0;
      }
    }

    /** get: fills the destination from the current position on. The bytes go to its beginning, and
        the position moves by the offset, not by the length. */
    method Get(dst: array<Byte>, offset: U32, length: U32) returns (r: Result<(), Failure>)
      requires Valid()
      requires length > 0 && ChecksPass(Hive(), position, dst.Length, offset, length) ==>
                 InBounds(Hive(), position, dst.Length, offset, length)
      modifies dst, this`position
      ensures Valid()
      ensures r.Ok? <==> length == 0 || ChecksPass(Hive(), old(position), dst.Length, offset, length)
      ensures r.Err? ==> r == Err(ParseFailure)
      ensures if r.Ok? && length > 0 then
                && position == Wrap(old(position) + offset)
                && dst[..] == Filled(Hive(), position, length, old(dst[..]))
              else dst[..] == old(dst[..]) && position == old(position)
    {
      if length == 0 {
        return Ok(());
      }
      var rejected := Rejects(dst.Length, offset, length);
      if rejected {
        return Err(ParseFailure);
      }
      hide Wrap, ChecksPass;
      Copy(dst, Wrap(position + offset), length);
      position := Wrap(position + offset);
      return Ok(());
    }

    /** The checks of get. */
    method Rejects(dstSize: nat, offset: U32, length: U32) returns (rejected: bool)
      requires Valid()
      ensures rejected <==> !ChecksPass(Hive(), position, dstSize, offset, length)
    {
      hide Wrap;
      if offset > dstSize {
        return true;
      }
      if dstSize - offset > length {
        return true;
      }
      if Wrap(position + offset) > limit {
        return true;
      }
      if Wrap(Wrap(position + offset) + length) > limit {
        return true;
      }
      return false;
    }

    /** memcpy from the buffer to the beginning of the destination. */
    method Copy(dst: array<Byte>, start: nat, length: nat)
      requires Valid() && start + length <= |Hive()| && length <= dst.Length
      modifies dst
      ensures dst[..] == Filled(Hive(), start, length, old(dst[..]))
    {
      SliceOfFront(buffer, limit, start, start + length);
      for i := 0 to length
        invariant dst[..i] == buffer[start..start + i]
        invariant dst[i..] == old(dst[..])[i..]
      {
        dst[i] := buffer[start + i];
      }
      SplitHere(dst[..], length);
    }

    /** RegistryByteBuffer::getData: moves to the offset, reads, and moves back. */
    method GetData(offset: U32, length: U32) returns (r: Result<seq<Byte>, Failure>)
      requires Valid() && (offset > limit || offset + length < LIMIT32)
      modifies this`position
      ensures Valid() && r == Slice(Hive(), offset, length)
      ensures r.Ok? ==> position == old(position)
      ensures r == Err(InvalidArgument) ==> position == old(position)
      ensures r == Err(ParseFailure) ==> position == offset
    {
      var savedPosition := position;
      var moved := SetPosition(offset);
      if moved.Err? {
        return Err(moved.error);
      }
      WrapSmall(offset);
      WrapSmall(offset + length);
      var data := new Byte[length](_ => 0);
      var got := Get(data, 0, length);
      if got.Err? {
        return Err(got.error);
      }
      moved := SetPosition(savedPosition);
      FilledWhole(Hive(), offset, length);
      assert length == 0 ==> data[..] == [];
      r := Ok(data[..]);
    }
  }

  /** A call as RegistryByteBuffer::getData makes it, with offset 0: the position does not move. */
  method ReadOneByte() returns (position: U32, copied: seq<Byte>)
    ensures copied == [7] && position == 0
    ensures !AsDocumented([7, 8], 0, position, [0], copied, 0, 1)
  {
    var buffer := new ByteBuffer([7, 8]);
    var dst := new Byte[1](_ => 0);
    WrapSmall(0);
    WrapSmall(1);
    assert dst[..] == [0];
    var _ := buffer.Get(dst, 0, 1);
    position, copied := buffer.position, dst[..];
  }

  /** Cell: a block of the hive that begins with its length. */
  class Cell {
    const buf: ByteBuffer
    const offset: U32

    constructor (buf: ByteBuffer, offset: U32)
      ensures this.buf == buf && this.offset == offset
    {
      this.buf, this.offset := buf, offset;
    }

    method GetLength() returns (r: U32)
      requires buf.Valid()
      ensures r == CellLength(buf.Hive(), offset)
    {
      var w := buf.GetInt(offset);
      r := if w < 0x8000_0000 then w else LIMIT32 - w;
    }

    method GetData() returns (r: Result<seq<Byte>, Failure>)
      requires buf.Valid() && Measurable(buf.Hive(), offset)
      modifies buf`position
      ensures buf.Valid() && r == CellData(buf.Hive(), offset)
      ensures r.Ok? ==> buf.position == old(buf.position)
    {
      var length := GetLength();
      r := buf.GetData(Wrap(offset + 4), Wrap(length as int - 4));
    }
  }

  /** What the data of the cell of entry k, or the exception, says about the value with left bytes to go. */
  predicate Piece(hive: seq<Byte>, record: U32, left: nat, k: nat, cell: Result<seq<Byte>, Failure>)
    requires Usable(hive, record, left, k)
  {
    var size := SegmentSize(left);
    && 0 < size <= left
    && (cell.Ok? ==> |cell.value| >= size && Usable(hive, record, left - size, k + 1))
    && Assemble(hive, record, left, k)
       == if cell.Ok? then Preceded(cell.value[..size], Assemble(hive, record, left - size, k + 1))
          else Err(cell.error)
  }

  lemma PieceIs(hive: seq<Byte>, record: U32, left: nat, k: nat)
    requires Usable(hive, record, left, k) && left > 0
    ensures Measurable(hive, ListedCell(hive, record, k))
    ensures Piece(hive, record, left, k, CellData(hive, ListedCell(hive, record, k)))
  {
    var _, _ := AssembleNext(hive, record, left, k);
    hide Assemble, Usable, CellData, ListedCell, Measurable, Preceded;
  }

  /** The first count pieces make up data, and left bytes of the value are still to come. */
  predicate Underway(hive: seq<Byte>, record: U32, length: nat, left: nat, count: nat, data: seq<Byte>)
    requires Usable(hive, record, length, 0)
  {
    && left <= length && count + Segments(left) == Segments(length) && Usable(hive, record, left, count)
    && Assemble(hive, record, length, 0) == Preceded(data, Assemble(hive, record, left, count))
  }

  /** The next piece: what is taken of the cell that entry count of the offset list points at. */
  method ReadPiece(buf: ByteBuffer, record: U32, ghost length: nat, left: nat, count: nat, ghost data: seq<Byte>)
    returns (piece: Result<seq<Byte>, Failure>)
    requires buf.Valid() && Usable(buf.Hive(), record, length, 0) && left > 0
    requires Underway(buf.Hive(), record, length, left, count, data)
    modifies buf`position
    ensures buf.Valid() && (piece.Ok? ==> buf.position == old(buf.position))
    ensures NextPiece(buf.Hive(), record, length, left, count, data, piece)
  {
    UnderwayUsable(buf.Hive(), record, length, left, count, data);
    PieceIs(buf.Hive(), record, left, count);
    hide *;
    var cellData := ReadCell(buf, record, count);
    var size := if DB_DATA_SIZE < left then DB_DATA_SIZE else left;
    UnderwayNext(buf.Hive(), record, length, left, count, data, cellData, size);
    if cellData.Err? {
      return cellData;
    }
    piece := Ok(cellData.value[..size]);
  }

  /** The data of the cell that entry k of the offset list points at. */
  method ReadCell(buf: ByteBuffer, record: U32, k: nat) returns (cell: Result<seq<Byte>, Failure>)
    requires buf.Valid() && Measurable(buf.Hive(), ListedCell(buf.Hive(), record, k))
    modifies buf`position
    ensures buf.Valid() && cell == CellData(buf.Hive(), ListedCell(buf.Hive(), record, k))
    ensures cell.Ok? ==> buf.position == old(buf.position)
  {
    ListedCellIs(buf.Hive(), record, k);
    hide *;
    var entry := buf.GetInt(Wrap(record + Wrap(4 * k)));
    var c := new Cell(buf, Wrap(entry + FIRST_HBIN_OFFSET));
    cell := c.GetData();
  }

  /** DBIndirectRecord::getData: the value is put together from the cells of the offset list. On
      success the position of the buffer is what it was, and one list entry was read for each piece. */
  method GetBigData(buf: ByteBuffer, record: U32, length: U32) returns (r: Result<seq<Byte>, Failure>, count: nat)
    requires buf.Valid() && Usable(buf.Hive(), record, length, 0)
    modifies buf`position
    ensures buf.Valid() && r == Assemble(buf.Hive(), record, length, 0)
    ensures r.Ok? ==> count == Segments(length) && buf.position == old(buf.position)
  {
    ghost var hive := buf.Hive();
    var data: seq<Byte> := [];
    var left: nat := length;
    count := 0;
    UnderwayStart(hive, record, length);
    hide *;
    while left > 0
      invariant buf.Valid() && buf.Hive() == hive && buf.position == old(buf.position)
      invariant Underway(hive, record, length, left, count, data)
    {
      var piece := ReadPiece(buf, record, length, left, count, data);
      NextPieceIs(hive, record, length, left, count, data, piece);
      if piece.Err? {
        return piece, count;
      }
      data := data + piece.value;
      left := left - |piece.value|;
      count := count + 1;
    }
    UnderwayEnd(hive, record, length, count, data);
    r := Ok(data);
  }

  lemma UnderwayStart(hive: seq<Byte>, record: U32, length: nat)
    requires Usable(hive, record, length, 0)
    ensures Underway(hive, record, length, length, 0, [])
  {
    PrecededByNothing(Assemble(hive, record, length, 0));
    hide Usable, Assemble, Preceded;
  }

  lemma UnderwayUsable(hive: seq<Byte>, record: U32, length: nat, left: nat, count: nat, data: seq<Byte>)
    requires Usable(hive, record, length, 0) && Underway(hive, record, length, left, count, data)
    ensures Usable(hive, record, left, count)
  {
  }

  /** A piece, or the exception, that comes next. */
  predicate NextPiece(hive: seq<Byte>, record: U32, length: nat, left: nat, count: nat, data: seq<Byte>,
                      piece: Result<seq<Byte>, Failure>)
    requires Usable(hive, record, length, 0)
  {
    match piece
    case Ok(bytes) =>
      0 < |bytes| <= left && Underway(hive, record, length, left - |bytes|, count + 1, data + bytes)
    case Err(_) => piece == Assemble(hive, record, length, 0)
  }

  lemma UnderwayNext(hive: seq<Byte>, record: U32, length: nat, left: nat, count: nat, data: seq<Byte>,
                     cell: Result<seq<Byte>, Failure>, size: nat)
    requires Usable(hive, record, length, 0) && Underway(hive, record, length, left, count, data)
    requires left > 0 && Usable(hive, record, left, count) && Piece(hive, record, left, count, cell)
    requires size == if DB_DATA_SIZE < left then DB_DATA_SIZE else left
    ensures cell.Err? ==> NextPiece(hive, record, length, left, count, data, cell)
    ensures cell.Ok? ==>
              && size <= |cell.value|
              && NextPiece(hive, record, length, left, count, data, Ok(cell.value[..size]))
  {
    SegmentsStep(left);
    SegmentSizeIs(left);
    hide Usable, Assemble, Preceded, Segments, SegmentSize;
    if cell.Err? {
      PrecededIs(data, Err(cell.error));
    } else {
      PrecededTwice(data, cell.value[..size], Assemble(hive, record, left - size, count + 1));
    }
  }

  lemma NextPieceIs(hive: seq<Byte>, record: U32, length: nat, left: nat, count: nat, data: seq<Byte>,
                    piece: Result<seq<Byte>, Failure>)
    requires Usable(hive, record, length, 0) && NextPiece(hive, record, length, left, count, data, piece)
    ensures piece.Err? ==> piece == Assemble(hive, record, length, 0)
    ensures piece.Ok? ==>
              && 0 < |piece.value| <= left
              && Underway(hive, record, length, left - |piece.value|, count + 1, data + piece.value)
  {
    hide Usable, Assemble, Underway;
  }

  lemma UnderwayEnd(hive: seq<Byte>, record: U32, length: nat, count: nat, data: seq<Byte>)
    requires Usable(hive, record, length, 0) && Underway(hive, record, length, 0, count, data)
    ensures Assemble(hive, record, length, 0) == Ok(data) && count == Segments(length)
  {
    AssembleNothing(hive, record, count);
    PrecededNothing(data);
    SegmentsStep(0);
    hide Usable, Assemble, Preceded, Segments;
  }

  lemma PrecededNothing(data: seq<Byte>)
    ensures Preceded(data, Ok([])) == Ok(data)
  {
    assert data + [] == data;
  }

  lemma PrecededByNothing(later: Result<seq<Byte>, Failure>)
    ensures Preceded([], later) == later
  {
    if later.Ok? {
      assert [] + later.value == later.value;
    }
  }

  lemma PrecededTwice(a: seq<Byte>, b: seq<Byte>, later: Result<seq<Byte>, Failure>)
    ensures Preceded(a, Preceded(b, later)) == Preceded(a + b, later)
  {
    if later.Ok? {
      assert a + (b + later.value) == (a + b) + later.value;
    }
  }

  lemma ListedCellIs(hive: seq<Byte>, list: U32, k: nat)
    ensures ListedCell(hive, list, k) == Wrap(DWordAt(hive, Wrap(list + Wrap(4 * k))) + FIRST_HBIN_OFFSET)
  {
  }
}
