/** Maximal runs of consecutive block addresses. */
module BlockRuns {

  datatype Run = Run(first: nat, last: nat)

  predicate StrictlyIncreasing(blocks: seq<nat>) {
    forall i, j :: 0 <= i < j < |blocks| ==> blocks[i] < blocks[j]
  }

  /** Runs in order, each nonempty, with at least one missing block between any two. */
  predicate Gapped(runs: seq<Run>) {
    && (forall i :: 0 <= i < |runs| ==> runs[i].first <= runs[i].last)
    && (forall i, j :: 0 <= i < j < |runs| ==> runs[i].last + 1 < runs[j].first)
  }

  /** The blocks of a run. */
  function BlocksOf(r: Run): (blocks: seq<nat>)
  {
    if r.last < r.first then [] else seq(r.last - r.first + 1, i requires i >= 0 => r.first + i)
  }

  /** The blocks of all runs, in order. */
  function AllBlocks(runs: seq<Run>): seq<nat>
    decreases |runs|
  {
    if |runs| == 0 then [] else AllBlocks(runs[..|runs| - 1]) + BlocksOf(runs[|runs| - 1])
  }

  function Last<T>(s: seq<T>): T
    requires |s| > 0
  {
    s[|s| - 1]
  }

  function Front<T>(s: seq<T>): seq<T>
    requires |s| > 0
  {
    s[..|s| - 1]
  }

  /** Appending a block: it extends the last run or starts a new one. */
  function AddBlock(runs: seq<Run>, b: nat): seq<Run> {
    if |runs| > 0 && Last(runs).last + 1 == b then Front(runs) + [Run(Last(runs).first, b)] else runs + [Run(b, b)]
  }

  function Runs(blocks: seq<nat>): seq<Run>
    decreases |blocks|
  {
    if |blocks| == 0 then [] else AddBlock(Runs(Front(blocks)), Last(blocks))
  }

  lemma RunsNext(blocks: seq<nat>, b: nat)
    ensures Runs(blocks + [b]) == AddBlock(Runs(blocks), b)
  {
    assert Front(blocks + [b]) == blocks;
    hide AddBlock;
  }

  lemma AllBlocksNext(runs: seq<Run>, r: Run)
    ensures AllBlocks(runs + [r]) == AllBlocks(runs) + BlocksOf(r)
  {
    assert Front(runs + [r]) == runs;
    hide BlocksOf;
  }

  lemma FrontLast<T>(s: seq<T>)
    requires |s| > 0
    ensures s == Front(s) + [Last(s)]
  {
  }

  /** The runs of increasing blocks hold exactly those blocks, in order, and are maximal. */
  lemma {:induction false} RunsPartition(blocks: seq<nat>)
    requires StrictlyIncreasing(blocks)
    ensures AllBlocks(Runs(blocks)) == blocks && Gapped(Runs(blocks))
    ensures |blocks| > 0 ==> |Runs(blocks)| > 0 && Last(Runs(blocks)).last == Last(blocks)
    ensures |blocks| == 0 ==> Runs(blocks) == []
    decreases |blocks|
  {
    if |blocks| > 0 {
      hide AllBlocks, Runs, AddBlock, Gapped;
      var front, b := Front(blocks), Last(blocks);
      RunsPartition(front);
      RunsNext(front, b);
      AddBlockPartition(Runs(front), b);
      FrontLast(blocks);
    }
  }

  lemma AddBlockPartition(runs: seq<Run>, b: nat)
    requires Gapped(runs) && (|runs| > 0 ==> Last(runs).last < b)
    ensures AllBlocks(AddBlock(runs, b)) == AllBlocks(runs) + [b] && Gapped(AddBlock(runs, b))
    ensures |AddBlock(runs, b)| > 0 && Last(AddBlock(runs, b)).last == b
  {
    if |runs| > 0 && Last(runs).last + 1 == b {
      FrontLast(runs);
      ExtendRun(Front(runs), Last(runs), b);
    } else {
      StartRun(runs, b);
    }
  }

  lemma ExtendRun(front: seq<Run>, r: Run, b: nat)
    requires Gapped(front + [r]) && r.last + 1 == b
    ensures AllBlocks(front + [Run(r.first, b)]) == AllBlocks(front + [r]) + [b] && Gapped(front + [Run(r.first, b)])
  {
    AllBlocksNext(front, r);
    AllBlocksNext(front, Run(r.first, b));
    hide AllBlocks;
    var runs, next := front + [r], front + [Run(r.first, b)];
    assert runs[|front|] == r && forall i :: 0 <= i < |front| ==> runs[i] == next[i] == front[i];
    assert BlocksOf(Run(r.first, b)) == BlocksOf(r) + [b];
  }

  lemma StartRun(runs: seq<Run>, b: nat)
    requires Gapped(runs) && (|runs| > 0 ==> Last(runs).last + 1 < b)
    ensures AllBlocks(runs + [Run(b, b)]) == AllBlocks(runs) + [b] && Gapped(runs + [Run(b, b)])
  {
    AllBlocksNext(runs, Run(b, b));
    hide AllBlocks;
    assert BlocksOf(Run(b, b)) == [b];
    forall i | 0 <= i < |runs| ensures runs[i].last + 1 < b {
      assert i == |runs| - 1 || runs[i].last + 1 < runs[|runs| - 1].first <= runs[|runs| - 1].last;
    }
  }

  /** Any gapped runs that hold the blocks are the runs of the blocks. */
  lemma {:induction false} RunsAreUnique(runs: seq<Run>)
    requires Gapped(runs)
    ensures Runs(AllBlocks(runs)) == runs
    decreases |runs|, if |runs| == 0 then 0 else Last(runs).last
  {
    if |runs| > 0 {
      var front, r := Front(runs), Last(runs);
      var shorter := if r.first == r.last then front else front + [Run(r.first, r.last - 1)];
      FrontLast(runs);
      RunShrinks(front, r, shorter);
      assert |shorter| > 0 && r.first != r.last ==> Last(shorter).last == r.last - 1;
      hide AllBlocks, Runs, AddBlock;
      RunsAreUnique(shorter);
      RunsNext(AllBlocks(shorter), r.last);
    }
  }

  /** Taking the last block off the last run. */
  lemma RunShrinks(front: seq<Run>, r: Run, shorter: seq<Run>)
    requires Gapped(front + [r]) && r.first <= r.last
    requires shorter == if r.first == r.last then front else front + [Run(r.first, r.last - 1)]
    ensures AllBlocks(front + [r]) == AllBlocks(shorter) + [r.last] && AddBlock(shorter, r.last) == front + [r]
    ensures Gapped(shorter)
  {
    hide *;
    if r.first == r.last {
      RunGoes(front, r);
    } else {
      RunShortens(front, r);
    }
  }

  /** The last run had one block. */
  lemma RunGoes(front: seq<Run>, r: Run)
    requires Gapped(front + [r]) && r.first == r.last
    ensures AllBlocks(front + [r]) == AllBlocks(front) + [r.last] && AddBlock(front, r.last) == front + [r]
    ensures Gapped(front)
  {
    hide *;
    AllBlocksNext(front, r);
    BlocksOfOne(r);
    FrontOfGapped(front, r);
    AddStarts(front, r);
  }

  /** The last run had more than one block. */
  lemma RunShortens(front: seq<Run>, r: Run)
    requires Gapped(front + [r]) && r.first < r.last
    ensures var shorter := front + [Run(r.first, r.last - 1)];
            && AllBlocks(front + [r]) == AllBlocks(shorter) + [r.last] && AddBlock(shorter, r.last) == front + [r]
            && Gapped(shorter)
  {
    hide *;
    var last := Run(r.first, r.last - 1);
    AllBlocksNext(front, r);
    AllBlocksNext(front, last);
    BlocksOfNext(last, r);
    AppendAssociates(AllBlocks(front), BlocksOf(last), r.last);
    FrontOfGapped(front, r);
    GappedNext(front, last);
    AddExtends(front, last, r.last);
  }

  lemma AppendAssociates(a: seq<nat>, b: seq<nat>, c: nat)
    ensures a + b + [c] == a + (b + [c])
  {
  }

  lemma BlocksOfOne(r: Run)
    requires r.first == r.last
    ensures BlocksOf(r) == [r.last]
  {
  }

  lemma BlocksOfNext(r: Run, longer: Run)
    requires r.first <= r.last && longer == Run(r.first, r.last + 1)
    ensures BlocksOf(longer) == BlocksOf(r) + [longer.last]
  {
  }

  lemma AddStarts(front: seq<Run>, r: Run)
    requires r.first == r.last && forall i :: 0 <= i < |front| ==> front[i].last + 1 < r.first
    ensures AddBlock(front, r.last) == front + [r]
  {
  }

  lemma AddExtends(front: seq<Run>, r: Run, b: nat)
    requires b == r.last + 1
    ensures AddBlock(front + [r], b) == front + [Run(r.first, b)]
  {
    assert Front(front + [r]) == front;
  }

  lemma FrontOfGapped(front: seq<Run>, r: Run)
    requires Gapped(front + [r])
    ensures Gapped(front) && forall i :: 0 <= i < |front| ==> front[i].last + 1 < r.first
  {
    var runs := front + [r];
    assert runs[|front|] == r && forall i :: 0 <= i < |front| ==> runs[i] == front[i];
  }

  lemma GappedNext(front: seq<Run>, r: Run)
    requires Gapped(front) && r.first <= r.last && forall i :: 0 <= i < |front| ==> front[i].last + 1 < r.first
    ensures Gapped(front + [r])
  {
  }

  predicate Spans(r: Run, b: nat) { r.first <= b <= r.last }

  /** A block is visited exactly when it lies in one of the runs. */
  lemma {:induction false} InSomeRun(runs: seq<Run>, b: nat)
    ensures b in AllBlocks(runs) <==> exists i :: 0 <= i < |runs| && Spans(runs[i], b)
    decreases |runs|
  {
    if |runs| > 0 {
      var front, r := Front(runs), Last(runs);
      InSomeRun(front, b);
      InRun(r, b);
      FrontLast(runs);
      AllBlocksNext(front, r);
      hide AllBlocks, BlocksOf, Spans;
      if i :| 0 <= i < |front| && Spans(front[i], b) {
        assert Spans(runs[i], b);
      }
      assert runs[|runs| - 1] == r;
    }
  }

  lemma InRun(r: Run, b: nat)
    ensures b in BlocksOf(r) <==> Spans(r, b)
  {
    if Spans(r, b) {
      assert BlocksOf(r)[b - r.first] == b;
    }
  }
}

/** What the unallocated-block walk is meant to store. */
module UnallocFiles {
  import opened LayoutFiles
  import opened BlockRuns

  /** The block size and the byte offset of the file system in the image. */
  datatype Geometry = Geometry(blockSize: nat, offset: nat)

  function RunBytes(geo: Geometry, r: Run): nat {
    if r.last < r.first then 0 else (1 + r.last - r.first) * geo.blockSize
  }

  /** A run as a range of bytes. */
  function RangeOf(geo: Geometry, r: Run, sequence: nat): Range {
    Range(r.first * geo.blockSize + geo.offset, RunBytes(geo, r), sequence)
  }

  function RangesOf(geo: Geometry, runs: seq<Run>): (ranges: seq<Range>)
    ensures |ranges| == |runs|
  {
    seq(|runs|, i requires 0 <= i < |runs| => RangeOf(geo, runs[i], i))
  }

  function TotalBytes(geo: Geometry, runs: seq<Run>): nat
    decreases |runs|
  {
    if |runs| == 0 then 0 else TotalBytes(geo, Front(runs)) + RunBytes(geo, Last(runs))
  }

  /** A file made of a group of runs. */
  function FileOf(geo: Geometry, group: seq<Run>): LayoutFile {
    LayoutFile(TotalBytes(geo, group), RangesOf(geo, group))
  }

  /** The condition under which a pending group is stored when one of its runs ends. */
  predicate Flush(chunkSize: int, size: int) { chunkSize != 0 && !(chunkSize > 0 && size < chunkSize) }

  datatype Grouping = Grouping(closed: seq<seq<Run>>, pending: seq<Run>)

  /** Ended runs are collected until a flush. */
  function AddRun(geo: Geometry, chunkSize: int, g: Grouping, r: Run): Grouping {
    var group := g.pending + [r];
    if Flush(chunkSize, TotalBytes(geo, group)) then Grouping(g.closed + [group], []) else Grouping(g.closed, group)
  }

  function Grouped(geo: Geometry, chunkSize: int, runs: seq<Run>): Grouping
    decreases |runs|
  {
    if |runs| == 0 then Grouping([], []) else AddRun(geo, chunkSize, Grouped(geo, chunkSize, Front(runs)), Last(runs))
  }

  /** The groups of a whole walk: the last run always ends the last group. */
  function WalkGroups(geo: Geometry, chunkSize: int, walk: seq<nat>): (groups: seq<seq<Run>>)
    requires |Runs(walk)| > 0
    ensures |groups| > 0
  {
    var runs := Runs(walk);
    var g := Grouped(geo, chunkSize, Front(runs));
    g.closed + [g.pending + [Last(runs)]]
  }

  function FilesOf(geo: Geometry, groups: seq<seq<Run>>): (files: seq<LayoutFile>)
    ensures |files| == |groups|
  {
    seq(|groups|, i requires 0 <= i < |groups| => FileOf(geo, groups[i]))
  }

  function Concat<T>(groups: seq<seq<T>>): seq<T>
    decreases |groups|
  {
    if |groups| == 0 then [] else Concat(Front(groups)) + Last(groups)
  }

  // ----- properties of the grouping

  /** A group stored because of the chunk size: it reached it with its last run. */
  ghost predicate ClosedGroup(geo: Geometry, chunkSize: int, group: seq<Run>) {
    && |group| > 0 && chunkSize != 0
    && (chunkSize < 0 ==> |group| == 1)
    && (chunkSize > 0 ==> TotalBytes(geo, group) >= chunkSize && TotalBytes(geo, Front(group)) < chunkSize)
  }

  /** The last group of a walk. */
  ghost predicate LastGroup(geo: Geometry, chunkSize: int, group: seq<Run>) {
    && |group| > 0
    && (chunkSize < 0 ==> |group| == 1)
    && (chunkSize > 0 ==> TotalBytes(geo, Front(group)) < chunkSize)
  }

  ghost predicate PendingGroup(geo: Geometry, chunkSize: int, group: seq<Run>) {
    && (chunkSize < 0 ==> |group| == 0)
    && (chunkSize > 0 ==> TotalBytes(geo, group) < chunkSize)
  }

  /** What holds while runs are collected. */
  ghost predicate GroupingOf(geo: Geometry, chunkSize: int, runs: seq<Run>, g: Grouping) {
    && Concat(g.closed) + g.pending == runs
    && (forall i :: 0 <= i < |g.closed| ==> ClosedGroup(geo, chunkSize, g.closed[i]))
    && PendingGroup(geo, chunkSize, g.pending)
  }

  lemma {:induction false} GroupedProperties(geo: Geometry, chunkSize: int, runs: seq<Run>)
    ensures GroupingOf(geo, chunkSize, runs, Grouped(geo, chunkSize, runs))
    decreases |runs|
  {
    if |runs| == 0 {
    } else {
      GroupedProperties(geo, chunkSize, Front(runs));
      AddRunProperties(geo, chunkSize, Front(runs), Grouped(geo, chunkSize, Front(runs)), Last(runs));
      FrontLast(runs);
    }
  }

  lemma ConcatNext<T>(groups: seq<seq<T>>, group: seq<T>)
    ensures Concat(groups + [group]) == Concat(groups) + group
  {
    assert Front(groups + [group]) == groups;
  }

  lemma AddRunProperties(geo: Geometry, chunkSize: int, runs: seq<Run>, g: Grouping, r: Run)
    requires GroupingOf(geo, chunkSize, runs, g)
    ensures GroupingOf(geo, chunkSize, runs + [r], AddRun(geo, chunkSize, g, r))
  {
    hide GroupingOf, TotalBytes;
    if Flush(chunkSize, TotalBytes(geo, g.pending + [r])) {
      FlushProperties(geo, chunkSize, runs, g, r);
    } else {
      WaitProperties(geo, chunkSize, runs, g, r);
    }
  }

  lemma FlushProperties(geo: Geometry, chunkSize: int, runs: seq<Run>, g: Grouping, r: Run)
    requires GroupingOf(geo, chunkSize, runs, g) && Flush(chunkSize, TotalBytes(geo, g.pending + [r]))
    ensures GroupingOf(geo, chunkSize, runs + [r], Grouping(g.closed + [g.pending + [r]], []))
  {
    var group := g.pending + [r];
    FlushCloses(geo, chunkSize, g.pending, r);
    ConcatNext(g.closed, group);
    hide TotalBytes, Concat, ClosedGroup, PendingGroup, Flush;
    assert Concat(g.closed) + group + [] == Concat(g.closed) + g.pending + [r];
  }

  lemma FlushCloses(geo: Geometry, chunkSize: int, pending: seq<Run>, r: Run)
    requires PendingGroup(geo, chunkSize, pending) && Flush(chunkSize, TotalBytes(geo, pending + [r]))
    ensures ClosedGroup(geo, chunkSize, pending + [r]) && PendingGroup(geo, chunkSize, [])
  {
    assert TotalBytes(geo, []) == 0;
    hide TotalBytes;
    assert Front(pending + [r]) == pending;
  }

  lemma WaitProperties(geo: Geometry, chunkSize: int, runs: seq<Run>, g: Grouping, r: Run)
    requires GroupingOf(geo, chunkSize, runs, g) && !Flush(chunkSize, TotalBytes(geo, g.pending + [r]))
    ensures GroupingOf(geo, chunkSize, runs + [r], Grouping(g.closed, g.pending + [r]))
  {
    hide TotalBytes, Concat, ClosedGroup;
    assert Concat(g.closed) + (g.pending + [r]) == Concat(g.closed) + g.pending + [r];
  }

  /** The groups of a walk are its runs in order; every group but the last is full, and no group
      is full without its last run. With a negative chunk size every group is one run, and with
      chunk size 0 there is one group. */
  lemma WalkGroupsProperties(geo: Geometry, chunkSize: int, walk: seq<nat>)
    requires |Runs(walk)| > 0
    ensures var groups := WalkGroups(geo, chunkSize, walk);
            && Concat(groups) == Runs(walk)
            && (forall i :: 0 <= i < |groups| - 1 ==> ClosedGroup(geo, chunkSize, groups[i]))
            && LastGroup(geo, chunkSize, Last(groups))
            && (chunkSize == 0 ==> |groups| == 1)
  {
    hide TotalBytes, RunBytes, Concat, Runs, Grouped;
    var runs := Runs(walk);
    GroupedProperties(geo, chunkSize, Front(runs));
    var g := Grouped(geo, chunkSize, Front(runs));
    var last := g.pending + [Last(runs)];
    ConcatNext(g.closed, last);
    FrontLast(runs);
    assert Front(last) == g.pending;
    if |g.closed| > 0 {
      assert ClosedGroup(geo, chunkSize, g.closed[0]);
    }
  }

  // ----- bytes

  lemma MulAdds(a: int, b: int, n: int)
    ensures (a + b) * n == a * n + b * n
  {
  }

  lemma MulMonotone(a: int, b: int, n: nat)
    requires a <= b
    ensures a * n <= b * n
  {
  }

  /** One past the last byte of a run. */
  lemma RangeEnd(geo: Geometry, r: Run, sequence: nat)
    requires r.first <= r.last
    ensures RangeOf(geo, r, sequence).End() == (r.last + 1) * geo.blockSize + geo.offset
  {
    MulAdds(r.first, 1 + r.last - r.first, geo.blockSize);
  }

  /** Runs with a gap between them give ranges with at least one byte between them. */
  lemma GapSeparates(geo: Geometry, r: Run, s: Run, i: nat, j: nat)
    requires geo.blockSize >= 1 && r.first <= r.last && r.last + 1 < s.first
    ensures RangeOf(geo, r, i).End() < RangeOf(geo, s, j).byteStart
  {
    RangeEnd(geo, r, i);
    RangeStart(geo, s, j);
    MulAdds(r.last + 1, 1, geo.blockSize);
    MulMonotone(r.last + 2, s.first, geo.blockSize);
    hide *;
  }

  lemma RangeStart(geo: Geometry, r: Run, sequence: nat)
    ensures RangeOf(geo, r, sequence).byteStart == r.first * geo.blockSize + geo.offset
  {
  }

  /** The ranges of one group are accepted, and the sort does not move them. */
  lemma GroupAccepted(geo: Geometry, group: seq<Run>)
    requires geo.blockSize >= 1 && Gapped(group)
    ensures PairwiseSeparate(RangesOf(geo, group)) && Numbered(RangesOf(geo, group))
    ensures Sort(RangesOf(geo, group)) == RangesOf(geo, group)
  {
    var ranges := RangesOf(geo, group);
    forall i, j | 0 <= i < j < |ranges| ensures Separate(ranges[i], ranges[j]) {
      GapSeparates(geo, group[i], group[j], i, j);
    }
    hide RunBytes, Sort;
    SortInOrder(ranges);
    NumberedIsSorted(ranges, Sort(ranges));
  }

  /** A byte belongs to a run's range exactly when its block is in the run. */
  lemma ByteInRange(geo: Geometry, r: Run, sequence: nat, byteAt: nat)
    requires geo.blockSize >= 1 && r.first <= r.last && byteAt >= geo.offset
    ensures RangeOf(geo, r, sequence).byteStart <= byteAt < RangeOf(geo, r, sequence).End()
       <==> r.first <= (byteAt - geo.offset) / geo.blockSize <= r.last
  {
    RangeEnd(geo, r, sequence);
    Quotient(byteAt - geo.offset, geo.blockSize, r.first);
    Quotient(byteAt - geo.offset, geo.blockSize, r.last + 1);
  }

  /** x / n >= k exactly when x >= k * n. */
  lemma Quotient(x: nat, n: nat, k: nat)
    requires n >= 1
    ensures x / n >= k <==> x >= k * n
  {
    var q, m := x / n, x % n;
    assert x == q * n + m && m < n;
    if q >= k {
      MulMonotone(k, q, n);
    } else {
      MulMonotone(q + 1, k, n);
      MulAdds(q, 1, n);
    }
  }
}

/** The walk over unallocated blocks of tsk/auto/auto_db.cpp. */
module UnallocWalk {
  import opened LayoutFiles
  import opened BlockRuns
  import opened UnallocFiles

  /** The stored files are the closed groups, and the fields of the tracker are those of the pending one. */
  ghost predicate Tracked(geo: Geometry, closed: seq<seq<Run>>, pending: seq<Run>, before: seq<LayoutFile>,
                          files: seq<LayoutFile>, ranges: seq<Range>, size: int, nextSequenceNo: nat)
  {
    && files == before + FilesOf(geo, closed)
    && ranges == RangesOf(geo, pending)
    && size == TotalBytes(geo, pending) && nextSequenceNo == |pending|
  }

  /** UNALLOC_BLOCK_WLK_TRACK and the callback that updates it. */
  class UnallocTracker {
    const db: LayoutDb
    const geo: Geometry
    const chunkSize: int
    var ranges: seq<Range>
    var curRangeStart: nat
    var size: int
    var prevBlock: nat
    var isStart: bool
    var nextSequenceNo: nat

    /** The blocks visited so far, and the files of the database before the walk. */
    ghost var visited: seq<nat>
    ghost const before: seq<LayoutFile>

    /** The runs that have ended. */
    ghost function Ended(): seq<Run>
      requires |Runs(visited)| > 0
      reads this
    {
      Front(Runs(visited))
    }

    ghost predicate Valid()
      reads this, db
    {
      && geo.blockSize >= 1 && StrictlyIncreasing(visited)
      && (isStart <==> visited == [])
      && (isStart ==> db.files == before && ranges == [] && nextSequenceNo == 0 && curRangeStart == 0 && prevBlock == 0)
      && (!isStart ==>
            |Runs(visited)| > 0 && Last(Runs(visited)) == Run(curRangeStart, prevBlock) && InProgress(Ended()))
    }

    /** The stored files are the closed groups of the ended runs, and the tracker holds the pending group. */
    ghost predicate InProgress(ended: seq<Run>)
      reads this, db
    {
      Tracks(Grouped(geo, chunkSize, ended).closed, Grouped(geo, chunkSize, ended).pending)
    }

    ghost predicate Tracks(closed: seq<seq<Run>>, pending: seq<Run>)
      reads this, db
    {
      Tracked(geo, closed, pending, before, db.files, ranges, size, nextSequenceNo)
    }

    /** The size field is not initialised: it holds some number. */
    constructor (db: LayoutDb, geo: Geometry, chunkSize: int, garbage: int)
      requires geo.blockSize >= 1
      ensures Valid() && visited == [] && size == garbage
      ensures this.db == db && this.geo == geo && this.chunkSize == chunkSize && before == db.files
    {
      this.db := db;
      this.geo := geo;
      this.chunkSize := chunkSize;
      this.before := db.files;
      ranges := [];
      curRangeStart, prevBlock := 0, 0;
      size := garbage;
      isStart := true;
      nextSequenceNo := 0;
      visited := [];
    }

    /** The range from curRangeStart to prevBlock is appended. */
    method PushRange(ghost closed: seq<seq<Run>>, ghost pending: seq<Run>)
      requires Tracks(closed, pending) && curRangeStart <= prevBlock
      modifies this`ranges, this`nextSequenceNo, this`size
      ensures Tracks(closed, pending + [Run(curRangeStart, prevBlock)])
    {
      var rangeStartOffset := curRangeStart * geo.blockSize + geo.offset;
      var rangeSizeBytes := (1 + prevBlock - curRangeStart) * geo.blockSize;
      ghost var r := Run(curRangeStart, prevBlock);
      assert Range(rangeStartOffset, rangeSizeBytes, nextSequenceNo) == RangeOf(geo, r, nextSequenceNo);
      assert rangeSizeBytes == RunBytes(geo, r);
      TotalNext(geo, pending, r);
      RangesNext(geo, pending, r);
      hide FilesOf, RangesOf, TotalBytes, RunBytes, RangeOf;
      ranges := ranges + [Range(rangeStartOffset, rangeSizeBytes, nextSequenceNo)];
      nextSequenceNo := nextSequenceNo + 1;
      size := size + rangeSizeBytes;
    }

    /** The pending group becomes a file. */
    method StoreFile(ghost closed: seq<seq<Run>>, ghost group: seq<Run>) returns (ok: bool)
      requires geo.blockSize >= 1 && Gapped(group) && |group| > 0
      requires Tracks(closed, group)
      modifies db
      ensures ok && db.files == before + FilesOf(geo, closed + [group])
    {
      GroupAccepted(geo, group);
      FilesNext(geo, closed, group);
      assert FileOf(geo, group) == LayoutFile(TotalBytes(geo, group), RangesOf(geo, group));
      hide FilesOf, FileOf, RangesOf, TotalBytes, Sort, PairwiseSeparate;
      ok := db.AddFileWithLayoutRange(size, ranges);
    }

    /** fsWalkUnallocBlocksCb. */
    method Callback(addr: nat)
      requires Valid() && Follows(visited, addr)
      modifies this, db
      ensures Valid() && visited == old(visited) + [addr] && !isStart
    {
      hide *;
      ValidIncreasing();
      StaysIncreasing(visited, addr);
      RunsAfter(visited, addr);
      if isStart {
        BeginRun(addr);
      } else if addr == prevBlock + 1 {
        ExtendRun(addr);
      } else {
        EndRun(addr);
      }
    }

    lemma ValidIncreasing()
      requires Valid()
      ensures StrictlyIncreasing(visited)
    {
      hide StrictlyIncreasing, InProgress, Runs;
    }

    /** The first block. */
    method BeginRun(addr: nat)
      requires Valid() && isStart
      requires StrictlyIncreasing(visited + [addr])
      requires visited == [] ==> Runs(visited + [addr]) == [Run(addr, addr)]
      modifies this
      ensures Valid() && visited == old(visited) + [addr] && !isStart
    {
      NothingGrouped(geo, chunkSize);
      assert Front([Run(addr, addr)]) == [] && Last([Run(addr, addr)]) == Run(addr, addr);
      hide StrictlyIncreasing, Grouped, FilesOf, RangesOf, TotalBytes, Runs;
      isStart := false;
      curRangeStart := addr;
      prevBlock := addr;
      size := 0;
      nextSequenceNo := 0;
      visited := visited + [addr];
    }

    /** This block is consecutive with the previous one. */
    method ExtendRun(addr: nat)
      requires Valid() && !isStart && addr == prevBlock + 1
      requires StrictlyIncreasing(visited + [addr])
      requires Runs(visited + [addr]) == AddBlock(Runs(visited), addr)
      modifies this
      ensures Valid() && visited == old(visited) + [addr] && !isStart
    {
      hide StrictlyIncreasing, Grouped, FilesOf, RangesOf, TotalBytes, Runs;
      ghost var ended := Ended();
      prevBlock := addr;
      visited := visited + [addr];
      assert Ended() == ended;
    }

    /** This block is not consecutive: the run ends, and its group is stored when it is full. */
    method EndRun(addr: nat)
      requires Valid() && !isStart && addr != prevBlock + 1
      requires StrictlyIncreasing(visited + [addr])
      requires Runs(visited + [addr]) == AddBlock(Runs(visited), addr)
      requires Gapped(Runs(visited))
      modifies this, db
      ensures Valid() && visited == old(visited) + [addr] && !isStart
    {
      hide StrictlyIncreasing, Gapped, Grouped, Tracked, Runs;
      ghost var ended, r := Ended(), Run(curRangeStart, prevBlock);
      FrontLast(Runs(visited));
      LastRun(Runs(visited));
      visited := visited + [addr];
      assert Front(Runs(visited)) == ended + [r] && Last(Runs(visited)) == Run(addr, addr);
      CloseRun(addr, ended);
    }

    method CloseRun(addr: nat, ghost ended: seq<Run>)
      requires curRangeStart <= prevBlock && geo.blockSize >= 1
      requires InProgress(ended) && Gapped(ended + [Run(curRangeStart, prevBlock)])
      modifies this`ranges, this`nextSequenceNo, this`size, this`curRangeStart, this`prevBlock, db
      ensures InProgress(ended + [Run(old(curRangeStart), old(prevBlock))])
      ensures curRangeStart == addr && prevBlock == addr
    {
      ghost var g, r := Grouped(geo, chunkSize, ended), Run(curRangeStart, prevBlock);
      ghost var group := g.pending + [r];
      hide Grouped, Gapped, TotalBytes, Tracked, Flush, AddRun;
      GroupedNext(geo, chunkSize, ended, r);
      GroupInRuns(geo, chunkSize, ended, r);
      AddRunIs(geo, chunkSize, g, r);
      PushRange(g.closed, g.pending);
      curRangeStart := addr;
      prevBlock := addr;
      StoreIfFull(g.closed, group);
      curRangeStart := addr;
    }

    method StoreIfFull(ghost closed: seq<seq<Run>>, ghost group: seq<Run>)
      requires geo.blockSize >= 1 && Gapped(group) && |group| > 0
      requires Tracks(closed, group)
      modifies this`ranges, this`nextSequenceNo, this`size, db
      ensures if Flush(chunkSize, TotalBytes(geo, group)) then Tracks(closed + [group], []) else Tracks(closed, group)
    {
      NothingGrouped(geo, chunkSize);
      hide TotalBytes, RangesOf, FilesOf, Gapped;
      if chunkSize == 0 || (chunkSize > 0 && size < chunkSize) {
        return;
      }
      var ok := StoreFile(closed, group);
      size := 0;
      ranges := [];
      nextSequenceNo := 0;
    }

    /** The end of addFsInfoUnalloc: the last range is appended, and its group is always stored. */
    method Finish() returns (ok: bool)
      requires Valid()
      modifies this, db
      ensures ok
      ensures db.files == before + StoredFiles(geo, chunkSize, old(visited), old(size))
    {
      if isStart {
        var byteStart := curRangeStart * geo.blockSize + geo.offset;
        var byteLen := (1 + prevBlock - curRangeStart) * geo.blockSize;
        assert byteStart == geo.offset && byteLen == geo.blockSize;
        ranges := [Range(byteStart, byteLen, nextSequenceNo)];
        size := size + byteLen;
        assert Sort(ranges) == ranges by {
          assert Sort(ranges[1..]) == [];
        }
        ok := db.AddFileWithLayoutRange(size, ranges);
      } else {
        RunsPartition(visited);
        ghost var ended, r := Ended(), Run(curRangeStart, prevBlock);
        ghost var g := Grouped(geo, chunkSize, ended);
        FrontLast(Runs(visited));
        assert Runs(visited)[|Runs(visited)| - 1] == r;
        GroupInRuns(geo, chunkSize, ended, r);
        assert StoredFiles(geo, chunkSize, visited, size) == FilesOf(geo, g.closed + [g.pending + [r]]);
        hide Grouped, Gapped, TotalBytes, RangesOf, FilesOf, Runs;
        PushRange(g.closed, g.pending);
        ok := StoreFile(g.closed, g.pending + [r]);
      }
    }
  }

  /** The address lies beyond every visited block. */
  predicate Follows(visited: seq<nat>, addr: nat) { visited != [] ==> Last(visited) < addr }

  /** The files a walk leaves in the database. Without any visited block the code still stores
      the block at address 0, with a size that was never initialised. */
  function StoredFiles(geo: Geometry, chunkSize: int, walk: seq<nat>, garbage: int): seq<LayoutFile> {
    if |walk| == 0 || |Runs(walk)| == 0
    then [LayoutFile(garbage + geo.blockSize, [Range(geo.offset, geo.blockSize, 0)])]
    else FilesOf(geo, WalkGroups(geo, chunkSize, walk))
  }

  /** addFsInfoUnalloc, for a walk that visits blocks in increasing order. */
  method AddFsInfoUnalloc(db: LayoutDb, geo: Geometry, chunkSize: int, walk: seq<nat>, garbage: int) returns (ok: bool)
    requires geo.blockSize >= 1 && StrictlyIncreasing(walk)
    modifies db
    ensures ok
    ensures db.files == old(db.files) + StoredFiles(geo, chunkSize, walk, garbage)
  {
    hide *;
    var tracker := new UnallocTracker(db, geo, chunkSize, garbage);
    for i := 0 to |walk|
      invariant tracker.Valid() && fresh(tracker)
      invariant tracker.db == db && tracker.geo == geo && tracker.chunkSize == chunkSize
      invariant tracker.before == old(db.files)
      invariant tracker.visited == walk[..i] && (i == 0 ==> tracker.size == garbage)
    {
      LastVisited(walk, i);
      tracker.Callback(walk[i]);
    }
    assert walk[..|walk|] == walk;
    SizeWasReset(geo, chunkSize, walk, garbage, tracker.size);
    ok := tracker.Finish();
  }

  lemma LastVisited(walk: seq<nat>, i: nat)
    requires StrictlyIncreasing(walk) && i < |walk|
    ensures Follows(walk[..i], walk[i])
  {
  }

  /** Only a walk that visits nothing keeps the size the tracker began with. */
  lemma SizeWasReset(geo: Geometry, chunkSize: int, walk: seq<nat>, garbage: int, size: int)
    requires StrictlyIncreasing(walk) && (walk == [] ==> size == garbage)
    ensures StoredFiles(geo, chunkSize, walk, size) == StoredFiles(geo, chunkSize, walk, garbage)
  {
    RunsPartition(walk);
    hide Runs, WalkGroups, FilesOf, Gapped, AllBlocks;
  }

  lemma StaysIncreasing(visited: seq<nat>, addr: nat)
    requires StrictlyIncreasing(visited) && Follows(visited, addr)
    ensures StrictlyIncreasing(visited + [addr])
  {
  }

  lemma RunsAfter(visited: seq<nat>, addr: nat)
    requires StrictlyIncreasing(visited)
    ensures Runs(visited + [addr]) == AddBlock(Runs(visited), addr) && Gapped(Runs(visited))
    ensures visited == [] ==> Runs(visited + [addr]) == [Run(addr, addr)]
  {
    RunsPartition(visited);
    RunsNext(visited, addr);
  }

  lemma NothingGrouped(geo: Geometry, chunkSize: int)
    ensures Grouped(geo, chunkSize, []) == Grouping([], []) && FilesOf(geo, []) == []
    ensures RangesOf(geo, []) == [] && TotalBytes(geo, []) == 0
  {
  }

  lemma TotalNext(geo: Geometry, group: seq<Run>, r: Run)
    ensures TotalBytes(geo, group + [r]) == TotalBytes(geo, group) + RunBytes(geo, r)
  {
    assert Front(group + [r]) == group;
    hide RunBytes;
  }

  lemma RangesNext(geo: Geometry, group: seq<Run>, r: Run)
    ensures RangesOf(geo, group + [r]) == RangesOf(geo, group) + [RangeOf(geo, r, |group|)]
  {
    hide RangeOf;
  }

  lemma FilesNext(geo: Geometry, groups: seq<seq<Run>>, group: seq<Run>)
    ensures FilesOf(geo, groups + [group]) == FilesOf(geo, groups) + [FileOf(geo, group)]
  {
    hide FileOf;
  }

  lemma LastRun(runs: seq<Run>)
    requires Gapped(runs) && |runs| > 0
    ensures Last(runs).first <= Last(runs).last
  {
  }

  lemma AddRunIs(geo: Geometry, chunkSize: int, g: Grouping, r: Run)
    ensures var group := g.pending + [r];
            AddRun(geo, chunkSize, g, r)
            == if Flush(chunkSize, TotalBytes(geo, group)) then Grouping(g.closed + [group], [])
               else Grouping(g.closed, group)
  {
    hide TotalBytes, Flush;
  }

  lemma GroupedNext(geo: Geometry, chunkSize: int, runs: seq<Run>, r: Run)
    ensures Grouped(geo, chunkSize, runs + [r]) == AddRun(geo, chunkSize, Grouped(geo, chunkSize, runs), r)
  {
    assert Front(runs + [r]) == runs;
    hide AddRun;
  }

  /** The pending group with one more run is the tail of the runs. */
  lemma GroupInRuns(geo: Geometry, chunkSize: int, runs: seq<Run>, r: Run)
    requires Gapped(runs + [r])
    ensures Gapped(Grouped(geo, chunkSize, runs).pending + [r])
  {
    GroupedProperties(geo, chunkSize, runs);
    var g := Grouped(geo, chunkSize, runs);
    hide Grouped, TotalBytes, Concat;
    GappedTail(Concat(g.closed), g.pending + [r]);
    assert Concat(g.closed) + (g.pending + [r]) == runs + [r];
  }

  lemma GappedTail(a: seq<Run>, b: seq<Run>)
    ensures Gapped(a + b) ==> Gapped(b)
  {
    if Gapped(a + b) {
      forall i | 0 <= i < |b| ensures b[i].first <= b[i].last {
        assert (a + b)[|a| + i] == b[i];
      }
      forall i, j | 0 <= i < j < |b| ensures b[i].last + 1 < b[j].first {
        assert (a + b)[|a| + i] == b[i] && (a + b)[|a| + j] == b[j];
      }
    }
  }

  // ----- what the stored files are

  function TotalLength(ranges: seq<Range>): nat
    decreases |ranges|
  {
    if |ranges| == 0 then 0 else TotalLength(Front(ranges)) + Last(ranges).byteLen
  }

  lemma {:induction false} SizeIsTotal(geo: Geometry, group: seq<Run>)
    ensures TotalLength(RangesOf(geo, group)) == TotalBytes(geo, group)
    decreases |group|
  {
    if |group| > 0 {
      hide RunBytes;
      FrontLast(group);
      RangesNext(geo, Front(group), Last(group));
      SizeIsTotal(geo, Front(group));
      assert Front(RangesOf(geo, group)) == RangesOf(geo, Front(group));
    }
  }

  function AllRanges(files: seq<LayoutFile>): seq<Range>
    decreases |files|
  {
    if |files| == 0 then [] else AllRanges(Front(files)) + Last(files).ranges
  }

  predicate SameExtent(a: Range, b: Range) { a.byteStart == b.byteStart && a.byteLen == b.byteLen }

  /** The ranges of all files, in order, are the runs of all groups, in order. */
  lemma {:induction false} RangesAreRuns(geo: Geometry, groups: seq<seq<Run>>)
    ensures |AllRanges(FilesOf(geo, groups))| == |Concat(groups)|
    ensures forall i ::
              0 <= i < |Concat(groups)| ==>
                SameExtent(AllRanges(FilesOf(geo, groups))[i], RangeOf(geo, Concat(groups)[i], 0))
    decreases |groups|
  {
    if |groups| > 0 {
      hide RunBytes;
      var front, group := Front(groups), Last(groups);
      RangesAreRuns(geo, front);
      FrontLast(groups);
      FilesNext(geo, front, group);
      assert Front(FilesOf(geo, groups)) == FilesOf(geo, front);
      assert Last(FilesOf(geo, groups)).ranges == RangesOf(geo, group);
    }
  }

  predicate Holds(range: Range, byteAt: nat) { range.byteStart <= byteAt < range.End() }

  ghost predicate Covered(ranges: seq<Range>, byteAt: nat) {
    exists i :: 0 <= i < |ranges| && Holds(ranges[i], byteAt)
  }

  /** The files cover exactly the bytes of the visited blocks, each once. */
  ghost predicate Conserved(geo: Geometry, files: seq<LayoutFile>, walk: seq<nat>)
    requires geo.blockSize >= 1
  {
    && PairwiseSeparate(AllRanges(files))
    && forall byteAt: nat :: Covered(AllRanges(files), byteAt)
                        <==> byteAt >= geo.offset && (byteAt - geo.offset) / geo.blockSize in walk
  }

  lemma CoveredBlock(geo: Geometry, runs: seq<Run>, ranges: seq<Range>, byteAt: nat)
    requires geo.blockSize >= 1 && Gapped(runs) && |ranges| == |runs|
    requires forall i :: 0 <= i < |runs| ==> SameExtent(ranges[i], RangeOf(geo, runs[i], 0))
    ensures Covered(ranges, byteAt)
            <==> byteAt >= geo.offset && (byteAt - geo.offset) / geo.blockSize in AllBlocks(runs)
  {
    hide *;
    if byteAt >= geo.offset {
      var b := (byteAt - geo.offset) / geo.blockSize;
      forall i | 0 <= i < |runs| ensures Holds(ranges[i], byteAt) <==> Spans(runs[i], b) {
        GapAt(runs, i);
        RangeHolds(geo, runs[i], ranges[i], byteAt);
      }
      InSomeRun(runs, b);
      CoveredIs(ranges, byteAt);
    } else {
      forall i | 0 <= i < |runs| ensures !Holds(ranges[i], byteAt) {
        StartsAfterOffset(geo, runs[i], ranges[i], byteAt);
      }
      CoveredIs(ranges, byteAt);
    }
  }

  lemma GapAt(runs: seq<Run>, i: nat)
    requires Gapped(runs) && i < |runs|
    ensures runs[i].first <= runs[i].last
  {
  }

  lemma CoveredIs(ranges: seq<Range>, byteAt: nat)
    ensures Covered(ranges, byteAt) <==> exists i :: 0 <= i < |ranges| && Holds(ranges[i], byteAt)
  {
  }

  lemma RangeHolds(geo: Geometry, r: Run, range: Range, byteAt: nat)
    requires geo.blockSize >= 1 && r.first <= r.last && byteAt >= geo.offset
    requires SameExtent(range, RangeOf(geo, r, 0))
    ensures Holds(range, byteAt) <==> Spans(r, (byteAt - geo.offset) / geo.blockSize)
  {
    ByteInRange(geo, r, 0, byteAt);
  }

  lemma StartsAfterOffset(geo: Geometry, r: Run, range: Range, byteAt: nat)
    requires SameExtent(range, RangeOf(geo, r, 0)) && byteAt < geo.offset
    ensures !Holds(range, byteAt)
  {
    MulMonotone(0, r.first, geo.blockSize);
  }

  lemma RunsSeparate(geo: Geometry, runs: seq<Run>, ranges: seq<Range>)
    requires geo.blockSize >= 1 && Gapped(runs) && |ranges| == |runs|
    requires forall i :: 0 <= i < |runs| ==> SameExtent(ranges[i], RangeOf(geo, runs[i], 0))
    ensures PairwiseSeparate(ranges)
  {
    hide RunBytes, RangeOf;
    forall i, j | 0 <= i < j < |ranges| ensures Separate(ranges[i], ranges[j]) {
      GapSeparates(geo, runs[i], runs[j], 0, 0);
      assert SameExtent(ranges[i], RangeOf(geo, runs[i], 0)) && SameExtent(ranges[j], RangeOf(geo, runs[j], 0));
    }
  }

  /** Unallocated space is conserved exactly when the walk visits a block: then the stored
      ranges, in order, are the maximal runs of visited blocks. */
  lemma ConservedExactly(geo: Geometry, chunkSize: int, walk: seq<nat>, garbage: int)
    requires geo.blockSize >= 1 && StrictlyIncreasing(walk)
    ensures Conserved(geo, StoredFiles(geo, chunkSize, walk, garbage), walk) <==> walk != []
  {
    var files := StoredFiles(geo, chunkSize, walk, garbage);
    if walk == [] {
      assert AllRanges(Front(files)) == [];
      assert AllRanges(files) == [Range(geo.offset, geo.blockSize, 0)];
      assert Holds(AllRanges(files)[0], geo.offset);
      assert Covered(AllRanges(files), geo.offset);
    } else {
      RunsPartition(walk);
      WalkGroupsProperties(geo, chunkSize, walk);
      var groups := WalkGroups(geo, chunkSize, walk);
      RangesAreRuns(geo, groups);
      hide *;
      RunsSeparate(geo, Runs(walk), AllRanges(files));
      forall byteAt: nat
        ensures Covered(AllRanges(files), byteAt)
                <==> byteAt >= geo.offset && (byteAt - geo.offset) / geo.blockSize in walk
      {
        CoveredBlock(geo, Runs(walk), AllRanges(files), byteAt);
      }
      ConservedIs(geo, files, walk);
    }
  }

  /** A walk that visits nothing leaves one file of the first block, of any size at all. */
  lemma NothingVisited(geo: Geometry, chunkSize: int, size: int)
    ensures exists garbage ::
              StoredFiles(geo, chunkSize, [], garbage) == [LayoutFile(size, [Range(geo.offset, geo.blockSize, 0)])]
  {
    assert StoredFiles(geo, chunkSize, [], size - geo.blockSize)
        == [LayoutFile(size, [Range(geo.offset, geo.blockSize, 0)])];
  }

  lemma ConservedIs(geo: Geometry, files: seq<LayoutFile>, walk: seq<nat>)
    requires geo.blockSize >= 1 && PairwiseSeparate(AllRanges(files))
    requires forall byteAt: nat :: Covered(AllRanges(files), byteAt)
                              <==> byteAt >= geo.offset && (byteAt - geo.offset) / geo.blockSize in walk
    ensures Conserved(geo, files, walk)
  {
  }

  /** What a file stores when its size reached the chunk size. */
  ghost predicate ReachedChunk(chunkSize: int, f: LayoutFile) {
    && chunkSize != 0 && |f.ranges| > 0
    && (chunkSize < 0 ==> |f.ranges| == 1)
    && (chunkSize > 0 ==> f.size >= chunkSize)
  }

  /** Without its last range a file is below the chunk size. */
  ghost predicate NotBeyondChunk(chunkSize: int, f: LayoutFile) {
    && |f.ranges| > 0
    && (chunkSize < 0 ==> |f.ranges| == 1)
    && (chunkSize > 0 ==> f.size - Last(f.ranges).byteLen < chunkSize)
  }

  /** Every file of a walk: its size is the sum of its ranges, which are numbered 0, 1, 2, ... and
      separate; the chunk size decides where one file ends and the next begins. */
  lemma StoredFilesAreChunks(geo: Geometry, chunkSize: int, walk: seq<nat>, garbage: int)
    requires geo.blockSize >= 1 && StrictlyIncreasing(walk) && walk != []
    ensures var files := StoredFiles(geo, chunkSize, walk, garbage);
            && |files| > 0
            && (forall k :: 0 <= k < |files| ==> files[k].size == TotalLength(files[k].ranges))
            && (forall k :: 0 <= k < |files| ==> Numbered(files[k].ranges))
            && (forall k :: 0 <= k < |files| ==> NotBeyondChunk(chunkSize, files[k]))
            && (forall k :: 0 <= k < |files| - 1 ==> ReachedChunk(chunkSize, files[k]))
            && (chunkSize == 0 ==> |files| == 1)
  {
    RunsPartition(walk);
    WalkGroupsProperties(geo, chunkSize, walk);
    var groups := WalkGroups(geo, chunkSize, walk);
    var files := StoredFiles(geo, chunkSize, walk, garbage);
    assert files == FilesOf(geo, groups);
    hide *;
    forall k | 0 <= k < |files|
      ensures files[k].size == TotalLength(files[k].ranges) && Numbered(files[k].ranges)
      ensures NotBeyondChunk(chunkSize, files[k])
      ensures k < |files| - 1 ==> ReachedChunk(chunkSize, files[k])
    {
      FileAt(geo, groups, k);
      LastOf(groups);
      if k < |groups| - 1 {
        ClosedFile(geo, chunkSize, groups[k]);
      }
      GroupFile(geo, chunkSize, groups[k]);
    }
  }

  lemma FileAt(geo: Geometry, groups: seq<seq<Run>>, k: nat)
    requires k < |groups|
    ensures FilesOf(geo, groups)[k] == FileOf(geo, groups[k])
  {
  }

  lemma LastOf<T>(s: seq<T>)
    requires |s| > 0
    ensures Last(s) == s[|s| - 1]
  {
  }

  lemma ClosedFile(geo: Geometry, chunkSize: int, group: seq<Run>)
    requires ClosedGroup(geo, chunkSize, group)
    ensures LastGroup(geo, chunkSize, group) && ReachedChunk(chunkSize, FileOf(geo, group))
  {
    hide TotalBytes;
  }

  lemma GroupFile(geo: Geometry, chunkSize: int, group: seq<Run>)
    requires LastGroup(geo, chunkSize, group)
    ensures FileOf(geo, group).size == TotalLength(FileOf(geo, group).ranges)
    ensures Numbered(FileOf(geo, group).ranges)
    ensures NotBeyondChunk(chunkSize, FileOf(geo, group))
  {
    SizeIsTotal(geo, group);
    FrontLast(group);
    TotalNext(geo, Front(group), Last(group));
    hide TotalBytes, RunBytes, TotalLength;
    assert Last(RangesOf(geo, group)).byteLen == RunBytes(geo, Last(group));
  }
}
