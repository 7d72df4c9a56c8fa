/** Files made of byte ranges, as tsk/auto/db_sqlite.cpp stores them: a file is accepted when
    no two of its ranges overlap or touch. */
module LayoutFiles {

  /** A row of the layout table before its file exists. */
  datatype Range = Range(byteStart: nat, byteLen: nat, sequence: nat) {
    function End(): nat { byteStart + byteLen }
  }

  datatype LayoutFile = LayoutFile(size: int, ranges: seq<Range>)

  /** At least one byte lies between two ranges. */
  predicate Separate(a: Range, b: Range) { a.End() < b.byteStart || b.End() < a.byteStart }

  predicate PairwiseSeparate(ranges: seq<Range>) {
    forall i, j :: 0 <= i < j < |ranges| ==> Separate(ranges[i], ranges[j])
  }

  predicate SeparateFrom(r: Range, ranges: seq<Range>) {
    forall i :: 0 <= i < |ranges| ==> Separate(r, ranges[i])
  }

  /** The functor checkFileLayoutRangeOverlap applied to every range: each is compared with
      all the others, as closed intervals. */
  method HasOverlap(ranges: seq<Range>) returns (hasOverlap: bool)
    ensures hasOverlap <==> !PairwiseSeparate(ranges)
  {
    hasOverlap := false;
    var n := 0;
    while n < |ranges|
      invariant n <= |ranges|
      invariant hasOverlap ==> !PairwiseSeparate(ranges)
      invariant !hasOverlap ==>
                  forall i, j :: 0 <= i < n && 0 <= j < |ranges| && i != j ==> Separate(ranges[i], ranges[j])
    {
      if !hasOverlap {
        var start, end := ranges[n].byteStart, ranges[n].End();
        var m := 0;
        while m < |ranges|
          invariant m <= |ranges| && !hasOverlap
          invariant forall j :: 0 <= j < m && j != n ==> Separate(ranges[n], ranges[j])
        {
          if m != n {
            var otherStart, otherEnd := ranges[m].byteStart, ranges[m].End();
            if start <= otherEnd && end >= otherStart {
              assert !Separate(ranges[if n < m then n else m], ranges[if n < m then m else n]);
              hasOverlap := true;
              break;
            }
          }
          m := m + 1;
        }
      }
      n := n + 1;
    }
  }

  // ----- the sort by sequence number

  predicate InOrder(ranges: seq<Range>) {
    forall i, j :: 0 <= i < j < |ranges| ==> ranges[i].sequence <= ranges[j].sequence
  }

  predicate Numbered(ranges: seq<Range>) {
    forall i :: 0 <= i < |ranges| ==> ranges[i].sequence == i
  }

  function Insert(r: Range, ranges: seq<Range>): seq<Range>
    decreases |ranges|
  {
    if |ranges| == 0 || r.sequence <= ranges[0].sequence then [r] + ranges
    else [ranges[0]] + Insert(r, ranges[1..])
  }

  function Sort(ranges: seq<Range>): seq<Range>
    decreases |ranges|
  {
    if |ranges| == 0 then [] else Insert(ranges[0], Sort(ranges[1..]))
  }

  lemma {:induction false} InsertInOrder(r: Range, ranges: seq<Range>)
    requires InOrder(ranges)
    ensures InOrder(Insert(r, ranges))
    ensures Insert(r, ranges) != []
    ensures Insert(r, ranges)[0] == if |ranges| == 0 || r.sequence <= ranges[0].sequence then r else ranges[0]
    decreases |ranges|
  {
    if |ranges| == 0 || r.sequence <= ranges[0].sequence {
    } else {
      InsertInOrder(r, ranges[1..]);
    }
  }

  lemma {:induction false} InsertKeepsAll(r: Range, ranges: seq<Range>)
    ensures multiset(Insert(r, ranges)) == multiset{r} + multiset(ranges)
    decreases |ranges|
  {
    if |ranges| == 0 || r.sequence <= ranges[0].sequence {
    } else {
      InsertKeepsAll(r, ranges[1..]);
      assert ranges == [ranges[0]] + ranges[1..];
    }
  }

  /** Sorting gives a permutation in order. */
  lemma {:induction false} SortInOrder(ranges: seq<Range>)
    ensures InOrder(Sort(ranges)) && multiset(Sort(ranges)) == multiset(ranges)
    decreases |ranges|
  {
    if |ranges| != 0 {
      hide InOrder, Insert;
      SortInOrder(ranges[1..]);
      InsertInOrder(ranges[0], Sort(ranges[1..]));
      InsertKeepsAll(ranges[0], Sort(ranges[1..]));
      assert ranges == [ranges[0]] + ranges[1..];
    }
  }

  /** Whatever permutation in order a sort returns, ranges numbered 0, 1, 2, ... come back unchanged. */
  lemma {:induction false} NumberedIsSorted(ranges: seq<Range>, sorted: seq<Range>)
    requires Numbered(ranges) && InOrder(sorted) && multiset(sorted) == multiset(ranges)
    ensures sorted == ranges
    decreases |ranges|
  {
    assert |multiset(sorted)| == |multiset(ranges)|;
    var n := |ranges| - 1;
    if n >= 0 {
      LastInOrder(ranges, sorted);
      var last := ranges[n];
      assert ranges == ranges[..n] + [last] && sorted == sorted[..n] + [last];
      DropLast(ranges[..n], sorted[..n], last);
      NumberedIsSorted(ranges[..n], sorted[..n]);
    }
  }

  lemma DropLast(a: seq<Range>, b: seq<Range>, last: Range)
    requires multiset(a + [last]) == multiset(b + [last])
    ensures multiset(a) == multiset(b)
  {
    assert multiset(a) == multiset(a + [last]) - multiset{last};
    assert multiset(b) == multiset(b + [last]) - multiset{last};
  }

  lemma LastInOrder(ranges: seq<Range>, sorted: seq<Range>)
    requires Numbered(ranges) && InOrder(sorted) && multiset(sorted) == multiset(ranges)
    requires |ranges| == |sorted| > 0
    ensures sorted[|ranges| - 1] == ranges[|ranges| - 1]
  {
    var n := |ranges| - 1;
    var last, top := ranges[n], sorted[n];
    var i := IndexOf(ranges, sorted, last);
    var j := IndexOf(sorted, ranges, top);
    assert i == n || sorted[i].sequence <= sorted[n].sequence;
    assert j == n;
  }

  lemma IndexOf(a: seq<Range>, b: seq<Range>, x: Range) returns (i: nat)
    requires multiset(a) == multiset(b) && x in a
    ensures i < |b| && b[i] == x
  {
    assert x in multiset(b);
    i :| 0 <= i < |b| && b[i] == x;
  }

  /** Ranges are separate exactly when no place lies in both, the one behind the last byte included. */
  lemma SeparateExactly(a: Range, b: Range)
    ensures Separate(a, b)
       <==> !exists p: nat :: InClosed(p, a) && InClosed(p, b)
  {
    if !Separate(a, b) {
      var p := if a.byteStart < b.byteStart then b.byteStart else a.byteStart;
      assert InClosed(p, a) && InClosed(p, b);
    }
  }

  predicate InClosed(p: nat, r: Range) { r.byteStart <= p <= r.byteStart + r.byteLen }

  lemma SeparateCommutes(a: Range, b: Range)
    ensures Separate(a, b) <==> Separate(b, a)
  {
  }

  lemma PairwiseCons(r: Range, ranges: seq<Range>)
    ensures PairwiseSeparate([r] + ranges) <==> SeparateFrom(r, ranges) && PairwiseSeparate(ranges)
  {
    var all := [r] + ranges;
    if PairwiseSeparate(all) {
      forall i | 0 <= i < |ranges| ensures Separate(r, ranges[i]) {
        assert Separate(all[0], all[i + 1]);
      }
      forall i, j | 0 <= i < j < |ranges| ensures Separate(ranges[i], ranges[j]) {
        assert Separate(all[i + 1], all[j + 1]);
      }
    }
  }

  lemma SeparateFromCons(s: Range, r: Range, ranges: seq<Range>)
    ensures SeparateFrom(s, [r] + ranges) <==> Separate(s, r) && SeparateFrom(s, ranges)
  {
    var all := [r] + ranges;
    if SeparateFrom(s, all) {
      assert all[0] == r;
      forall i | 0 <= i < |ranges| ensures Separate(s, ranges[i]) {
        assert Separate(s, all[i + 1]);
      }
    }
  }

  lemma {:induction false} SeparateFromInsert(s: Range, r: Range, ranges: seq<Range>)
    ensures SeparateFrom(s, Insert(r, ranges)) <==> Separate(s, r) && SeparateFrom(s, ranges)
    decreases |ranges|
  {
    SeparateFromCons(s, r, ranges);
    if |ranges| == 0 || r.sequence <= ranges[0].sequence {
    } else {
      SeparateFromInsert(s, r, ranges[1..]);
      SeparateFromCons(s, ranges[0], Insert(r, ranges[1..]));
      SeparateFromCons(s, ranges[0], ranges[1..]);
      assert ranges == [ranges[0]] + ranges[1..];
    }
  }

  lemma {:induction false} PairwiseInsert(r: Range, ranges: seq<Range>)
    ensures PairwiseSeparate(Insert(r, ranges)) <==> SeparateFrom(r, ranges) && PairwiseSeparate(ranges)
    decreases |ranges|
  {
    PairwiseCons(r, ranges);
    if |ranges| == 0 || r.sequence <= ranges[0].sequence {
    } else {
      var first, rest := ranges[0], ranges[1..];
      assert ranges == [first] + rest;
      PairwiseInsert(r, rest);
      PairwiseCons(first, Insert(r, rest));
      PairwiseCons(first, rest);
      SeparateFromInsert(first, r, rest);
      SeparateFromCons(r, first, rest);
      SeparateCommutes(r, first);
    }
  }

  lemma {:induction false} SeparateFromSort(r: Range, ranges: seq<Range>)
    ensures SeparateFrom(r, Sort(ranges)) <==> SeparateFrom(r, ranges)
    decreases |ranges|
  {
    if |ranges| != 0 {
      SeparateFromSort(r, ranges[1..]);
      SeparateFromInsert(r, ranges[0], Sort(ranges[1..]));
      SeparateFromCons(r, ranges[0], ranges[1..]);
      assert ranges == [ranges[0]] + ranges[1..];
    }
  }

  /** Sorting does not change whether ranges are pairwise separate. */
  lemma {:induction false} PairwiseSort(ranges: seq<Range>)
    ensures PairwiseSeparate(Sort(ranges)) <==> PairwiseSeparate(ranges)
    decreases |ranges|
  {
    if |ranges| != 0 {
      PairwiseSort(ranges[1..]);
      PairwiseInsert(ranges[0], Sort(ranges[1..]));
      SeparateFromSort(ranges[0], ranges[1..]);
      PairwiseCons(ranges[0], ranges[1..]);
      assert ranges == [ranges[0]] + ranges[1..];
    }
  }

  /** The layout files of a case database. */
  class LayoutDb {
    var files: seq<LayoutFile>

    constructor ()
      ensures files == []
    {
      files := [];
    }

    /** addFileWithLayoutRange, without the file name: sort, check, insert. */
    method AddFileWithLayoutRange(size: int, ranges: seq<Range>) returns (ok: bool)
      modifies this
      ensures ok <==> |ranges| >= 1 && PairwiseSeparate(ranges)
      ensures files == if ok then old(files) + [LayoutFile(size, Sort(ranges))] else old(files)
    {
      if |ranges| < 1 {
        return false;
      }
      PairwiseSort(ranges);
      var sorted := Sort(ranges);
      var hasOverlap := HasOverlap(sorted);
      if hasOverlap {
        return false;
      }
      files := files + [LayoutFile(size, sorted)];
      return true;
    }
  }
}
