/**
 One layer of the compressed slab pool: a free list of block numbers and the spans of blocks
 that are owned. The two must partition the block range 0..n.
 */
module SlabLayer {
  import opened Wrappers

  datatype Span = Span(start: int, len: int) {
    predicate Covers(x: int) {
      start <= x < start + len
    }

    predicate Apart(other: Span) {
      start + len <= other.start || other.start + other.len <= start
    }
  }

  predicate Distinct<T(==)>(s: seq<T>) {
    forall i, j :: 0 <= i < j < |s| ==> s[i] != s[j]
  }

  /** The block numbers from..until (exclusive), ascending. */
  function Range(from: int, until: int): (r: seq<int>)
    ensures |r| == if from <= until then until - from else 0
    ensures forall i :: 0 <= i < |r| ==> r[i] == from + i
    ensures forall x :: x in r <==> from <= x < until
    decreases until - from
  {
    if from >= until then [] else Range(from, until - 1) + [until - 1]
  }

  /** Free list and owned spans partition the blocks 0..n, with no block listed twice. */
  ghost predicate Partition<O(!new)>(free: seq<int>, spans: map<O, Span>, n: nat) {
    && Distinct(free)
    && (forall x :: x in free ==> 0 <= x < n)
    && (forall o :: o in spans ==> 0 <= spans[o].start && 1 <= spans[o].len && spans[o].start + spans[o].len <= n)
    && (forall o, o' :: o in spans && o' in spans && o != o' ==> spans[o].Apart(spans[o']))
    && (forall o, x :: o in spans && spans[o].Covers(x) ==> x !in free)
    && (forall x :: 0 <= x < n && x !in free ==> exists o :: o in spans && spans[o].Covers(x))
  }

  // ----- What each operation does to a partition -----

  /** Reordering a free list changes nothing. */
  lemma ReorderKeeps<O(!new)>(free: seq<int>, free': seq<int>, spans: map<O, Span>, n: nat)
    requires Partition(free, spans, n) && Distinct(free') && forall x :: x in free' <==> x in free
    ensures Partition(free', spans, n)
  {
  }

  /** Taking a span out of the free list for a new owner keeps the partition. */
  lemma TakeKeeps<O(!new)>(free: seq<int>, free': seq<int>, spans: map<O, Span>, n: nat, o: O, span: Span)
    requires Partition(free, spans, n) && o !in spans
    requires 1 <= span.len && forall x :: span.Covers(x) ==> x in free
    requires Distinct(free') && forall x :: x in free' <==> x in free && !span.Covers(x)
    ensures Partition(free', spans[o := span], n)
  {
    var spans' := spans[o := span];
    assert span.Covers(span.start) && span.Covers(span.start + span.len - 1);
    forall p | p in spans
      ensures spans[p].Apart(span)
    {
      var s := spans[p];
      if !s.Apart(span) {
        var x := if s.start < span.start then span.start else s.start;
        assert s.Covers(x) && span.Covers(x);
      }
    }
    forall x | 0 <= x < n && x !in free'
      ensures exists p :: p in spans' && spans'[p].Covers(x)
    {
      if span.Covers(x) {
        assert spans'[o].Covers(x);
      } else {
        var p :| p in spans && spans[p].Covers(x);
        assert spans'[p].Covers(x);
      }
    }
  }

  /** Returning an owner's span to the end of the free list keeps the partition. */
  lemma GiveBackKeeps<O(!new)>(free: seq<int>, spans: map<O, Span>, n: nat, o: O)
    requires Partition(free, spans, n) && o in spans
    ensures Partition(free + Range(spans[o].start, spans[o].start + spans[o].len), spans - {o}, n)
  {
    var s := spans[o];
    var back := Range(s.start, s.start + s.len);
    forall i, j | 0 <= i < j < |free + back|
      ensures (free + back)[i] != (free + back)[j]
    {
      if i < |free| <= j {
        assert s.Covers(back[j - |free|]) && free[i] in free;
      }
    }
    forall p, x | p in spans - {o} && spans[p].Covers(x)
      ensures x !in free + back
    {
      assert spans[p].Apart(s);
    }
    forall x | 0 <= x < n && x !in free + back
      ensures exists p :: p in spans - {o} && (spans - {o})[p].Covers(x)
    {
      var p :| p in spans && spans[p].Covers(x);
      assert p != o;
      assert (spans - {o})[p].Covers(x);
    }
  }

  /** A span may pass from one owner to another. */
  lemma RenameKeeps<O(!new)>(free: seq<int>, spans: map<O, Span>, n: nat, o: O, o': O)
    requires Partition(free, spans, n) && o in spans && o' !in spans
    ensures Partition(free, (spans - {o})[o' := spans[o]], n)
  {
    var spans' := (spans - {o})[o' := spans[o]];
    forall x | 0 <= x < n && x !in free
      ensures exists p :: p in spans' && spans'[p].Covers(x)
    {
      var p :| p in spans && spans[p].Covers(x);
      assert spans'[if p == o then o' else p].Covers(x);
    }
  }

  /** With no owner left the whole range is free. */
  lemma NoOwners<O(!new)>(free: seq<int>, spans: map<O, Span>, n: nat)
    requires Partition(free, spans, n) && spans == map[]
    ensures forall x :: x in free <==> 0 <= x < n
  {
  }

  lemma {:induction false} SameLength(a: seq<int>, b: seq<int>)
    requires Distinct(a) && Distinct(b) && forall x :: x in a <==> x in b
    ensures |a| == |b|
  {
    var s, t := set x | x in a, set x | x in b;
    DistinctSize(a);
    DistinctSize(b);
    assert s == t;
  }

  lemma {:induction false} DistinctSize(a: seq<int>)
    requires Distinct(a)
    ensures |set x | x in a| == |a|
  {
    if a != [] {
      var front, last := a[..|a| - 1], a[|a| - 1];
      DistinctSize(front);
      assert (set x | x in a) == (set x | x in front) + {last};
      assert last !in front;
    }
  }

  /** Partitions whose owners hold equally long spans have equally long free lists. */
  lemma {:induction false} FreeCount<O(!new)>(free: seq<int>, spans: map<O, Span>, free': seq<int>,
                                              spans': map<O, Span>, n: nat)
    requires Partition(free, spans, n) && Partition(free', spans', n)
    requires spans.Keys == spans'.Keys && forall o :: o in spans ==> spans[o].len == spans'[o].len
    ensures |free| == |free'|
    decreases |spans|
  {
    if spans == map[] {
      assert spans' == map[];
      NoOwners(free, spans, n);
      NoOwners(free', spans', n);
      SameLength(free, free');
    } else {
      var o :| o in spans;
      GiveBackKeeps(free, spans, n, o);
      GiveBackKeeps(free', spans', n, o);
      assert (spans - {o}).Keys == spans.Keys - {o};
      assert (spans' - {o}).Keys == spans'.Keys - {o};
      FreeCount(free + Range(spans[o].start, spans[o].start + spans[o].len), spans - {o},
                free' + Range(spans'[o].start, spans'[o].start + spans'[o].len), spans' - {o}, n);
    }
  }

  // ----- list.sort on a free list -----

  predicate Ascending(s: seq<int>) {
    forall i, j :: 0 <= i < j < |s| ==> s[i] < s[j]
  }

  function Insert(s: seq<int>, x: int): (r: seq<int>)
    requires Ascending(s) && x !in s
    ensures Ascending(r) && |r| == |s| + 1
    ensures forall y :: y in r <==> y == x || y in s
  {
    if s == [] then [x]
    else if x < s[0] then
      assert forall y :: y in [x] + s <==> y == x || y in s;
      [x] + s
    else
      var r := Insert(s[1..], x);
      assert s == [s[0]] + s[1..] && s[0] in s;
      assert forall y :: y in s[1..] ==> s[0] < y;
      assert forall k :: 0 <= k < |r| ==> r[k] in r;
      assert forall y :: y in [s[0]] + r <==> y == s[0] || y in r;
      [s[0]] + r
  }

  /** The ascending order of a list without duplicates. */
  function Sorted(s: seq<int>): (r: seq<int>)
    requires Distinct(s)
    ensures Ascending(r) && |r| == |s|
    ensures forall y :: y in r <==> y in s
  {
    if s == [] then []
    else
      var front, last := s[..|s| - 1], s[|s| - 1];
      assert s == front + [last];
      Insert(Sorted(front), last)
  }

  // ----- The scan of _alloc_span -----

  /** n consecutive block numbers starting at index j of the list. */
  predicate RunAt(free: seq<int>, j: int, n: int) {
    0 <= j && j + n <= |free| && forall i :: j <= i < j + n ==> free[i] == free[j] + (i - j)
  }

  /** All of the blocks s..s+n are free. */
  ghost predicate BlockFree(free: seq<int>, s: int, n: int) {
    forall x :: s <= x < s + n ==> x in free
  }

  /** In an ascending list, n consecutive numbers occupy n consecutive places. */
  lemma {:induction false} FreeIsRun(free: seq<int>, s: int, n: int, j: nat)
    requires Ascending(free) && 1 <= n && BlockFree(free, s, n) && j < |free| && free[j] == s
    ensures RunAt(free, j, n)
  {
    if n > 1 {
      FreeIsRun(free, s, n - 1, j);
      assert s + n - 1 in free;
      var k :| 0 <= k < |free| && free[k] == s + n - 1;
      assert free[j + n - 2] == s + n - 2;
    }
  }

  /**
   First fit: the index of the lowest run of n consecutive free blocks in an ascending free
   list, or None when there is none.
   */
  method FindRun(free: seq<int>, n: int) returns (at: Option<nat>)
    requires Ascending(free) && 1 <= n
    ensures at.Some? ==> RunAt(free, at.value, n)
    ensures at.Some? ==> forall s :: s < free[at.value] ==> !BlockFree(free, s, n)
    ensures at.None? ==> forall s :: !BlockFree(free, s, n)
  {
    var runLen := 0;
    var i := 0;
    while i < |free|
      invariant 0 <= i <= |free| && runLen < n && Scanned(free, i, runLen, n)
    {
      ScanNext(free, i, runLen, n);
      if i == 0 {
        runLen := 1;
      } else if free[i] == free[i - 1] + 1 {
        runLen := runLen + 1;
      } else {
        runLen := 1;
      }
      if runLen == n {
        NoLowerRun(free, n, i - n + 1);
        return Some(i - n + 1);
      }
      i := i + 1;
    }
    NoRun(free, n);
    at := None;
  }

  /** The first i blocks end in a longest run of length runLen and contain no run of n before it. */
  ghost predicate Scanned(free: seq<int>, i: nat, runLen: nat, n: int) {
    && i <= |free| && runLen <= i
    && (i > 0 ==> runLen >= 1 && RunAt(free, i - runLen, runLen))
    && (0 < runLen < i ==> free[i - runLen] != free[i - runLen - 1] + 1)
    && (forall j :: 0 <= j && j + n <= i ==> !RunAt(free, j, n))
  }

  /** One block further, the run is extended or starts again; short of n it completes no run. */
  lemma ScanNext(free: seq<int>, i: nat, runLen: nat, n: int)
    requires i < |free| && Scanned(free, i, runLen, n) && runLen < n
    ensures var longer := if i > 0 && free[i] == free[i - 1] + 1 then runLen + 1 else 1;
      && (longer < n ==> Scanned(free, i + 1, longer, n))
      && (longer == n ==> RunAt(free, i - n + 1, n) && forall j :: 0 <= j && j + n <= i ==> !RunAt(free, j, n))
  {
    var longer := if i > 0 && free[i] == free[i - 1] + 1 then runLen + 1 else 1;
    assert RunAt(free, i + 1 - longer, longer);
    if longer < n {
      RunIsShort(free, i + 1, longer, n);
    }
  }

  /** A run that cannot be extended to the left rules out a longer one with the same end. */
  lemma RunIsShort(free: seq<int>, i: nat, runLen: nat, n: int)
    requires 0 < runLen <= i <= |free| && runLen < n
    requires runLen < i ==> free[i - runLen] != free[i - runLen - 1] + 1
    ensures !RunAt(free, i - n, n)
  {
  }

  lemma NoRun(free: seq<int>, n: int)
    requires Ascending(free) && 1 <= n
    requires forall j :: 0 <= j && j + n <= |free| ==> !RunAt(free, j, n)
    ensures forall s :: !BlockFree(free, s, n)
  {
    forall s ensures !BlockFree(free, s, n) {
      if BlockFree(free, s, n) {
        assert s in free;
        var j :| 0 <= j < |free| && free[j] == s;
        FreeIsRun(free, s, n, j);
      }
    }
  }

  /** If no run starts before index at, no block below free[at] starts a free span. */
  lemma NoLowerRun(free: seq<int>, n: int, at: nat)
    requires Ascending(free) && 1 <= n && RunAt(free, at, n)
    requires forall j :: 0 <= j && j + n <= at + n - 1 ==> !RunAt(free, j, n)
    ensures forall s :: s < free[at] ==> !BlockFree(free, s, n)
  {
    forall s | s < free[at] ensures !BlockFree(free, s, n) {
      if BlockFree(free, s, n) {
        assert s in free;
        var j :| 0 <= j < |free| && free[j] == s;
        FreeIsRun(free, s, n, j);
      }
    }
  }
}
