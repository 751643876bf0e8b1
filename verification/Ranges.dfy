/**
 Chunk-group range sets (`crates/synch-core/src/wire.rs`): sorted, disjoint,
 non-touching half-open intervals of group indices, the linear merges over them,
 and the binary-search queries, all related to the set of groups they denote.
 */
module Ranges {
  import opened Words

  /** A half-open range of chunk groups. */
  datatype GroupRange = GroupRange(start: u64, end: u64) {
    predicate IsEmpty() {
      start >= end
    }

    predicate Has(g: int) {
      start <= g < end
    }

    /** The derived lexicographic order the source sorts by. */
    predicate Leq(other: GroupRange) {
      start < other.start || (start == other.start && end <= other.end)
    }

    /** Saturating length. */
    function Len(): (n: u64)
      ensures start <= end ==> n == end - start
    {
      if end <= start then 0 else end - start
    }

    /** Builds a range, normalizing an inverted one to empty. */
    static function New(start: u64, end: u64): GroupRange {
      GroupRange(start, Max(start, end))
    }
  }

  /** True if some range of the list covers group `g`. */
  predicate Contains(rs: seq<GroupRange>, g: int) {
    exists i :: 0 <= i < |rs| && rs[i].Has(g)
  }

  /** Sorted, non-empty, and with a gap between neighbours: what `from_ranges` establishes. */
  ghost predicate Canonical(rs: seq<GroupRange>) {
    && (forall i :: 0 <= i < |rs| ==> rs[i].start < rs[i].end)
    && (forall i, j :: 0 <= i < j < |rs| ==> rs[i].end < rs[j].start)
  }

  // ----- normalization -----

  ghost predicate SortedByOrder(rs: seq<GroupRange>) {
    forall i, j :: 0 <= i < j < |rs| ==> rs[i].Leq(rs[j])
  }

  lemma {:induction false} SortedCons(r: GroupRange, rest: seq<GroupRange>)
    requires SortedByOrder(rest) && forall x :: x in rest ==> r.Leq(x)
    ensures SortedByOrder([r] + rest)
  {
  }

  function Insert(r: GroupRange, rs: seq<GroupRange>): (out: seq<GroupRange>)
    requires SortedByOrder(rs)
    ensures SortedByOrder(out)
    ensures multiset(out) == multiset(rs) + multiset{r}
    ensures forall x :: x in out ==> x == r || x in rs
  {
    if rs == [] then [r]
    else if r.Leq(rs[0]) then SortedCons(r, rs); [r] + rs
    else
      assert rs == [rs[0]] + rs[1..];
      var rest := Insert(r, rs[1..]);
      SortedCons(rs[0], rest);
      [rs[0]] + rest
  }

  /** The list in `(start, end)` order; the order is total, so any sort gives this list. */
  function Sort(rs: seq<GroupRange>): (out: seq<GroupRange>)
    ensures SortedByOrder(out)
    ensures multiset(out) == multiset(rs)
  {
    if rs == [] then []
    else
      assert rs == [rs[0]] + rs[1..];
      Insert(rs[0], Sort(rs[1..]))
  }

  lemma {:induction false} SortContains(rs: seq<GroupRange>, g: int)
    ensures Contains(Sort(rs), g) <==> Contains(rs, g)
  {
    var out := Sort(rs);
    if Contains(out, g) {
      var i :| 0 <= i < |out| && out[i].Has(g);
      assert out[i] in multiset(out);
      assert out[i] in rs;
    }
    if Contains(rs, g) {
      var i :| 0 <= i < |rs| && rs[i].Has(g);
      assert rs[i] in multiset(rs);
      assert rs[i] in out;
    }
  }

  /** Drops the empty ranges; they cover nothing. */
  method DropEmpty(ranges: seq<GroupRange>) returns (kept: seq<GroupRange>)
    ensures forall r :: r in kept ==> !r.IsEmpty()
    ensures forall g :: Contains(kept, g) <==> Contains(ranges, g)
  {
    kept := [];
    for i := 0 to |ranges|
      invariant forall r :: r in kept ==> !r.IsEmpty()
      invariant forall g :: Contains(kept, g) <==> Contains(ranges[..i], g)
    {
      ghost var before := kept;
      if !ranges[i].IsEmpty() {
        kept := kept + [ranges[i]];
      }
      forall g
        ensures Contains(kept, g) <==> Contains(ranges[..i + 1], g)
      {
        ContainsAppend(ranges[..i], ranges[i], g);
        ContainsAppend(before, ranges[i], g);
        assert ranges[..i + 1] == ranges[..i] + [ranges[i]];
      }
    }
    assert ranges[..|ranges|] == ranges;
  }

  /** Merges touching neighbours of a sorted list of non-empty ranges, left to right. */
  method MergeSorted(v: seq<GroupRange>) returns (out: seq<GroupRange>)
    requires SortedByOrder(v) && forall r :: r in v ==> !r.IsEmpty()
    ensures Canonical(out)
    ensures forall g :: Contains(out, g) <==> Contains(v, g)
  {
    out := [];
    for i := 0 to |v|
      invariant Canonical(out)
      invariant i < |v| && out != [] ==> out[|out| - 1].start <= v[i].start
      invariant forall g :: Contains(out, g) <==> Contains(v[..i], g)
    {
      ghost var before := out;
      var r := v[i];
      assert r in v && !r.IsEmpty();
      if out != [] && r.start <= out[|out| - 1].end {
        var last := out[|out| - 1];
        MergeContains(out, r);
        out := out[|out| - 1 := GroupRange(last.start, Max(last.end, r.end))];
      } else {
        out := out + [r];
        forall g { ContainsAppend(before, r, g); }
      }
      assert forall g :: Contains(out, g) <==> Contains(before, g) || r.Has(g);
      forall g
        ensures Contains(v[..i + 1], g) <==> Contains(v[..i], g) || r.Has(g)
      {
        assert v[..i + 1] == v[..i] + [r];
        ContainsAppend(v[..i], r, g);
      }
      assert i + 1 < |v| ==> v[i].Leq(v[i + 1]);
    }
    assert v[..|v|] == v;
  }

  /** Builds a normalized set from arbitrary ranges: filtered, sorted and merged. */
  method FromRanges(ranges: seq<GroupRange>) returns (out: seq<GroupRange>)
    ensures Canonical(out)
    ensures forall g :: Contains(out, g) <==> Contains(ranges, g)
  {
    var kept := DropEmpty(ranges);
    var v := Sort(kept);
    assert forall r :: r in v ==> r in multiset(v);
    forall g
      ensures Contains(v, g) <==> Contains(ranges, g)
    {
      SortContains(kept, g);
    }
    out := MergeSorted(v);
  }

  lemma {:induction false} HasContains(rs: seq<GroupRange>, i: nat, g: int)
    requires i < |rs|
    ensures rs[i].Has(g) ==> Contains(rs, g)
  {
  }

  lemma {:induction false} ContainsAppend(rs: seq<GroupRange>, r: GroupRange, g: int)
    ensures Contains(rs + [r], g) <==> Contains(rs, g) || r.Has(g)
  {
    var all := rs + [r];
    if Contains(rs, g) {
      var i :| 0 <= i < |rs| && rs[i].Has(g);
      assert all[i].Has(g);
    }
    if r.Has(g) {
      assert all[|rs|].Has(g);
    }
  }

  lemma {:induction false} ContainsConcat(a: seq<GroupRange>, b: seq<GroupRange>, g: int)
    ensures Contains(a + b, g) <==> Contains(a, g) || Contains(b, g)
  {
    var all := a + b;
    if Contains(a, g) {
      var i :| 0 <= i < |a| && a[i].Has(g);
      assert all[i].Has(g);
    }
    if Contains(b, g) {
      var i :| 0 <= i < |b| && b[i].Has(g);
      assert all[|a| + i].Has(g);
    }
  }

  /** Widening the last range by one that touches it adds exactly that range's groups. */
  lemma {:induction false} MergeContains(rs: seq<GroupRange>, r: GroupRange)
    requires rs != [] && rs[|rs| - 1].start <= r.start <= rs[|rs| - 1].end && rs[|rs| - 1].start < rs[|rs| - 1].end
    ensures var last := rs[|rs| - 1];
            var merged := rs[|rs| - 1 := GroupRange(last.start, Max(last.end, r.end))];
            forall g :: Contains(merged, g) <==> Contains(rs, g) || r.Has(g)
  {
    var n := |rs| - 1;
    var last := rs[n];
    var wide := GroupRange(last.start, Max(last.end, r.end));
    var init := rs[..n];
    assert rs == init + [last];
    assert rs[n := wide] == init + [wide];
    forall g
      ensures Contains(rs[n := wide], g) <==> Contains(rs, g) || r.Has(g)
    {
      ContainsAppend(init, last, g);
      ContainsAppend(init, wide, g);
    }
  }

  // ----- the representation is unique -----

  lemma {:induction false} CanonicalTail(rs: seq<GroupRange>)
    requires rs != [] && Canonical(rs)
    ensures Canonical(rs[1..])
    ensures forall g :: Contains(rs, g) <==> rs[0].Has(g) || Contains(rs[1..], g)
    ensures forall g :: Contains(rs[1..], g) ==> rs[0].end < g
  {
    forall g
      ensures Contains(rs, g) <==> rs[0].Has(g) || Contains(rs[1..], g)
    {
      assert [rs[0]] + rs[1..] == rs;
      ContainsConcat([rs[0]], rs[1..], g);
      ContainsAppend([], rs[0], g);
    }
  }

  /** Canonical lists that cover the same groups are the same list. */
  lemma {:induction false} CanonicalUnique(a: seq<GroupRange>, b: seq<GroupRange>)
    requires Canonical(a) && Canonical(b)
    requires forall g :: Contains(a, g) <==> Contains(b, g)
    ensures a == b
  {
    if a == [] || b == [] {
      if a != [] {
        assert a[0].Has(a[0].start) && Contains(a, a[0].start);
      }
      if b != [] {
        assert b[0].Has(b[0].start) && Contains(b, b[0].start);
      }
    } else {
      CanonicalTail(a);
      CanonicalTail(b);
      FirstRangeUnique(a, b);
      forall g
        ensures Contains(a[1..], g) <==> Contains(b[1..], g)
      {
        assert Contains(a, g) <==> Contains(b, g);
      }
      CanonicalUnique(a[1..], b[1..]);
      assert a == [a[0]] + a[1..] && b == [b[0]] + b[1..];
    }
  }

  lemma {:induction false} FirstRangeUnique(a: seq<GroupRange>, b: seq<GroupRange>)
    requires a != [] && b != [] && Canonical(a) && Canonical(b)
    requires forall g :: Contains(a, g) <==> Contains(b, g)
    ensures a[0] == b[0]
  {
    CanonicalTail(a);
    CanonicalTail(b);
    assert a[0].Has(a[0].start) && b[0].Has(b[0].start);
    assert Contains(a, b[0].start) && Contains(b, a[0].start);
    assert a[0].start == b[0].start;
    assert !Contains(a, a[0].end) && !Contains(b, b[0].end);
    HasContains(b, 0, a[0].end);
    HasContains(a, 0, b[0].end);
  }

  // ----- counting -----

  /** The set of groups a list denotes. */
  ghost function Groups(rs: seq<GroupRange>): set<int> {
    set g | 0 <= g <= U64_MAX && Contains(rs, g)
  }

  /** The groups of one run, with how many there are. */
  ghost function Interval(lo: int, hi: int): (s: set<int>)
    requires lo <= hi
    ensures forall g :: g in s <==> lo <= g < hi
    ensures |s| == hi - lo
    decreases hi - lo
  {
    if lo == hi then {} else Interval(lo, hi - 1) + {hi - 1}
  }

  /** The exact sum of the lengths. */
  function Total(rs: seq<GroupRange>): nat {
    if rs == [] then 0 else rs[0].Len() + Total(rs[1..])
  }

  function SaturatingAdd(a: u64, b: u64): u64 {
    if a + b > U64_MAX then U64_MAX else a + b
  }

  /** The fold the source runs, accumulator first. */
  function CountFrom(acc: u64, rs: seq<GroupRange>): u64
    decreases rs
  {
    if rs == [] then acc else CountFrom(SaturatingAdd(acc, rs[0].Len()), rs[1..])
  }

  /** Total number of groups covered, saturating. */
  function Count(rs: seq<GroupRange>): u64 {
    CountFrom(0, rs)
  }

  lemma {:induction false} CountFromTotal(acc: u64, rs: seq<GroupRange>)
    ensures CountFrom(acc, rs) == Min(acc + Total(rs), U64_MAX)
    decreases rs
  {
    if rs != [] {
      CountFromTotal(SaturatingAdd(acc, rs[0].Len()), rs[1..]);
    }
  }

  lemma {:induction false} TotalIsCardinality(rs: seq<GroupRange>)
    requires Canonical(rs)
    ensures Total(rs) == |Groups(rs)|
  {
    if rs == [] {
      assert Groups(rs) == {};
    } else {
      CanonicalTail(rs);
      TotalIsCardinality(rs[1..]);
      assert Groups(rs) == Interval(rs[0].start, rs[0].end) + Groups(rs[1..]);
      assert Interval(rs[0].start, rs[0].end) !! Groups(rs[1..]);
    }
  }

  lemma {:induction false} SubsetSize(a: set<int>, b: set<int>)
    requires a <= b
    ensures |a| <= |b|
  {
    assert b == a + (b - a);
  }

  lemma {:induction false} TotalWithin(rs: seq<GroupRange>, bound: nat)
    requires Canonical(rs)
    requires forall r :: r in rs ==> r.end <= bound
    ensures Total(rs) <= bound
  {
    TotalIsCardinality(rs);
    forall g | g in Groups(rs)
      ensures g in Interval(0, bound)
    {
      var i :| 0 <= i < |rs| && rs[i].Has(g);
      assert rs[i] in rs;
    }
    SubsetSize(Groups(rs), Interval(0, bound));
  }

  /** On a canonical set the count is the cardinality: the fold never saturates. */
  lemma {:induction false} CountIsCardinality(rs: seq<GroupRange>)
    requires Canonical(rs)
    ensures Count(rs) == |Groups(rs)| == Total(rs)
  {
    CountFromTotal(0, rs);
    TotalIsCardinality(rs);
    TotalWithin(rs, U64_MAX);
  }

  /** A range set counted twice over: `[0, u64::MAX)` beside itself saturates, as no canonical set does. */
  lemma {:induction false} CountSaturatesUnnormalized()
    ensures var all := GroupRange(0, U64_MAX);
            Count([all, all]) == U64_MAX < Total([all, all])
  {
    var all := GroupRange(0, U64_MAX);
    CountFromTotal(0, [all, all]);
    assert [all, all][1..] == [all];
  }

  // ----- binary-search queries -----

  /** The index of the first range that ends past `start`, by halving. */
  method PartitionPoint(rs: seq<GroupRange>, start: u64) returns (index: nat)
    requires Canonical(rs)
    ensures index <= |rs|
    ensures forall i :: 0 <= i < index ==> rs[i].end <= start
    ensures forall i :: index <= i < |rs| ==> start < rs[i].end
  {
    var lo, hi := 0, |rs|;
    while lo < hi
      invariant 0 <= lo <= hi <= |rs|
      invariant forall i :: 0 <= i < lo ==> rs[i].end <= start
      invariant forall i :: hi <= i < |rs| ==> start < rs[i].end
    {
      var mid := (lo + hi) / 2;
      if rs[mid].end <= start {
        lo := mid + 1;
      } else {
        hi := mid;
      }
    }
    index := lo;
  }

  /** True if any part of `[start, end)` is covered. */
  method Overlaps(rs: seq<GroupRange>, start: u64, end: u64) returns (b: bool)
    requires Canonical(rs)
    ensures b <==> exists g :: start <= g < end && Contains(rs, g)
  {
    if start >= end {
      return false;
    }
    var index := PartitionPoint(rs, start);
    b := index < |rs| && rs[index].start < end;
    if b {
      var g := Max(start, rs[index].start);
      HasContains(rs, index, g);
      assert start <= g < end && Contains(rs, g);
    }
  }

  /** True if the whole of `[start, end)` is covered. */
  method Covers(rs: seq<GroupRange>, start: u64, end: u64) returns (b: bool)
    requires Canonical(rs)
    ensures b <==> forall g :: start <= g < end ==> Contains(rs, g)
  {
    if start >= end {
      return true;
    }
    var index := PartitionPoint(rs, start);
    b := index < |rs| && rs[index].start <= start && end <= rs[index].end;
    if b {
      forall g | start <= g < end
        ensures Contains(rs, g)
      {
        HasContains(rs, index, g);
      }
    } else {
      assert !Contains(rs, start) || !Contains(rs, rs[index].end);
    }
  }

  // ----- the linear merges -----

  /** Coverage by the ranges from index `from` on. */
  ghost predicate ContainsFrom(rs: seq<GroupRange>, from: nat, g: int) {
    exists i :: from <= i < |rs| && rs[i].Has(g)
  }

  /**
   The intersection of two sets, by one merge over both lists. Every emitted group is in both
   inputs whatever order they arrive in; on canonical inputs no common group is missed.
   */
  method Intersect(a: seq<GroupRange>, b: seq<GroupRange>) returns (r: seq<GroupRange>, ghost steps: nat)
    ensures Canonical(r)
    ensures forall g :: Contains(r, g) ==> Contains(a, g) && Contains(b, g)
    ensures Canonical(a) && Canonical(b) ==> forall g :: Contains(a, g) && Contains(b, g) ==> Contains(r, g)
    ensures steps <= |a| + |b|
  {
    var out: seq<GroupRange> := [];
    var i, j := 0, 0;
    steps := 0;
    while i < |a| && j < |b|
      invariant 0 <= i <= |a| && 0 <= j <= |b| && steps == i + j
      invariant forall g :: Contains(out, g) ==> Contains(a, g) && Contains(b, g)
      invariant Canonical(a) && Canonical(b) ==>
                  forall g :: Contains(a, g) && Contains(b, g) ==>
                                Contains(out, g) || (ContainsFrom(a, i, g) && ContainsFrom(b, j, g))
    {
      ghost var before := out;
      var start := Max(a[i].start, b[j].start);
      var end := Min(a[i].end, b[j].end);
      if start < end {
        out := out + [GroupRange(start, end)];
      }
      forall g
        ensures Contains(out, g) <==> Contains(before, g) || (a[i].Has(g) && b[j].Has(g))
      {
        if start < end {
          ContainsAppend(before, GroupRange(start, end), g);
        }
      }
      if a[i].end <= b[j].end {
        i := i + 1;
      } else {
        j := j + 1;
      }
      steps := steps + 1;
    }
    r := FromRanges(out);
  }

  /** The union of two sets. */
  method Union(a: seq<GroupRange>, b: seq<GroupRange>) returns (r: seq<GroupRange>)
    ensures Canonical(r)
    ensures forall g :: Contains(r, g) <==> Contains(a, g) || Contains(b, g)
  {
    r := FromRanges(a + b);
    forall g
      ensures Contains(a + b, g) <==> Contains(a, g) || Contains(b, g)
    {
      ContainsConcat(a, b, g);
    }
  }

  /** Coverage by the ranges before index `to`. */
  ghost predicate ContainsBefore(rs: seq<GroupRange>, to: nat, g: int)
    requires to <= |rs|
  {
    exists i :: 0 <= i < to && rs[i].Has(g)
  }

  /**
   Emits the parts of one range `a` that `b[j..]` leaves uncovered, walking `b` from `j`. Everything
   before `j` ends at or before `a.start`. `k` is where the walk stopped: what it passed ends inside `a`.
   */
  method SubtractOne(out: seq<GroupRange>, a: GroupRange, b: seq<GroupRange>, j: nat)
    returns (out': seq<GroupRange>, ghost k: nat, ghost steps: nat)
    requires Canonical(b) && j <= |b| && a.start < a.end
    requires forall m :: 0 <= m < j ==> b[m].end <= a.start
    requires j < |b| ==> a.start < b[j].end
    ensures forall g :: Contains(out', g) <==> Contains(out, g) || (a.Has(g) && !Contains(b, g))
    ensures j <= k <= |b| && steps <= k - j + 1
    ensures forall m :: 0 <= m < k ==> b[m].end <= a.end
  {
    out' := out;
    var cursor := a.start;
    var at := j;
    steps := 0;
    while at < |b| && b[at].start < a.end
      invariant j <= at <= |b| && steps == at - j
      invariant a.start <= cursor < a.end
      invariant forall m :: 0 <= m < at ==> b[m].end <= cursor
      invariant forall g :: Contains(out', g) <==> Contains(out, g) || (a.start <= g < cursor && !Contains(b, g))
    {
      ghost var before := out';
      ghost var from := cursor;
      if b[at].start > cursor {
        var gap := GroupRange(cursor, Min(b[at].start, a.end));
        out' := out' + [gap];
        forall g
          ensures Contains(out', g) <==> Contains(before, g) || gap.Has(g)
        {
          ContainsAppend(before, gap, g);
        }
      }
      cursor := Max(cursor, b[at].end);
      steps := steps + 1;
      forall g
        ensures from <= g < cursor ==> (Contains(b, g) <==> b[at].Has(g))
      {
        HasContains(b, at, g);
      }
      if cursor >= a.end {
        break;
      }
      at := at + 1;
    }
    k := at;
    if cursor < a.end {
      var rest := GroupRange(cursor, a.end);
      forall g
        ensures Contains(out' + [rest], g) <==> Contains(out', g) || rest.Has(g)
      {
        ContainsAppend(out', rest, g);
      }
      assert forall g :: rest.Has(g) ==> !Contains(b, g);
      out' := out' + [rest];
    }
  }

  /**
   The part of `a` not covered by `b`. The cursor `j` into `b` only moves forward, and no range that
   still matters is skipped; the work is linear in both lists.
   */
  method Difference(a: seq<GroupRange>, b: seq<GroupRange>) returns (r: seq<GroupRange>, ghost steps: nat)
    requires Canonical(a) && Canonical(b)
    ensures Canonical(r)
    ensures forall g :: Contains(r, g) <==> Contains(a, g) && !Contains(b, g)
    ensures steps <= 2 * |a| + 2 * |b|
  {
    var out: seq<GroupRange> := [];
    var j := 0;
    ghost var skipped: nat, walked: nat, k: nat := 0, 0, 0;
    for i := 0 to |a|
      invariant j <= |b| && k <= |b|
      invariant skipped == j && walked <= i + k
      invariant forall m, n :: 0 <= m < j && i <= n < |a| ==> b[m].end <= a[n].start
      invariant forall m, n :: 0 <= m < k && i <= n < |a| ==> b[m].end <= a[n].start
      invariant forall g :: Contains(out, g) <==> ContainsBefore(a, i, g) && !Contains(b, g)
    {
      while j < |b| && b[j].end <= a[i].start
        invariant 0 <= j <= |b| && skipped == j
        invariant forall m :: 0 <= m < j ==> b[m].end <= a[i].start
      {
        j := j + 1;
        skipped := skipped + 1;
      }
      assert k <= j;
      ghost var before := out;
      ghost var more;
      out, k, more := SubtractOne(out, a[i], b, j);
      walked := walked + more;
      assert forall g :: ContainsBefore(a, i + 1, g) <==> ContainsBefore(a, i, g) || a[i].Has(g);
    }
    steps := skipped + walked;
    r := FromRanges(out);
  }

  // ----- windows -----

  /** What is left once a window's groups are removed is counted by subtraction. */
  lemma {:induction false} TotalOfDifference(a: seq<GroupRange>, w: seq<GroupRange>, rest: seq<GroupRange>)
    requires Canonical(a) && Canonical(w) && Canonical(rest)
    requires forall g :: Contains(w, g) ==> Contains(a, g)
    requires forall g :: Contains(rest, g) <==> Contains(a, g) && !Contains(w, g)
    ensures Total(rest) == Total(a) - Total(w)
  {
    TotalIsCardinality(a);
    TotalIsCardinality(w);
    TotalIsCardinality(rest);
    assert Groups(rest) == Groups(a) - Groups(w);
    assert Groups(w) <= Groups(a);
    assert Groups(a) == Groups(rest) + Groups(w);
  }

  lemma {:induction false} TotalConcat(a: seq<GroupRange>, b: seq<GroupRange>)
    ensures Total(a + b) == Total(a) + Total(b)
  {
    if a == [] {
      assert a + b == b;
    } else {
      assert (a + b)[1..] == a[1..] + b;
      TotalConcat(a[1..], b);
    }
  }

  /** `w` holds the first groups of `a`, in order: everything in `a` outside `w` comes after it. */
  ghost predicate IsLeading(w: seq<GroupRange>, a: seq<GroupRange>) {
    && (forall g :: Contains(w, g) ==> Contains(a, g))
    && (forall g, h :: Contains(w, g) && Contains(a, h) && !Contains(w, h) ==> g < h)
  }

  /** The first `k` ranges whole and `c` groups of the next. */
  function Lead(rs: seq<GroupRange>, k: nat, c: nat): (w: seq<GroupRange>)
    requires k <= |rs| && (c > 0 ==> k < |rs| && c <= rs[k].end - rs[k].start)
  {
    rs[..k] + if c == 0 then [] else [GroupRange(rs[k].start, rs[k].start + c)]
  }

  lemma {:induction false} LeadCanonical(rs: seq<GroupRange>, k: nat, c: nat)
    requires Canonical(rs) && k <= |rs| && (c > 0 ==> k < |rs| && c <= rs[k].end - rs[k].start)
    ensures Canonical(Lead(rs, k, c))
  {
  }

  lemma {:induction false} LeadTotal(rs: seq<GroupRange>, k: nat, c: nat)
    requires k <= |rs| && (c > 0 ==> k < |rs| && c <= rs[k].end - rs[k].start)
    ensures Total(Lead(rs, k, c)) == Total(rs[..k]) + c
  {
    if c == 0 {
      assert Lead(rs, k, c) == rs[..k];
    } else {
      TotalConcat(rs[..k], [GroupRange(rs[k].start, rs[k].start + c)]);
    }
  }

  lemma {:induction false} LeadLeads(rs: seq<GroupRange>, k: nat, c: nat)
    requires Canonical(rs) && k <= |rs| && (c > 0 ==> k < |rs| && c < rs[k].end - rs[k].start)
    ensures IsLeading(Lead(rs, k, c), rs)
  {
    if c == 0 {
      assert Lead(rs, k, c) == rs[..k];
      LeadingPrefix(rs, k);
    } else {
      LeadingCut(rs, k, GroupRange(rs[k].start, rs[k].start + c));
    }
  }

  /** Walks the ranges until the budget is spent, cutting the one it ends in. */
  method TakeLead(rs: seq<GroupRange>, groups: u64) returns (out: seq<GroupRange>, ghost k: nat, ghost c: nat)
    requires Canonical(rs)
    ensures k <= |rs| && (c > 0 ==> k < |rs| && c < rs[k].end - rs[k].start)
    ensures out == Lead(rs, k, c)
    ensures Total(rs[..k]) + c <= groups && (k < |rs| ==> Total(rs[..k]) + c == groups)
  {
    out := [];
    var budget: u64 := groups;
    for i := 0 to |rs|
      invariant out == rs[..i] && Total(rs[..i]) <= groups && budget == groups - Total(rs[..i])
    {
      if budget == 0 {
        k, c := i, 0;
        return;
      }
      if rs[i].Len() <= budget {
        TotalConcat(rs[..i], [rs[i]]);
        assert rs[..i + 1] == rs[..i] + [rs[i]];
        out := out + [rs[i]];
        budget := budget - rs[i].Len();
      } else {
        out := out + [GroupRange.New(rs[i].start, rs[i].start + budget)];
        k, c := i, budget;
        return;
      }
    }
    k, c := |rs|, 0;
  }

  /** The first `groups` groups of the set, in order. */
  method Take(rs: seq<GroupRange>, groups: u64) returns (out: seq<GroupRange>)
    requires Canonical(rs)
    ensures Canonical(out)
    ensures IsLeading(out, rs)
    ensures Total(out) == Min(groups, Total(rs))
  {
    ghost var k, c;
    out, k, c := TakeLead(rs, groups);
    LeadCanonical(rs, k, c);
    LeadLeads(rs, k, c);
    LeadTotal(rs, k, c);
    LeadWithin(rs, k, c);
  }

  lemma {:induction false} LeadWithin(rs: seq<GroupRange>, k: nat, c: nat)
    requires Canonical(rs) && k <= |rs| && (c > 0 ==> k < |rs| && c <= rs[k].end - rs[k].start)
    ensures Total(rs[..k]) + c <= Total(rs)
    ensures k == |rs| ==> Total(rs[..k]) == Total(rs)
  {
    TotalConcat(rs[..k], rs[k..]);
    assert rs == rs[..k] + rs[k..];
  }

  lemma {:induction false} LeadingPrefix(rs: seq<GroupRange>, i: nat)
    requires Canonical(rs) && i <= |rs|
    ensures IsLeading(rs[..i], rs)
  {
    var w := rs[..i];
    forall g
      ensures Contains(rs, g) <==> Contains(w, g) || Contains(rs[i..], g)
    {
      assert rs == w + rs[i..];
      ContainsConcat(w, rs[i..], g);
    }
  }

  lemma {:induction false} LeadingCut(rs: seq<GroupRange>, i: nat, cut: GroupRange)
    requires Canonical(rs) && i < |rs|
    requires cut.start == rs[i].start && cut.start < cut.end < rs[i].end
    ensures Canonical(rs[..i] + [cut]) && IsLeading(rs[..i] + [cut], rs)
  {
    var w := rs[..i] + [cut];
    forall g
      ensures Contains(w, g) <==> Contains(rs[..i], g) || cut.Has(g)
    {
      ContainsAppend(rs[..i], cut, g);
    }
    forall g
      ensures Contains(rs, g) <==> Contains(rs[..i], g) || Contains(rs[i..], g)
    {
      assert rs == rs[..i] + rs[i..];
      ContainsConcat(rs[..i], rs[i..], g);
    }
    forall g
      ensures Contains(rs[i..], g) <==> rs[i].Has(g) || Contains(rs[i + 1..], g)
    {
      assert rs[i..] == [rs[i]] + rs[i + 1..];
      ContainsConcat([rs[i]], rs[i + 1..], g);
      ContainsAppend([], rs[i], g);
    }
  }
}
