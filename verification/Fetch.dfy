/**
 The windowed fetch over a range set (`crates/synch-net/src/blob.rs`): one window of the request per
 exchange, each retired whether or not the provider served it.
 */
module Fetch {
  import opened Words
  import opened Ranges

  const MAX_SLICE_GROUPS: u64 := 512
  const MAX_BARREN_WINDOWS: nat := 4

  type Window = seq<GroupRange>

  /** A provider's answer to the `n`-th exchange, for the window asked. */
  type Provider = (nat, Window) -> Window

  predicate IsEmptySet(rs: seq<GroupRange>) {
    forall i :: 0 <= i < |rs| ==> rs[i].IsEmpty()
  }

  datatype WalkStep = Commit | NextWindow | GiveUp

  class WindowedWalk {
    var remaining: seq<GroupRange>
    var barren: nat

    constructor (ranges: seq<GroupRange>)
      ensures Canonical(remaining) && barren == 0
      ensures forall g :: Contains(remaining, g) <==> Contains(ranges, g)
    {
      var all := FromRanges(ranges);
      remaining, barren := all, 0;
    }

    /** Retires the window either way, and says whether the answers have been empty too often. */
    method Retire(window: Window, served: Window) returns (step: WalkStep)
      requires Canonical(remaining) && Canonical(window)
      modifies this
      ensures Canonical(remaining)
      ensures forall g :: Contains(remaining, g) <==> old(Contains(remaining, g)) && !Contains(window, g)
      ensures barren == if IsEmptySet(served) then old(barren) + 1 else 0
      ensures step == if !IsEmptySet(served) then Commit
                      else if barren >= MAX_BARREN_WINDOWS then GiveUp else NextWindow
    {
      ghost var steps;
      var rest;
      rest, steps := Difference(remaining, window);
      remaining := rest;
      if !IsEmptySet(served) {
        barren := 0;
        return Commit;
      }
      barren := barren + 1;
      step := if barren >= MAX_BARREN_WINDOWS then GiveUp else NextWindow;
    }
  }

  /** How many of the last exchanges in a row came back empty. */
  ghost function Barren(provider: Provider, ws: seq<Window>): nat {
    if ws == [] || !IsEmptySet(provider(|ws| - 1, ws[|ws| - 1])) then 0
    else 1 + Barren(provider, ws[..|ws| - 1])
  }

  ghost predicate CoveredBy(ws: seq<Window>, g: int) {
    exists k :: 0 <= k < |ws| && Contains(ws[k], g)
  }

  /** Windows in request order, each a whole exchange's worth but for the last. */
  ghost predicate InOrder(ws: seq<Window>) {
    && (forall k :: 0 <= k < |ws| ==> Canonical(ws[k]) && 0 < Total(ws[k]) <= MAX_SLICE_GROUPS)
    && (forall k :: 0 <= k < |ws| - 1 ==> Total(ws[k]) == MAX_SLICE_GROUPS)
    && (forall k, l, g, h :: 0 <= k < l < |ws| && Contains(ws[k], g) && Contains(ws[l], h) ==> g < h)
  }

  lemma {:induction false} CoveredAppend(ws: seq<Window>, w: Window, g: int)
    ensures CoveredBy(ws + [w], g) <==> CoveredBy(ws, g) || Contains(w, g)
  {
    var all := ws + [w];
    if CoveredBy(ws, g) {
      var k :| 0 <= k < |ws| && Contains(ws[k], g);
      assert Contains(all[k], g);
    }
    if Contains(w, g) {
      assert Contains(all[|ws|], g);
    }
  }

  lemma {:induction false} InOrderAppend(ws: seq<Window>, w: Window)
    requires InOrder(ws) && Canonical(w) && 0 < Total(w) <= MAX_SLICE_GROUPS
    requires ws != [] ==> Total(ws[|ws| - 1]) == MAX_SLICE_GROUPS
    requires forall g, h :: CoveredBy(ws, g) && Contains(w, h) ==> g < h
    ensures InOrder(ws + [w])
  {
    var all := ws + [w];
    forall k, l, g, h | 0 <= k < l < |all| && Contains(all[k], g) && Contains(all[l], h)
      ensures g < h
    {
      if l == |ws| {
        assert Contains(ws[k], g);
        assert CoveredBy(ws, g);
      }
    }
  }

  lemma {:induction false} TotalPositive(rs: seq<GroupRange>)
    requires Canonical(rs)
    ensures rs == [] <==> Total(rs) == 0
  {
  }

  /**
   The exchanges of one fetch. However little the provider serves, there is one exchange per window
   and at most `ceil(groups / 512)` of them, the windows partition the request in order, and the fetch
   stops early exactly when four answers in a row were empty.
   */
  method FetchInto(ranges: seq<GroupRange>, provider: Provider) returns (windows: seq<Window>, gaveUp: bool)
    ensures InOrder(windows)
    ensures forall g :: CoveredBy(windows, g) ==> Contains(ranges, g)
    ensures |windows| <= DivCeil(|Groups(ranges)|, MAX_SLICE_GROUPS)
    ensures !gaveUp ==> |windows| == DivCeil(|Groups(ranges)|, MAX_SLICE_GROUPS)
    ensures !gaveUp ==> forall g :: Contains(ranges, g) ==> CoveredBy(windows, g)
    ensures gaveUp <==> Barren(provider, windows) == MAX_BARREN_WINDOWS
    ensures Patient(provider, windows)
  {
    var walk := new WindowedWalk(ranges);
    ghost var all := walk.remaining;
    TotalIsCardinality(all);
    TotalPositive(all);
    assert Groups(all) == Groups(ranges);
    windows, gaveUp := [], false;
    while walk.remaining != []
      invariant Canonical(walk.remaining) && !gaveUp
      invariant walk.barren == Barren(provider, windows)
      invariant Patient(provider, windows) && Barren(provider, windows) < MAX_BARREN_WINDOWS
      invariant InOrder(windows) && Remains(all, windows, walk.remaining)
      decreases Total(walk.remaining)
    {
      ghost var rem := walk.remaining;
      var window, step := Exchange(walk, provider, |windows|);
      RemainsStep(all, windows, rem, window, walk.remaining);
      BarrenStep(provider, windows, window);
      windows := windows + [window];
      if step == GiveUp {
        gaveUp := true;
        return;
      }
    }
  }

  /** `w` is the next window of `rem`, and `rest` is `rem` without it. */
  ghost predicate Cut(rem: seq<GroupRange>, w: Window, rest: seq<GroupRange>) {
    && Canonical(rem) && Canonical(w) && Canonical(rest) && rem != []
    && IsLeading(w, rem) && 0 < Total(w) == Min(MAX_SLICE_GROUPS, Total(rem))
    && Total(rest) == Total(rem) - Total(w) && (rest == [] <==> Total(rest) == 0)
    && (forall g :: Contains(rest, g) <==> Contains(rem, g) && !Contains(w, g))
  }

  /** One round trip: the next window asked for, answered and retired. */
  method Exchange(walk: WindowedWalk, provider: Provider, n: nat) returns (window: Window, step: WalkStep)
    requires Canonical(walk.remaining) && walk.remaining != []
    modifies walk
    ensures Cut(old(walk.remaining), window, walk.remaining)
    ensures walk.barren == if IsEmptySet(provider(n, window)) then old(walk.barren) + 1 else 0
    ensures step == GiveUp <==> walk.barren >= MAX_BARREN_WINDOWS && IsEmptySet(provider(n, window))
  {
    ghost var rem := walk.remaining;
    TotalPositive(rem);
    window := Take(walk.remaining, MAX_SLICE_GROUPS);
    step := walk.Retire(window, provider(n, window));
    TotalOfDifference(rem, window, walk.remaining);
    TotalPositive(walk.remaining);
  }

  /** No earlier point of the fetch had seen too many empty answers in a row. */
  ghost predicate Patient(provider: Provider, ws: seq<Window>) {
    forall k :: 0 <= k < |ws| ==> Barren(provider, ws[..k]) < MAX_BARREN_WINDOWS
  }

  lemma {:induction false} BarrenStep(provider: Provider, ws: seq<Window>, w: Window)
    requires Patient(provider, ws) && Barren(provider, ws) < MAX_BARREN_WINDOWS
    ensures Patient(provider, ws + [w])
    ensures Barren(provider, ws + [w]) == if IsEmptySet(provider(|ws|, w)) then Barren(provider, ws) + 1 else 0
  {
    var all := ws + [w];
    assert all[..|ws|] == ws;
    assert forall k :: 0 <= k < |ws| ==> all[..k] == ws[..k];
  }

  /** What the loop has taken and what is left: a split of the request, the taken part first and in full windows. */
  ghost predicate Remains(all: seq<GroupRange>, ws: seq<Window>, rem: seq<GroupRange>) {
    && (forall g :: Contains(all, g) <==> CoveredBy(ws, g) || Contains(rem, g))
    && (forall g, h :: CoveredBy(ws, g) && Contains(rem, h) ==> g < h)
    && (rem != [] ==> Total(all) == Total(rem) + MAX_SLICE_GROUPS * |ws|)
    && (rem != [] && ws != [] ==> Total(ws[|ws| - 1]) == MAX_SLICE_GROUPS)
    && |ws| <= DivCeil(Total(all), MAX_SLICE_GROUPS)
    && (rem == [] ==> |ws| == DivCeil(Total(all), MAX_SLICE_GROUPS))
  }

  lemma {:induction false} RemainsStep(all: seq<GroupRange>, ws: seq<Window>, rem: seq<GroupRange>, w: Window,
                                       rest: seq<GroupRange>)
    requires InOrder(ws) && Remains(all, ws, rem) && Cut(rem, w, rest)
    ensures InOrder(ws + [w]) && Remains(all, ws + [w], rest)
  {
    InOrderAppend(ws, w);
    forall g
      ensures CoveredBy(ws + [w], g) <==> CoveredBy(ws, g) || Contains(w, g)
    {
      CoveredAppend(ws, w, g);
    }
  }
}
