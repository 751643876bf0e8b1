/**
 The proof exchange: the budgeted pre-order walk both sides run (`crates/synch-store/src/proof.rs`) and the
 window a requester cuts so that the walk over it is never truncated (`crates/synch-net/src/blob.rs`).
 */
module ProofWalk {
  import opened Words
  import opened Ranges
  import opened ProofTree
  import opened ProofBound

  const MAX_PROOF_NODES: u64 := 8192
  const MAX_RANGES: nat := 4096

  /** One node of the tree: `span` is its untruncated width, `groups` how much of it the object reaches. */
  datatype Subtree = Subtree(start: nat, groups: nat, span: nat) {
    ghost predicate Shaped() {
      groups >= 1 && IsPow2(span) && groups <= span < 2 * groups
    }
  }

  lemma {:induction false} Pow2Half(p: nat)
    requires IsPow2(p) && p > 1
    ensures p % 2 == 0 && IsPow2(p / 2)
  {
    var k: nat :| Widen(1, k) == p;
    assert Widen(1, k - 1) == p / 2;
  }

  /** The two halves of a subtree, the right one collapsed to the node that exists. */
  method Children(node: Subtree) returns (left: Subtree, right: Subtree)
    requires node.Shaped() && node.groups > 1
    ensures left.Shaped() && right.Shaped()
    ensures left.start == node.start && left.groups == Split(node.groups)
    ensures right.start == node.start + left.groups && right.groups == node.groups - left.groups
  {
    Pow2Half(node.span);
    var half := node.span / 2;
    SplitUnique(node.groups, half);
    left := Subtree(node.start, half, half);
    var span := half;
    var groups := node.groups - half;
    while groups <= span / 2
      invariant 1 <= groups <= span && IsPow2(span)
      decreases span
    {
      Pow2Half(span);
      span := span / 2;
    }
    if span > 1 {
      Pow2Half(span);
    }
    right := Subtree(node.start + half, groups, span);
  }

  /** The stop test on the untruncated width is the test on the groups covered. */
  lemma {:induction false} StopTest(node: Subtree, u: nat)
    requires node.Shaped() && IsPow2(u)
    ensures node.groups == 1 || node.span <= u <==> node.groups <= u
  {
    Pow2Positive(u);
    if u < node.span {
      Pow2Gap(u, node.span);
    }
  }

  class Walk {
    const ranges: seq<GroupRange>
    const u: nat
    const budget: nat
    var nodes: seq<Interior>
    var truncatedAt: int  // the first group the budget did not reach, or -1

    constructor (ranges: seq<GroupRange>, level: u8, budget: nat)
      ensures this.ranges == ranges && this.u == StopWidth(level) && this.budget == budget
      ensures nodes == [] && truncatedAt == -1
    {
      this.ranges, this.u, this.budget := ranges, StopWidth(level), budget;
      nodes, truncatedAt := [], -1;
    }

    ghost predicate Valid()
      reads this
    {
      && Canonical(ranges) && u >= 1 && IsPow2(u) && |nodes| <= budget
      && truncatedAt >= -1 && (truncatedAt >= 0 ==> |nodes| == budget)
    }

    /**
     Walks one node. What has been emitted is always the part of the whole proof the budget allows; the walk
     stops dead exactly when there is more of it, at the first node left out.
     */
    method Descend(node: Subtree, ghost t: Tree)
      requires Valid() && node.Shaped() && node.start + node.groups <= U64_MAX
      requires t == Shape(u, node.start, node.groups)
      modifies this
      ensures Valid()
      ensures nodes == Clip(old(nodes) + Emitted(ranges, t), budget)
      ensures old(truncatedAt) >= 0 ==> truncatedAt == old(truncatedAt)
      ensures old(truncatedAt) < 0 ==> truncatedAt == CutAt(old(nodes) + Emitted(ranges, t), budget)
      decreases node.groups, 1
    {
      if truncatedAt >= 0 {
        return;
      }
      var hit := Overlaps(ranges, node.start, node.start + node.groups);
      if !hit {
        return;
      }
      StopTest(node, u);
      if node.groups == 1 || node.span <= u {
        return;
      }
      ShapeForks(u, node.start, node.groups);
      assert Emitted(ranges, t)
             == [Interior(node.start, node.groups)] + Emitted(ranges, t.left) + Emitted(ranges, t.right);
      if |nodes| >= budget {
        truncatedAt := node.start;
        return;
      }
      Expand(node, t);
    }

    /** Emits an interior node and walks both its halves. */
    method Expand(node: Subtree, ghost t: Tree)
      requires Valid() && truncatedAt < 0 && |nodes| < budget
      requires node.Shaped() && node.start + node.groups <= U64_MAX && node.groups > u
      requires t == Shape(u, node.start, node.groups) && t.Fork?
      modifies this
      ensures Valid()
      ensures var here := [Interior(node.start, node.groups)];
              var all := old(nodes) + (here + Emitted(ranges, t.left) + Emitted(ranges, t.right));
              nodes == Clip(all, budget) && truncatedAt == CutAt(all, budget)
      decreases node.groups, 0
    {
      ghost var before, here := nodes, Interior(node.start, node.groups);
      ghost var l, r := Emitted(ranges, t.left), Emitted(ranges, t.right);
      nodes := nodes + [Interior(node.start, node.groups)];
      var left, right := Children(node);
      assert t.left == Shape(u, left.start, left.groups) && t.right == Shape(u, right.start, right.groups);
      Descend(left, t.left);
      ghost var afterLeft := nodes;
      assert truncatedAt == CutAt(before + [here] + l, budget);
      Descend(right, t.right);
      ClipStep(before, here, l, r, budget, afterLeft, nodes);
    }
  }

  /** The first `budget` elements. */
  function Clip<T>(s: seq<T>, budget: nat): seq<T> {
    s[..Min(budget, |s|)]
  }

  /** Where the first node the budget leaves out starts, or -1. */
  function CutAt(all: seq<Interior>, budget: nat): int {
    if |all| > budget then all[budget].start else -1
  }

  /** Emitting the two halves one after the other clips as the whole does. */
  lemma {:induction false} ClipStep(
    before: seq<Interior>, here: Interior, l: seq<Interior>, r: seq<Interior>, budget: nat,
    left: seq<Interior>, right: seq<Interior>)
    requires left == Clip(before + [here] + l, budget) && right == Clip(left + r, budget)
    ensures right == Clip(before + ([here] + l + r), budget)
    ensures CutAt(before + ([here] + l + r), budget)
         == if |before + [here] + l| > budget then CutAt(before + [here] + l, budget) else CutAt(left + r, budget)
  {
    assert before + [here] + l + r == before + ([here] + l + r);
  }

  function NextPow2(n: nat): (p: nat)
    requires n >= 1
    ensures IsPow2(p) && n <= p < 2 * n
  {
    assert Widen(1, 0) == 1;
    if n == 1 then 1 else Pow2Double(Split(n)); 2 * Split(n)
  }

  /** One proof over an object of `n` groups, and where it was cut. */
  method WalkProof(ranges: seq<GroupRange>, level: u8, n: u64, budget: nat)
    returns (nodes: seq<Interior>, truncatedAt: int)
    requires Canonical(ranges) && n >= 1
    ensures var all := Emitted(ranges, Shape(StopWidth(level), 0, n));
            nodes == Clip(all, budget) && truncatedAt == CutAt(all, budget)
  {
    var walk := new Walk(ranges, level, budget);
    walk.Descend(Subtree(0, n, NextPow2(n)), Shape(StopWidth(level), 0, n));
    nodes, truncatedAt := walk.nodes, walk.truncatedAt;
    assert [] + Emitted(ranges, Shape(StopWidth(level), 0, n)) == Emitted(ranges, Shape(StopWidth(level), 0, n));
  }

  // ----- cutting the request -----

  /** Normalizing a list that is canonical already changes nothing. */
  method Renormalize(w: seq<GroupRange>) returns (r: seq<GroupRange>)
    requires Canonical(w)
    ensures r == w
  {
    r := FromRanges(w);
    CanonicalUnique(r, w);
  }

  /** The bound on a leading part, written out. */
  lemma {:induction false} LeadBound(rs: seq<GroupRange>, k: nat, c: nat, level: u8)
    requires Canonical(rs) && k <= |rs| && (c > 0 ==> k < |rs| && c <= rs[k].end - rs[k].start) && k <= MAX_RANGES
    ensures UpperBound(Lead(rs, k, c), level)
         == Min(U64_MAX, DivCeil(Total(rs[..k]) + c, StopWidth(level)) + 64 * (k + if c == 0 then 0 else 1))
  {
    LeadCanonical(rs, k, c);
    LeadTotal(rs, k, c);
    CountIsCardinality(Lead(rs, k, c));
  }

  lemma {:induction false} LeadBoundAtLeast(rs: seq<GroupRange>, k: nat, c: nat, level: u8)
    requires Canonical(rs) && k <= |rs| && k <= MAX_RANGES && (c > 0 ==> k < |rs| && c <= rs[k].end - rs[k].start)
    ensures UpperBound(Lead(rs, k, c), level) >= 64 * k
  {
    LeadBound(rs, k, c, level);
  }

  type Test = seq<GroupRange> -> bool

  /** How many groups of range `i` pass the test after the ranges before it, by halving. */
  method HeadThatFits(remaining: seq<GroupRange>, i: nat, fits: Test) returns (c: nat)
    requires Canonical(remaining) && i < |remaining|
    requires fits(Lead(remaining, i, 0)) && !fits(Lead(remaining, i + 1, 0))
    ensures c < remaining[i].end - remaining[i].start
    ensures fits(Lead(remaining, i, c)) && !fits(Lead(remaining, i, c + 1))
  {
    var range := remaining[i];
    var lo, hi := range.start, range.end;
    assert Lead(remaining, i, range.end - range.start) == Lead(remaining, i + 1, 0);
    while lo < hi
      invariant range.start <= lo <= hi <= range.end
      invariant fits(Lead(remaining, i, lo - range.start))
      invariant hi < range.end ==> !fits(Lead(remaining, i, hi - range.start + 1))
    {
      var mid := lo + (hi - lo + 1) / 2;
      LeadCanonical(remaining, i, mid - range.start);
      var probe := Renormalize(remaining[..i] + [GroupRange.New(range.start, mid)]);
      assert probe == Lead(remaining, i, mid - range.start);
      if fits(probe) {
        lo := mid;
      } else {
        hi := mid - 1;
      }
    }
    c := lo - range.start;
  }

  /**
   The largest leading part of `remaining` that passes the test: ranges whole while they fit, then the head
   of the next one. `k` and `c` say where it was cut.
   */
  method CutWindow(remaining: seq<GroupRange>, fits: Test) returns (window: seq<GroupRange>, ghost k: nat, ghost c: nat)
    requires Canonical(remaining) && fits(Lead(remaining, 0, 0))
    requires |remaining| > MAX_RANGES ==> !fits(Lead(remaining, MAX_RANGES, 0))
    ensures k <= |remaining| && (c > 0 ==> k < |remaining| && c < remaining[k].end - remaining[k].start)
    ensures window == Lead(remaining, k, c) && fits(window)
    ensures k < |remaining| ==> !fits(Lead(remaining, k, c + 1))
  {
    var taken: seq<GroupRange> := [];
    var i := 0;
    while i < |remaining| && i < MAX_RANGES
      invariant i <= |remaining| && i <= MAX_RANGES
      invariant taken == Lead(remaining, i, 0) && fits(taken)
    {
      var range := remaining[i];
      LeadCanonical(remaining, i + 1, 0);
      assert taken + [range] == Lead(remaining, i + 1, 0);
      var candidate := Renormalize(taken + [range]);
      if !fits(candidate) {
        break;
      }
      taken := taken + [range];
      i := i + 1;
    }
    k, c := i, 0;
    if i < |remaining| {
      var take := HeadThatFits(remaining, i, fits);
      c := take;
      if take > 0 {
        taken := taken + [GroupRange.New(remaining[i].start, remaining[i].start + take)];
      }
    }
    LeadCanonical(remaining, k, c);
    window := Renormalize(taken);
  }

  /** The part of `remaining` one proof exchange asks about: the largest whose bound is within the node budget. */
  method ProofWindow(remaining: seq<GroupRange>, level: u8)
    returns (window: seq<GroupRange>, ghost k: nat, ghost c: nat)
    requires Canonical(remaining)
    ensures k <= |remaining| && (c > 0 ==> k < |remaining| && c < remaining[k].end - remaining[k].start)
    ensures window == Lead(remaining, k, c) && Canonical(window) && IsLeading(window, remaining)
    ensures WithinBudget(window, level)
    ensures k < |remaining| ==> !WithinBudget(Lead(remaining, k, c + 1), level)
    ensures remaining != [] ==> window != []
  {
    LeadsWithinBudget(remaining, level);
    window, k, c := CutWindow(remaining, w => WithinBudget(w, level));
    LeadCanonical(remaining, k, c);
    LeadLeads(remaining, k, c);
  }

  predicate WithinBudget(window: seq<GroupRange>, level: u8) {
    |window| <= U64_MAX && UpperBound(window, level) <= MAX_PROOF_NODES
  }

  /** Nothing and a single group always fit; 4096 ranges never do. */
  lemma {:induction false} LeadsWithinBudget(rs: seq<GroupRange>, level: u8)
    requires Canonical(rs)
    ensures WithinBudget(Lead(rs, 0, 0), level)
    ensures rs != [] ==> WithinBudget(Lead(rs, 0, 1), level)
    ensures |rs| > MAX_RANGES ==> !WithinBudget(Lead(rs, MAX_RANGES, 0), level)
  {
    LeadBound(rs, 0, 0, level);
    if rs != [] {
      LeadBound(rs, 0, 1, level);
      DivCeilAtMost(1, StopWidth(level));
    }
    if |rs| > MAX_RANGES {
      LeadBoundAtLeast(rs, MAX_RANGES, 0, level);
    }
  }

  /**
   The promise the window is cut for: a provider that walks what it holds of the window, over any object the
   bound is right for, never runs out of budget.
   */
  lemma {:induction false} WindowNeverTruncates(window: seq<GroupRange>, held: seq<GroupRange>, level: u8, n: u64)
    requires n >= 1 && Fits(level, n) && Canonical(window) && WithinBudget(window, level)
    requires forall g :: Contains(held, g) ==> Contains(window, g)
    ensures |Emitted(held, Shape(StopWidth(level), 0, n))| <= MAX_PROOF_NODES
  {
    BoundHolds(window, level, n);
    SubsetEmitsLess(held, window, Shape(StopWidth(level), 0, n));
  }
}
