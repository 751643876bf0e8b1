/**
 The hash tree a proof walks (`crates/synch-store/src/proof.rs`), in chunk-group units: its shape, the
 interior nodes a walk emits for a range set, and how many one contiguous range can cost.
 */
module ProofTree {
  import opened Ranges

  // ----- powers of two -----

  /** `u` doubled `k` times. */
  function Widen(u: nat, k: nat): nat
    decreases k
  {
    if k == 0 then u else 2 * Widen(u, k - 1)
  }

  lemma {:induction false} WidenMonotone(u: nat, j: nat, k: nat)
    requires j <= k
    ensures Widen(u, j) <= Widen(u, k)
  {
    if j < k {
      WidenMonotone(u, j, k - 1);
    }
  }

  ghost predicate IsPow2(p: nat) {
    exists k: nat :: Widen(1, k) == p
  }

  lemma {:induction false} WidenPositive(k: nat)
    ensures Widen(1, k) >= 1
  {
    if k > 0 {
      WidenPositive(k - 1);
    }
  }

  lemma {:induction false} Pow2Positive(p: nat)
    requires IsPow2(p)
    ensures p >= 1
  {
    var k: nat :| Widen(1, k) == p;
    WidenPositive(k);
  }

  lemma {:induction false} Pow2Double(p: nat)
    requires IsPow2(p)
    ensures IsPow2(2 * p)
  {
    var k: nat :| Widen(1, k) == p;
    assert Widen(1, k + 1) == 2 * p;
  }

  lemma {:induction false} Pow2Gap(q: nat, p: nat)
    requires IsPow2(q) && IsPow2(p) && q < p
    ensures 2 * q <= p
  {
    var j: nat :| Widen(1, j) == q;
    var k: nat :| Widen(1, k) == p;
    if k <= j {
      WidenMonotone(1, k, j);
    } else {
      WidenMonotone(1, j + 1, k);
    }
  }

  /** Doubles `p` while twice it is still below `n`. */
  function Grow(p: nat, n: nat): (q: nat)
    requires IsPow2(p) && 1 <= p < n
    ensures IsPow2(q) && 1 <= q < n <= 2 * q
    decreases n - p
  {
    if n <= 2 * p then p else Pow2Double(p); Grow(2 * p, n)
  }

  /** Where a tree of `n` groups splits: the largest power of two below `n`. */
  function Split(n: nat): (p: nat)
    requires n >= 2
    ensures IsPow2(p) && 1 <= p < n <= 2 * p
  {
    assert Widen(1, 0) == 1;
    Grow(1, n)
  }

  lemma {:induction false} SplitUnique(n: nat, p: nat)
    requires n >= 2 && IsPow2(p) && p < n <= 2 * p
    ensures Split(n) == p
  {
    if Split(n) < p {
      Pow2Gap(Split(n), p);
    } else if p < Split(n) {
      Pow2Gap(p, Split(n));
    }
  }

  lemma {:induction false} SplitPow2(p: nat)
    requires IsPow2(p) && p >= 2
    ensures 2 * Split(p) == p
  {
    var k: nat :| Widen(1, k) == p;
    assert Widen(1, k - 1) * 2 == p;
    SplitUnique(p, Widen(1, k - 1));
  }

  lemma {:induction false} SplitMonotone(m: nat, n: nat)
    requires 2 <= m <= n
    ensures Split(m) <= Split(n)
  {
    if Split(n) < Split(m) {
      Pow2Gap(Split(n), Split(m));
    }
  }

  lemma {:induction false} SplitAtLeast(u: nat, n: nat)
    requires IsPow2(u) && n > u && n >= 2
    ensures u >= 1 && Split(n) >= u
  {
    Pow2Positive(u);
    if Split(n) < u {
      Pow2Gap(Split(n), u);
    }
  }

  // ----- the tree -----

  /** A subtree no wider than the stop level, or an interior node over its two halves. */
  datatype Tree =
    | Stop(start: nat, groups: nat)
    | Fork(start: nat, groups: nat, left: Tree, right: Tree)

  /** The tree over `[start, start + n)` cut off at subtrees of at most `u` groups. */
  function Shape(u: nat, start: nat, n: nat): (t: Tree)
    requires n >= 1 && u >= 1
    ensures t.start == start && t.groups == n
    decreases n
  {
    if n <= u then Stop(start, n)
    else Fork(start, n, Shape(u, start, Split(n)), Shape(u, start + Split(n), n - Split(n)))
  }

  /** Levels of interior nodes down the left side. */
  function Depth(t: Tree): nat {
    if t.Stop? then 0 else 1 + Depth(t.left)
  }

  /** Every stop-level subtree is `u` groups wide and both halves of every node are alike. */
  ghost predicate Perfect(u: nat, t: Tree) {
    match t
    case Stop(_, n) => n == u
    case Fork(s, n, l, r) =>
      && l.start == s && r.start == s + l.groups && n == l.groups + r.groups
      && Depth(l) == Depth(r) && Perfect(u, l) && Perfect(u, r)
  }

  /** What the shape gives every node: a perfect left half, and a right half no wider and no deeper. */
  ghost predicate Sound(u: nat, t: Tree) {
    match t
    case Stop(_, n) => 1 <= n <= u
    case Fork(s, n, l, r) =>
      && l.start == s && r.start == s + l.groups && n == l.groups + r.groups
      && l.groups >= 1 && r.groups >= 1
      && Perfect(u, l) && Depth(r) <= Depth(l)
      && Sound(u, l) && Sound(u, r)
  }

  lemma {:induction false} ShapeDepthMonotone(u: nat, s1: nat, m: nat, s2: nat, n: nat)
    requires u >= 1 && 1 <= m <= n
    ensures Depth(Shape(u, s1, m)) <= Depth(Shape(u, s2, n))
    decreases n
  {
    if m > u {
      SplitMonotone(m, n);
      ShapeDepthMonotone(u, s1, Split(m), s2, Split(n));
    }
  }

  lemma {:induction false} ShapeForks(u: nat, start: nat, n: nat)
    requires u >= 1 && n > u
    ensures Shape(u, start, n) == Fork(start, n, Shape(u, start, Split(n)), Shape(u, start + Split(n), n - Split(n)))
  {
  }

  lemma {:induction false} ShapePerfect(u: nat, start: nat, p: nat)
    requires u >= 1 && IsPow2(u) && IsPow2(p) && u <= p
    ensures Perfect(u, Shape(u, start, p))
    decreases p
  {
    if p > u {
      SplitPow2(p);
      SplitAtLeast(u, p);
      var q := Split(p);
      ShapePerfect(u, start, q);
      ShapePerfect(u, start + q, q);
      ShapeDepthMonotone(u, start, q, start + q, q);
      ShapeDepthMonotone(u, start + q, q, start, q);
      ShapeForks(u, start, p);
      PerfectFork(u, Shape(u, start, q), Shape(u, start + q, q));
    }
  }

  lemma {:induction false} PerfectFork(u: nat, l: Tree, r: Tree)
    requires Perfect(u, l) && Perfect(u, r) && r.start == l.start + l.groups && Depth(l) == Depth(r)
    ensures Perfect(u, Fork(l.start, l.groups + r.groups, l, r))
  {
  }

  lemma {:induction false} ShapeSound(u: nat, start: nat, n: nat)
    requires u >= 1 && IsPow2(u) && n >= 1
    ensures Sound(u, Shape(u, start, n))
    decreases n
  {
    if n > u {
      var p := Split(n);
      ShapeSound(u, start, p);
      ShapeSound(u, start + p, n - p);
      ShapeSoundStep(u, start, n);
    }
  }

  lemma {:induction false} ShapeSoundStep(u: nat, start: nat, n: nat)
    requires u >= 1 && IsPow2(u) && n > u
    requires Sound(u, Shape(u, start, Split(n))) && Sound(u, Shape(u, start + Split(n), n - Split(n)))
    ensures Sound(u, Shape(u, start, n))
  {
    ShapeHalves(u, start, n);
    SoundFork(u, Shape(u, start, Split(n)), Shape(u, start + Split(n), n - Split(n)));
  }

  lemma {:induction false} ShapeHalves(u: nat, start: nat, n: nat)
    requires u >= 1 && IsPow2(u) && n > u
    ensures Perfect(u, Shape(u, start, Split(n)))
    ensures Depth(Shape(u, start + Split(n), n - Split(n))) <= Depth(Shape(u, start, Split(n)))
  {
    SplitAtLeast(u, n);
    ShapePerfect(u, start, Split(n));
    ShapeDepthMonotone(u, start + Split(n), n - Split(n), start, Split(n));
  }

  lemma {:induction false} SoundFork(u: nat, l: Tree, r: Tree)
    requires Sound(u, l) && Sound(u, r) && Perfect(u, l) && Depth(r) <= Depth(l)
    requires r.start == l.start + l.groups && l.groups >= 1 && r.groups >= 1
    ensures Sound(u, Fork(l.start, l.groups + r.groups, l, r))
  {
  }

  // ----- what a proof emits -----

  /** True if the set covers some group of `[lo, hi)`. */
  ghost predicate Hits(rs: seq<GroupRange>, lo: int, hi: int) {
    exists g :: lo <= g < hi && Contains(rs, g)
  }

  /** An interior node, named by the groups it spans. */
  datatype Interior = Interior(start: nat, groups: nat)

  /** The interior nodes a proof over `rs` consists of, in pre-order. */
  ghost function Emitted(rs: seq<GroupRange>, t: Tree): seq<Interior> {
    if t.Stop? || !Hits(rs, t.start, t.start + t.groups) then []
    else [Interior(t.start, t.groups)] + Emitted(rs, t.left) + Emitted(rs, t.right)
  }

  /** How many nodes a proof over the one run `[a, b)` emits. */
  function Cost(a: int, b: int, t: Tree): nat {
    if t.Stop? || b <= t.start || t.start + t.groups <= a || b <= a then 0
    else 1 + Cost(a, b, t.left) + Cost(a, b, t.right)
  }

  // ----- upper bounds on one run -----

  lemma {:induction false} Distribute(u: nat, x: int, y: int)
    ensures u * (1 + x + y) == u + u * x + u * y
  {
  }

  lemma {:induction false} Scale(u: nat, x: int, y: int)
    requires y <= x
    ensures u * y <= u * x
  {
  }

  /** A perfect subtree has one interior node fewer than it has stop-level subtrees. */
  lemma {:induction false} PerfectCost(a: int, b: int, u: nat, t: Tree)
    requires u >= 1 && Perfect(u, t) && Sound(u, t) && a <= t.start && t.start + t.groups <= b
    ensures u * Cost(a, b, t) == t.groups - u
  {
    if t.Fork? {
      PerfectCost(a, b, u, t.left);
      PerfectCost(a, b, u, t.right);
      Distribute(u, Cost(a, b, t.left), Cost(a, b, t.right));
    }
  }

  lemma {:induction false} FullCost(a: int, b: int, u: nat, t: Tree)
    requires u >= 1 && Sound(u, t) && a <= t.start && t.start + t.groups <= b
    ensures u * Cost(a, b, t) <= t.groups - 1
  {
    if t.Fork? {
      PerfectCost(a, b, u, t.left);
      FullCost(a, b, u, t.right);
      Distribute(u, Cost(a, b, t.left), Cost(a, b, t.right));
    }
  }

  /** One half spends `x` on whole subtrees, the other `y` and at most `k - 1` path nodes. */
  lemma {:induction false} JoinBound(u: nat, full: int, cut: int, depth: int, k: int, x: int, y: int)
    requires u * full <= x && u * (cut - depth) <= y && depth <= k - 1
    ensures u * (1 + full + cut - k) <= x + y
  {
    calc {
      u * (1 + full + cut - k);
    <= { Scale(u, full + (cut - depth), 1 + full + cut - k); }
      u * (full + (cut - depth));
      u * full + u * (cut - depth);
    }
  }

  /** A run that covers the first `b - start` groups of a subtree. */
  lemma {:induction false} PrefixCost(a: int, b: int, u: nat, t: Tree)
    requires u >= 1 && Sound(u, t) && a <= t.start < b <= t.start + t.groups
    ensures u * (Cost(a, b, t) - Depth(t)) <= b - t.start - 1
  {
    if t.Fork? {
      var left, right := Cost(a, b, t.left), Cost(a, b, t.right);
      if b <= t.right.start {
        PrefixCost(a, b, u, t.left);
        JoinBound(u, 0, left, Depth(t.left), Depth(t), 0, b - t.start - 1);
      } else {
        FullCost(a, b, u, t.left);
        PrefixCost(a, b, u, t.right);
        JoinBound(u, left, right, Depth(t.right), Depth(t), t.left.groups - 1, b - t.right.start - 1);
      }
    }
  }

  /** A run that covers the last groups of a subtree, from `a` on. */
  lemma {:induction false} SuffixCost(a: int, b: int, u: nat, t: Tree)
    requires u >= 1 && Sound(u, t) && t.start <= a < t.start + t.groups <= b
    ensures u * (Cost(a, b, t) - Depth(t)) <= t.start + t.groups - a - 1
  {
    if t.Fork? {
      var left, right := Cost(a, b, t.left), Cost(a, b, t.right);
      if t.right.start <= a {
        SuffixCost(a, b, u, t.right);
        JoinBound(u, 0, right, Depth(t.right), Depth(t), 0, t.start + t.groups - a - 1);
      } else {
        FullCost(a, b, u, t.right);
        SuffixCost(a, b, u, t.left);
        JoinBound(u, right, left, Depth(t.left), Depth(t), t.right.groups - 1, t.right.start - a - 1);
      }
    }
  }

  /** A run of one group costs one root-to-leaf path at most. */
  lemma {:induction false} OneGroupCost(a: int, u: nat, t: Tree)
    requires u >= 1 && Sound(u, t) && t.start <= a < t.start + t.groups
    ensures Cost(a, a + 1, t) <= Depth(t)
  {
    if t.Fork? {
      if a < t.right.start {
        OneGroupCost(a, u, t.left);
      } else {
        OneGroupCost(a, u, t.right);
      }
    }
  }

  /** The node where a run's two boundary paths part, from the bounds on its halves. */
  lemma {:induction false} StraddleBound(u: nat, left: int, right: int, dl: int, dr: int, k: int, x: int, y: int)
    requires u * (left - dl) <= x && u * (right - dr) <= y && dl <= k - 1 && dr <= k - 1
    ensures u * (1 + left + right - (2 * k - 1)) <= x + y
  {
    calc {
      u * (1 + left + right - (2 * k - 1));
    <= { Scale(u, (left - dl) + (right - dr), 1 + left + right - (2 * k - 1)); }
      u * ((left - dl) + (right - dr));
      u * (left - dl) + u * (right - dr);
    }
  }

  /** A run of two groups or more inside a subtree: two boundary paths below the node it straddles. */
  lemma {:induction false} InnerCost(a: int, b: int, u: nat, t: Tree)
    requires u >= 1 && Sound(u, t) && t.Fork? && t.start <= a && a + 2 <= b <= t.start + t.groups
    ensures u * (Cost(a, b, t) - (2 * Depth(t) - 1)) <= b - a - 2
    decreases t, 0
  {
    if b <= t.right.start {
      InnerSide(a, b, u, t.left, Depth(t));
    } else if t.right.start <= a {
      InnerSide(a, b, u, t.right, Depth(t));
    } else {
      SuffixCost(a, b, u, t.left);
      PrefixCost(a, b, u, t.right);
      StraddleBound(u, Cost(a, b, t.left), Cost(a, b, t.right), Depth(t.left), Depth(t.right), Depth(t),
                    t.right.start - a - 1, b - t.right.start - 1);
    }
  }

  /** The same run seen from the parent, at depth `k`, of the half it lies in. */
  lemma {:induction false} InnerSide(a: int, b: int, u: nat, t: Tree, k: nat)
    requires u >= 1 && Sound(u, t) && t.start <= a && a + 2 <= b <= t.start + t.groups && Depth(t) <= k - 1
    ensures u * (1 + Cost(a, b, t) - (2 * k - 1)) <= b - a - 2
    decreases t, 1
  {
    var c := Cost(a, b, t);
    if t.Fork? {
      InnerCost(a, b, u, t);
      Scale(u, c - (2 * Depth(t) - 1), 1 + c - (2 * k - 1));
    } else {
      Scale(u, 0, 1 + c - (2 * k - 1));
    }
  }

  // ----- what a run can be made to cost -----

  /** A run reaching exactly the first group of a subtree costs its whole left path. */
  lemma {:induction false} FirstGroupCost(a: int, u: nat, t: Tree)
    requires u >= 1 && Sound(u, t) && a <= t.start
    ensures Cost(a, t.start + 1, t) == Depth(t)
  {
    if t.Fork? {
      FirstGroupCost(a, u, t.left);
    }
  }

  /** A run reaching exactly the last group of a perfect subtree costs its whole right path. */
  lemma {:induction false} LastGroupCost(b: int, u: nat, t: Tree)
    requires u >= 1 && Sound(u, t) && Perfect(u, t) && t.start + t.groups <= b
    ensures Cost(t.start + t.groups - 1, b, t) == Depth(t)
  {
    if t.Fork? {
      LastGroupCost(b, u, t.right);
    }
  }

  /** Two groups on either side of a node's split: both boundary paths in full. */
  lemma {:induction false} StraddleCost(u: nat, t: Tree)
    requires u >= 1 && Sound(u, t) && t.Fork?
    ensures Cost(t.right.start - 1, t.right.start + 1, t) == 1 + Depth(t.left) + Depth(t.right)
  {
    LastGroupCost(t.right.start + 1, u, t.left);
    FirstGroupCost(t.right.start - 1, u, t.right);
  }

  /** The same, one level down on the left, where both halves are perfect. */
  lemma {:induction false} LeftStraddleCost(u: nat, t: Tree)
    requires u >= 1 && Sound(u, t) && t.Fork? && t.left.Fork?
    ensures var x := t.left.right.start;
            Cost(x - 1, x + 1, t) == 2 * Depth(t) - 2
  {
    StraddleCost(u, t.left);
  }
}
