/**
 Which interior nodes a proof consists of (`crates/synch-store/src/proof.rs`), by arithmetic on their spans and not by
 the walk: aligned spans of a power of two, the last one cut short, that meet the ranges; in pre-order.
 */
module ProofNodes {
  import opened Bytes
  import opened Ranges
  import opened ProofTree

  // ----- multiples -----

  lemma {:induction false} NextMultiple(a: nat, b: nat, w: nat)
    requires w >= 1 && a % w == 0 && b % w == 0 && a < b
    ensures a + w <= b
  {
    var i, j := a / w, b / w;
    assert a == w * i && b == w * j;
    if j <= i {
      Spread(w, j, i + 1);
    } else {
      Spread(w, i, j);
    }
  }

  lemma {:induction false} MultipleOf(w: nat, k: nat)
    requires w >= 1
    ensures (w * k) % w == 0
  {
    Quotient(w * k, w, k, 0);
  }

  lemma {:induction false} SumOfMultiples(a: nat, b: nat, w: nat)
    requires w >= 1 && a % w == 0 && b % w == 0
    ensures (a + b) % w == 0
  {
    var i, j := a / w, b / w;
    assert a == w * i && b == w * j;
    assert a + b == w * (i + j);
    MultipleOf(w, i + j);
  }

  lemma {:induction false} MultipleThrough(x: nat, p: nat, w: nat)
    requires w >= 1 && p >= 1 && x % p == 0 && p % w == 0
    ensures x % w == 0
  {
    var i, j := x / p, p / w;
    assert x == p * i && p == w * j;
    assert x == w * (j * i);
    MultipleOf(w, j * i);
  }

  lemma {:induction false} WidenSplit(j: nat, k: nat)
    ensures Widen(1, j + k) == Widen(1, j) * Widen(1, k)
    decreases k
  {
    if k > 0 {
      WidenSplit(j, k - 1);
      assert Widen(1, j + k) == 2 * Widen(1, j + k - 1);
      assert 2 * (Widen(1, j) * Widen(1, k - 1)) == Widen(1, j) * (2 * Widen(1, k - 1));
    }
  }

  lemma {:induction false} Pow2Divides(w: nat, p: nat)
    requires IsPow2(w) && IsPow2(p) && w <= p
    ensures w >= 1 && p % w == 0
  {
    var j: nat :| Widen(1, j) == w;
    var k: nat :| Widen(1, k) == p;
    Pow2Positive(w);
    if k < j {
      WidenMonotone(1, k, j);
      assert p == w;
      MultipleOf(w, 1);
    } else {
      WidenSplit(j, k - j);
      MultipleOf(w, Widen(1, k - j));
    }
  }

  // ----- nodes -----

  /** A span of `n` groups at `s` is `w` wide, or cut short by the end. */
  predicate Wide(end: nat, s: nat, n: nat, w: nat) {
    w >= 1 && s % w == 0 && n <= w < 2 * n && (n == w || s + n == end)
  }

  /** A node of the tree over the `n0` groups from `s0` on. */
  ghost predicate IsNode(s0: nat, n0: nat, s: nat, n: nat) {
    n >= 1 && s0 <= s && s + n <= s0 + n0 && exists w: nat :: IsPow2(w) && Wide(s0 + n0, s, n, w)
  }

  /** The tree itself starts on a multiple of its width. */
  ghost predicate Rooted(s0: nat, n0: nat) {
    n0 >= 1 && exists w: nat :: IsPow2(w) && Wide(s0 + n0, s0, n0, w)
  }

  lemma {:induction false} RootWidth(s0: nat, n0: nat)
    requires n0 >= 2 && Rooted(s0, n0)
    ensures IsPow2(2 * Split(n0)) && s0 % (2 * Split(n0)) == 0 && s0 % Split(n0) == 0
  {
    var w: nat :| IsPow2(w) && Wide(s0 + n0, s0, n0, w);
    var p := Split(n0);
    Pow2Double(p);
    if w < 2 * p {
      Pow2Gap(w, 2 * p);
    } else if 2 * p < w {
      Pow2Gap(2 * p, w);
    }
    assert w == 2 * p;
    Pow2Divides(p, 2 * p);
    MultipleThrough(s0, 2 * p, p);
  }

  /** A span no longer than `p` at a multiple of `p` is a tree of its own. */
  lemma {:induction false} RootedAt(s: nat, n: nat, p: nat)
    requires IsPow2(p) && p >= 1 && s % p == 0 && 1 <= n <= p
    ensures Rooted(s, n)
  {
    var w := if n == 1 then 1 else 2 * Split(n);
    assert IsPow2(w) by {
      if n == 1 {
        assert Widen(1, 0) == 1;
      } else {
        Pow2Double(Split(n));
      }
    }
    if p < w {
      Pow2Gap(p, w);
    }
    Pow2Divides(w, p);
    MultipleThrough(s, p, w);
    assert Wide(s + n, s, n, w);
  }

  lemma {:induction false} HalvesRooted(s0: nat, n0: nat)
    requires n0 >= 2 && Rooted(s0, n0)
    ensures var p := Split(n0);
            Rooted(s0, p) && Rooted(s0 + p, n0 - p)
  {
    var p := Split(n0);
    RootWidth(s0, n0);
    RootedAt(s0, p, p);
    MultipleOf(p, 1);
    SumOfMultiples(s0, p, p);
    RootedAt(s0 + p, n0 - p, p);
  }

  /** A node of the left half is as wide as it is long. */
  lemma {:induction false} LeftWhole(s0: nat, p: nat, s: nat, n: nat, w: nat)
    requires IsPow2(p) && p >= 1 && s0 % p == 0 && s0 <= s && s + n <= s0 + p && n >= 1
    requires IsPow2(w) && Wide(s0 + p, s, n, w)
    ensures n == w
  {
    if p < w {
      Pow2Gap(p, w);
    }
    Pow2Divides(w, p);
    MultipleThrough(s0, p, w);
    SumOfMultiples(s0, p, w);
    NextMultiple(s, s0 + p, w);
  }

  lemma {:induction false} UpFromLeft(s0: nat, n0: nat, s: nat, n: nat)
    requires n0 >= 2 && Rooted(s0, n0) && IsNode(s0, Split(n0), s, n)
    ensures IsNode(s0, n0, s, n)
  {
    var w: nat :| IsPow2(w) && Wide(s0 + Split(n0), s, n, w);
    RootWidth(s0, n0);
    LeftWhole(s0, Split(n0), s, n, w);
    assert Wide(s0 + n0, s, n, w);
  }

  /** No node but the root lies across the split. */
  lemma {:induction false} AcrossIsRoot(s0: nat, n0: nat, s: nat, n: nat, w: nat)
    requires n0 >= 2 && Rooted(s0, n0) && s0 <= s && s + n <= s0 + n0 && IsPow2(w) && Wide(s0 + n0, s, n, w)
    requires s < s0 + Split(n0) < s + n
    ensures s == s0 && n == n0
  {
    var p := Split(n0);
    RootWidth(s0, n0);
    if w <= p {
      Pow2Divides(w, p);
      MultipleThrough(s0, p, w);
      SumOfMultiples(s0, p, w);
      NextMultiple(s, s0 + p, w);
      assert false;
    } else {
      Pow2Gap(p, w);
      Pow2Divides(2 * p, w);
      MultipleThrough(s, w, 2 * p);
      if s0 < s {
        NextMultiple(s0, s, 2 * p);
      }
    }
  }

  lemma {:induction false} DownFrom(s0: nat, n0: nat, s: nat, n: nat)
    requires n0 >= 2 && Rooted(s0, n0) && IsNode(s0, n0, s, n) && !(s == s0 && n == n0)
    ensures IsNode(s0, Split(n0), s, n) || IsNode(s0 + Split(n0), n0 - Split(n0), s, n)
  {
    var p := Split(n0);
    var w: nat :| IsPow2(w) && Wide(s0 + n0, s, n, w);
    if s < s0 + p && s0 + p < s + n {
      AcrossIsRoot(s0, n0, s, n, w);
    } else if s + n <= s0 + p {
      assert Wide(s0 + p, s, n, w);
    } else {
      assert Wide(s0 + p + (n0 - p), s, n, w);
    }
  }

  /** The nodes are the root and those of its two halves. */
  lemma {:induction false} NodesSplit(s0: nat, n0: nat, s: nat, n: nat)
    requires n0 >= 2 && Rooted(s0, n0)
    ensures IsNode(s0, n0, s, n)
       <==> (s == s0 && n == n0) || IsNode(s0, Split(n0), s, n) || IsNode(s0 + Split(n0), n0 - Split(n0), s, n)
  {
    var p := Split(n0);
    if IsNode(s0, n0, s, n) && !(s == s0 && n == n0) {
      DownFrom(s0, n0, s, n);
    }
    if IsNode(s0, p, s, n) {
      UpFromLeft(s0, n0, s, n);
    }
    if IsNode(s0 + p, n0 - p, s, n) {
      var w: nat :| IsPow2(w) && Wide(s0 + p + (n0 - p), s, n, w);
      assert Wide(s0 + n0, s, n, w);
    }
  }

  // ----- what is emitted -----

  lemma {:induction false} StopsShort(s0: nat, n0: nat, s: nat, n: nat)
    requires IsNode(s0, n0, s, n)
    ensures n <= n0
  {
  }

  /** Exactly the nodes wider than the stop that meet the ranges are emitted. */
  lemma {:induction false} EmittedIff(rs: seq<GroupRange>, u: nat, s0: nat, n0: nat, s: nat, n: nat)
    requires u >= 1 && Rooted(s0, n0)
    ensures Interior(s, n) in Emitted(rs, Shape(u, s0, n0)) <==> IsNode(s0, n0, s, n) && n > u && Hits(rs, s, s + n)
    decreases n0
  {
    if n0 > u {
      var p := Split(n0);
      HalvesRooted(s0, n0);
      NodesSplit(s0, n0, s, n);
      EmittedIff(rs, u, s0, p, s, n);
      EmittedIff(rs, u, s0 + p, n0 - p, s, n);
      ShapeForks(u, s0, n0);
      if IsNode(s0, n0, s, n) && Hits(rs, s, s + n) {
        assert Hits(rs, s0, s0 + n0);
      }
    }
  }

  /** Before in pre-order: an earlier start, or the same start and a wider span. */
  predicate Earlier(a: Interior, b: Interior) {
    a.start < b.start || (a.start == b.start && a.groups > b.groups)
  }

  predicate InOrder(e: seq<Interior>) {
    forall i, j :: 0 <= i < j < |e| ==> Earlier(e[i], e[j])
  }

  predicate Inside(e: seq<Interior>, s0: nat, n0: nat) {
    forall i :: 0 <= i < |e| ==> s0 <= e[i].start < s0 + n0 && e[i].groups <= n0
  }

  lemma {:induction false} JoinInOrder(root: Interior, l: seq<Interior>, r: seq<Interior>, p: nat)
    requires 1 <= p < root.groups && InOrder(l) && InOrder(r)
    requires Inside(l, root.start, p) && Inside(r, root.start + p, root.groups - p)
    ensures InOrder([root] + l + r) && Inside([root] + l + r, root.start, root.groups)
  {
  }

  /** They are emitted in pre-order, each once. */
  lemma {:induction false} EmittedInOrder(rs: seq<GroupRange>, u: nat, s0: nat, n0: nat)
    requires u >= 1 && n0 >= 1
    ensures InOrder(Emitted(rs, Shape(u, s0, n0))) && Inside(Emitted(rs, Shape(u, s0, n0)), s0, n0)
    decreases n0
  {
    if n0 > u && Hits(rs, s0, s0 + n0) {
      var p := Split(n0);
      EmittedInOrder(rs, u, s0, p);
      EmittedInOrder(rs, u, s0 + p, n0 - p);
      ShapeForks(u, s0, n0);
      JoinInOrder(Interior(s0, n0), Emitted(rs, Shape(u, s0, p)), Emitted(rs, Shape(u, s0 + p, n0 - p)), p);
    }
  }

  /** So for a whole object: the list is the nodes of the tree over its groups that meet the ranges, in pre-order. */
  lemma {:induction false} ProofIs(rs: seq<GroupRange>, u: nat, groups: nat, s: nat, n: nat)
    requires u >= 1 && groups >= 1
    ensures Interior(s, n) in Emitted(rs, Shape(u, 0, groups))
       <==> IsNode(0, groups, s, n) && n > u && Hits(rs, s, s + n)
    ensures InOrder(Emitted(rs, Shape(u, 0, groups)))
  {
    var p := if groups == 1 then 1 else 2 * Split(groups);
    assert IsPow2(p) by {
      if groups == 1 {
        assert Widen(1, 0) == 1;
      } else {
        Pow2Double(Split(groups));
      }
    }
    RootedAt(0, groups, p);
    EmittedIff(rs, u, 0, groups, s, n);
    EmittedInOrder(rs, u, 0, groups);
  }
}
