/**
 `proof_nodes_upper_bound` (`crates/synch-core/src/wire.rs`) against the walk it bounds: for which trees
 the bound covers every range set, exactly.
 */
module ProofBound {
  import opened Words
  import opened Ranges
  import opened ProofTree

  lemma {:induction false} WidenScale(u: nat, k: nat)
    ensures Widen(u, k) == u * Widen(1, k)
  {
    if k > 0 {
      WidenScale(u, k - 1);
      assert Widen(u, k) == 2 * (u * Widen(1, k - 1)) == u * (2 * Widen(1, k - 1));
    }
  }

  lemma {:induction false} WidenPow2(u: nat, k: nat)
    requires IsPow2(u)
    ensures IsPow2(Widen(u, k)) && Widen(u, k) >= u
  {
    if k > 0 {
      WidenPow2(u, k - 1);
      Pow2Double(Widen(u, k - 1));
    }
  }

  /** The width of the subtrees a proof at `level` stops at. */
  function StopWidth(level: u8): (u: u64)
    ensures u >= 1 && IsPow2(u)
  {
    var k := Min(level, 63);
    WidenPositive(k);
    WidenFits(k);
    Widen(1, k)
  }

  lemma {:induction false} WidenValues()
    ensures Widen(1, 32) == 0x1_0000_0000 && Widen(1, 33) == 0x2_0000_0000
    ensures Widen(1, 63) == 0x8000_0000_0000_0000
  {
    assert Widen(1, 8) == 0x100;
    assert Widen(1, 16) == 0x1_0000;
    assert Widen(1, 24) == 0x100_0000;
    assert Widen(1, 32) == 0x1_0000_0000;
    assert Widen(1, 40) == 0x100_0000_0000;
    assert Widen(1, 48) == 0x1_0000_0000_0000;
    assert Widen(1, 56) == 0x100_0000_0000_0000;
  }

  lemma {:induction false} WidenFits(k: nat)
    requires k <= 63
    ensures Widen(1, k) <= U64_MAX
  {
    WidenMonotone(1, k, 63);
    WidenValues();
  }

  function SaturatingMul(a: u64, b: u64): u64 {
    if a * b > U64_MAX then U64_MAX else a * b
  }

  /** The root-to-range allowance, one per disjoint range. */
  const MAX_PATH: u64 := 64

  /** The bound as the source computes it, saturating. */
  function UpperBound(rs: seq<GroupRange>, level: u8): u64
    requires |rs| <= U64_MAX
  {
    DivCeilAtMost(Count(rs), StopWidth(level));
    SaturatingAdd(DivCeil(Count(rs), StopWidth(level)), SaturatingMul(|rs|, MAX_PATH))
  }

  lemma {:induction false} DivCeilAtMost(n: nat, d: nat)
    requires d >= 1
    ensures DivCeil(n, d) <= n
  {
    if n > d {
      DivCeilAtMost(n - d, d);
    }
  }

  /** `x` whole strides of `d` strictly inside `n`: the ceiling is past `x`. */
  lemma {:induction false} DivCeilAbove(n: nat, d: nat, x: int)
    requires d >= 1 && d * x <= n - 1
    ensures x < DivCeil(n, d)
  {
    if DivCeil(n, d) <= x {
      Scale(d, x, DivCeil(n, d));
    }
  }

  // ----- depth and size -----

  /** A tree is at most `k` levels deep above the stop level exactly when it has at most `u * 2^k` groups. */
  lemma {:induction false} DepthIff(u: nat, start: nat, n: nat, k: nat)
    requires u >= 1 && IsPow2(u) && n >= 1
    ensures Depth(Shape(u, start, n)) <= k <==> n <= Widen(u, k)
    decreases k
  {
    if k > 0 && n > u {
      var q := Widen(u, k - 1);
      WidenPow2(u, k - 1);
      DepthIff(u, start, Split(n), k - 1);
      if n <= 2 * q && q < Split(n) {
        Pow2Gap(q, Split(n));
      }
    } else {
      WidenPow2(u, k);
    }
  }

  // ----- from one run to a set of them -----

  lemma {:induction false} HitsSingle(r: GroupRange, lo: nat, hi: nat)
    ensures Hits([r], lo, hi) <==> lo < hi && r.start < r.end && r.start < hi && lo < r.end
  {
    if lo < hi && r.start < r.end && r.start < hi && lo < r.end {
      HasContains([r], 0, Max(lo, r.start));
      assert Contains([r], Max(lo, r.start));
    }
  }

  lemma {:induction false} SingleEmitted(r: GroupRange, u: nat, t: Tree)
    requires u >= 1 && Sound(u, t) && t.groups >= 1
    ensures |Emitted([r], t)| == Cost(r.start, r.end, t)
  {
    HitsSingle(r, t.start, t.start + t.groups);
    if t.Fork? {
      SingleEmitted(r, u, t.left);
      SingleEmitted(r, u, t.right);
    }
  }

  lemma {:induction false} HitsUnion(a: seq<GroupRange>, b: seq<GroupRange>, lo: int, hi: int)
    ensures Hits(a + b, lo, hi) <==> Hits(a, lo, hi) || Hits(b, lo, hi)
  {
    if Hits(a, lo, hi) {
      var g :| lo <= g < hi && Contains(a, g);
      ContainsConcat(a, b, g);
    }
    if Hits(b, lo, hi) {
      var g :| lo <= g < hi && Contains(b, g);
      ContainsConcat(a, b, g);
    }
    if Hits(a + b, lo, hi) {
      var g :| lo <= g < hi && Contains(a + b, g);
      ContainsConcat(a, b, g);
    }
  }

  /** Two sets together emit no more than apart, and share the root when both reach it. */
  lemma {:induction false} UnionEmitted(a: seq<GroupRange>, b: seq<GroupRange>, u: nat, t: Tree)
    requires u >= 1 && Sound(u, t)
    ensures |Emitted(a + b, t)| <= |Emitted(a, t)| + |Emitted(b, t)|
    ensures t.Fork? && Emitted(a, t) != [] && Emitted(b, t) != [] ==>
              |Emitted(a + b, t)| < |Emitted(a, t)| + |Emitted(b, t)|
  {
    HitsUnion(a, b, t.start, t.start + t.groups);
    if t.Fork? {
      UnionEmitted(a, b, u, t.left);
      UnionEmitted(a, b, u, t.right);
      NoHitBelow(a, u, t);
      NoHitBelow(b, u, t);
    }
  }

  lemma {:induction false} NoHitBelow(rs: seq<GroupRange>, u: nat, t: Tree)
    requires u >= 1 && Sound(u, t) && t.Fork?
    ensures !Hits(rs, t.start, t.start + t.groups) ==> Emitted(rs, t.left) == [] && Emitted(rs, t.right) == []
  {
  }

  /** A subset never emits more nodes than the whole. */
  lemma {:induction false} SubsetEmitsLess(a: seq<GroupRange>, b: seq<GroupRange>, t: Tree)
    requires forall g :: Contains(a, g) ==> Contains(b, g)
    ensures |Emitted(a, t)| <= |Emitted(b, t)|
  {
    if t.Fork? {
      SubsetEmitsLess(a, b, t.left);
      SubsetEmitsLess(a, b, t.right);
    }
  }

  lemma {:induction false} EmittedSize(rs: seq<GroupRange>, u: nat, t: Tree)
    requires u >= 1 && Sound(u, t)
    ensures |Emitted(rs, t)| <= t.groups - 1
  {
    if t.Fork? {
      EmittedSize(rs, u, t.left);
      EmittedSize(rs, u, t.right);
    }
  }

  /** One more than the path allowance pays for what any one run costs beyond its own subtrees. */
  ghost predicate RunsFit(u: nat, t: Tree) {
    forall r: GroupRange :: r.start < r.end ==> u * (Cost(r.start, r.end, t) - 65) <= r.end - r.start - 1
  }

  /** The nodes past the root. */
  ghost function Beyond(rs: seq<GroupRange>, t: Tree): nat {
    if Emitted(rs, t) == [] then 0 else |Emitted(rs, t)| - 1
  }

  lemma {:induction false} SetStepBound(u: nat, a: int, b: int, sum: int, m: int, x: int, y: int)
    requires u * (a - 64 * m) <= x && u * (b - 64) <= y && sum <= a + b
    ensures u * (sum - 64 * (m + 1)) <= x + y
  {
    calc {
      u * (sum - 64 * (m + 1));
    <= { Scale(u, (a - 64 * m) + (b - 64), sum - 64 * (m + 1)); }
      u * ((a - 64 * m) + (b - 64));
      u * (a - 64 * m) + u * (b - 64);
    }
  }

  lemma {:induction false} RunBeyond(r: GroupRange, u: nat, t: Tree)
    requires u >= 1 && Sound(u, t) && t.groups >= 1 && RunsFit(u, t) && r.start < r.end
    ensures u * (Beyond([r], t) - 64) <= r.end - r.start - 1
  {
    SingleEmitted(r, u, t);
    var c: int := Cost(r.start, r.end, t);
    if c == 0 {
      Scale(u, 0, -64);
    } else {
      var beyond: int := Beyond([r], t);
      assert u * (c - 65) <= r.end - r.start - 1;
      assert beyond - 64 == c - 65;
    }
  }

  lemma {:induction false} BeyondUnion(a: seq<GroupRange>, b: seq<GroupRange>, u: nat, t: Tree)
    requires u >= 1 && Sound(u, t)
    ensures Beyond(a + b, t) <= Beyond(a, t) + Beyond(b, t)
  {
    UnionEmitted(a, b, u, t);
  }

  lemma {:induction false} SetBeyond(rs: seq<GroupRange>, u: nat, t: Tree)
    requires u >= 1 && Sound(u, t) && t.groups >= 1 && RunsFit(u, t)
    requires forall r :: r in rs ==> r.start < r.end
    ensures u * (Beyond(rs, t) - 64 * |rs|) <= Total(rs) - |rs|
  {
    if rs == [] {
      assert Emitted(rs, t) == [];
    } else {
      var n := |rs| - 1;
      var init, r := rs[..n], rs[n];
      assert rs == init + [r] && r in rs;
      SetBeyond(init, u, t);
      TotalConcat(init, [r]);
      RunBeyond(r, u, t);
      BeyondUnion(init, [r], u, t);
      SetStepBound(u, Beyond(init, t), Beyond([r], t), Beyond(rs, t), n, Total(init) - n, r.end - r.start - 1);
    }
  }

  /** Where every run fits, so does every canonical set. */
  lemma {:induction false} SetFits(rs: seq<GroupRange>, level: u8, n: u64)
    requires n >= 1 && |rs| <= U64_MAX && Canonical(rs)
    requires RunsFit(StopWidth(level), Shape(StopWidth(level), 0, n))
    ensures |Emitted(rs, Shape(StopWidth(level), 0, n))| <= UpperBound(rs, level)
  {
    var u := StopWidth(level);
    var t := Shape(u, 0, n);
    ShapeSound(u, 0, n);
    EmittedSize(rs, u, t);
    if Emitted(rs, t) != [] {
      assert forall r :: r in rs ==> r.start < r.end;
      SetBeyond(rs, u, t);
      CountIsCardinality(rs);
      assert rs != [];
      DivCeilAbove(Total(rs), u, Beyond(rs, t) - 64 * |rs|);
    }
  }

  // ----- which trees every run fits -----

  /** Any run over a tree `k` levels deep, wherever it starts and ends. */
  lemma {:induction false} AnyRunCost(r: GroupRange, u: nat, t: Tree)
    requires u >= 1 && Sound(u, t) && t.start == 0 && t.Fork? && r.start + 2 <= r.end
    ensures u * (Cost(r.start, r.end, t) - (2 * Depth(t) - 1)) <= r.end - r.start - 2
  {
    var c := Cost(r.start, r.end, t);
    if r.end <= t.groups {
      InnerCost(r.start, r.end, u, t);
    } else if r.start < t.groups {
      SuffixCost(r.start, r.end, u, t);
      Scale(u, c - Depth(t), c - (2 * Depth(t) - 1));
    } else {
      Scale(u, 0, c - (2 * Depth(t) - 1));
    }
  }

  lemma {:induction false} RunsFitDepth33(u: nat, t: Tree)
    requires u >= 1 && Sound(u, t) && t.start == 0 && Depth(t) <= 33
    ensures RunsFit(u, t)
  {
    forall r: GroupRange | r.start < r.end
      ensures u * (Cost(r.start, r.end, t) - 65) <= r.end - r.start - 1
    {
      var c := Cost(r.start, r.end, t);
      if t.Stop? || t.groups <= r.start {
        Scale(u, 0, c - 65);
      } else if r.end == r.start + 1 {
        OneGroupCost(r.start, u, t);
        Scale(u, 0, c - 65);
      } else {
        AnyRunCost(r, u, t);
        Scale(u, c - (2 * Depth(t) - 1), c - 65);
      }
    }
  }

  /** At level 0 a tree one level deeper still fits while its right side is two levels shallower. */
  lemma {:induction false} RunsFitLopsided(t: Tree)
    requires Sound(1, t) && t.start == 0 && t.Fork? && Depth(t) == 34 && Depth(t.right) <= 32
    ensures RunsFit(1, t)
  {
    forall r: GroupRange | r.start < r.end
      ensures 1 * (Cost(r.start, r.end, t) - 65) <= r.end - r.start - 1
    {
      LopsidedRun(r, t);
    }
  }

  lemma {:induction false} LopsidedRun(r: GroupRange, t: Tree)
    requires Sound(1, t) && t.start == 0 && t.Fork? && Depth(t) == 34 && Depth(t.right) <= 32 && r.start < r.end
    ensures Cost(r.start, r.end, t) - 65 <= r.end - r.start - 1
  {
    if r.end == r.start + 1 {
      if r.start < t.groups {
        OneGroupCost(r.start, 1, t);
      }
    } else if r.end <= t.right.start {
      AnyRunCost(r, 1, t.left);
    } else if r.end > t.groups {
      if r.start < t.groups {
        SuffixCost(r.start, r.end, 1, t);
      }
    } else if t.right.start <= r.start {
      if t.right.Fork? {
        InnerCost(r.start, r.end, 1, t.right);
      }
    } else {
      SuffixCost(r.start, r.end, 1, t.left);
      PrefixCost(r.start, r.end, 1, t.right);
    }
  }

  /**
   The trees every range set fits: 33 levels above the stop level, and at level 0 half of the 34th.
   In groups that is `2^33` times the stop width, or `3 * 2^32` at level 0.
   */
  predicate Fits(level: u8, n: nat) {
    if level == 0 then n <= 3 * 0x1_0000_0000 else n <= 0x2_0000_0000 * StopWidth(level)
  }

  lemma {:induction false} StopWidthLevels(level: u8)
    ensures level == 0 <==> StopWidth(level) == 1
  {
    if level > 0 {
      WidenMonotone(1, 1, Min(level, 63));
    }
  }

  lemma {:induction false} DepthAt(u: nat, n: nat)
    requires u >= 1 && IsPow2(u) && n >= 1
    ensures Depth(Shape(u, 0, n)) <= 33 <==> n <= 0x2_0000_0000 * u
  {
    DepthIff(u, 0, n, 33);
    Widen33(u);
  }

  lemma {:induction false} Widen33(u: nat)
    ensures Widen(u, 33) == 0x2_0000_0000 * u
  {
    WidenScale(u, 33);
    WidenValues();
  }

  /** The shape just past `2^33` groups at level 0: a full left side, and a right side as deep as it is wide. */
  lemma {:induction false} LopsidedShape(n: nat)
    requires n > 0x2_0000_0000
    ensures var t := Shape(1, 0, n);
            && t.Fork? && Depth(t) >= 34 && t.left.Fork?
            && (n <= 0x4_0000_0000 ==> Depth(t) == 34 && t.right.groups == n - 0x2_0000_0000)
            && (n <= 0x4_0000_0000 ==> (Depth(t.right) <= 32 <==> n <= 3 * 0x1_0000_0000))
  {
    var t := Shape(1, 0, n);
    assert Widen(1, 0) == 1;
    DepthIff(1, 0, n, 33);
    WidenValues();
    ShapeForks(1, 0, n);
    if n <= 0x4_0000_0000 {
      WidenPow2(1, 33);
      SplitUnique(n, 0x2_0000_0000);
      DepthIff(1, 0, n, 34);
      DepthIff(1, 0x2_0000_0000, n - 0x2_0000_0000, 32);
    }
  }

  lemma {:induction false} FittingRuns(u: nat, n: nat)
    requires u >= 1 && IsPow2(u) && n >= 1 && n <= 0x2_0000_0000 * u
    ensures RunsFit(u, Shape(u, 0, n))
  {
    ShapeSound(u, 0, n);
    DepthAt(u, n);
    RunsFitDepth33(u, Shape(u, 0, n));
  }

  lemma {:induction false} FittingRunsLevel0(n: nat)
    requires 0x2_0000_0000 < n <= 3 * 0x1_0000_0000
    ensures RunsFit(1, Shape(1, 0, n))
  {
    assert Widen(1, 0) == 1;
    ShapeSound(1, 0, n);
    LopsidedShape(n);
    RunsFitLopsided(Shape(1, 0, n));
  }

  /** Two groups at the worst split of a tree that does not fit. */
  lemma {:induction false} WorstRun(u: nat, n: nat) returns (x: nat)
    requires u >= 1 && IsPow2(u) && n > 0x2_0000_0000 * u
    ensures 1 <= x < n
    ensures Cost(x - 1, x + 1, Shape(u, 0, n)) >= 66
  {
    ShapeSound(u, 0, n);
    DepthAt(u, n);
    var t := Shape(u, 0, n);
    LeftStraddleCost(u, t);
    x := t.left.right.start;
  }

  lemma {:induction false} WorstRunLevel0(n: nat) returns (x: nat)
    requires n > 3 * 0x1_0000_0000
    ensures 1 <= x < n
    ensures Cost(x - 1, x + 1, Shape(1, 0, n)) >= 67
  {
    if n <= 0x4_0000_0000 {
      x := WorstRunLopsided(n);
    } else {
      x := WorstRunDeep(n);
    }
  }

  lemma {:induction false} WorstRunLopsided(n: nat) returns (x: nat)
    requires 3 * 0x1_0000_0000 < n <= 0x4_0000_0000
    ensures 1 <= x < n
    ensures Cost(x - 1, x + 1, Shape(1, 0, n)) >= 67
  {
    assert Widen(1, 0) == 1;
    ShapeSound(1, 0, n);
    LopsidedShape(n);
    StraddleCost(1, Shape(1, 0, n));
    x := Shape(1, 0, n).right.start;
  }

  lemma {:induction false} WorstRunDeep(n: nat) returns (x: nat)
    requires n > 0x4_0000_0000
    ensures 1 <= x < n
    ensures Cost(x - 1, x + 1, Shape(1, 0, n)) >= 67
  {
    assert Widen(1, 0) == 1;
    ShapeSound(1, 0, n);
    LopsidedShape(n);
    DepthIff(1, 0, n, 34);
    WidenValues();
    LeftStraddleCost(1, Shape(1, 0, n));
    x := Shape(1, 0, n).left.right.start;
  }

  /** Every range set over a fitting tree stays under the bound. */
  lemma {:induction false} BoundHolds(rs: seq<GroupRange>, level: u8, n: u64)
    requires n >= 1 && |rs| <= U64_MAX && Canonical(rs) && Fits(level, n)
    ensures |Emitted(rs, Shape(StopWidth(level), 0, n))| <= UpperBound(rs, level)
  {
    StopWidthLevels(level);
    if level == 0 && n > 0x2_0000_0000 {
      FittingRunsLevel0(n);
    } else {
      FittingRuns(StopWidth(level), n);
    }
    SetFits(rs, level, n);
  }

  /** Over a tree that does not fit, two groups at its worst split cost more than the bound. */
  lemma {:induction false} BoundFails(level: u8, n: u64) returns (r: GroupRange)
    requires n >= 1 && !Fits(level, n)
    ensures Canonical([r]) && r.end == r.start + 2 && r.end <= n
    ensures |Emitted([r], Shape(StopWidth(level), 0, n))| > UpperBound([r], level)
  {
    StopWidthLevels(level);
    var u := StopWidth(level);
    var x: nat;
    if level == 0 {
      x := WorstRunLevel0(n);
    } else {
      x := WorstRun(u, n);
    }
    r := GroupRange(x - 1, x + 1);
    ShapeSound(u, 0, n);
    SingleEmitted(r, u, Shape(u, 0, n));
    TwoGroupBound(r, level);
  }

  lemma {:induction false} TwoGroupBound(r: GroupRange, level: u8)
    requires r.end == r.start + 2
    ensures UpperBound([r], level) == if level == 0 then 66 else 65
  {
    StopWidthLevels(level);
    CountIsCardinality([r]);
    assert Total([r]) == 2;
  }

  /** The bound covers every range set over a tree exactly when the tree fits. */
  lemma {:induction false} BoundExact(level: u8, n: u64)
    requires n >= 1
    ensures Fits(level, n) <==>
            forall rs: seq<GroupRange> :: |rs| <= U64_MAX && Canonical(rs) ==>
                                            |Emitted(rs, Shape(StopWidth(level), 0, n))| <= UpperBound(rs, level)
  {
    if Fits(level, n) {
      forall rs: seq<GroupRange> | |rs| <= U64_MAX && Canonical(rs)
        ensures |Emitted(rs, Shape(StopWidth(level), 0, n))| <= UpperBound(rs, level)
      {
        BoundHolds(rs, level, n);
      }
    } else {
      var r := BoundFails(level, n);
      var rs := [r];
      assert |rs| <= U64_MAX && Canonical(rs);
    }
  }
}
