/** llc's store budget as `crates/synch-cc/src/lower.rs` models it: how few stores a memory intrinsic takes. */
module Budget {
  const LLC_STORE_BUDGET := 128

  function Ones(n: nat): nat {
    if n == 0 then 0 else n % 2 + Ones(n / 2)
  }

  predicate PowerOfTwo(n: nat) {
    n == 1 || (n > 1 && n % 2 == 0 && PowerOfTwo(n / 2))
  }

  /** Stores are as wide as the alignment allows, up to eight bytes. */
  function Width(align: nat): nat {
    if PowerOfTwo(align) then if align <= 8 then align else 8 else 1
  }

  lemma {:induction false} WidthIsPower(align: nat)
    ensures PowerOfTwo(Width(align))
  {
    assert PowerOfTwo(2) && PowerOfTwo(4);
  }

  /** Whole stores, then one for each bit of what is left. */
  function Stores(len: nat, width: nat): nat
    requires width > 0
  {
    len / width + Ones(len % width)
  }

  predicate FitsBudget(len: nat, align: nat) {
    WidthIsPower(align);
    Stores(len, Width(align)) <= LLC_STORE_BUDGET
  }

  /** Stores of power-of-two sizes, none wider than `width`. */
  predicate Expansion(sizes: seq<nat>, width: nat) {
    forall i :: 0 <= i < |sizes| ==> PowerOfTwo(sizes[i]) && sizes[i] <= width
  }

  function Sum(sizes: seq<nat>): nat {
    if sizes == [] then 0 else Sum(sizes[..|sizes| - 1]) + sizes[|sizes| - 1]
  }

  /** A sum has no more bits than its terms have together. */
  lemma {:induction false} OnesOfSum(a: nat, b: nat)
    ensures Ones(a + b) <= Ones(a) + Ones(b)
    decreases a + b
  {
    if a > 0 && b > 0 {
      OnesOfSum(a / 2, b / 2);
      assert Ones(a) == a % 2 + Ones(a / 2) && Ones(b) == b % 2 + Ones(b / 2);
      if a % 2 == 1 && b % 2 == 1 {
        OnesOfSum(a / 2 + b / 2, 1);
        assert (a + b) / 2 == a / 2 + b / 2 + 1;
        assert Ones(1) == 1;
      } else {
        assert (a + b) / 2 == a / 2 + b / 2;
      }
    }
  }

  /** A power of two above a remainder is one more bit. */
  lemma {:induction false} OnesAbove(w: nat, x: nat)
    requires PowerOfTwo(w) && x < w
    ensures Ones(w + x) == 1 + Ones(x)
  {
    if w > 1 {
      OnesAbove(w / 2, x / 2);
      assert (w + x) / 2 == w / 2 + x / 2;
    } else {
      assert Ones(1) == 1;
    }
  }

  /** Adding a power of two to a remainder sets at most one more bit, and a carry out none. */
  lemma {:induction false} BitsAfter(r: nat, s: nat, w: nat)
    requires PowerOfTwo(w) && r < w && PowerOfTwo(s) && s <= w
    ensures r + s < w ==> Ones(r + s) <= Ones(r) + 1
    ensures r + s >= w ==> Ones(r + s - w) <= Ones(r)
  {
    OnesOfSum(r, s);
    OnesAbove(s, 0);
    if r + s >= w {
      OnesAbove(w, r + s - w);
    }
  }

  lemma {:induction false} Distribute(w: nat, q: nat)
    ensures w * (q + 1) == w * q + w
  {
  }

  lemma {:induction false} Divided(len: nat, w: nat) returns (q: nat, r: nat)
    requires w > 0
    ensures q == len / w && r == len % w && r < w && len == w * q + r
  {
    q, r := len / w, len % w;
  }

  lemma {:induction false} StoresOf(len: nat, w: nat, q: nat, r: nat)
    requires r < w && len == w * q + r
    ensures Stores(len, w) == q + Ones(r)
  {
    QuotientOf(len, w, q, r);
  }

  lemma {:induction false} QuotientOf(len: nat, w: nat, q: nat, r: nat)
    requires r < w && len == w * q + r
    ensures len / w == q && len % w == r
  {
    var p, m := Divided(len, w);
    if p < q {
      Apart(w, p, q);
    } else if q < p {
      Apart(w, q, p);
    }
  }

  lemma {:induction false} Apart(w: nat, p: nat, q: nat)
    requires p < q
    ensures w * q >= w * p + w
  {
    Distribute(w, q - 1);
    if p < q - 1 {
      Apart(w, p, q - 1);
    }
  }

  lemma {:induction false} Carried(len: nat, w: nat, q: nat, r: nat, s: nat)
    requires PowerOfTwo(w) && r < w && PowerOfTwo(s) && s <= w && len == w * q + r
    ensures Stores(len + s, w) <= q + Ones(r) + 1
  {
    BitsAfter(r, s, w);
    if r + s < w {
      StoresOf(len + s, w, q, r + s);
    } else {
      Distribute(w, q);
      StoresOf(len + s, w, q + 1, r + s - w);
    }
  }

  /** One more store adds at most one to the count. */
  lemma {:induction false} OneMoreStore(len: nat, s: nat, w: nat)
    requires PowerOfTwo(w) && PowerOfTwo(s) && s <= w
    ensures Stores(len + s, w) <= Stores(len, w) + 1
  {
    var q, r := Divided(len, w);
    Carried(len, w, q, r, s);
  }

  /** No expansion of a length into stores of these sizes is shorter than the count. */
  lemma {:induction false} StoresAreFewest(sizes: seq<nat>, w: nat)
    requires PowerOfTwo(w) && Expansion(sizes, w)
    ensures Stores(Sum(sizes), w) <= |sizes|
  {
    if sizes != [] {
      StoresAreFewest(sizes[..|sizes| - 1], w);
      OneMoreStore(Sum(sizes[..|sizes| - 1]), sizes[|sizes| - 1], w);
    } else {
      StoresOf(0, w, 0, 0);
    }
  }

  lemma {:induction false} SumConcat(a: seq<nat>, b: seq<nat>)
    ensures Sum(a + b) == Sum(a) + Sum(b)
    decreases |b|
  {
    if b == [] {
      assert a + b == a;
    } else {
      SumConcat(a, b[..|b| - 1]);
      assert (a + b)[..|a + b| - 1] == a + b[..|b| - 1];
    }
  }

  /** A store of size `s` if the bit for it is set. */
  function Bit(on: bool, s: nat): seq<nat> {
    if on then [s] else []
  }

  /** The stores for what is left after the whole ones, one for each bit, each `s` times the bit. */
  function Tail(r: nat, s: nat): seq<nat> {
    if r == 0 then [] else Bit(r % 2 == 1, s) + Tail(r / 2, 2 * s)
  }

  lemma {:induction false} BitStores(on: bool, s: nat, rest: seq<nat>)
    ensures Sum(Bit(on, s) + rest) == (if on then s else 0) + Sum(rest)
    ensures |Bit(on, s) + rest| == (if on then 1 else 0) + |rest|
  {
    SumConcat(Bit(on, s), rest);
    assert [s][..0] == [];
  }

  lemma {:induction false} ExpansionConcat(a: seq<nat>, b: seq<nat>, w: nat)
    requires Expansion(a, w) && Expansion(b, w)
    ensures Expansion(a + b, w)
  {
  }

  lemma {:induction false} Halved(r: nat, s: nat)
    ensures s * r == (2 * s) * (r / 2) + (if r % 2 == 1 then s else 0)
  {
    var q, b := r / 2, r % 2;
    assert r == 2 * q + b;
    assert s * r == s * (2 * q) + s * b;
    assert s * (2 * q) == (2 * s) * q;
  }

  lemma {:induction false} TailStores(r: nat, s: nat)
    ensures Sum(Tail(r, s)) == s * r && |Tail(r, s)| == Ones(r)
    decreases r
  {
    if r > 0 {
      TailStores(r / 2, 2 * s);
      BitStores(r % 2 == 1, s, Tail(r / 2, 2 * s));
      Halved(r, s);
    }
  }

  lemma {:induction false} Doubles(s: nat)
    requires PowerOfTwo(s)
    ensures PowerOfTwo(2 * s)
  {
    assert 2 * s / 2 == s && 2 * s % 2 == 0;
  }

  predicate Powers(sizes: seq<nat>) {
    forall i :: 0 <= i < |sizes| ==> PowerOfTwo(sizes[i])
  }

  lemma {:induction false} PowersConcat(a: seq<nat>, b: seq<nat>)
    requires Powers(a) && Powers(b)
    ensures Powers(a + b)
  {
  }

  lemma {:induction false} TailPowers(r: nat, s: nat)
    requires PowerOfTwo(s)
    ensures Powers(Tail(r, s))
    decreases r
  {
    if r > 0 {
      Doubles(s);
      var rest := Tail(r / 2, 2 * s);
      TailPowers(r / 2, 2 * s);
      PowersConcat(Bit(r % 2 == 1, s), rest);
    }
  }

  lemma {:induction false} AtMostSum(sizes: seq<nat>, i: nat)
    requires i < |sizes|
    ensures sizes[i] <= Sum(sizes)
  {
    if i < |sizes| - 1 {
      AtMostSum(sizes[..|sizes| - 1], i);
    }
  }

  lemma {:induction false} TailFits(r: nat, w: nat)
    requires r < w
    ensures Expansion(Tail(r, 1), w)
  {
    TailPowers(r, 1);
    TailStores(r, 1);
    forall i | 0 <= i < |Tail(r, 1)|
      ensures Tail(r, 1)[i] <= w
    {
      AtMostSum(Tail(r, 1), i);
    }
  }

  function Whole(w: nat, q: nat): (sizes: seq<nat>)
    ensures |sizes| == q
  {
    if q == 0 then [] else Whole(w, q - 1) + [w]
  }

  lemma {:induction false} WholeSum(w: nat, q: nat)
    ensures Sum(Whole(w, q)) == w * q
  {
    if q > 0 {
      WholeSum(w, q - 1);
      Distribute(w, q - 1);
      assert Whole(w, q)[..q - 1] == Whole(w, q - 1);
    }
  }

  lemma {:induction false} WholeStores(w: nat, q: nat)
    requires PowerOfTwo(w)
    ensures Expansion(Whole(w, q), w)
  {
    if q > 0 {
      WholeStores(w, q - 1);
    }
  }

  lemma {:induction false} EnoughFor(w: nat, q: nat, r: nat)
    requires PowerOfTwo(w) && r < w
    ensures var sizes := Whole(w, q) + Tail(r, 1);
            Expansion(sizes, w) && Sum(sizes) == w * q + r && |sizes| == q + Ones(r)
  {
    WholeStores(w, q);
    WholeSum(w, q);
    TailFits(r, w);
    TailStores(r, 1);
    ExpansionConcat(Whole(w, q), Tail(r, 1), w);
    SumConcat(Whole(w, q), Tail(r, 1));
  }

  /** The count is reached. */
  lemma {:induction false} StoresAreEnough(len: nat, w: nat) returns (sizes: seq<nat>)
    requires PowerOfTwo(w)
    ensures Expansion(sizes, w) && Sum(sizes) == len && |sizes| == Stores(len, w)
  {
    var q, r := Divided(len, w);
    EnoughFor(w, q, r);
    sizes := Whole(w, q) + Tail(r, 1);
  }

  /** Wider stores never need more of them: what is kept under the budget fits any backend that stores wider. */
  lemma {:induction false} WiderIsFewer(len: nat, w: nat, wider: nat)
    requires PowerOfTwo(w) && PowerOfTwo(wider) && w <= wider
    ensures Stores(len, wider) <= Stores(len, w)
  {
    var sizes := StoresAreEnough(len, w);
    StoresAreFewest(sizes, wider);
  }

  lemma {:induction false} KeptFitsWider(len: nat, align: nat, wider: nat)
    requires FitsBudget(len, align) && PowerOfTwo(wider) && Width(align) <= wider
    ensures Stores(len, wider) <= LLC_STORE_BUDGET
  {
    WidthIsPower(align);
    WiderIsFewer(len, Width(align), wider);
  }
}
