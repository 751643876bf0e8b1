/** Byte strings and the fixed-width integer layouts the sources read and write. */
module Bytes {
  import opened Words

  type Bytes = seq<u8>

  /** `256^n`. */
  function Pow256(n: nat): (p: nat)
    ensures p >= 1
  {
    if n == 0 then 1 else 256 * Pow256(n - 1)
  }

  lemma {:induction false} Pow256Values()
    ensures Pow256(1) == 0x100 && Pow256(2) == 0x1_0000 && Pow256(4) == 0x1_0000_0000
    ensures Pow256(8) == 0x1_0000_0000_0000_0000
  {
    assert Pow256(2) == 0x1_0000;
    assert Pow256(4) == 0x1_0000_0000;
    assert Pow256(6) == 0x1_0000_0000_0000;
  }

  /** The low `n` bytes of `v`, least significant first. */
  function LE(v: nat, n: nat): (b: Bytes)
    ensures |b| == n
  {
    if n == 0 then [] else [v % 256] + LE(v / 256, n - 1)
  }

  function FromLE(b: Bytes): (v: nat)
    ensures v < Pow256(|b|)
  {
    if b == [] then 0 else b[0] + 256 * FromLE(b[1..])
  }

  /** The low `n` bytes of `v`, most significant first. */
  function BE(v: nat, n: nat): (b: Bytes)
    ensures |b| == n
    decreases n, v
  {
    if n == 0 then [] else BE(v / 256, n - 1) + [v % 256]
  }

  function FromBE(b: Bytes): (v: nat)
    ensures v < Pow256(|b|)
  {
    if b == [] then 0 else 256 * FromBE(b[..|b| - 1]) + b[|b| - 1]
  }

  lemma {:induction false} LERoundTrip(v: nat, n: nat)
    requires v < Pow256(n)
    ensures FromLE(LE(v, n)) == v
    decreases n
  {
    if n > 0 {
      LERoundTrip(v / 256, n - 1);
      assert LE(v, n)[1..] == LE(v / 256, n - 1);
    }
  }

  lemma {:induction false} LEOfBytes(b: Bytes)
    ensures LE(FromLE(b), |b|) == b
  {
    if b != [] {
      var v := FromLE(b[1..]);
      LEOfBytes(b[1..]);
      assert (b[0] + 256 * v) % 256 == b[0] && (b[0] + 256 * v) / 256 == v;
      assert b == [b[0]] + b[1..];
    }
  }

  lemma {:induction false} BERoundTrip(v: nat, n: nat)
    requires v < Pow256(n)
    ensures FromBE(BE(v, n)) == v
    decreases n
  {
    if n > 0 {
      BERoundTrip(v / 256, n - 1);
      assert BE(v, n)[..n - 1] == BE(v / 256, n - 1);
    }
  }

  lemma {:induction false} BEOfBytes(b: Bytes)
    ensures BE(FromBE(b), |b|) == b
  {
    if b != [] {
      var front, last := b[..|b| - 1], b[|b| - 1];
      var v := FromBE(front);
      BEOfBytes(front);
      assert (256 * v + last) / 256 == v && (256 * v + last) % 256 == last;
      assert b == front + [last];
    }
  }

  // ----- where the bytes of an integer are -----

  /** Byte `i` of a little-endian integer is the one worth `256^i`. */
  lemma {:induction false} LEByte(v: nat, n: nat, i: nat)
    requires i < n
    ensures LE(v, n)[i] == v / Pow256(i) % 256
    decreases n
  {
    if i > 0 {
      LEByte(v / 256, n - 1, i - 1);
      DivideTwice(v, 256, Pow256(i - 1));
    }
  }

  /** Byte `i` of a big-endian one is worth `256^(n - 1 - i)`. */
  lemma {:induction false} BEByte(v: nat, n: nat, i: nat)
    requires i < n
    ensures BE(v, n)[i] == v / Pow256(n - 1 - i) % 256
    decreases n
  {
    if i < n - 1 {
      BEByte(v / 256, n - 1, i);
      DivideTwice(v, 256, Pow256(n - 2 - i));
    }
  }

  lemma {:induction false} DivideTwice(v: nat, a: nat, b: nat)
    requires a > 0 && b > 0
    ensures a * b > 0 && v / a / b == v / (a * b)
  {
    var q, r := v / a, v % a;
    var s, t := q / b, q % b;
    assert v == a * q + r && q == b * s + t;
    Expand(a, b, s, t);
    FactorBelow(a, t, b);
    Quotient(v, a * b, s, a * t + r);
  }

  lemma {:induction false} Expand(a: nat, b: nat, s: nat, t: nat)
    ensures a * (b * s + t) == a * b * s + a * t
  {
  }

  lemma {:induction false} FactorBelow(a: nat, t: nat, b: nat)
    requires a > 0 && t < b
    ensures a * b > 0 && a * t + a <= a * b
  {
    Spread(a, t, b);
  }

  lemma {:induction false} Quotient(v: nat, d: nat, q: nat, r: nat)
    requires r < d && v == d * q + r
    ensures v / d == q && v % d == r
  {
    var p, m := v / d, v % d;
    assert v == d * p + m;
    if p < q {
      Spread(d, p, q);
    } else if q < p {
      Spread(d, q, p);
    }
  }

  lemma {:induction false} Spread(d: nat, p: nat, q: nat)
    requires p < q
    ensures d * q >= d * p + d
  {
    assert d * q == d * (q - 1) + d;
    if p < q - 1 {
      Spread(d, p, q - 1);
    }
  }

  /** The first byte of a big-endian integer is worth the most. */
  lemma {:induction false} FromBEFirst(b: Bytes)
    requires b != []
    ensures FromBE(b) == b[0] * Pow256(|b| - 1) + FromBE(b[1..])
  {
    if |b| > 1 {
      var front := b[..|b| - 1];
      FromBEFirst(front);
      assert front[1..] == b[1..][..|b| - 2];
      Scaled(b[0], Pow256(|b| - 2), FromBE(front[1..]), b[|b| - 1]);
    }
  }

  lemma {:induction false} Scaled(x: nat, p: nat, y: nat, z: nat)
    ensures 256 * (x * p + y) + z == x * (256 * p) + (256 * y + z)
  {
  }

  // ----- two's complement -----

  function ToI32(v: nat): (r: i32)
    requires v < 0x1_0000_0000
  {
    if v < 0x8000_0000 then v else v - 0x1_0000_0000
  }

  function FromI32(v: i32): (r: nat)
    ensures r < 0x1_0000_0000 && ToI32(r) == v
  {
    if v < 0 then v + 0x1_0000_0000 else v
  }

  // ----- outcomes -----

  datatype Result<+T> = Ok(value: T) | Err(error: string) {
    predicate IsFailure() {
      Err?
    }

    function PropagateFailure<U>(): Result<U>
      requires Err?
    {
      Err(error)
    }

    function Extract(): T
      requires Ok?
    {
      value
    }
  }

  datatype Option<+T> = None | Some(value: T)

  // ----- collecting outcomes -----

  /** The first `n` outcomes of `f` together, or the first of them that is an error. */
  function Collect<T>(f: nat -> Result<T>, n: nat): (r: Result<seq<T>>)
    ensures r.Ok? ==> |r.value| == n
  {
    if n == 0 then Ok([])
    else
      var init :- Collect(f, n - 1);
      var last :- f(n - 1);
      Ok(init + [last])
  }

  lemma {:induction false} CollectErr<T>(f: nat -> Result<T>, m: nat, n: nat)
    requires m <= n && Collect(f, m).Err?
    ensures Collect(f, n) == Collect(f, m)
    decreases n
  {
    if m < n {
      CollectErr(f, m, n - 1);
    }
  }

  lemma {:induction false} CollectOk<T>(f: nat -> Result<T>, n: nat, want: seq<T>)
    requires |want| == n && forall i :: 0 <= i < n ==> f(i) == Ok(want[i])
    ensures Collect(f, n) == Ok(want)
    decreases n
  {
    if n > 0 {
      CollectOk(f, n - 1, want[..n - 1]);
      assert want == want[..n - 1] + [want[n - 1]];
    }
  }

  lemma {:induction false} CollectEach<T>(f: nat -> Result<T>, n: nat, i: nat)
    requires i < n && Collect(f, n).Ok?
    ensures f(i) == Ok(Collect(f, n).value[i])
    decreases n
  {
    if i < n - 1 {
      CollectEach(f, n - 1, i);
    }
  }

  // ----- searching -----

  /** The first index whose element satisfies `p`. */
  function Position<T>(s: seq<T>, p: T -> bool): (r: Option<nat>)
    ensures r.Some? ==> r.value < |s| && p(s[r.value]) && forall j :: 0 <= j < r.value ==> !p(s[j])
    ensures r.None? ==> forall j :: 0 <= j < |s| ==> !p(s[j])
  {
    if s == [] then None
    else if p(s[0]) then Some(0)
    else
      match Position(s[1..], p)
      case None => None
      case Some(k) => Some(k + 1)
  }

  lemma {:induction false} PositionSame<T>(a: seq<T>, b: seq<T>, p: T -> bool, q: T -> bool)
    requires |a| == |b| && forall i :: 0 <= i < |a| ==> p(a[i]) == q(b[i])
    ensures Position(a, p) == Position(b, q)
  {
    if a != [] {
      forall i | 0 <= i < |a[1..]|
        ensures p(a[1..][i]) == q(b[1..][i])
      {
        assert p(a[i + 1]) == q(b[i + 1]);
      }
      PositionSame(a[1..], b[1..], p, q);
    }
  }
}
