/** Signed heads (`crates/synch-core/src/head.rs`): which head a node ends at, and what a signature covers. */
module Heads {
  import opened Words
  import opened Bytes

  /** 32 bytes. */
  type Hash = b: Bytes | |b| == 32 witness seq(32, i => 0)

  datatype Head = Head(seqno: u64, root: Hash)

  // ----- acceptance -----

  /** Lexicographic order on byte arrays of one length. */
  predicate Less(a: Bytes, b: Bytes)
    requires |a| == |b|
  {
    a != [] && (a[0] < b[0] || (a[0] == b[0] && Less(a[1..], b[1..])))
  }

  /** `(seq, root)` strictly greater. */
  predicate Above(a: Head, b: Head) {
    a.seqno > b.seqno || (a.seqno == b.seqno && Less(b.root, a.root))
  }

  predicate Supersedes(h: Head, current: Option<Head>) {
    current.None? || Above(h, current.value)
  }

  /** The head held after a run of heads, each kept only if it supersedes the one before. */
  function Held(start: Option<Head>, heads: seq<Head>): Option<Head> {
    if heads == [] then start
    else
      var before := Held(start, heads[..|heads| - 1]);
      var h := heads[|heads| - 1];
      if Supersedes(h, before) then Some(h) else before
  }

  lemma {:induction false} LessTotal(a: Bytes, b: Bytes)
    requires |a| == |b|
    ensures Less(a, b) || a == b || Less(b, a)
    ensures !(Less(a, b) && Less(b, a)) && !Less(a, a)
  {
    if a != [] {
      LessTotal(a[1..], b[1..]);
      assert a == [a[0]] + a[1..] && b == [b[0]] + b[1..];
    }
  }

  lemma {:induction false} LessTransitive(a: Bytes, b: Bytes, c: Bytes)
    requires |a| == |b| == |c| && Less(a, b) && Less(b, c)
    ensures Less(a, c)
  {
    if a[0] == b[0] == c[0] {
      LessTransitive(a[1..], b[1..], c[1..]);
    }
  }

  /** The order of byte arrays is that of the big-endian numbers they spell. */
  lemma {:induction false} LessIsNumeric(a: Bytes, b: Bytes)
    requires |a| == |b|
    ensures Less(a, b) <==> FromBE(a) < FromBE(b)
  {
    if a != [] {
      var p := Pow256(|a| - 1);
      FromBEFirst(a);
      FromBEFirst(b);
      LessIsNumeric(a[1..], b[1..]);
      if a[0] < b[0] {
        Gap(a[0], b[0], p);
      } else if b[0] < a[0] {
        Gap(b[0], a[0], p);
      }
    }
  }

  lemma {:induction false} Gap(a: nat, b: nat, p: nat)
    requires a < b
    ensures a * p + p <= b * p
  {
    Spread(p, a, b);
  }

  /** `h` is at least `g`, by sequence number and then by the root as a 256-bit number. */
  predicate NoLess(h: Head, g: Head) {
    g.seqno < h.seqno || (g.seqno == h.seqno && FromBE(g.root) <= FromBE(h.root))
  }

  lemma {:induction false} AtMostIff(a: Head, b: Head)
    ensures AtMost(a, b) <==> NoLess(b, a)
  {
    LessIsNumeric(a.root, b.root);
    BEOfBytes(a.root);
    BEOfBytes(b.root);
    assert FromBE(a.root) == FromBE(b.root) ==> a.root == b.root;
  }

  predicate AtMost(a: Head, b: Head) {
    a == b || Above(b, a)
  }

  lemma {:induction false} AtMostChain(a: Head, b: Head, c: Head)
    requires AtMost(a, b) && AtMost(b, c)
    ensures AtMost(a, c)
  {
    if a != b && b != c && a.seqno == b.seqno == c.seqno {
      LessTransitive(a.root, b.root, c.root);
    }
  }

  lemma {:induction false} AtMostTotal(a: Head, b: Head)
    ensures AtMost(a, b) || AtMost(b, a)
    ensures AtMost(a, b) && AtMost(b, a) ==> a == b
  {
    LessTotal(a.root, b.root);
  }

  /** The greatest of the heads seen. */
  predicate Greatest(h: Head, heads: seq<Head>) {
    h in heads && forall i :: 0 <= i < |heads| ==> AtMost(heads[i], h)
  }

  lemma {:induction false} GreatestHeld(heads: seq<Head>)
    requires heads != []
    ensures Held(None, heads).Some? && Greatest(Held(None, heads).value, heads)
  {
    var front, h := heads[..|heads| - 1], heads[|heads| - 1];
    if front != [] {
      GreatestHeld(front);
      var g := Held(None, front).value;
      AtMostTotal(h, g);
      if Supersedes(h, Some(g)) {
        forall i | 0 <= i < |heads|
          ensures AtMost(heads[i], h)
        {
          if i < |front| {
            AtMostChain(front[i], g, h);
          }
        }
      }
    }
  }

  /**
   * Whatever the order and the repeats, a node ends at the greatest head it saw: the one with the greatest sequence
   * number and, among those, the greatest root.
   */
  lemma {:induction false} HeldIsGreatest(heads: seq<Head>)
    requires heads != []
    ensures Held(None, heads).Some? && Held(None, heads).value in heads
    ensures forall i :: 0 <= i < |heads| ==> NoLess(Held(None, heads).value, heads[i])
  {
    GreatestHeld(heads);
    forall i | 0 <= i < |heads|
      ensures NoLess(Held(None, heads).value, heads[i])
    {
      AtMostIff(heads[i], Held(None, heads).value);
    }
  }

  /** So nodes that saw the same heads agree. */
  lemma {:induction false} HeldAgrees(a: seq<Head>, b: seq<Head>)
    requires forall h :: h in a <==> h in b
    ensures Held(None, a) == Held(None, b)
  {
    assert a != [] ==> a[0] in b;
    assert b != [] ==> b[0] in a;
    if a != [] && b != [] {
      GreatestHeld(a);
      GreatestHeld(b);
      AtMostTotal(Held(None, a).value, Held(None, b).value);
    }
  }

  /** A held head only ever gives way to a greater one. */
  lemma {:induction false} HeldNeverRegresses(start: Head, heads: seq<Head>)
    ensures Held(Some(start), heads).Some? && NoLess(Held(Some(start), heads).value, start)
    ensures Held(Some(start), heads).value == start || Held(Some(start), heads).value in heads
    ensures forall i :: 0 <= i < |heads| ==> NoLess(Held(Some(start), heads).value, heads[i])
  {
    if heads != [] {
      HeldNeverRegresses(start, heads[..|heads| - 1]);
      var before, last := Held(Some(start), heads[..|heads| - 1]).value, heads[|heads| - 1];
      AtMostTotal(last, before);
      AtMostIff(last, before);
      AtMostIff(before, last);
    }
  }

  // ----- the signing input -----

  const DOMAIN: Bytes := [0x73, 0x79, 0x6E, 0x63, 0x2D, 0x68, 0x65, 0x61, 0x64, 0x2F, 0x31]

  function FromI64(v: i64): u64 {
    if v < 0 then v + 0x1_0000_0000_0000_0000 else v
  }

  /** The byte string a head signature covers, given the origin's canonical rendering. */
  function SigningInput(origin: Bytes, seqno: u64, root: Hash, createdAt: i64, signedBy: Hash): Bytes {
    DOMAIN + (LE(|origin|, 4) + (origin + (LE(seqno, 8) + (root + (LE(FromI64(createdAt), 8) + signedBy)))))
  }

  lemma {:induction false} CancelFront(a: Bytes, b: Bytes, x: Bytes, y: Bytes)
    requires |a| == |b| && a + x == b + y
    ensures a == b && x == y
  {
    assert a == (a + x)[..|a|] && b == (b + y)[..|a|];
    assert x == (a + x)[|a|..] && y == (b + y)[|a|..];
  }

  /** Where each field stands in what is signed. */
  lemma {:induction false} SigningLayout(origin: Bytes, seqno: u64, root: Hash, createdAt: i64, signedBy: Hash)
    requires |origin| < 0x1_0000_0000
    ensures var input, n := SigningInput(origin, seqno, root, createdAt, signedBy), |origin|;
            && |input| == n + 95 && input[..11] == DOMAIN
            && FromLE(input[11..15]) == n && input[15..n + 15] == origin
            && FromLE(input[n + 15..n + 23]) == seqno && input[n + 23..n + 55] == root
            && FromLE(input[n + 55..n + 63])
               == (if createdAt < 0 then createdAt + 0x1_0000_0000_0000_0000 else createdAt)
            && input[n + 63..] == signedBy
  {
    var n, time := |origin|, LE(FromI64(createdAt), 8);
    var f := time + signedBy;
    var e := root + f;
    var d := LE(seqno, 8) + e;
    var c := origin + d;
    Pow256Values();
    LERoundTrip(n, 4);
    LERoundTrip(seqno, 8);
    LERoundTrip(FromI64(createdAt), 8);
    Shifted(DOMAIN, LE(n, 4), c);
    Shifted(DOMAIN + LE(n, 4), origin, d);
    Shifted(DOMAIN + LE(n, 4) + origin, LE(seqno, 8), e);
    Shifted(DOMAIN + LE(n, 4) + origin + LE(seqno, 8), root, f);
    Shifted(DOMAIN + LE(n, 4) + origin + LE(seqno, 8) + root, time, signedBy);
  }

  lemma {:induction false} Shifted(a: Bytes, b: Bytes, c: Bytes)
    ensures a + (b + c) == (a + b) + c
    ensures (a + (b + c))[..|a|] == a && (a + (b + c))[|a|..|a| + |b|] == b && (a + (b + c))[|a| + |b|..] == c
  {
  }

  lemma {:induction false} LEInjective(v: nat, w: nat, n: nat)
    requires v < Pow256(n) && w < Pow256(n) && LE(v, n) == LE(w, n)
    ensures v == w
  {
    LERoundTrip(v, n);
    LERoundTrip(w, n);
  }

  /** No two assignments of the five fields are signed as the same bytes. */
  lemma {:induction false} SigningInputInjective(
      o: Bytes, s: u64, r: Hash, c: i64, k: Hash, o': Bytes, s': u64, r': Hash, c': i64, k': Hash)
    requires |o| < 0x1_0000_0000 && |o'| < 0x1_0000_0000
    requires SigningInput(o, s, r, c, k) == SigningInput(o', s', r', c', k')
    ensures o == o' && s == s' && r == r' && c == c' && k == k'
  {
    Pow256Values();
    var e, e' := LE(FromI64(c), 8) + k, LE(FromI64(c'), 8) + k';
    var d, d' := LE(s, 8) + (r + e), LE(s', 8) + (r' + e');
    CancelFront(DOMAIN, DOMAIN, LE(|o|, 4) + (o + d), LE(|o'|, 4) + (o' + d'));
    CancelFront(LE(|o|, 4), LE(|o'|, 4), o + d, o' + d');
    LEInjective(|o|, |o'|, 4);
    CancelFront(o, o', d, d');
    CancelFront(LE(s, 8), LE(s', 8), r + e, r' + e');
    LEInjective(s, s', 8);
    CancelFront(r, r', e, e');
    CancelFront(LE(FromI64(c), 8), LE(FromI64(c'), 8), k, k');
    LEInjective(FromI64(c), FromI64(c'), 8);
  }
}
