/** Encodings that can be read back wherever they stand, and runs of them. */
module Codec {
  import opened Bytes

  /** The bytes `e` stand at `pos`. */
  predicate At(data: Bytes, pos: nat, e: Bytes) {
    pos + |e| <= |data| && data[pos..pos + |e|] == e
  }

  lemma {:induction false} AtSplit(data: Bytes, pos: nat, a: Bytes, b: Bytes)
    ensures At(data, pos, a + b) <==> At(data, pos, a) && At(data, pos + |a|, b)
  {
    if At(data, pos, a + b) {
      var e := data[pos..pos + |a| + |b|];
      assert data[pos..pos + |a|] == e[..|a|] && data[pos + |a|..pos + |a| + |b|] == e[|a|..];
    }
    if At(data, pos, a) && At(data, pos + |a|, b) {
      assert data[pos..pos + |a| + |b|] == data[pos..pos + |a|] + data[pos + |a|..pos + |a| + |b|];
    }
  }

  lemma {:induction false} AtWhole(e: Bytes)
    ensures At(e, 0, e)
  {
    assert e[0..|e|] == e;
  }

  /** The big-endian integer of `n` bytes at `pos`. */
  function Word(data: Bytes, pos: nat, n: nat): nat
    requires pos + n <= |data|
  {
    FromBE(data[pos..pos + n])
  }

  /** The word read is the word written. */
  lemma {:induction false} WordIff(data: Bytes, pos: nat, v: nat, n: nat)
    requires v < Pow256(n)
    ensures At(data, pos, BE(v, n)) <==> pos + n <= |data| && Word(data, pos, n) == v
  {
    BERoundTrip(v, n);
    if pos + n <= |data| {
      BEOfBytes(data[pos..pos + n]);
    }
  }

  // ----- readers -----

  /** Reads one item at a position: the item and the position after it. */
  type Reader<!T> = nat -> Option<(T, nat)>

  function EncodeMany<T>(encode: T -> Bytes, ts: seq<T>): Bytes {
    if ts == [] then [] else EncodeMany(encode, ts[..|ts| - 1]) + encode(ts[|ts| - 1])
  }

  function ReadMany<T>(read: Reader<T>, pos: nat, n: nat): (r: Option<(seq<T>, nat)>)
    ensures r.Some? ==> |r.value.0| == n
  {
    if n == 0 then Some(([], pos))
    else match ReadMany(read, pos, n - 1)
      case None => None
      case Some((ts, q)) =>
        match read(q)
        case None => None
        case Some((t, q')) => Some((ts + [t], q'))
  }

  /** Acceptable and encoded from `p` up to `q`. */
  predicate Spelled<T>(data: Bytes, encode: T -> Bytes, ok: T -> bool, p: nat, t: T, q: nat) {
    ok(t) && At(data, p, encode(t)) && q == p + |encode(t)|
  }

  /** The reader finds an item exactly where its encoding stands. */
  ghost predicate Reads<T(!new)>(data: Bytes, read: Reader<T>, encode: T -> Bytes, ok: T -> bool) {
    forall p: nat, t: T, q: nat :: Spelled(data, encode, ok, p, t, q) <==> read(p) == Some((t, q))
  }

  predicate All<T>(ok: T -> bool, ts: seq<T>) {
    forall i :: 0 <= i < |ts| ==> ok(ts[i])
  }

  predicate SpelledMany<T>(data: Bytes, encode: T -> Bytes, ok: T -> bool, p: nat, ts: seq<T>, q: nat) {
    All(ok, ts) && At(data, p, EncodeMany(encode, ts)) && q == p + |EncodeMany(encode, ts)|
  }

  lemma {:induction false} SpelledNext<T>(
      data: Bytes, encode: T -> Bytes, ok: T -> bool, pos: nat, front: seq<T>, last: T, m: nat, q: nat)
    requires m == pos + |EncodeMany(encode, front)|
    ensures SpelledMany(data, encode, ok, pos, front + [last], q)
       <==> SpelledMany(data, encode, ok, pos, front, m) && Spelled(data, encode, ok, m, last, q)
  {
    var ts := front + [last];
    assert ts[..|ts| - 1] == front;
    AtSplit(data, pos, EncodeMany(encode, front), encode(last));
    assert forall i :: 0 <= i < |front| ==> ts[i] == front[i];
  }

  lemma {:induction false} ReadNext<T>(read: Reader<T>, pos: nat, front: seq<T>, last: T, q: nat)
    ensures ReadMany(read, pos, |front| + 1) == Some((front + [last], q))
       <==> ReadMany(read, pos, |front|).Some? && ReadMany(read, pos, |front|).value.0 == front
            && read(ReadMany(read, pos, |front|).value.1) == Some((last, q))
  {
    var r := ReadMany(read, pos, |front|);
    if r.Some? && read(r.value.1).Some? {
      var (t, q') := read(r.value.1).value;
      assert r.value.0 + [t] == front + [last] <==> r.value.0 == front && t == last by {
        assert (r.value.0 + [t])[..|front|] == r.value.0 && (front + [last])[..|front|] == front;
        assert (r.value.0 + [t])[|front|] == t && (front + [last])[|front|] == last;
      }
    }
  }

  /** A run read is a run written, item by item, both ways. */
  lemma {:induction false} ReadManyIff<T(!new)>(
      data: Bytes, read: Reader<T>, encode: T -> Bytes, ok: T -> bool, pos: nat, ts: seq<T>, q: nat)
    requires Reads(data, read, encode, ok) && pos <= |data|
    ensures ReadMany(read, pos, |ts|) == Some((ts, q)) <==> SpelledMany(data, encode, ok, pos, ts, q)
    decreases |ts|
  {
    if ts != [] {
      var front, last := ts[..|ts| - 1], ts[|ts| - 1];
      var m := pos + |EncodeMany(encode, front)|;
      assert ts == front + [last];
      SpelledNext(data, encode, ok, pos, front, last, m, q);
      ReadNext(read, pos, front, last, q);
      ReadManyIff(data, read, encode, ok, pos, front, m);
      assert Spelled(data, encode, ok, m, last, q) <==> read(m) == Some((last, q));
      var r := ReadMany(read, pos, |front|);
      if r.Some? && r.value.0 == front {
        ReadManyIff(data, read, encode, ok, pos, front, r.value.1);
      }
    }
  }

  /** The reader finds every item whose encoding stands there, and perhaps others. */
  ghost predicate Recovers<T(!new)>(data: Bytes, read: Reader<T>, encode: T -> Bytes, ok: T -> bool) {
    forall p: nat, t: T, q: nat :: Spelled(data, encode, ok, p, t, q) ==> read(p) == Some((t, q))
  }

  lemma {:induction false} ReadManyBack<T(!new)>(
      data: Bytes, read: Reader<T>, encode: T -> Bytes, ok: T -> bool, pos: nat, ts: seq<T>, q: nat)
    requires Recovers(data, read, encode, ok) && SpelledMany(data, encode, ok, pos, ts, q)
    ensures ReadMany(read, pos, |ts|) == Some((ts, q))
    decreases |ts|
  {
    if ts != [] {
      var front, last := ts[..|ts| - 1], ts[|ts| - 1];
      var a, b := EncodeMany(encode, front), encode(last);
      assert ts == front + [last];
      AtSplit(data, pos, a, b);
      ReadManyBack(data, read, encode, ok, pos, front, pos + |a|);
      assert Spelled(data, encode, ok, pos + |a|, last, q);
    }
  }

  // ----- runs, one item at a time -----

  lemma {:induction false} EncodeNext<T>(encode: T -> Bytes, ts: seq<T>, i: nat)
    requires i < |ts|
    ensures EncodeMany(encode, ts[..i + 1]) == EncodeMany(encode, ts[..i]) + encode(ts[i])
  {
    assert ts[..i + 1][..i] == ts[..i];
  }

  lemma {:induction false} EncodePrefix<T>(encode: T -> Bytes, ts: seq<T>, k: nat)
    requires k <= |ts|
    ensures |EncodeMany(encode, ts[..k])| <= |EncodeMany(encode, ts)|
  {
    if k < |ts| {
      EncodePrefix(encode, ts[..|ts| - 1], k);
      assert ts[..|ts| - 1][..k] == ts[..k];
    } else {
      assert ts[..k] == ts;
    }
  }

  /** Every item takes part of the run. */
  lemma {:induction false} EncodeHolds<T>(encode: T -> Bytes, ts: seq<T>, i: nat)
    requires i < |ts|
    ensures |encode(ts[i])| <= |EncodeMany(encode, ts)|
  {
    if i < |ts| - 1 {
      EncodeHolds(encode, ts[..|ts| - 1], i);
    }
  }

  lemma {:induction false} EncodeCounted<T>(encode: T -> Bytes, ts: seq<T>)
    requires forall i :: 0 <= i < |ts| ==> |encode(ts[i])| >= 1
    ensures |ts| <= |EncodeMany(encode, ts)|
  {
    if ts != [] {
      EncodeCounted(encode, ts[..|ts| - 1]);
    }
  }

  lemma {:induction false} Associates(a: Bytes, b: Bytes, c: Bytes)
    ensures a + b + c == a + (b + c)
  {
  }
}
