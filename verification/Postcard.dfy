/** The postcard wire format, as far as delegation records use it: varints, zigzag, strings, lists and options. */
module Postcard {
  import opened Words
  import opened Bytes
  import opened Codec
  import opened Text

  // ----- varints -----

  /** Seven bits to a byte, lowest first, the high bit on all but the last. */
  function Varint(v: nat): (b: Bytes)
    ensures |b| >= 1
  {
    if v < 128 then [v] else [v % 128 + 128] + Varint(v / 128)
  }

  /** A 64-bit varint read from its `i`-th byte on: at most ten bytes, and of the tenth only one bit. */
  function ReadVarint(data: Bytes, p: nat, i: nat): (r: Option<(nat, nat)>)
    ensures r.Some? ==> p < r.value.1 <= |data|
    decreases 10 - i
  {
    if i >= 10 || p >= |data| then None
    else if data[p] < 128 then if i == 9 && data[p] > 1 then None else Some((data[p], p + 1))
    else
      match ReadVarint(data, p + 1, i + 1)
      case None => None
      case Some((v, q)) => Some((data[p] - 128 + 128 * v, q))
  }

  /** What ten bytes can hold from the `i`-th on: `2^(64 - 7i)`. */
  function Capacity(i: nat): nat
    requires i <= 9
    decreases 9 - i
  {
    if i == 9 then 2 else 128 * Capacity(i + 1)
  }

  lemma {:induction false} CapacityIsU64()
    ensures Capacity(0) == 0x1_0000_0000_0000_0000
  {
    assert Capacity(6) == 0x40_0000;
    assert Capacity(3) == 0x800_0000_0000;
  }

  lemma {:induction false} VarintRead(data: Bytes, p: nat, i: nat, v: nat)
    requires i <= 9 && v < Capacity(i) && At(data, p, Varint(v))
    ensures ReadVarint(data, p, i) == Some((v, p + |Varint(v)|))
    decreases v
  {
    var b := Varint(v);
    assert data[p] == data[p..p + |b|][0] == b[0];
    if v >= 128 {
      AtSplit(data, p, [v % 128 + 128], Varint(v / 128));
      assert b == [v % 128 + 128] + Varint(v / 128);
      VarintRead(data, p + 1, i + 1, v / 128);
    }
  }

  function Pow128(i: nat): (p: nat)
    ensures p >= 1
  {
    if i == 0 then 1 else 128 * Pow128(i - 1)
  }

  /** Byte `i` of a varint is worth `128^i`, all but the last are marked, and there is none too many. */
  lemma {:induction false} VarintByte(v: nat, i: nat)
    requires i < |Varint(v)|
    ensures Varint(v)[i] % 128 == v / Pow128(i) % 128 && (Varint(v)[i] >= 128 <==> i + 1 < |Varint(v)|)
    ensures i > 0 ==> v >= Pow128(i)
  {
    if v >= 128 {
      assert Varint(v) == [v % 128 + 128] + Varint(v / 128);
      if i > 0 {
        VarintByte(v / 128, i - 1);
        DivideTwice(v, 128, Pow128(i - 1));
        assert v >= 128 * (v / 128);
      }
    }
  }

  /** The widest varint that is read fits 64 bits. */
  lemma {:induction false} VarintFits(data: Bytes, p: nat, i: nat)
    requires i <= 9 && ReadVarint(data, p, i).Some?
    ensures ReadVarint(data, p, i).value.0 < Capacity(i)
    decreases 9 - i
  {
    if i < 9 {
      CapacityGrows(i);
      if data[p] >= 128 {
        VarintFits(data, p + 1, i + 1);
      }
    }
  }

  lemma {:induction false} CapacityGrows(i: nat)
    requires i <= 9
    ensures Capacity(i) >= 2 && (i < 9 ==> Capacity(i) >= 256)
    decreases 9 - i
  {
    if i < 9 {
      CapacityGrows(i + 1);
    }
  }

  // ----- zigzag -----

  function Zigzag(n: i64): (v: u64) {
    if n >= 0 then 2 * n else -2 * n - 1
  }

  function Unzigzag(v: u64): (n: i64)
    ensures Zigzag(n) == v
  {
    if v % 2 == 0 then v / 2 else -((v + 1) / 2)
  }

  lemma {:induction false} UnzigzagOf(n: i64)
    ensures Unzigzag(Zigzag(n)) == n
  {
  }

  // ----- strings and lists -----

  function EncodeString(s: Bytes): Bytes {
    Varint(|s|) + s
  }

  /** A string of the source: valid UTF-8 whose length is a `usize`. */
  predicate IsString(s: Bytes) {
    Utf8(s) && |s| < 0x1_0000_0000_0000_0000
  }

  function ReadString(data: Bytes, p: nat): (r: Option<(Bytes, nat)>)
    ensures r.Some? ==> p < r.value.1 <= |data|
  {
    match ReadVarint(data, p, 0)
    case None => None
    case Some((n, q)) =>
      if n > |data| - q || !Utf8(data[q..q + n]) then None else Some((data[q..q + n], q + n))
  }

  function StringReader(data: Bytes): Reader<Bytes> {
    p => ReadString(data, p)
  }

  lemma {:induction false} CountRead(data: Bytes, p: nat, n: nat)
    requires n < 0x1_0000_0000_0000_0000 && At(data, p, Varint(n))
    ensures ReadVarint(data, p, 0) == Some((n, p + |Varint(n)|))
  {
    CapacityIsU64();
    VarintRead(data, p, 0, n);
  }

  lemma {:induction false} StringRead(data: Bytes, p: nat, s: Bytes, q: nat)
    requires Spelled(data, EncodeString, IsString, p, s, q)
    ensures ReadString(data, p) == Some((s, q))
  {
    var m := p + |Varint(|s|)|;
    assert At(data, p, Varint(|s|)) && At(data, m, s) && q == m + |s| by {
      AtSplit(data, p, Varint(|s|), s);
    }
    assert ReadVarint(data, p, 0) == Some((|s|, m)) by {
      CountRead(data, p, |s|);
    }
  }

  lemma {:induction false} StringsRecovered(data: Bytes)
    ensures Recovers(data, StringReader(data), EncodeString, IsString)
  {
    forall p: nat, s: Bytes, q: nat | Spelled(data, EncodeString, IsString, p, s, q)
      ensures StringReader(data)(p) == Some((s, q))
    {
      StringRead(data, p, s, q);
    }
  }

  function EncodeStrings(ss: seq<Bytes>): Bytes {
    Varint(|ss|) + EncodeMany(EncodeString, ss)
  }

  predicate IsList(ss: seq<Bytes>) {
    |ss| < 0x1_0000_0000_0000_0000 && All(IsString, ss)
  }

  function ReadStrings(data: Bytes, p: nat): Option<(seq<Bytes>, nat)> {
    match ReadVarint(data, p, 0)
    case None => None
    case Some((n, q)) => ReadMany(StringReader(data), q, n)
  }

  lemma {:induction false} ItemsRead(data: Bytes, q: nat, ss: seq<Bytes>, e: nat)
    requires All(IsString, ss) && At(data, q, EncodeMany(EncodeString, ss)) && e == q + |EncodeMany(EncodeString, ss)|
    ensures ReadMany(StringReader(data), q, |ss|) == Some((ss, e))
  {
    StringsRecovered(data);
    ReadManyBack(data, StringReader(data), EncodeString, IsString, q, ss, e);
  }

  lemma {:induction false} ListRead(data: Bytes, p: nat, q: nat, ss: seq<Bytes>, e: nat)
    requires ReadVarint(data, p, 0) == Some((|ss|, q)) && ReadMany(StringReader(data), q, |ss|) == Some((ss, e))
    ensures ReadStrings(data, p) == Some((ss, e))
  {
  }

  lemma {:induction false} StringsRead(data: Bytes, p: nat, ss: seq<Bytes>, e: nat)
    requires IsList(ss) && At(data, p, EncodeStrings(ss)) && e == p + |EncodeStrings(ss)|
    ensures ReadStrings(data, p) == Some((ss, e))
  {
    var count, items := Varint(|ss|), EncodeMany(EncodeString, ss);
    var q := p + |count|;
    assert At(data, p, count) && At(data, q, items) && e == q + |items| by {
      AtSplit(data, p, count, items);
    }
    assert ReadVarint(data, p, 0) == Some((|ss|, q)) by {
      CountRead(data, p, |ss|);
    }
    ItemsRead(data, q, ss, e);
    ListRead(data, p, q, ss, e);
  }

  /** Each string as its length and its bytes, the first first. */
  function Strings(ss: seq<Bytes>): Bytes {
    if ss == [] then [] else (Varint(|ss[0]|) + ss[0]) + Strings(ss[1..])
  }

  lemma {:induction false} StringsConcat(a: seq<Bytes>, b: seq<Bytes>)
    ensures Strings(a + b) == Strings(a) + Strings(b)
  {
    if a == [] {
      assert a + b == b;
    } else {
      StringsConcat(a[1..], b);
      assert (a + b)[1..] == a[1..] + b && (a + b)[0] == a[0];
      Associates(Varint(|a[0]|) + a[0], Strings(a[1..]), Strings(b));
    }
  }

  lemma {:induction false} StringsLayout(ss: seq<Bytes>)
    ensures EncodeStrings(ss) == Varint(|ss|) + Strings(ss)
  {
    ManyStrings(ss);
  }

  lemma {:induction false} ManyStrings(ss: seq<Bytes>)
    ensures EncodeMany(EncodeString, ss) == Strings(ss)
  {
    if ss != [] {
      var front, last, one: seq<Bytes> := ss[..|ss| - 1], ss[|ss| - 1], [ss[|ss| - 1]];
      ManyStrings(front);
      StringsConcat(front, one);
      assert ss == front + one && one[1..] == [];
      assert Strings(one) == Varint(|last|) + last;
    }
  }

  // ----- numbers and options -----

  function EncodeI64(n: i64): Bytes {
    Varint(Zigzag(n))
  }

  function ReadI64(data: Bytes, p: nat): Option<(i64, nat)> {
    match ReadVarint(data, p, 0)
    case None => None
    case Some((v, q)) =>
      CapacityIsU64();
      VarintFits(data, p, 0);
      Some((Unzigzag(v), q))
  }

  lemma {:induction false} I64Read(data: Bytes, p: nat, n: i64)
    requires At(data, p, EncodeI64(n))
    ensures ReadI64(data, p) == Some((n, p + |EncodeI64(n)|))
  {
    CapacityIsU64();
    VarintRead(data, p, 0, Zigzag(n));
    UnzigzagOf(n);
  }

  function EncodeNote(note: Option<Bytes>): Bytes {
    match note
    case None => [0]
    case Some(s) => [1] + EncodeString(s)
  }

  predicate IsNote(note: Option<Bytes>) {
    note.Some? ==> IsString(note.value)
  }

  function ReadNote(data: Bytes, p: nat): Option<(Option<Bytes>, nat)> {
    if p >= |data| || data[p] > 1 then None
    else if data[p] == 0 then Some((None, p + 1))
    else
      match ReadString(data, p + 1)
      case None => None
      case Some((s, q)) => Some((Some(s), q))
  }

  lemma {:induction false} NoteRead(data: Bytes, p: nat, note: Option<Bytes>)
    requires IsNote(note) && At(data, p, EncodeNote(note))
    ensures ReadNote(data, p) == Some((note, p + |EncodeNote(note)|))
  {
    assert data[p] == data[p..p + |EncodeNote(note)|][0] == EncodeNote(note)[0];
    if note.Some? {
      AtSplit(data, p, [1], EncodeString(note.value));
      StringRead(data, p + 1, note.value, p + 1 + |EncodeString(note.value)|);
    }
  }
}
