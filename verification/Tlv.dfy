/** The `csqlite` wire primitives (`control-plane/csqlite/wrapper.c`): growable buffer, cursor, tagged values. */
module Tlv {
  import opened Words
  import opened Bytes
  import opened Codec
  import opened Serving

  const MAX_RESP := 64 * 1024 * 1024
  const SIZE_MAX := U64_MAX

  const VAL_NULL: u8 := 0
  const VAL_INT: u8 := 1
  const VAL_FLOAT: u8 := 2
  const VAL_TEXT: u8 := 3
  const VAL_BLOB: u8 := 4

  /** A float is carried as its bits. */
  datatype Value = Null | Integer(i: i64) | Float(bits: u64) | Text(bytes: Bytes) | Blob(bytes: Bytes)

  function ToI64(v: nat): (r: i64)
    requires v < 0x1_0000_0000_0000_0000
  {
    if v < 0x8000_0000_0000_0000 then v else v - 0x1_0000_0000_0000_0000
  }

  function FromI64(v: i64): (r: u64)
    ensures ToI64(r) == v
  {
    if v < 0 then v + 0x1_0000_0000_0000_0000 else v
  }

  // ----- the format -----

  function EncodeValue(v: Value): (e: Bytes)
    ensures |e| >= 1
  {
    match v
    case Null => [VAL_NULL]
    case Integer(i) => [VAL_INT] + BE(FromI64(i), 8)
    case Float(bits) => [VAL_FLOAT] + BE(bits, 8)
    case Text(b) => [VAL_TEXT] + EncodeBytes(b)
    case Blob(b) => [VAL_BLOB] + EncodeBytes(b)
  }

  /** What a reader accepts of a value: strings up to the frame limit. */
  predicate Readable(v: Value) {
    (v.Text? || v.Blob?) ==> |v.bytes| <= MAX_FRAME
  }

  /** The value at `pos` and the position after it, when there is one. */
  function ReadValue(data: Bytes, pos: nat): (r: Option<(Value, nat)>)
    ensures r.Some? ==> pos < r.value.1 <= |data|
  {
    if pos + 1 > |data| then None
    else if data[pos] == VAL_NULL then Some((Null, pos + 1))
    else if data[pos] == VAL_INT || data[pos] == VAL_FLOAT then
      if pos + 9 > |data| then None
      else
        Pow256Values();
        var v := Word(data, pos + 1, 8);
        Some((if data[pos] == VAL_INT then Integer(ToI64(v)) else Float(v), pos + 9))
    else if data[pos] == VAL_TEXT || data[pos] == VAL_BLOB then
      if pos + 5 > |data| then None
      else
        var n := Word(data, pos + 1, 4);
        if n > MAX_FRAME || n > |data| - (pos + 5) then None
        else
          var b := data[pos + 5..pos + 5 + n];
          Some((if data[pos] == VAL_TEXT then Text(b) else Blob(b), pos + 5 + n))
    else None
  }

  // ----- reading undoes writing -----

  lemma {:induction false} NumberIff(data: Bytes, pos: nat, tag: u8, v: u64)
    ensures At(data, pos, [tag] + BE(v, 8)) <==> pos + 9 <= |data| && data[pos] == tag && Word(data, pos + 1, 8) == v
  {
    Pow256Values();
    AtSplit(data, pos, [tag], BE(v, 8));
    WordIff(data, pos + 1, v, 8);
    if pos + 1 <= |data| {
      assert data[pos..pos + 1] == [data[pos]];
    }
  }

  lemma {:induction false} StringIff(data: Bytes, pos: nat, tag: u8, b: Bytes)
    requires |b| <= MAX_FRAME
    ensures At(data, pos, [tag] + EncodeBytes(b))
       <==> pos + 5 + |b| <= |data| && data[pos] == tag && Word(data, pos + 1, 4) == |b|
            && data[pos + 5..pos + 5 + |b|] == b
  {
    Pow256Values();
    AtSplit(data, pos, [tag], EncodeBytes(b));
    AtSplit(data, pos + 1, BE(|b|, 4), b);
    WordIff(data, pos + 1, |b|, 4);
    if pos + 1 <= |data| {
      assert data[pos..pos + 1] == [data[pos]];
    }
  }

  lemma {:induction false} ReadEncoded(data: Bytes, p: nat, v: Value, q: nat)
    requires Spelled(data, EncodeValue, Readable, p, v, q)
    ensures ReadValue(data, p) == Some((v, q))
  {
    match v
    case Null =>
      assert data[p] == data[p..p + 1][0];
    case Integer(i) => NumberIff(data, p, VAL_INT, FromI64(i));
    case Float(bits) => NumberIff(data, p, VAL_FLOAT, bits);
    case Text(b) => StringIff(data, p, VAL_TEXT, b);
    case Blob(b) => StringIff(data, p, VAL_BLOB, b);
  }

  lemma {:induction false} EncodedRead(data: Bytes, p: nat, v: Value, q: nat)
    requires ReadValue(data, p) == Some((v, q))
    ensures Spelled(data, EncodeValue, Readable, p, v, q)
  {
    Pow256Values();
    match v
    case Null =>
      assert data[p..p + 1] == [data[p]];
    case Integer(i) =>
      NumberIff(data, p, VAL_INT, Word(data, p + 1, 8));
      BackI64(Word(data, p + 1, 8));
    case Float(bits) => NumberIff(data, p, VAL_FLOAT, bits);
    case Text(b) => StringIff(data, p, VAL_TEXT, b);
    case Blob(b) => StringIff(data, p, VAL_BLOB, b);
  }

  lemma {:induction false} BackI64(v: u64)
    ensures FromI64(ToI64(v)) == v
  {
  }

  function ValueReader(data: Bytes): Reader<Value> {
    p => ReadValue(data, p)
  }

  /** A value is read exactly where a readable value was written: reading and writing are inverse both ways. */
  lemma {:induction false} ValuesRead(data: Bytes)
    ensures Reads(data, ValueReader(data), EncodeValue, Readable)
  {
    forall p: nat, v: Value, q: nat
      ensures Spelled(data, EncodeValue, Readable, p, v, q) <==> ValueReader(data)(p) == Some((v, q))
    {
      if Spelled(data, EncodeValue, Readable, p, v, q) {
        ReadEncoded(data, p, v, q);
      }
      if ReadValue(data, p) == Some((v, q)) {
        EncodedRead(data, p, v, q);
      }
    }
  }

  // ----- the buffer -----

  class Buf {
    var data: array<u8>
    var len: nat

    ghost predicate Valid()
      reads this
    {
      len <= data.Length
    }

    ghost function Contents(): (s: Bytes)
      requires Valid()
      reads this, data
    {
      data[..len]
    }

    constructor ()
      ensures Valid() && fresh(data) && Contents() == []
    {
      data := new u8[0];
      len := 0;
    }

    /** Room for `extra` more bytes, by doubling. */
    method Reserve(extra: nat)
      requires Valid()
      modifies this`data
      ensures Valid() && len + extra <= data.Length
      ensures Contents() == old(Contents())
      ensures data == old(data) || fresh(data)
    {
      if len + extra <= data.Length {
        return;
      }
      var cap := if data.Length > 0 then data.Length else 256;
      while cap < len + extra
        invariant cap > 0
        decreases len + extra - cap
      {
        if cap > SIZE_MAX / 2 {
          cap := len + extra;
          break;
        }
        cap := cap * 2;
      }
      var bigger := new u8[cap];
      for i := 0 to len
        invariant data == old(data) && len <= data.Length && len <= bigger.Length
        invariant data[..len] == old(data[..len])
        invariant bigger[..i] == data[..i]
      {
        bigger[i] := data[i];
      }
      data := bigger;
    }

    method PutBytes(bytes: Bytes)
      requires Valid()
      modifies this, data
      ensures Valid() && (data == old(data) || fresh(data))
      ensures Contents() == old(Contents()) + bytes
    {
      if bytes == [] {
        return;
      }
      Reserve(|bytes|);
      ghost var was := Contents();
      var room, start := data, len;
      for i := 0 to |bytes|
        invariant data == room && len == start
        invariant room[..start + i] == was + bytes[..i]
      {
        room[start + i] := bytes[i];
      }
      assert bytes[..|bytes|] == bytes;
      len := start + |bytes|;
    }

    /** `put_u8`, `put_u16`, `put_u32` and `put_u64`: the low `n` bytes of `v`, the highest first. */
    method PutWord(v: nat, n: nat)
      requires Valid()
      modifies this, data
      ensures Valid() && (data == old(data) || fresh(data))
      ensures Contents() == old(Contents()) + BE(v, n)
    {
      PutBytes(BE(v, n));
    }

    method PutNumber(tag: u8, v: u64)
      requires Valid()
      modifies this, data
      ensures Valid() && (data == old(data) || fresh(data))
      ensures Contents() == old(Contents()) + ([tag] + BE(v, 8))
    {
      PutWord(tag, 1);
      PutWord(v, 8);
      assert BE(tag, 1) == [tag];
    }

    method PutString(tag: u8, b: Bytes)
      requires Valid()
      modifies this, data
      ensures Valid() && (data == old(data) || fresh(data))
      ensures Contents() == old(Contents()) + ([tag] + EncodeBytes(b))
    {
      PutWord(tag, 1);
      PutWord(|b|, 4);
      PutBytes(b);
      assert BE(tag, 1) == [tag];
    }

    method PutColumn(v: Value)
      requires Valid()
      modifies this, data
      ensures Valid() && (data == old(data) || fresh(data))
      ensures Contents() == old(Contents()) + EncodeValue(v)
    {
      match v
      case Null =>
        PutWord(VAL_NULL, 1);
        assert BE(VAL_NULL, 1) == [VAL_NULL];
      case Integer(i) => PutNumber(VAL_INT, FromI64(i));
      case Float(bits) => PutNumber(VAL_FLOAT, bits);
      case Text(b) => PutString(VAL_TEXT, b);
      case Blob(b) => PutString(VAL_BLOB, b);
    }

    /** Overwrites the four bytes at `at`. */
    method PatchU32(at: nat, v: u32)
      requires Valid() && at + 4 <= len
      modifies data
      ensures Valid() && Contents() == old(Contents())[..at] + BE(v, 4) + old(Contents())[at + 4..]
    {
      var word := BE(v, 4);
      data[at], data[at + 1], data[at + 2], data[at + 3] := word[0], word[1], word[2], word[3];
    }
  }

  // ----- the cursor -----

  class Cur {
    const data: Bytes
    var pos: nat
    var truncated: bool

    /** The cursor never passes the end of the frame. */
    ghost predicate Valid()
      reads this
    {
      pos <= |data|
    }

    constructor (data: Bytes)
      ensures Valid() && this.data == data && pos == 0 && !truncated
    {
      this.data := data;
      pos := 0;
      truncated := false;
    }

    /** `get_u8`, `get_u16` and `get_u32`: all `n` bytes, or none and the mark of a short frame. */
    method GetWord(n: nat) returns (v: nat)
      requires Valid()
      modifies this`pos, this`truncated
      ensures Valid()
      ensures if old(pos) + n <= |data| then pos == old(pos) + n && v == Word(data, old(pos), n)
              && truncated == old(truncated)
              else pos == old(pos) && v == 0 && truncated
    {
      if pos + n > |data| {
        truncated := true;
        return 0;
      }
      v := Word(data, pos, n);
      pos := pos + n;
    }

    /** Two words, so a frame may end between them. */
    method GetU64() returns (v: nat)
      requires Valid()
      modifies this`pos, this`truncated
      ensures Valid() && pos >= old(pos)
      ensures old(pos) + 8 <= |data| ==>
                pos == old(pos) + 8 && v == Word(data, old(pos), 8) && truncated == old(truncated)
      ensures old(pos) + 8 > |data| ==> truncated
      ensures v < 0x1_0000_0000_0000_0000
    {
      ghost var p := pos;
      Pow256Values();
      var hi := GetWord(4);
      var lo := GetWord(4);
      v := hi * 0x1_0000_0000 + lo;
      if p + 8 <= |data| {
        WordJoin(data, p);
      }
    }

    method GetBytes(n: nat) returns (b: Option<Bytes>)
      requires Valid()
      modifies this`pos, this`truncated
      ensures Valid()
      ensures if n <= |data| - old(pos) then pos == old(pos) + n && b == Some(data[old(pos)..pos])
              && truncated == old(truncated)
              else pos == old(pos) && b == None && truncated
    {
      if n > |data| - pos {
        truncated := true;
        return None;
      }
      b := Some(data[pos..pos + n]);
      pos := pos + n;
    }

    /** The next parameter, exactly when there is a whole one. */
    method BindParam() returns (v: Value)
      requires Valid() && !truncated
      modifies this`pos, this`truncated
      ensures Valid() && pos >= old(pos)
      ensures truncated <==> ReadValue(data, old(pos)).None?
      ensures !truncated ==> ReadValue(data, old(pos)) == Some((v, pos))
    {
      v := Null;
      Pow256Values();
      var tag := GetWord(1);
      if truncated {
        return;
      }
      assert tag == data[pos - 1] by {
        assert data[pos - 1..pos][..0] == [];
      }
      if tag == VAL_INT || tag == VAL_FLOAT {
        var bits := GetU64();
        v := if tag == VAL_INT then Integer(ToI64(bits)) else Float(bits);
      } else if tag == VAL_TEXT || tag == VAL_BLOB {
        var n := GetWord(4);
        if n > MAX_FRAME {
          truncated := true;
          return;
        }
        var b := GetBytes(n);
        if b.Some? {
          v := if tag == VAL_TEXT then Text(b.value) else Blob(b.value);
        }
      } else if tag != VAL_NULL {
        truncated := true;
      }
    }
  }

  /** A long word is its two halves. */
  lemma {:induction false} WordJoin(data: Bytes, p: nat)
    requires p + 8 <= |data|
    ensures Word(data, p, 8) == Word(data, p, 4) * 0x1_0000_0000 + Word(data, p + 4, 4)
  {
    BEJoin(data[p..p + 4], data[p + 4..p + 8]);
    Pow256Values();
    assert data[p..p + 8] == data[p..p + 4] + data[p + 4..p + 8];
  }

  lemma {:induction false} BEJoin(a: Bytes, b: Bytes)
    ensures FromBE(a + b) == FromBE(a) * Pow256(|b|) + FromBE(b)
    decreases |b|
  {
    if b == [] {
      assert a + b == a;
    } else {
      var front, last := b[..|b| - 1], b[|b| - 1];
      BEJoin(a, front);
      assert (a + b)[..|a + b| - 1] == a + front;
      Carry(FromBE(a), Pow256(|front|), FromBE(front), last);
    }
  }

  lemma {:induction false} Carry(x: int, p: int, y: int, last: int)
    ensures 256 * (x * p + y) + last == x * (256 * p) + (256 * y + last)
  {
  }
}
