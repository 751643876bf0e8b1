/** Delegation records (`crates/synch-core/src/record.rs`): what makes one well formed, and its versioned encoding. */
module Delegations {
  import opened Words
  import opened Bytes
  import opened Codec
  import opened Postcard
  import opened Text
  import opened Keys
  import opened Sorting

  const RECORD_VERSION: u8 := 1
  const VERSION_READ_ONLY: u8 := 2
  const MAX_SPACES := 32

  datatype Delegation = Delegation(v: u8, spaces: seq<Bytes>, notAfter: i64, note: Option<Bytes>, readOnly: seq<Bytes>)

  /** The record as every earlier build knows it. */
  datatype Plain = Plain(v: u8, spaces: seq<Bytes>, notAfter: i64, note: Option<Bytes>)

  function PlainOf(d: Delegation): Plain {
    Plain(d.v, d.spaces, d.notAfter, d.note)
  }

  predicate Supported(v: u8) {
    v <= RECORD_VERSION
  }

  function VersionFor(readOnly: seq<Bytes>): u8 {
    if readOnly == [] then RECORD_VERSION else VERSION_READ_ONLY
  }

  // ----- no space is named twice -----

  predicate ByteLess(a: u8, b: u8) {
    a < b
  }

  /** Byte order, which is the order of `String`. */
  function Before(): (Bytes, Bytes) -> bool {
    Lexicographic(ByteLess)
  }

  lemma {:induction false} BeforeOrders()
    ensures Ordering(Before()) && Total(Before())
  {
    LexOrders(ByteLess);
  }

  predicate WellFormed(d: Delegation) {
    var all := d.spaces + d.readOnly;
    && d.v <= VERSION_READ_ONLY
    && (d.v >= VERSION_READ_ONLY || d.readOnly == [])
    && 0 < |all| <= MAX_SPACES
    && (forall i :: 0 <= i < |all| ==> ValidSpace(all[i]))
    && |Dedup(Sort(Before(), all))| == |Sort(Before(), all)|
  }

  /** A well-formed grant names each space once: nothing is both read-write and read-only. */
  lemma {:induction false} WellFormedIsDisjoint(d: Delegation)
    requires WellFormed(d)
    ensures Distinct(d.spaces) && Distinct(d.readOnly)
    ensures forall s :: s in d.spaces ==> s !in d.readOnly
  {
    var all := d.spaces + d.readOnly;
    BeforeOrders();
    DedupIsDistinct(Before(), all);
    assert forall i :: 0 <= i < |d.spaces| ==> all[i] == d.spaces[i];
    assert forall i :: 0 <= i < |d.readOnly| ==> all[|d.spaces| + i] == d.readOnly[i];
  }

  // ----- the encoding -----

  function EncodePlain(r: Plain): Bytes {
    [r.v] + (EncodeStrings(r.spaces) + (EncodeI64(r.notAfter) + EncodeNote(r.note)))
  }

  function Encode(d: Delegation): Bytes {
    if d.v >= VERSION_READ_ONLY then
      [d.v] + (EncodeStrings(d.spaces) + (EncodeI64(d.notAfter) + (EncodeNote(d.note) + EncodeStrings(d.readOnly))))
    else
      [d.v] + (EncodeStrings(d.spaces) + (EncodeI64(d.notAfter) + EncodeNote(d.note)))
  }

  /** The four fields, and where they end. */
  function ReadPlain(data: Bytes): Option<(Plain, nat)> {
    if data == [] then None
    else
      match ReadStrings(data, 1)
      case None => None
      case Some((spaces, p)) =>
        match ReadI64(data, p)
        case None => None
        case Some((notAfter, q)) =>
          match ReadNote(data, q)
          case None => None
          case Some((note, e)) => Some((Plain(data[0], spaces, notAfter, note), e))
  }

  /** What an earlier build decodes; bytes left over are ignored. */
  function DecodePlain(data: Bytes): Option<Plain> {
    match ReadPlain(data)
    case None => None
    case Some((r, _)) => Some(r)
  }

  function Decode(data: Bytes): Option<Delegation> {
    match ReadPlain(data)
    case None => None
    case Some((r, e)) =>
      if r.v < VERSION_READ_ONLY then Some(Delegation(r.v, r.spaces, r.notAfter, r.note, []))
      else
        match ReadStrings(data, e)
        case None => None
        case Some((readOnly, _)) => Some(Delegation(r.v, r.spaces, r.notAfter, r.note, readOnly))
  }

  /** The values the source's types allow. */
  predicate Typed(d: Delegation) {
    IsList(d.spaces) && IsNote(d.note) && IsList(d.readOnly)
  }

  /** Where the fields of a record stand. */
  lemma {:induction false} PlainParts(data: Bytes, r: Plain, e: nat) returns (p: nat, q: nat)
    requires At(data, 0, EncodePlain(r)) && e == |EncodePlain(r)|
    ensures data != [] && data[0] == r.v
    ensures At(data, 1, EncodeStrings(r.spaces)) && p == 1 + |EncodeStrings(r.spaces)|
    ensures At(data, p, EncodeI64(r.notAfter)) && q == p + |EncodeI64(r.notAfter)|
    ensures At(data, q, EncodeNote(r.note)) && e == q + |EncodeNote(r.note)|
  {
    var a, b, c := EncodeStrings(r.spaces), EncodeI64(r.notAfter), EncodeNote(r.note);
    p := 1 + |a|;
    q := p + |b|;
    AtSplit(data, 0, [r.v], a + (b + c));
    AtSplit(data, 1, a, b + c);
    AtSplit(data, p, b, c);
    assert data[0] == data[0..1][0];
  }

  lemma {:induction false} PlainAt(data: Bytes, r: Plain, e: nat)
    requires At(data, 0, EncodePlain(r)) && e == |EncodePlain(r)| && IsList(r.spaces) && IsNote(r.note)
    ensures ReadPlain(data) == Some((r, e))
  {
    var p, q := PlainParts(data, r, e);
    StringsRead(data, 1, r.spaces, p);
    I64Read(data, p, r.notAfter);
    NoteRead(data, q, r.note);
    PlainBy(data, r, p, q, e);
  }

  lemma {:induction false} PlainBy(data: Bytes, r: Plain, p: nat, q: nat, e: nat)
    requires data != [] && data[0] == r.v && ReadStrings(data, 1) == Some((r.spaces, p))
    requires ReadI64(data, p) == Some((r.notAfter, q)) && ReadNote(data, q) == Some((r.note, e))
    ensures ReadPlain(data) == Some((r, e))
  {
  }

  /** Every record begins with the bytes an earlier build publishes, and a version-1 record is those bytes. */
  lemma {:induction false} EncodeExtendsPlain(d: Delegation)
    ensures Encode(d) == EncodePlain(PlainOf(d)) + if d.v >= VERSION_READ_ONLY then EncodeStrings(d.readOnly) else []
  {
    var a, b, c, e := EncodeStrings(d.spaces), EncodeI64(d.notAfter), EncodeNote(d.note), EncodeStrings(d.readOnly);
    assert [d.v] + (a + (b + (c + e))) == [d.v] + (a + (b + c)) + e;
    assert EncodePlain(PlainOf(d)) + [] == EncodePlain(PlainOf(d));
  }

  lemma {:induction false} EncodedPlainAt(d: Delegation, rest: Bytes)
    requires Typed(d)
    ensures ReadPlain(Encode(d) + rest) == Some((PlainOf(d), |EncodePlain(PlainOf(d))|))
    ensures d.v >= VERSION_READ_ONLY ==> At(Encode(d) + rest, |EncodePlain(PlainOf(d))|, EncodeStrings(d.readOnly))
  {
    var data, plain := Encode(d) + rest, EncodePlain(PlainOf(d));
    var more := if d.v >= VERSION_READ_ONLY then EncodeStrings(d.readOnly) else [];
    EncodeExtendsPlain(d);
    assert data[0..|plain + more|] == plain + more;
    AtSplit(data, 0, plain, more);
    PlainAt(data, PlainOf(d), |plain|);
  }

  /** A record survives the trip exactly when it keeps its read-only list under the stamp that carries one. */
  lemma {:induction false} DecodeOfEncode(d: Delegation, rest: Bytes)
    requires Typed(d)
    ensures Decode(Encode(d) + rest) == Some(d) <==> d.v >= VERSION_READ_ONLY || d.readOnly == []
  {
    EncodedPlainAt(d, rest);
    if d.v >= VERSION_READ_ONLY {
      var e := |EncodePlain(PlainOf(d))|;
      StringsRead(Encode(d) + rest, e, d.readOnly, e + |EncodeStrings(d.readOnly)|);
    }
  }

  /** In particular every well-formed one does. */
  lemma {:induction false} WellFormedSurvives(d: Delegation)
    requires Typed(d) && WellFormed(d)
    ensures Decode(Encode(d)) == Some(d)
  {
    DecodeOfEncode(d, []);
    assert Encode(d) + [] == Encode(d);
  }

  /** An earlier build decodes every record's four fields, and refuses a well-formed one with a read-only space. */
  lemma {:induction false} EarlierBuildsRefuse(d: Delegation)
    requires Typed(d) && WellFormed(d)
    ensures DecodePlain(Encode(d)) == Some(PlainOf(d))
    ensures d.readOnly != [] ==> !Supported(DecodePlain(Encode(d)).value.v)
    ensures d.v == VersionFor(d.readOnly) ==> (Supported(DecodePlain(Encode(d)).value.v) <==> d.readOnly == [])
  {
    EncodedPlainAt(d, []);
    assert Encode(d) + [] == Encode(d);
  }

  // ----- what stands in a record -----

  /** The version, the spaces, the expiry zigzagged, the note after its mark, and from version 2 the read-only list. */
  lemma {:induction false} EncodeLayout(d: Delegation)
    ensures Encode(d)
         == [d.v]
            + ((Varint(|d.spaces|) + Strings(d.spaces))
               + (Varint(if d.notAfter >= 0 then 2 * d.notAfter else -2 * d.notAfter - 1)
                  + if d.v >= 2 then NoteBytes(d.note) + (Varint(|d.readOnly|) + Strings(d.readOnly))
                    else NoteBytes(d.note)))
  {
    StringsLayout(d.spaces);
    StringsLayout(d.readOnly);
  }

  function NoteBytes(note: Option<Bytes>): Bytes {
    match note case None => [0] case Some(s) => [1] + (Varint(|s|) + s)
  }

  /** A record is well formed exactly under these conditions. */
  lemma {:induction false} WellFormedIff(d: Delegation)
    ensures WellFormed(d)
       <==> && d.v <= 2 && (d.v == 2 || d.readOnly == [])
            && 1 <= |d.spaces| + |d.readOnly| <= 32 && Distinct(d.spaces + d.readOnly)
            && forall i :: 0 <= i < |d.spaces + d.readOnly| ==> IsSpace((d.spaces + d.readOnly)[i])
  {
    var all := d.spaces + d.readOnly;
    BeforeOrders();
    DedupIsDistinct(Before(), all);
    assert forall i :: 0 <= i < |all| ==> ValidSpace(all[i]) == IsSpace(all[i]);
  }

  /** The name of a space: 1 to 63 bytes without a slash or a control character. */
  predicate IsSpace(s: Bytes) {
    1 <= |s| <= 63 && 0x2F !in s && !HasControl(s)
  }
}
