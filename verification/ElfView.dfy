/**
 An ELF64 object for BPF by the positions of its fields, as chapters 4 and 5 of the System V ABI lay them out, and that
 `fold_text` (`crates/synch-cc/src/fold.rs`) reads from an object exactly what stands there.
 */
module ElfView {
  import opened Words
  import opened Bytes
  import opened Elf
  import opened Relocs
  import opened Machine
  import opened Simulation
  import opened Fold

  /** The `n` bytes at `at` are the number `v`, least significant first. */
  predicate Field(b: Bytes, at: nat, n: nat, v: nat) {
    at + n <= |b| && v < Pow256(n) && b[at..at + n] == LE(v, n)
  }

  lemma {:induction false} FieldIff(b: Bytes, at: nat, n: nat, v: nat)
    ensures Field(b, at, n, v) <==> at + n <= |b| && FromLE(b[at..at + n]) == v
  {
    if at + n <= |b| {
      LEOfBytes(b[at..at + n]);
      if v < Pow256(n) {
        LERoundTrip(v, n);
      }
    }
  }

  // ----- sections -----

  predicate FirstFields(obj: Bytes, at: nat, s: Section) {
    && Field(obj, at, 4, s.nameOffset) && Field(obj, at + 4, 4, s.kind) && Field(obj, at + 8, 8, s.flags)
    && Field(obj, at + 16, 8, s.addr) && Field(obj, at + 24, 8, s.offset)
  }

  predicate LastFields(obj: Bytes, at: nat, s: Section) {
    && Field(obj, at + 32, 8, s.size) && Field(obj, at + 40, 4, s.link) && Field(obj, at + 44, 4, s.info)
    && Field(obj, at + 48, 8, s.align) && Field(obj, at + 56, 8, s.entsize)
  }

  /** A section header of 64 bytes. */
  predicate HeaderStands(obj: Bytes, at: nat, s: Section) {
    FirstFields(obj, at, s) && LastFields(obj, at, s)
  }

  /** What is behind a header: nothing for `.bss`, and else the bytes it spans. */
  predicate DataStands(obj: Bytes, s: Section) {
    if s.kind == 8 || s.size == 0 then s.data == []
    else s.offset + s.size <= |obj| && s.data == obj[s.offset..s.offset + s.size]
  }

  predicate SectionStands(obj: Bytes, at: nat, s: Section) {
    HeaderStands(obj, at, s) && DataStands(obj, s)
  }

  /** A little-endian 64-bit file for machine 247 with these sections, their names in section `names`. */
  predicate ObjectStands(obj: Bytes, shoff: nat, ss: seq<Section>, names: nat) {
    && 64 <= |obj| <= U64_MAX && obj[0..4] == [0x7f, 0x45, 0x4c, 0x46] && obj[4] == 2 && obj[5] == 1
    && Field(obj, 18, 2, 247) && Field(obj, 40, 8, shoff)
    && Field(obj, 58, 2, 64) && Field(obj, 60, 2, |ss|) && Field(obj, 62, 2, names) && names < |ss|
    && forall i :: 0 <= i < |ss| ==> SectionStands(obj, shoff + i * 64, ss[i])
  }

  lemma {:induction false} FieldIn(obj: Bytes, at: nat, k: nat, n: nat, v: nat)
    requires at + SHDR <= |obj| && k + n <= SHDR
    ensures Field(obj, at + k, n, v) <==> FromLE(obj[at..at + SHDR][k..k + n]) == v
  {
    var h, f := obj[at..at + SHDR][k..k + n], obj[at + k..at + k + n];
    assert |h| == |f| && forall i :: 0 <= i < n ==> h[i] == f[i];
    assert h == f;
    FieldIff(obj, at + k, n, v);
  }

  lemma {:induction false} FirstIff(obj: Bytes, at: nat, s: Section)
    requires at + SHDR <= |obj|
    ensures var d := DecodeHeader(obj[at..at + SHDR]);
            FirstFields(obj, at, s)
            <==> d.nameOffset == s.nameOffset && d.kind == s.kind && d.flags == s.flags && d.addr == s.addr
                 && d.offset == s.offset
  {
    FieldIn(obj, at, 0, 4, s.nameOffset);
    FieldIn(obj, at, 4, 4, s.kind);
    FieldIn(obj, at, 8, 8, s.flags);
    FieldIn(obj, at, 16, 8, s.addr);
    FieldIn(obj, at, 24, 8, s.offset);
  }

  lemma {:induction false} LastIff(obj: Bytes, at: nat, s: Section)
    requires at + SHDR <= |obj|
    ensures var d := DecodeHeader(obj[at..at + SHDR]);
            LastFields(obj, at, s)
            <==> d.size == s.size && d.link == s.link && d.info == s.info && d.align == s.align
                 && d.entsize == s.entsize
  {
    FieldIn(obj, at, 32, 8, s.size);
    FieldIn(obj, at, 40, 4, s.link);
    FieldIn(obj, at, 44, 4, s.info);
    FieldIn(obj, at, 48, 8, s.align);
    FieldIn(obj, at, 56, 8, s.entsize);
  }

  lemma {:induction false} HeaderIff(obj: Bytes, at: nat, s: Section)
    requires at + SHDR <= |obj|
    ensures HeaderStands(obj, at, s) <==> DecodeHeader(obj[at..at + SHDR]) == s.(data := [])
  {
    FirstIff(obj, at, s);
    LastIff(obj, at, s);
  }

  lemma {:induction false} SectionIff(obj: Bytes, at: nat, s: Section)
    requires |obj| <= U64_MAX
    ensures SectionStands(obj, at, s) <==> ReadSection(obj, at) == Ok(s)
  {
    if at + SHDR <= |obj| {
      HeaderIff(obj, at, s);
      var header := DecodeHeader(obj[at..at + SHDR]);
      if header == s.(data := []) {
        assert SectionData(obj, header) == Ok(s.data) <==> DataStands(obj, s);
      } else {
        assert ReadSection(obj, at) != Ok(s);
      }
    }
  }

  lemma {:induction false} TableIff(obj: Bytes, shoff: nat, n: nat, names: nat)
    requires 64 <= |obj|
    ensures TableOf(obj) == Some(Fold.Table(shoff, n, names))
       <==> && obj[0..4] == [0x7f, 0x45, 0x4c, 0x46] && obj[4] == 2 && obj[5] == 1 && Field(obj, 18, 2, 247)
            && Field(obj, 40, 8, shoff) && Field(obj, 58, 2, 64) && Field(obj, 60, 2, n) && Field(obj, 62, 2, names)
            && names < n
  {
    FieldIff(obj, 18, 2, 247);
    FieldIff(obj, 40, 8, shoff);
    FieldIff(obj, 58, 2, 64);
    FieldIff(obj, 60, 2, n);
    FieldIff(obj, 62, 2, names);
  }

  /** The sections read are exactly those that stand in the object. */
  lemma {:induction false} ObjectIff(obj: Bytes, shoff: nat, ss: seq<Section>, names: nat)
    requires 64 <= |obj| <= U64_MAX
    ensures ObjectStands(obj, shoff, ss, names)
       <==> TableOf(obj) == Some(Fold.Table(shoff, |ss|, names)) && SectionsAt(obj, shoff, |ss|) == Ok(ss)
  {
    TableIff(obj, shoff, |ss|, names);
    var reader := SectionReader(obj, shoff);
    forall i | 0 <= i < |ss|
      ensures SectionStands(obj, shoff + i * 64, ss[i]) <==> reader(i) == Ok(ss[i])
    {
      SectionIff(obj, shoff + i * SHDR, ss[i]);
    }
    if forall i :: 0 <= i < |ss| ==> reader(i) == Ok(ss[i]) {
      CollectOk(reader, |ss|, ss);
    }
    if SectionsAt(obj, shoff, |ss|) == Ok(ss) {
      forall i | 0 <= i < |ss|
        ensures reader(i) == Ok(ss[i])
      {
        CollectEach(reader, |ss|, i);
      }
    }
  }

  // ----- symbols and relocations -----

  datatype Entry = Entry(name: u32, info: u8, other: u8, shndx: u16, value: u64, size: u64)

  /** A symbol of 24 bytes: name, info, other, section, value and size. */
  predicate EntryStands(b: Bytes, at: nat, e: Entry) {
    && Field(b, at, 4, e.name) && Field(b, at + 4, 1, e.info) && Field(b, at + 5, 1, e.other)
    && Field(b, at + 6, 2, e.shndx) && Field(b, at + 8, 8, e.value) && Field(b, at + 16, 8, e.size)
  }

  function EntrySize(s: Section, least: nat): nat {
    if s.entsize == 0 then least else s.entsize
  }

  predicate SymbolsStand(s: Section, table: seq<Entry>) {
    && EntrySize(s, 24) >= 24 && |table| == |s.data| / EntrySize(s, 24)
    && forall k :: 0 <= k < |table| ==> EntryStands(s.data, k * EntrySize(s, 24), table[k])
  }

  /** What the pass keeps of a symbol: its name, its section and its value. */
  function Meaning(e: Entry): Symbol {
    Symbol(e.name, e.shndx, e.value)
  }

  function Meanings(table: seq<Entry>): (symbols: seq<Symbol>)
    ensures |symbols| == |table|
    ensures forall k :: 0 <= k < |table| ==> symbols[k] == Symbol(table[k].name, table[k].shndx, table[k].value)
  {
    seq(|table|, k requires 0 <= k < |table| => Meaning(table[k]))
  }

  lemma {:induction false} EntryRead(b: Bytes, at: nat, e: Entry)
    requires at + 24 <= |b| && EntryStands(b, at, e)
    ensures SymbolAt(b, at) == Symbol(e.name, e.shndx, e.value)
  {
    FieldIff(b, at, 4, e.name);
    FieldIff(b, at + 6, 2, e.shndx);
    FieldIff(b, at + 8, 8, e.value);
  }

  /** The symbols read are those that stand in the table. */
  lemma {:induction false} SymbolsRead(s: Section, table: seq<Entry>)
    requires SymbolsStand(s, table)
    ensures ReadSymbols(s) == Ok(Meanings(table))
  {
    var size := EntrySize(s, 24);
    forall k | 0 <= k < |table|
      ensures k * size + 24 <= |s.data| && SymbolAt(s.data, k * size) == Meanings(table)[k]
    {
      EntryInside(|s.data|, k, size);
      EntryRead(s.data, k * size, table[k]);
    }
    assert ReadSymbols(s).value == Meanings(table);
  }

  /** A relocation of 16 bytes: where it applies, and its symbol and type together. */
  predicate RelStands(b: Bytes, at: nat, rel: Rel) {
    Field(b, at, 8, rel.offset) && Field(b, at + 8, 8, rel.info)
  }

  predicate RelsStand(s: Section, rels: seq<Rel>) {
    && EntrySize(s, 16) >= 16 && |rels| == |s.data| / EntrySize(s, 16)
    && forall k :: 0 <= k < |rels| ==> RelStands(s.data, k * EntrySize(s, 16), rels[k])
  }

  lemma {:induction false} RelIff(b: Bytes, at: nat, rel: Rel)
    requires at + 16 <= |b|
    ensures RelStands(b, at, rel) <==> RelAt(b, at) == rel
  {
    FieldIff(b, at, 8, rel.offset);
    FieldIff(b, at + 8, 8, rel.info);
  }

  /** The relocations read are exactly those that stand there. */
  lemma {:induction false} RelsIff(s: Section, rels: seq<Rel>)
    ensures RelsStand(s, rels) <==> ReadRels(s) == Ok(rels)
  {
    var size := EntrySize(s, 16);
    if size >= 16 {
      RelsOfIff(s.data, size, rels);
    }
  }

  lemma {:induction false} RelsOfIff(data: Bytes, size: nat, rels: seq<Rel>)
    requires size >= 16
    ensures RelsOf(data, size) == rels
       <==> |rels| == |data| / size && forall k :: 0 <= k < |rels| ==> RelStands(data, k * size, rels[k])
  {
    var read := RelsOf(data, size);
    if |rels| == |data| / size {
      forall k | 0 <= k < |rels|
        ensures read[k] == rels[k] <==> RelStands(data, k * size, rels[k])
      {
        EntryInside(|data|, k, size);
        RelIff(data, k * size, rels[k]);
      }
      SameEach(read, rels);
    }
  }

  lemma {:induction false} SameEach(a: seq<Rel>, b: seq<Rel>)
    requires |a| == |b|
    ensures a == b <==> forall k :: 0 <= k < |a| ==> a[k] == b[k]
  {
  }

  // ----- what an object says -----

  /** `.text`: code under that name. */
  predicate IsText(names: Bytes, s: Section) {
    && s.nameOffset + 6 <= |names| && names[s.nameOffset..s.nameOffset + 6] == TEXT_STRING
    && s.kind == 1 && s.flags == 6 && s.data != []
  }

  /** Relocations that apply to section `target`. */
  predicate AppliesTo(s: Section, target: nat) {
    s.kind == 9 && s.info == target
  }

  predicate FirstRel(ss: seq<Section>, target: nat, i: nat) {
    i < |ss| && AppliesTo(ss[i], target) && forall j :: 0 <= j < i ==> !AppliesTo(ss[j], target)
  }

  /** The relocations of a section: those of the first that applies to it, and none without one. */
  ghost predicate Relocates(ss: seq<Section>, target: nat, rels: seq<Rel>) {
    || (rels == [] && forall i :: 0 <= i < |ss| ==> !AppliesTo(ss[i], target))
    || (exists i: nat :: FirstRel(ss, target, i) && RelsStand(ss[i], rels))
  }

  datatype View = View(
    shoff: nat, sections: seq<Section>, names: nat, text: nat, symtab: nat, table: seq<Entry>, textRels: seq<Rel>)

  /** The sections it names are there. */
  predicate Rooted(v: View) {
    v.text < |v.sections| && v.symtab < |v.sections| && v.sections[v.symtab].link < |v.sections|
  }

  /** The object has these sections, this `.text` with these relocations, and these symbols. */
  ghost predicate Describes(obj: Bytes, v: View) {
    var ss := v.sections;
    && ObjectStands(obj, v.shoff, ss, v.names)
    && v.text < |ss| && IsText(ss[v.names].data, ss[v.text]) && |ss[v.text].data| % 8 == 0
    && (forall j :: 0 <= j < v.text ==> !IsText(ss[v.names].data, ss[j]))
    && v.symtab < |ss| && ss[v.symtab].kind == 2 && (forall j :: 0 <= j < v.symtab ==> ss[j].kind != 2)
    && ss[v.symtab].link < |ss| && SymbolsStand(ss[v.symtab], v.table)
    && Relocates(ss, v.text, v.textRels)
  }

  /** What relocations are read against. */
  function ContextOf(v: View): Context
    requires Rooted(v)
  {
    Context(Meanings(v.table), v.sections[v.sections[v.symtab].link].data, v.text)
  }

  lemma {:induction false} PositionIs<T>(s: seq<T>, p: T -> bool, i: nat)
    requires i < |s| && p(s[i]) && forall j :: 0 <= j < i ==> !p(s[j])
    ensures Position(s, p) == Some(i)
  {
    var r := Position(s, p);
    assert r.Some?;
    assert p(s[r.value]);
  }

  lemma {:induction false} TextFound(ss: seq<Section>, names: Bytes, text: nat)
    requires text < |ss| && IsText(names, ss[text]) && forall j :: 0 <= j < text ==> !IsText(names, ss[j])
    ensures TextIndex(ss, names) == Some(text)
  {
    var test := (s: Section) => CStr(names, s.nameOffset) == Some(TEXT_NAME) && IsCode(s);
    forall j | 0 <= j <= text
      ensures test(ss[j]) == IsText(names, ss[j])
    {
      SameName(names, ss[j].nameOffset);
    }
    PositionIs(ss, test, text);
  }

  lemma {:induction false} RelFound(ss: seq<Section>, target: nat, i: nat)
    requires FirstRel(ss, target, i)
    ensures RelIndex(ss, target) == Some(i)
  {
    PositionIs(ss, (s: Section) => IsRelFor(s, target), i);
  }

  lemma {:induction false} RelocatesRead(ss: seq<Section>, target: nat, rels: seq<Rel>)
    requires Relocates(ss, target, rels)
    ensures RelsFor(ss, target) == Ok(rels)
  {
    if i: nat :| FirstRel(ss, target, i) && RelsStand(ss[i], rels) {
      RelFound(ss, target, i);
      RelsIff(ss[i], rels);
    }
  }

  /** The pass works from what the object says. */
  lemma {:induction false} DescribedParses(obj: Bytes, v: View)
    requires Describes(obj, v)
    ensures Parse(obj) == Ok(Some(Parsed(v.sections, ContextOf(v), v.textRels)))
  {
    var ss := v.sections;
    ObjectIff(obj, v.shoff, ss, v.names);
    TextFound(ss, ss[v.names].data, v.text);
    PositionIs(ss, (s: Section) => s.kind == SHT_SYMTAB, v.symtab);
    SymbolsRead(ss[v.symtab], v.table);
    RelocatesRead(ss, v.text, v.textRels);
    assert Anchors(ss, v.names) == Some(Anchor(v.text, v.symtab, ss[v.symtab].link));
  }
}
