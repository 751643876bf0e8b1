/**
 `fold_text` (`crates/synch-cc/src/fold.rs`): parse an object, fold `.text` into every entrypoint section that
 calls it, prune relocations, and lay the object out again.
 */
module Fold {
  import opened Words
  import opened Bytes
  import opened Elf
  import opened Relocs

  const SHT_PROGBITS: u32 := 1
  const SHT_SYMTAB: u32 := 2
  const SHT_REL: u32 := 9
  const SHF_CODE: u64 := 0x6
  const EM_BPF: u16 := 247

  predicate IsCode(s: Section) {
    s.kind == SHT_PROGBITS && s.flags == SHF_CODE && s.data != []
  }

  // ----- tables -----

  function RelAt(data: Bytes, at: nat): Rel
    requires at + 16 <= |data|
  {
    Rel(FromLE8(data[at..at + 8]), FromLE8(data[at + 8..at + 16]))
  }

  lemma {:induction false} EntryInside(n: nat, k: nat, size: nat)
    requires size > 0 && k < n / size
    ensures k * size + size <= n
  {
    var q := n / size;
    assert n == size * q + n % size;
    assert (k + 1) * size <= q * size;
  }

  function RelsOf(data: Bytes, size: nat): (rels: seq<Rel>)
    requires size >= 16
    ensures |rels| == |data| / size
  {
    seq(|data| / size, k requires 0 <= k < |data| / size => EntryInside(|data|, k, size); RelAt(data, k * size))
  }

  /** The entries of a relocation section; an entry size of 0 means 16. */
  function ReadRels(s: Section): Result<seq<Rel>> {
    var size := if s.entsize == 0 then 16 else s.entsize;
    if size < 16 then Err("a relocation section has an impossible entry size") else Ok(RelsOf(s.data, size))
  }

  function SymbolAt(data: Bytes, at: nat): Symbol
    requires at + 24 <= |data|
  {
    Pow256Values();
    Symbol(FromLE4(data[at..at + 4]), FromLE(data[at + 6..at + 8]), FromLE8(data[at + 8..at + 16]))
  }

  function ReadSymbols(s: Section): Result<seq<Symbol>> {
    var size := if s.entsize == 0 then 24 else s.entsize;
    if size < 24 then Err("the symbol table has an impossible entry size")
    else
      Ok(seq(|s.data| / size, k requires 0 <= k < |s.data| / size =>
        EntryInside(|s.data|, k, size); SymbolAt(s.data, k * size)))
  }

  function EncodeRel(rel: Rel): (b: Bytes)
    ensures |b| == 16
  {
    LE(rel.offset, 8) + LE(rel.info, 8)
  }

  function EncodeRels(rels: seq<Rel>): (b: Bytes)
    ensures |b| == 16 * |rels|
  {
    if rels == [] then [] else EncodeRels(rels[..|rels| - 1]) + EncodeRel(rels[|rels| - 1])
  }

  method EncodeAll(rels: seq<Rel>) returns (out: Bytes)
    ensures out == EncodeRels(rels)
  {
    out := [];
    for i := 0 to |rels|
      invariant out == EncodeRels(rels[..i])
    {
      assert rels[..i + 1][..i] == rels[..i];
      out := out + EncodeRel(rels[i]);
    }
    assert rels[..|rels|] == rels;
  }

  lemma {:induction false} EncodedEntry(rels: seq<Rel>, k: nat)
    requires k < |rels|
    ensures EncodeRels(rels)[16 * k..16 * k + 16] == EncodeRel(rels[k])
  {
    var n := |rels| - 1;
    if k < n {
      EncodedEntry(rels[..n], k);
      assert EncodeRels(rels)[16 * k..16 * k + 16] == EncodeRels(rels[..n])[16 * k..16 * k + 16];
    }
  }

  lemma {:induction false} RelRoundTrip(rel: Rel, data: Bytes, at: nat)
    requires at + 16 <= |data| && data[at..at + 16] == EncodeRel(rel)
    ensures RelAt(data, at) == rel
  {
    assert data[at..at + 8] == data[at..at + 16][..8] == LE(rel.offset, 8);
    assert data[at + 8..at + 16] == data[at..at + 16][8..] == LE(rel.info, 8);
    Pow256Values();
    LERoundTrip(rel.offset, 8);
    LERoundTrip(rel.info, 8);
  }

  /** What is encoded reads back, in a section of 16-byte entries. */
  lemma {:induction false} RelsRoundTrip(rels: seq<Rel>)
    ensures RelsOf(EncodeRels(rels), 16) == rels
  {
    var data := EncodeRels(rels);
    forall k | 0 <= k < |rels|
      ensures RelAt(data, k * 16) == rels[k]
    {
      EncodedEntry(rels, k);
      RelRoundTrip(rels[k], data, 16 * k);
    }
  }

  // ----- the object -----

  /** What the fold works from: the sections, which of them is `.text`, and how to read relocations. */
  datatype Parsed = Parsed(sections: seq<Section>, ctx: Context, textRels: seq<Rel>)

  predicate IsRelFor(s: Section, target: nat) {
    s.kind == SHT_REL && s.info == target
  }

  function RelIndex(ss: seq<Section>, target: nat): (r: Option<nat>)
    ensures r.Some? ==> r.value < |ss| && IsRelFor(ss[r.value], target)
  {
    Position(ss, (s: Section) => IsRelFor(s, target))
  }

  function RelsFor(ss: seq<Section>, target: nat): Result<seq<Rel>> {
    match RelIndex(ss, target)
    case None => Ok([])
    case Some(i) => ReadRels(ss[i])
  }

  function TextIndex(ss: seq<Section>, names: Bytes): (r: Option<nat>)
    ensures r.Some? ==> r.value < |ss| && IsCode(ss[r.value])
  {
    Position(ss, (s: Section) => CStr(names, s.nameOffset) == Some(TEXT_NAME) && IsCode(s))
  }

  function SymtabIndex(ss: seq<Section>): (r: Option<nat>)
    ensures r.Some? ==> r.value < |ss| && ss[r.value].kind == SHT_SYMTAB
  {
    Position(ss, (s: Section) => s.kind == SHT_SYMTAB)
  }

  /** `.text`, the symbol table, and the string table the symbols are named from. */
  datatype Anchor = Anchor(text: nat, symtab: nat, strtab: nat)

  function Anchors(ss: seq<Section>, shstrndx: nat): (r: Option<Anchor>)
    requires shstrndx < |ss|
    ensures r.Some? ==> r.value.text < |ss| && r.value.symtab < |ss| && r.value.strtab < |ss|
    ensures r.Some? ==> IsCode(ss[r.value.text]) && |ss[r.value.text].data| % INSN == 0
  {
    match (TextIndex(ss, ss[shstrndx].data), SymtabIndex(ss))
    case (None, _) => None
    case (_, None) => None
    case (Some(text), Some(symtab)) =>
      if |ss[text].data| % INSN != 0 || ss[symtab].link >= |ss| then None
      else Some(Anchor(text, symtab, ss[symtab].link))
  }

  function Locate(ss: seq<Section>, shstrndx: nat): Result<Option<Parsed>>
    requires shstrndx < |ss|
  {
    match Anchors(ss, shstrndx)
    case None => Ok(None)
    case Some(at) =>
      var symbols :- ReadSymbols(ss[at.symtab]);
      var textRels :- RelsFor(ss, at.text);
      Ok(Some(Parsed(ss, Context(symbols, ss[at.strtab].data, at.text), textRels)))
  }

  /** A little-endian ELF64 object for BPF. */
  predicate IsBpfObject(obj: Bytes) {
    && |obj| >= 64 && obj[0..4] == [0x7f, 0x45, 0x4c, 0x46] && obj[4] == 2 && obj[5] == 1
    && FromLE(obj[18..20]) == EM_BPF
  }

  /** Where the section table is, how many entries it has, and which of them holds the names. */
  datatype Table = Table(shoff: nat, shnum: nat, names: nat)

  function TableOf(obj: Bytes): (r: Option<Table>)
    ensures r.Some? ==> IsBpfObject(obj) && r.value.names < r.value.shnum && r.value.shoff == FromLE(obj[40..48])
  {
    if !IsBpfObject(obj) then None
    else
      var shoff, shentsize, shnum, shstrndx := FromLE(obj[40..48]), FromLE(obj[58..60]), FromLE(obj[60..62]),
                                               FromLE(obj[62..64]);
      if shentsize != SHDR || shnum == 0 || shstrndx >= shnum then None else Some(Table(shoff, shnum, shstrndx))
  }

  function Parse(obj: Bytes): Result<Option<Parsed>> {
    match TableOf(obj)
    case None => Ok(None)
    case Some(t) =>
      var ss :- SectionsAt(obj, t.shoff, t.shnum);
      Locate(ss, t.names)
  }

  // ----- folding -----

  datatype Progress = Progress(sections: seq<Section>, changed: bool)

  function WithData(s: Section, data: Bytes): Section {
    s.(data := data, size := |data| % 0x1_0000_0000_0000_0000)
  }

  predicate CallsText(rels: seq<Rel>, ctx: Context) {
    exists i :: 0 <= i < |rels| && IsTextCall(rels[i], ctx)
  }

  /** One entrypoint section: folded if it calls `.text`, and otherwise only its relocations pruned. */
  function FoldTarget(ss: seq<Section>, p: Parsed, target: nat): (r: Result<Progress>)
    requires target < |ss| && p.ctx.text < |ss|
    ensures r.Ok? ==> |r.value.sections| == |ss|
  {
    match RelIndex(ss, target)
    case None => Ok(Progress(ss, false))
    case Some(ri) =>
      var rels :- ReadRels(ss[ri]);
      if !CallsText(rels, p.ctx) then
        var pruned :- Prune(ss[target].data, rels, {});
        var encoded := EncodeRels(pruned);
        Ok(if encoded == ss[ri].data then Progress(ss, false) else Progress(ss[ri := WithData(ss[ri], encoded)], true))
      else if |ss[target].data| % INSN != 0 then Ok(Progress(ss, false))
      else
        var f :- FoldCode(ss[target].data, rels, ss[p.ctx.text].data, p.textRels, p.ctx);
        Ok(Progress(ss[target := WithData(ss[target], f.code)][ri := WithData(ss[ri], EncodeRels(f.rels))], true))
  }

  function AfterChange(changed: bool, r: Result<Progress>): Result<Progress> {
    match r
    case Err(e) => Err(e)
    case Ok(done) => Ok(Progress(done.sections, changed || done.changed))
  }

  function FoldTargets(ss: seq<Section>, p: Parsed, targets: seq<nat>): (r: Result<Progress>)
    requires p.ctx.text < |ss| && forall t :: t in targets ==> t < |ss|
    ensures r.Ok? ==> |r.value.sections| == |ss|
    decreases targets
  {
    if targets == [] then Ok(Progress(ss, false))
    else
      assert targets[0] in targets && forall t :: t in targets[1..] ==> t in targets;
      var first :- FoldTarget(ss, p, targets[0]);
      AfterChange(first.changed, FoldTargets(first.sections, p, targets[1..]))
  }

  /** The code sections other than `.text`, below index `n`. */
  function Targets(ss: seq<Section>, text: nat, n: nat): (ts: seq<nat>)
    requires n <= |ss|
    ensures forall t :: t in ts <==> 0 <= t < n && t != text && IsCode(ss[t])
    ensures forall i, j :: 0 <= i < j < |ts| ==> ts[i] < ts[j]
  {
    if n == 0 then []
    else
      var init := Targets(ss, text, n - 1);
      assert forall i :: 0 <= i < |init| ==> init[i] in init;
      if n - 1 != text && IsCode(ss[n - 1]) then init + [n - 1] else init
  }

  lemma {:induction false} ParsedText(obj: Bytes)
    requires Parse(obj).Ok? && Parse(obj).value.Some?
    ensures var p := Parse(obj).value.value;
            && p.ctx.text < |p.sections| && IsCode(p.sections[p.ctx.text])
            && |p.sections[p.ctx.text].data| % INSN == 0 && |obj| >= 64
  {
    var table := TableOf(obj).value;
    LocatedText(SectionsAt(obj, table.shoff, table.shnum).value, table.names);
  }

  lemma {:induction false} LocatedText(ss: seq<Section>, names: nat)
    requires names < |ss| && Locate(ss, names).Ok? && Locate(ss, names).value.Some?
    ensures var p := Locate(ss, names).value.value;
            p.sections == ss && p.ctx.text < |ss| && IsCode(ss[p.ctx.text]) && |ss[p.ctx.text].data| % INSN == 0
  {
  }

  /** `fold_text` as one function of the object. */
  function FoldSpec(obj: Bytes): Result<Option<Bytes>> {
    var parsed :- Parse(obj);
    if parsed.None? then Ok(None)
    else
      ParsedText(obj);
      var p := parsed.value;
      var done :- FoldTargets(p.sections, p, Targets(p.sections, p.ctx.text, |p.sections|));
      if !done.changed then Ok(None)
      else if !Placeable(obj[..64], done.sections) then Err("capacity overflow")
      else Ok(Some(Rebuilt(obj[..64], done.sections)))
  }

  // ----- the pass itself -----

  /** Appends `.text` to a copy of the entrypoint and rewrites its calls in that buffer. */
  method FoldSection(code: Bytes, rels: seq<Rel>, textCode: Bytes, textRels: seq<Rel>, ctx: Context)
    returns (r: Result<Folded>)
    ensures r == FoldCode(code, rels, textCode, textRels, ctx)
  {
    var both := code + textCode;
    var data := new u8[|both|](i requires 0 <= i < |both| => both[i]);
    assert data[..] == both;
    var own := SweepInPlace(data, rels, 0, ctx, |code|);
    if own.Err? {
      return Err(own.error);
    }
    var copied := SweepInPlace(data, textRels, |code|, ctx, |code|);
    if copied.Err? {
      return Err(copied.error);
    }
    var kept := PruneRels(data[..], own.value + copied.value);
    if kept.Err? {
      return Err(kept.error);
    }
    return Ok(Folded(data[..], kept.value));
  }

  method FoldOne(ss: seq<Section>, p: Parsed, target: nat) returns (r: Result<Progress>)
    requires target < |ss| && p.ctx.text < |ss|
    ensures r == FoldTarget(ss, p, target)
  {
    var index := RelIndex(ss, target);
    if index.None? {
      return Ok(Progress(ss, false));
    }
    var ri := index.value;
    var read := ReadRels(ss[ri]);
    if read.Err? {
      return Err(read.error);
    }
    var rels := read.value;
    if !CallsText(rels, p.ctx) {
      var pruned := PruneRels(ss[target].data, rels);
      if pruned.Err? {
        return Err(pruned.error);
      }
      var encoded := EncodeAll(pruned.value);
      if encoded == ss[ri].data {
        return Ok(Progress(ss, false));
      }
      return Ok(Progress(ss[ri := WithData(ss[ri], encoded)], true));
    }
    if |ss[target].data| % INSN != 0 {
      return Ok(Progress(ss, false));
    }
    var folded := FoldSection(ss[target].data, rels, ss[p.ctx.text].data, p.textRels, p.ctx);
    if folded.Err? {
      return Err(folded.error);
    }
    var encoded := EncodeAll(folded.value.rels);
    return Ok(Progress(ss[target := WithData(ss[target], folded.value.code)][ri := WithData(ss[ri], encoded)], true));
  }

  /** The first target, then the rest. */
  lemma {:induction false} FoldTargetsFirst(ss: seq<Section>, p: Parsed, targets: seq<nat>)
    requires targets != [] && targets[0] < |ss| && p.ctx.text < |ss| && forall t :: t in targets ==> t < |ss|
    ensures forall t :: t in targets[1..] ==> t < |ss|
    ensures match FoldTarget(ss, p, targets[0])
            case Err(e) => FoldTargets(ss, p, targets) == Err(e)
            case Ok(first) =>
              FoldTargets(ss, p, targets)
              == AfterChange(first.changed, FoldTargets(first.sections, p, targets[1..]))
  {
    assert forall t :: t in targets[1..] ==> t in targets;
  }

  lemma {:induction false} AfterBoth(c: bool, d: bool, r: Result<Progress>)
    ensures AfterChange(c, AfterChange(d, r)) == AfterChange(c || d, r)
  {
  }

  method FoldAll(ss: seq<Section>, p: Parsed, targets: seq<nat>) returns (r: Result<Progress>)
    requires p.ctx.text < |ss| && forall t :: t in targets ==> t < |ss|
    ensures r == FoldTargets(ss, p, targets)
  {
    var sections, changed := ss, false;
    var todo: seq<nat> := targets;
    while todo != []
      invariant |sections| == |ss| && forall t :: t in todo ==> t < |ss|
      invariant FoldTargets(ss, p, targets) == AfterChange(changed, FoldTargets(sections, p, todo))
      decreases |todo|
    {
      assert todo[0] in todo;
      FoldTargetsFirst(sections, p, todo);
      var one := FoldOne(sections, p, todo[0]);
      if one.Err? {
        return Err(one.error);
      }
      AfterBoth(changed, one.value.changed, FoldTargets(one.value.sections, p, todo[1..]));
      sections, changed, todo := one.value.sections, changed || one.value.changed, todo[1..];
    }
    return Ok(Progress(sections, changed));
  }

  /** Rewrites an object if anything needs folding; `None` says it is whole already. */
  method FoldText(obj: Bytes) returns (r: Result<Option<Bytes>>)
    ensures r == FoldSpec(obj)
  {
    if !IsBpfObject(obj) {
      return Ok(None);
    }
    var shoff, shentsize, shnum, shstrndx := FromLE(obj[40..48]), FromLE(obj[58..60]), FromLE(obj[60..62]),
                                             FromLE(obj[62..64]);
    if shentsize != SHDR || shnum == 0 || shstrndx >= shnum {
      return Ok(None);
    }
    var read := ReadSections(obj, shoff, shnum);
    if read.Err? {
      return Err(read.error);
    }
    var located := Locate(read.value, shstrndx);
    if located.Err? {
      return Err(located.error);
    }
    if located.value.None? {
      return Ok(None);
    }
    var p := located.value.value;
    ParsedText(obj);
    var done := FoldAll(p.sections, p, Targets(p.sections, p.ctx.text, |p.sections|));
    if done.Err? {
      return Err(done.error);
    }
    if !done.value.changed {
      return Ok(None);
    }
    if !Placeable(obj[..64], done.value.sections) {
      return Err("capacity overflow");
    }
    var out := Rebuild(obj, done.value.sections);
    return Ok(Some(out));
  }
}
