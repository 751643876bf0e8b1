/**
 The fold end to end (`crates/synch-cc/src/fold.rs`): the object that comes out reads back as the object that
 went in with every entrypoint folded, runs as it did, and has nothing left to fold.
 */
module FoldProof {
  import opened Words
  import opened Bytes
  import opened Elf
  import opened Relocs
  import opened Machine
  import opened Simulation
  import opened Fold

  // ----- what the pass leaves of each section -----

  /** The same sections but for the bytes of some of them. */
  ghost predicate SameShape(a: seq<Section>, b: seq<Section>) {
    && |a| == |b|
    && (forall i :: 0 <= i < |a| ==> b[i] == a[i].(data := b[i].data, size := b[i].size, offset := b[i].offset))
    && (forall i :: 0 <= i < |a| && a[i].kind == SHT_PROGBITS ==> (a[i].data == [] <==> b[i].data == []))
  }

  lemma {:induction false} SameRelIndex(a: seq<Section>, b: seq<Section>, t: nat)
    requires SameShape(a, b)
    ensures RelIndex(a, t) == RelIndex(b, t)
  {
    var p := (s: Section) => IsRelFor(s, t);
    forall i | 0 <= i < |a|
      ensures p(a[i]) == p(b[i])
    {
      assert b[i] == a[i].(data := b[i].data, size := b[i].size, offset := b[i].offset);
    }
    PositionSame(a, b, p, p);
  }

  datatype Done = Done(code: Bytes, relData: Bytes)

  /** The bytes an entrypoint and its relocation section end up with. */
  function Outcome(ss: seq<Section>, p: Parsed, t: nat, ri: nat): Result<Done>
    requires t < |ss| && ri < |ss| && p.ctx.text < |ss|
  {
    var rels :- ReadRels(ss[ri]);
    if !CallsText(rels, p.ctx) then
      var pruned :- Prune(ss[t].data, rels, {});
      Ok(Done(ss[t].data, EncodeRels(pruned)))
    else if |ss[t].data| % INSN != 0 then Ok(Done(ss[t].data, ss[ri].data))
    else
      var f :- FoldCode(ss[t].data, rels, ss[p.ctx.text].data, p.textRels, p.ctx);
      Ok(Done(f.code, EncodeRels(f.rels)))
  }

  /** Entrypoint `t` of `ss`, as it stands in `out`. */
  ghost predicate TargetDone(ss: seq<Section>, out: seq<Section>, p: Parsed, t: nat)
    requires |out| == |ss| && t < |ss| && p.ctx.text < |ss|
  {
    match RelIndex(ss, t)
    case None => out[t].data == ss[t].data
    case Some(ri) => Outcome(ss, p, t, ri) == Ok(Done(out[t].data, out[ri].data))
  }

  /** Giving a code section and a relocation section new bytes keeps the shape. */
  lemma {:induction false} UpdateShape(ss: seq<Section>, t: nat, ri: nat, code: Bytes, relData: Bytes)
    requires t < |ss| && ri < |ss| && ss[t].kind == SHT_PROGBITS && ss[ri].kind == SHT_REL && ss[t].data != []
             && code != []
    ensures SameShape(ss, ss[t := WithData(ss[t], code)][ri := WithData(ss[ri], relData)])
  {
  }

  /** Every section but the target and its relocations is left alone. */
  ghost predicate OnlyTarget(ss: seq<Section>, out: seq<Section>, t: nat) {
    |out| == |ss| && forall i :: 0 <= i < |ss| && i != t && !IsRelFor(ss[i], t) ==> out[i] == ss[i]
  }

  /** Replacing only the relocation section's bytes. */
  lemma {:induction false} UpdateRels(ss: seq<Section>, ri: nat, relData: Bytes)
    requires ri < |ss| && ss[ri].kind == SHT_REL
    ensures SameShape(ss, ss[ri := WithData(ss[ri], relData)])
  {
  }

  lemma {:induction false} FoldTargetPrunes(ss: seq<Section>, p: Parsed, t: nat, ri: nat)
    requires t < |ss| && p.ctx.text < |ss| && IsCode(ss[t]) && FoldTarget(ss, p, t).Ok? && RelIndex(ss, t) == Some(ri)
    requires !CallsText(ReadRels(ss[ri]).value, p.ctx)
    ensures var out := FoldTarget(ss, p, t).value.sections;
            SameShape(ss, out) && TargetDone(ss, out, p, t) && OnlyTarget(ss, out, t)
  {
    var pruned := Prune(ss[t].data, ReadRels(ss[ri]).value, {}).value;
    UpdateRels(ss, ri, EncodeRels(pruned));
  }

  lemma {:induction false} FoldTargetFolds(ss: seq<Section>, p: Parsed, t: nat, ri: nat)
    requires t < |ss| && p.ctx.text < |ss| && IsCode(ss[t]) && FoldTarget(ss, p, t).Ok? && RelIndex(ss, t) == Some(ri)
    requires CallsText(ReadRels(ss[ri]).value, p.ctx) && |ss[t].data| % INSN == 0
    ensures var out := FoldTarget(ss, p, t).value.sections;
            SameShape(ss, out) && TargetDone(ss, out, p, t) && OnlyTarget(ss, out, t)
  {
    var rels := ReadRels(ss[ri]).value;
    var f := FoldCode(ss[t].data, rels, ss[p.ctx.text].data, p.textRels, p.ctx).value;
    FoldCodeSize(ss[t].data, rels, ss[p.ctx.text].data, p.textRels, p.ctx);
    UpdateShape(ss, t, ri, f.code, EncodeRels(f.rels));
  }

  lemma {:induction false} FoldTargetDone(ss: seq<Section>, p: Parsed, t: nat)
    requires t < |ss| && p.ctx.text < |ss| && IsCode(ss[t]) && FoldTarget(ss, p, t).Ok?
    ensures var out := FoldTarget(ss, p, t).value.sections;
            SameShape(ss, out) && TargetDone(ss, out, p, t) && OnlyTarget(ss, out, t)
  {
    match RelIndex(ss, t)
    case None =>
    case Some(ri) =>
      if !CallsText(ReadRels(ss[ri]).value, p.ctx) {
        FoldTargetPrunes(ss, p, t, ri);
      } else if |ss[t].data| % INSN == 0 {
        FoldTargetFolds(ss, p, t, ri);
      }
  }

  lemma {:induction false} FoldCodeSize(code: Bytes, rels: seq<Rel>, textCode: Bytes, textRels: seq<Rel>, ctx: Context)
    requires FoldCode(code, rels, textCode, textRels, ctx).Ok?
    ensures |FoldCode(code, rels, textCode, textRels, ctx).value.code| == |code| + |textCode|
  {
  }

  /** What the outcome for one target depends on. */
  lemma {:induction false} SameOutcome(a: seq<Section>, b: seq<Section>, p: Parsed, t: nat, ri: nat)
    requires SameShape(a, b) && t < |a| && ri < |a| && p.ctx.text < |a|
    requires a[t].data == b[t].data && a[ri].data == b[ri].data && a[p.ctx.text].data == b[p.ctx.text].data
    ensures Outcome(a, p, t, ri) == Outcome(b, p, t, ri)
  {
  }

  /** A section some target in the list owns: the target itself or a relocation section for it. */
  ghost predicate Touched(ss: seq<Section>, targets: seq<nat>, i: nat)
    requires i < |ss|
  {
    i in targets || (ss[i].kind == SHT_REL && ss[i].info in targets)
  }

  /** Targets still to come are as they were in `start`. */
  ghost predicate Pending(start: seq<Section>, ss: seq<Section>, p: Parsed, targets: seq<nat>) {
    && SameShape(start, ss) && p.ctx.text < |start| && start[p.ctx.text].data == ss[p.ctx.text].data
    && start[p.ctx.text].kind == SHT_PROGBITS && p.ctx.text !in targets
    && (forall t :: t in targets ==> t < |start| && IsCode(start[t]) && start[t].data == ss[t].data)
    && (forall i, j :: 0 <= i < j < |targets| ==> targets[i] < targets[j])
    && (forall t, ri: nat :: t in targets && RelIndex(start, t) == Some(ri) ==> start[ri].data == ss[ri].data)
  }

  lemma {:induction false} PendingStep(start: seq<Section>, ss: seq<Section>, p: Parsed, targets: seq<nat>,
                                       out: seq<Section>)
    requires targets != [] && Pending(start, ss, p, targets) && SameShape(ss, out) && OnlyTarget(ss, out, targets[0])
    ensures Pending(start, out, p, targets[1..])
  {
    var t := targets[0];
    assert forall u :: u in targets[1..] ==> u in targets && u != t;
    forall u, ri: nat | u in targets[1..] && RelIndex(start, u) == Some(ri)
      ensures start[ri].data == out[ri].data
    {
      assert u in targets && start[ri].data == ss[ri].data;
      assert ss[ri].kind == SHT_REL && ss[ri].info == u;
      assert t in targets && ss[t].kind == SHT_PROGBITS;
    }
    assert t in targets;
  }

  lemma {:induction false} DoneStays(start: seq<Section>, mid: seq<Section>, out: seq<Section>, p: Parsed, t: nat,
                                     rest: seq<nat>)
    requires SameShape(start, mid) && SameShape(start, out) && t < |start| && p.ctx.text < |start|
    requires IsCode(start[t]) && t !in rest && forall u :: u in rest ==> u < |start| && IsCode(start[u])
    requires TargetDone(start, mid, p, t)
    requires forall i :: 0 <= i < |start| && !Touched(start, rest, i) ==> out[i].data == mid[i].data
    ensures TargetDone(start, out, p, t)
  {
    assert !Touched(start, rest, t);
    match RelIndex(start, t)
    case None =>
    case Some(ri) =>
      assert start[ri].kind == SHT_REL && start[ri].info == t;
      assert !Touched(start, rest, ri);
  }

  /** Every target of the list comes out as its own outcome says, and nothing else changes. */
  lemma {:induction false} FoldTargetsDone(start: seq<Section>, ss: seq<Section>, p: Parsed, targets: seq<nat>)
    requires Pending(start, ss, p, targets) && FoldTargets(ss, p, targets).Ok?
    ensures var out := FoldTargets(ss, p, targets).value.sections;
            && SameShape(start, out)
            && (forall t :: t in targets ==> TargetDone(start, out, p, t))
            && (forall i :: 0 <= i < |start| && !Touched(start, targets, i) ==> out[i].data == ss[i].data)
    decreases targets
  {
    if targets != [] {
      var t, rest := targets[0], targets[1..];
      assert t in targets && targets == [t] + rest;
      var mid := FoldTarget(ss, p, t).value.sections;
      StartsDone(start, ss, p, targets);
      PendingStep(start, ss, p, targets, mid);
      FoldTargetsDone(start, mid, p, rest);
      var out := FoldTargets(ss, p, targets).value.sections;
      DoneStays(start, mid, out, p, t, rest);
      forall i | 0 <= i < |start| && !Touched(start, targets, i)
        ensures out[i].data == ss[i].data
      {
        assert !Touched(start, rest, i);
        assert start[i].kind == ss[i].kind && start[i].info == ss[i].info;
      }
    }
  }

  lemma {:induction false} StartsDone(start: seq<Section>, ss: seq<Section>, p: Parsed, targets: seq<nat>)
    requires targets != [] && targets[0] in targets && Pending(start, ss, p, targets)
             && FoldTarget(ss, p, targets[0]).Ok?
    ensures var t, mid := targets[0], FoldTarget(ss, p, targets[0]).value.sections;
            SameShape(start, mid) && SameShape(ss, mid) && OnlyTarget(ss, mid, t) && TargetDone(start, mid, p, t)
  {
    var t := targets[0];
    assert t in targets;
    FoldTargetDone(ss, p, t);
    SameRelIndex(start, ss, t);
    match RelIndex(start, t)
    case None =>
    case Some(ri) => SameOutcome(start, ss, p, t, ri);
  }

  // ----- from object to object -----

  /** What the fold reads of an object. */
  lemma {:induction false} ParseParts(obj: Bytes) returns (table: Table)
    requires Parse(obj).Ok? && Parse(obj).value.Some?
    ensures var p := Parse(obj).value.value;
            && TableOf(obj) == Some(table) && table.names < table.shnum == |p.sections|
            && SectionsAt(obj, table.shoff, table.shnum) == Ok(p.sections)
            && Locate(p.sections, table.names) == Ok(Some(p))
  {
    table := TableOf(obj).value;
  }

  function AllTargets(p: Parsed): seq<nat> {
    Targets(p.sections, p.ctx.text, |p.sections|)
  }

  /** A successful fold: what was parsed, what the targets became, and the file they were laid out into. */
  ghost predicate FoldsInto(obj: Bytes, p: Parsed, done: seq<Section>, out: Bytes) {
    && |obj| >= 64 && Parse(obj) == Ok(Some(p)) && p.ctx.text < |p.sections|
    && FoldTargets(p.sections, p, AllTargets(p)) == Ok(Progress(done, true))
    && Placeable(obj[..64], done) && out == Rebuilt(obj[..64], done)
  }

  lemma {:induction false} FoldSpecParts(obj: Bytes) returns (p: Parsed, done: seq<Section>)
    requires FoldSpec(obj).Ok? && FoldSpec(obj).value.Some?
    ensures FoldsInto(obj, p, done, FoldSpec(obj).value.value)
  {
    p := Parse(obj).value.value;
    ParsedText(obj);
    done := FoldTargets(p.sections, p, AllTargets(p)).value.sections;
  }

  /** A section whose bytes the pass may replace: an entrypoint, or relocations for something other than `.text`. */
  predicate Rewritable(s: Section, text: nat) {
    IsCode(s) || (s.kind == SHT_REL && s.info != text)
  }

  lemma {:induction false} StartPending(p: Parsed)
    requires p.ctx.text < |p.sections| && IsCode(p.sections[p.ctx.text])
    ensures Pending(p.sections, p.sections, p, AllTargets(p))
  {
  }

  lemma {:induction false} OnlyRewritable(p: Parsed, i: nat)
    requires p.ctx.text < |p.sections| && IsCode(p.sections[p.ctx.text])
    requires i < |p.sections| && Touched(p.sections, AllTargets(p), i)
    ensures i != p.ctx.text && Rewritable(p.sections[i], p.ctx.text)
  {
  }

  lemma {:induction false} AllTargetsDone(obj: Bytes, p: Parsed, done: seq<Section>, out: Bytes)
    requires FoldsInto(obj, p, done, out)
    ensures SameShape(p.sections, done)
    ensures forall t :: t in AllTargets(p) ==> t < |p.sections| && TargetDone(p.sections, done, p, t)
    ensures forall i :: 0 <= i < |done| && !Touched(p.sections, AllTargets(p), i) ==> done[i].data == p.sections[i].data
    ensures forall i :: 0 <= i < |done| && (i == p.ctx.text || !Rewritable(p.sections[i], p.ctx.text)) ==>
                          done[i].data == p.sections[i].data
  {
    ParsedText(obj);
    StartPending(p);
    FoldTargetsDone(p.sections, p.sections, p, AllTargets(p));
    forall i | 0 <= i < |done| && (i == p.ctx.text || !Rewritable(p.sections[i], p.ctx.text))
      ensures done[i].data == p.sections[i].data
    {
      if Touched(p.sections, AllTargets(p), i) {
        OnlyRewritable(p, i);
      }
    }
  }

  /** Sections come from a file with no bytes behind any `.bss`. */
  lemma {:induction false} ReadBssEmpty(obj: Bytes, shoff: nat, n: nat)
    requires SectionsAt(obj, shoff, n).Ok?
    ensures BssEmpty(SectionsAt(obj, shoff, n).value)
  {
    var ss := SectionsAt(obj, shoff, n).value;
    forall i | 0 <= i < |ss| && ss[i].kind == SHT_NOBITS
      ensures ss[i].data == []
    {
      CollectEach(SectionReader(obj, shoff), n, i);
    }
  }

  /** Section 0 is the reserved one: of the null kind, with nothing behind it. */
  predicate Reserved(p: Parsed) {
    p.sections != [] && p.sections[0].kind == SHT_NULL && p.sections[0].data == []
  }

  const SHT_NULL: u32 := 0

  /** The object that comes out reads back as the sections the fold left. */
  lemma {:induction false} OutputReadsBack(obj: Bytes, p: Parsed, done: seq<Section>, out: Bytes)
    requires FoldsInto(obj, p, done, out) && Reserved(p)
    ensures |out| >= 64 && SectionsAt(out, FromLE(out[40..48]), |done|) == Ok(PlacedAll(obj[..64], done))
  {
    AllTargetsDone(obj, p, done, out);
    DoneBss(obj, p, done);
    assert done[0] == p.sections[0].(data := done[0].data, size := done[0].size, offset := done[0].offset);
    HeaderReadBack(obj[..64], done);
    ReadBack(obj[..64], done);
  }

  lemma {:induction false} DoneBss(obj: Bytes, p: Parsed, done: seq<Section>)
    requires Parse(obj) == Ok(Some(p)) && SameShape(p.sections, done)
    requires forall i :: 0 <= i < |done| && !Rewritable(p.sections[i], p.ctx.text) ==>
               done[i].data == p.sections[i].data
    ensures BssEmpty(done)
  {
    var table := ParseParts(obj);
    ReadBssEmpty(obj, table.shoff, table.shnum);
    forall i | 0 <= i < |done| && done[i].kind == SHT_NOBITS
      ensures done[i].data == []
    {
      assert done[i] == p.sections[i].(data := done[i].data, size := done[i].size, offset := done[i].offset);
    }
  }

  // ----- the folded object runs as the object did -----

  /** The program an entrypoint section and `.text` make up. */
  function ProgramOf(p: Parsed, t: nat, rels: seq<Rel>): Program
    requires t < |p.sections| && p.ctx.text < |p.sections|
  {
    Program(Code(p.sections[t].data, rels), Code(p.sections[p.ctx.text].data, p.textRels), p.ctx)
  }

  /** Relocation entries of the size the pass writes. */
  predicate PlainEntries(s: Section) {
    s.entsize == 0 || s.entsize == 16
  }

  /** Section `t` of the output holds the folded code, and its relocation section the relocations that go with it. */
  lemma {:induction false} FoldedSection(obj: Bytes, p: Parsed, done: seq<Section>, out: Bytes, t: nat, ri: nat)
    requires FoldsInto(obj, p, done, out) && t in AllTargets(p) && t < |p.sections|
    requires RelIndex(p.sections, t) == Some(ri) && PlainEntries(p.sections[ri])
    requires ReadRels(p.sections[ri]).Ok? && CallsText(ReadRels(p.sections[ri]).value, p.ctx)
             && |p.sections[t].data| % INSN == 0
    ensures |done| == |p.sections|
    ensures var placed := PlacedAll(obj[..64], done);
            var f := FoldProgram(ProgramOf(p, t, ReadRels(p.sections[ri]).value));
            f.Ok? && placed[t].data == f.value.code && ReadRels(placed[ri]) == Ok(f.value.rels)
  {
    AllTargetsDone(obj, p, done, out);
    OutcomeFolds(p, t, ri);
    var f := FoldProgram(ProgramOf(p, t, ReadRels(p.sections[ri]).value)).value;
    PlacedShape(obj[..64], p.sections, done);
    var placed := PlacedAll(obj[..64], done);
    assert placed[ri] == p.sections[ri].(data := placed[ri].data, size := placed[ri].size, offset := placed[ri].offset);
    EncodedRead(placed[ri], f.rels);
  }

  lemma {:induction false} EncodedRead(s: Section, rels: seq<Rel>)
    requires PlainEntries(s) && s.data == EncodeRels(rels)
    ensures ReadRels(s) == Ok(rels)
  {
    RelsRoundTrip(rels);
  }

  lemma {:induction false} OutcomeFolds(p: Parsed, t: nat, ri: nat)
    requires t < |p.sections| && ri < |p.sections| && p.ctx.text < |p.sections| && Outcome(p.sections, p, t, ri).Ok?
    requires ReadRels(p.sections[ri]).Ok? && CallsText(ReadRels(p.sections[ri]).value, p.ctx)
             && |p.sections[t].data| % INSN == 0
    ensures var f := FoldProgram(ProgramOf(p, t, ReadRels(p.sections[ri]).value));
            f.Ok? && Outcome(p.sections, p, t, ri) == Ok(Done(f.value.code, EncodeRels(f.value.rels)))
  {
  }

  /**
   End to end: read the object `fold_text` returns, take an entrypoint's section and its relocations out of it, and
   run it alone. It does what the entrypoint did with `.text` and the relocations of the object that went in.
   */
  lemma {:induction false} FoldedRuns<D>(obj: Bytes, t: nat, ri: nat, exec: Exec<D>, s: State<D>, steps: nat)
    returns (p: Parsed, out: Bytes, read: seq<Section>)
    requires FoldSpec(obj).Ok? && FoldSpec(obj).value.Some?
    requires var p := Parse(obj).value.value;
             && Reserved(p) && p.ctx.text < |p.sections| && t < |p.sections| && t in AllTargets(p)
             && RelIndex(p.sections, t) == Some(ri) && PlainEntries(p.sections[ri]) && ReadRels(p.sections[ri]).Ok?
             && CallsText(ReadRels(p.sections[ri]).value, p.ctx)
             && Foldable(ProgramOf(p, t, ReadRels(p.sections[ri]).value))
             && CallsAgree(ProgramOf(p, t, ReadRels(p.sections[ri]).value))
             && Run(ProgramOf(p, t, ReadRels(p.sections[ri]).value), exec, s, steps) != Fault
    ensures p == Parse(obj).value.value && out == FoldSpec(obj).value.value
    ensures |out| >= 64 && SectionsAt(out, FromLE(out[40..48]), |p.sections|) == Ok(read) && |read| == |p.sections|
    ensures ReadRels(read[ri]).Ok?
    ensures var before := ProgramOf(p, t, ReadRels(p.sections[ri]).value);
            var after := Folded(read[t].data, ReadRels(read[ri]).value);
            Run(Alone(after, p.ctx), exec, Lift(Base(before), s), steps)
            == Lift(Base(before), Run(before, exec, s, steps))
  {
    var done;
    p, done := FoldSpecParts(obj);
    out := FoldSpec(obj).value.value;
    OutputReadsBack(obj, p, done, out);
    FoldedSection(obj, p, done, out, t, ri);
    read := PlacedAll(obj[..64], done);
    FoldPreservesRuns(ProgramOf(p, t, ReadRels(p.sections[ri]).value), exec, s, steps);
  }

  // ----- nothing is left to fold -----

  lemma {:induction false} SameText(a: seq<Section>, b: seq<Section>, names: Bytes)
    requires SameShape(a, b)
    ensures TextIndex(a, names) == TextIndex(b, names) && SymtabIndex(a) == SymtabIndex(b)
  {
    var isText := (s: Section) => CStr(names, s.nameOffset) == Some(TEXT_NAME) && IsCode(s);
    var isSymtab := (s: Section) => s.kind == SHT_SYMTAB;
    forall i | 0 <= i < |a|
      ensures isText(a[i]) == isText(b[i]) && isSymtab(a[i]) == isSymtab(b[i])
    {
      assert b[i] == a[i].(data := b[i].data, size := b[i].size, offset := b[i].offset);
    }
    PositionSame(a, b, isText, isText);
    PositionSame(a, b, isSymtab, isSymtab);
  }

  /** What locating the pieces of an object depends on: everything the pass does not rewrite. */
  ghost predicate SameTables(a: seq<Section>, b: seq<Section>, names: nat, p: Parsed) {
    && SameShape(a, b) && names < |a| && p.ctx.text < |a| && b[names].data == a[names].data
    && (forall i :: 0 <= i < |a| && (i == p.ctx.text || !Rewritable(a[i], p.ctx.text)) ==> b[i].data == a[i].data)
    && (SymtabIndex(a).Some? && a[SymtabIndex(a).value].link < |a| ==>
          b[a[SymtabIndex(a).value].link].data == a[a[SymtabIndex(a).value].link].data)
  }

  lemma {:induction false} SameSymbols(a: seq<Section>, b: seq<Section>, names: nat, p: Parsed)
    requires SameTables(a, b, names, p) && SymtabIndex(a).Some?
    ensures var i := SymtabIndex(a).value;
            b[i].link == a[i].link && ReadSymbols(b[i]) == ReadSymbols(a[i])
  {
    var i := SymtabIndex(a).value;
    assert b[i] == a[i].(data := b[i].data, size := b[i].size, offset := b[i].offset);
    assert !Rewritable(a[i], p.ctx.text);
  }

  lemma {:induction false} SameTextRels(a: seq<Section>, b: seq<Section>, names: nat, p: Parsed)
    requires SameTables(a, b, names, p)
    ensures RelsFor(b, p.ctx.text) == RelsFor(a, p.ctx.text)
  {
    SameRelIndex(a, b, p.ctx.text);
    match RelIndex(a, p.ctx.text)
    case None =>
    case Some(i) =>
      assert b[i] == a[i].(data := b[i].data, size := b[i].size, offset := b[i].offset);
      assert !Rewritable(a[i], p.ctx.text);
  }

  lemma {:induction false} SameLocate(a: seq<Section>, b: seq<Section>, names: nat, p: Parsed)
    requires SameTables(a, b, names, p) && Locate(a, names) == Ok(Some(p))
    ensures Locate(b, names) == Ok(Some(p.(sections := b)))
  {
    SameAnchors(a, b, names, p);
    SameSymbols(a, b, names, p);
    SameTextRels(a, b, names, p);
  }

  lemma {:induction false} SameAnchors(a: seq<Section>, b: seq<Section>, names: nat, p: Parsed)
    requires SameTables(a, b, names, p) && Anchors(a, names).Some? && Anchors(a, names).value.text == p.ctx.text
    ensures Anchors(b, names) == Anchors(a, names)
  {
    SameText(a, b, a[names].data);
    SameSymbols(a, b, names, p);
  }

  lemma {:induction false} SameTargets(a: seq<Section>, b: seq<Section>, text: nat, n: nat)
    requires SameShape(a, b) && n <= |a|
    ensures Targets(a, text, n) == Targets(b, text, n)
  {
    if n > 0 {
      SameTargets(a, b, text, n - 1);
      assert b[n - 1] == a[n - 1].(data := b[n - 1].data, size := b[n - 1].size, offset := b[n - 1].offset);
    }
  }

  /** Relocations that are pruned already and call nothing in `.text` leave a target as it is. */
  lemma {:induction false} SettledTarget(ss: seq<Section>, p: Parsed, t: nat, ri: nat, rels: seq<Rel>)
    requires t < |ss| && p.ctx.text < |ss| && RelIndex(ss, t) == Some(ri) && PlainEntries(ss[ri])
    requires ss[ri].data == EncodeRels(rels) && !CallsText(rels, p.ctx) && Pruned(ss[t].data, rels)
    ensures FoldTarget(ss, p, t) == Ok(Progress(ss, false))
  {
    EncodedRead(ss[ri], rels);
    PruneFixpoint(ss[t].data, rels, {});
  }

  lemma {:induction false} FewerCalls(a: seq<Rel>, b: seq<Rel>, ctx: Context)
    requires (forall r :: r in a ==> r in b) && !CallsText(b, ctx)
    ensures !CallsText(a, ctx)
  {
    forall i | 0 <= i < |a|
      ensures !IsTextCall(a[i], ctx)
    {
      assert a[i] in b;
    }
  }

  /** Whatever became of a target, a second look finds nothing to do. */
  lemma {:induction false} TargetSettles(ss: seq<Section>, out: seq<Section>, p: Parsed, t: nat)
    requires t < |ss| && p.ctx.text < |ss| && SameShape(ss, out) && TargetDone(ss, out, p, t)
    requires RelIndex(ss, t).Some? ==> PlainEntries(ss[RelIndex(ss, t).value])
    ensures FoldTarget(out, p.(sections := out), t) == Ok(Progress(out, false))
  {
    SameRelIndex(ss, out, t);
    match RelIndex(ss, t)
    case None =>
    case Some(ri) =>
      assert out[ri] == ss[ri].(data := out[ri].data, size := out[ri].size, offset := out[ri].offset);
      var rels := ReadRels(ss[ri]).value;
      if !CallsText(rels, p.ctx) {
        var pruned := Prune(ss[t].data, rels, {}).value;
        PruneIsPruned(ss[t].data, rels, {});
        FewerCalls(pruned, rels, p.ctx);
        SettledTarget(out, p.(sections := out), t, ri, pruned);
      } else if |ss[t].data| % INSN == 0 {
        var program := Program(Code(ss[t].data, rels), Code(ss[p.ctx.text].data, p.textRels), p.ctx);
        var f := FoldProgram(program).value;
        FoldLeavesPlain(program);
        SettledTarget(out, p.(sections := out), t, ri, f.rels);
      }
  }

  lemma {:induction false} FoldLeavesPlain(program: Program)
    requires FoldProgram(program).Ok?
    ensures !CallsText(FoldProgram(program).value.rels, program.ctx)
    ensures Pruned(FoldProgram(program).value.code, FoldProgram(program).value.rels)
  {
    var own, copied := FoldParts(program);
    FoldedRelsPlain(program, own, copied, FoldProgram(program).value);
  }

  lemma {:induction false} NothingToFold(ss: seq<Section>, p: Parsed, targets: seq<nat>)
    requires p.ctx.text < |ss|
    requires forall t :: t in targets ==> t < |ss| && FoldTarget(ss, p, t) == Ok(Progress(ss, false))
    ensures FoldTargets(ss, p, targets) == Ok(Progress(ss, false))
    decreases targets
  {
    if targets != [] {
      assert targets[0] in targets;
      FoldTargetsFirst(ss, p, targets);
      NothingToFold(ss, p, targets[1..]);
    }
  }

  /** Section `i`, if there is one, is neither an entrypoint nor an entrypoint's relocations. */
  ghost predicate LeftAlone(p: Parsed, i: nat) {
    i < |p.sections| ==> !Touched(p.sections, AllTargets(p), i)
  }

  /** The strings the symbol table names are left alone. */
  ghost predicate StringsLeftAlone(p: Parsed) {
    match SymtabIndex(p.sections)
    case None => true
    case Some(i) => LeftAlone(p, p.sections[i].link)
  }

  /**
   What the second pass needs of the object: section 0 reserved, names and strings in sections the pass does not
   rewrite, relocation entries of 16 bytes.
   */
  ghost predicate Regular(obj: Bytes, p: Parsed) {
    && Reserved(p) && |obj| >= 64
    && (TableOf(obj).Some? ==> LeftAlone(p, TableOf(obj).value.names)) && StringsLeftAlone(p)
    && (forall s :: s in p.sections && s.kind == SHT_REL ==> PlainEntries(s))
  }

  lemma {:induction false} OutputTables(obj: Bytes, p: Parsed, done: seq<Section>, out: Bytes, names: nat)
    requires FoldsInto(obj, p, done, out) && Regular(obj, p)
    requires TableOf(obj).Some? && TableOf(obj).value.names == names && names < |p.sections|
    ensures SameTables(p.sections, PlacedAll(obj[..64], done), names, p)
  {
    assert SameTables(p.sections, done, names, p) by {
      AllTargetsDone(obj, p, done, out);
      TablesKept(obj, p, done, names);
    }
    PlacedShape(obj[..64], p.sections, done);
    TablesPlaced(p.sections, done, PlacedAll(obj[..64], done), names, p);
  }

  lemma {:induction false} TablesPlaced(a: seq<Section>, b: seq<Section>, c: seq<Section>, names: nat, p: Parsed)
    requires SameTables(a, b, names, p) && SameShape(a, c) && |c| == |b|
    requires forall i :: 0 <= i < |b| ==> c[i].data == b[i].data
    ensures SameTables(a, c, names, p)
  {
  }

  /** The output parses as the input did, with the folded sections in place. */
  lemma {:induction false} OutputParses(obj: Bytes, p: Parsed, done: seq<Section>, out: Bytes)
    requires FoldsInto(obj, p, done, out) && Regular(obj, p)
    ensures SameShape(p.sections, PlacedAll(obj[..64], done))
    ensures Parse(out) == Ok(Some(p.(sections := PlacedAll(obj[..64], done))))
  {
    var placed := PlacedAll(obj[..64], done);
    var table := ParseParts(obj);
    OutputTables(obj, p, done, out, table.names);
    assert |out| >= 64 && TableOf(out) == Some(table.(shoff := FromLE(out[40..48]))) by {
      HeaderReadBack(obj[..64], done);
      SameTable(obj, out);
    }
    OutputReadsBack(obj, p, done, out);
    SameLocate(p.sections, placed, table.names, p);
    ParseFrom(out, table.(shoff := FromLE(out[40..48])), placed, p.(sections := placed));
  }

  lemma {:induction false} TablesKept(obj: Bytes, p: Parsed, placed: seq<Section>, names: nat)
    requires Regular(obj, p) && SameShape(p.sections, placed) && names < |p.sections| && p.ctx.text < |p.sections|
    requires TableOf(obj).Some? && TableOf(obj).value.names == names
    requires forall i :: 0 <= i < |placed| && !Touched(p.sections, AllTargets(p), i) ==>
               placed[i].data == p.sections[i].data
    requires forall i :: 0 <= i < |placed| && (i == p.ctx.text || !Rewritable(p.sections[i], p.ctx.text)) ==>
                           placed[i].data == p.sections[i].data
    ensures SameTables(p.sections, placed, names, p)
  {
    assert LeftAlone(p, names) && StringsLeftAlone(p);
  }

  lemma {:induction false} ParseFrom(out: Bytes, table: Table, ss: seq<Section>, p: Parsed)
    requires TableOf(out) == Some(table) && SectionsAt(out, table.shoff, table.shnum) == Ok(ss)
             && Locate(ss, table.names) == Ok(Some(p))
    ensures Parse(out) == Ok(Some(p))
  {
  }

  lemma {:induction false} PlacedShape(header: Bytes, ss: seq<Section>, done: seq<Section>)
    requires SameShape(ss, done) && Placeable(header, done)
    ensures SameShape(ss, PlacedAll(header, done))
    ensures forall i :: 0 <= i < |done| ==> PlacedAll(header, done)[i].data == done[i].data
  {
  }

  /** The header fields the fold reads survive the patch of the table offset. */
  lemma {:induction false} SameTable(obj: Bytes, out: Bytes)
    requires TableOf(obj).Some? && |out| >= 64 && out[..40] == obj[..64][..40] && out[48..64] == obj[..64][48..64]
    ensures TableOf(out) == Some(TableOf(obj).value.(shoff := FromLE(out[40..48])))
  {
    assert obj[..64][..40] == obj[..40] && obj[..64][48..64] == obj[48..64];
    Within(out, obj, 0, 40, 0, 4);
    Within(out, obj, 0, 40, 18, 20);
    assert out[4] == out[..40][4] == obj[..40][4] && out[5] == out[..40][5] == obj[..40][5];
    Within(out, obj, 48, 64, 58, 60);
    Within(out, obj, 48, 64, 60, 62);
    Within(out, obj, 48, 64, 62, 64);
  }

  lemma {:induction false} Within(a: Bytes, b: Bytes, lo: nat, hi: nat, i: nat, j: nat)
    requires lo <= i <= j <= hi <= |a| && hi <= |b| && a[lo..hi] == b[lo..hi]
    ensures a[i..j] == b[i..j]
  {
    assert forall k :: i <= k < j ==> a[k] == a[lo..hi][k - lo] && b[k] == b[lo..hi][k - lo];
  }

  /** Folding is done once: the object that comes out is whole. */
  lemma {:induction false} FoldIdempotent(obj: Bytes)
    requires FoldSpec(obj).Ok? && FoldSpec(obj).value.Some? && Regular(obj, Parse(obj).value.value)
    ensures FoldSpec(FoldSpec(obj).value.value) == Ok(None)
  {
    var p, done := FoldSpecParts(obj);
    var out := FoldSpec(obj).value.value;
    var placed := PlacedAll(obj[..64], done);
    AllTargetsDone(obj, p, done, out);
    OutputParses(obj, p, done, out);
    SameTargets(p.sections, placed, p.ctx.text, |p.sections|);
    forall t | t in AllTargets(p)
      ensures t < |placed| && FoldTarget(placed, p.(sections := placed), t) == Ok(Progress(placed, false))
    {
      SettledInOutput(obj, p, done, out, t);
    }
    NothingToFold(placed, p.(sections := placed), AllTargets(p));
  }

  lemma {:induction false} SettledInOutput(obj: Bytes, p: Parsed, done: seq<Section>, out: Bytes, t: nat)
    requires FoldsInto(obj, p, done, out) && Regular(obj, p) && t in AllTargets(p) && t < |p.sections|
    ensures var placed := PlacedAll(obj[..64], done);
            |placed| == |p.sections| && FoldTarget(placed, p.(sections := placed), t) == Ok(Progress(placed, false))
  {
    AllTargetsDone(obj, p, done, out);
    PlacedSettles(obj[..64], p.sections, done, p, t);
  }

  lemma {:induction false} PlacedSettles(header: Bytes, ss: seq<Section>, done: seq<Section>, p: Parsed, t: nat)
    requires t < |ss| && p.ctx.text < |ss| && SameShape(ss, done) && Placeable(header, done)
             && TargetDone(ss, done, p, t)
    requires forall s :: s in ss && s.kind == SHT_REL ==> PlainEntries(s)
    ensures var placed := PlacedAll(header, done);
            |placed| == |ss| && FoldTarget(placed, p.(sections := placed), t) == Ok(Progress(placed, false))
  {
    PlacedShape(header, ss, done);
    match RelIndex(ss, t)
    case None =>
    case Some(ri) => assert ss[ri] in ss;
    TargetSettles(ss, PlacedAll(header, done), p, t);
  }
}
