/**
 What `fold_text` (`crates/synch-cc/src/fold.rs`) does to an object, said of the bytes at their positions: when it
 folds, and that the folded object runs as the object did.
 */
module FoldMeaning {
  import opened Words
  import opened Bytes
  import opened Elf
  import opened Relocs
  import opened Machine
  import opened Simulation
  import opened Fold
  import opened FoldProof
  import opened ElfView

  // ----- when one section folds -----

  /** Relocations of the call type sit on whole instructions of a section of `size` bytes. */
  predicate OnInstructions(rels: seq<Rel>, size: nat) {
    forall i :: 0 <= i < |rels| && rels[i].info % 0x1_0000_0000 == 10 ==>
                  rels[i].offset % 8 == 0 && rels[i].offset + 8 <= size
  }

  /** Pruning fails exactly on a relocation that does not. */
  lemma {:induction false} PruneIff(data: Bytes, rels: seq<Rel>, seen: set<u64>)
    ensures Prune(data, rels, seen).Ok? <==> OnInstructions(rels, |data|)
    decreases rels
  {
    if rels != [] {
      var rel, rest := rels[0], rels[1..];
      PruneIff(data, rest, seen);
      PruneIff(data, rest, seen + {rel.offset});
      assert rels == [rel] + rest;
    }
  }

  /** No two relocations into `.text` are on the same instruction. */
  predicate Apart(rels: seq<Rel>, ctx: Context) {
    forall i, j :: 0 <= i < j < |rels| && IntoText(rels[i], ctx) && IntoText(rels[j], ctx) ==>
                     rels[i].offset != rels[j].offset
  }

  /** A relocated call, once moved, is on an instruction and within reach of its target. */
  ghost predicate Reachable(data: Bytes, rel: Rel, shift: nat, ctx: Context, base: nat) {
    var at := rel.offset + shift;
    && at <= U64_MAX && at % 8 == 0 && at + 8 <= |data|
    && (data[at] == OP_CALL && rel.Sym() < |ctx.symbols| ==>
          FitsI32(base + Destination(rel, data[at..at + 8], ctx) - at / 8 - 1))
  }

  ghost predicate AllReachable(data: Bytes, rels: seq<Rel>, shift: nat, ctx: Context, base: nat) {
    && (forall i :: 0 <= i < |rels| ==> rels[i].offset + shift <= U64_MAX)
    && (forall i :: 0 <= i < |rels| && IntoText(rels[i], ctx) ==> Reachable(data, rels[i], shift, ctx, base))
  }

  lemma {:induction false} RewriteOk(data: Bytes, moved: Rel, ctx: Context, original: nat)
    requires IntoText(moved, ctx) && Reachable(data, moved, 0, ctx, original / INSN)
    ensures RewriteCall(data, moved, ctx, original).Ok?
  {
    var at := moved.offset;
    if data[at] == OP_CALL {
      SameDestination(moved, data[at..at + INSN], ctx);
    }
  }

  /** What was within reach elsewhere still is after one rewrite. */
  lemma {:induction false} ReachableAfter(data: Bytes, moved: Rel, rel: Rel, shift: nat, ctx: Context, original: nat)
    requires IntoText(moved, ctx) && moved.offset % INSN == 0 && RewriteCall(data, moved, ctx, original).Ok?
    requires Reachable(data, rel, shift, ctx, original / INSN) && rel.offset + shift != moved.offset
    ensures Reachable(RewriteCall(data, moved, ctx, original).value, rel, shift, ctx, original / INSN)
  {
    var after, at := RewriteCall(data, moved, ctx, original).value, rel.offset + shift;
    assert after[at..at + 8] == data[at..at + 8] by {
      SameCall(moved, ctx);
      SliceInsn(data, at);
      SliceInsn(after, at);
      RewriteInsn(data, moved, ctx, original, at / INSN);
    }
    assert after[at] == after[at..at + 8][0] && data[at] == data[at..at + 8][0];
  }

  lemma {:induction false} SliceInsn(data: Bytes, at: nat)
    requires at % INSN == 0 && at + INSN <= |data|
    ensures InCode(data, at / INSN) && data[at..at + 8] == Insn(data, at / INSN)
  {
  }

  lemma {:induction false} SweepOk(data: Bytes, rels: seq<Rel>, shift: nat, ctx: Context, original: nat)
    requires AllReachable(data, rels, shift, ctx, original / INSN) && Apart(rels, ctx)
    ensures Sweep(data, rels, shift, ctx, original).Ok?
    decreases rels
  {
    if rels != [] {
      var rel, rest := rels[0], rels[1..];
      var moved := Rel(rel.offset + shift, rel.info);
      SameCall(moved, ctx);
      if IsTextCall(moved, ctx) {
        assert IntoText(rel, ctx) && Reachable(data, rel, shift, ctx, original / INSN);
        RewriteOk(data, moved, ctx, original);
        var after := RewriteCall(data, moved, ctx, original).value;
        forall i | 0 <= i < |rest| && IntoText(rest[i], ctx)
          ensures Reachable(after, rest[i], shift, ctx, original / INSN)
        {
          assert rest[i] == rels[i + 1];
          ReachableAfter(data, moved, rest[i], shift, ctx, original);
        }
        SweepOk(after, rest, shift, ctx, original);
      } else {
        SweepOk(data, rest, shift, ctx, original);
      }
    }
  }

  // ----- when a program folds -----

  /** Every relocated call goes to an instruction of `.text`, or just past its end. */
  ghost predicate Aimed(code: Code, ctx: Context, limit: nat) {
    forall i :: 0 <= i < |code.rels| && IntoText(code.rels[i], ctx) && code.rels[i].offset + 8 <= |code.bytes|
                && code.bytes[code.rels[i].offset] == 0x85 ==>
                  0 <= Destination(code.rels[i], code.bytes[code.rels[i].offset..code.rels[i].offset + 8], ctx) <= limit
  }

  /** What a compiler writes: at most one relocation to a call, each on an instruction, each to a place in `.text`. */
  ghost predicate Compiled(p: Program) {
    && Foldable(p) && |p.entry.bytes| + |p.text.bytes| < 0x4_0000_0000
    && OnInstructions(p.entry.rels, |p.entry.bytes|) && OnInstructions(p.text.rels, |p.text.bytes|)
    && (forall i :: 0 <= i < |p.text.rels| ==> p.text.rels[i].offset <= |p.text.bytes|)
    && Apart(p.entry.rels, p.ctx) && Apart(p.text.rels, p.ctx)
    && Aimed(p.entry, p.ctx, |p.text.bytes| / 8) && Aimed(p.text, p.ctx, |p.text.bytes| / 8)
  }

  lemma {:induction false} DeltaFits(base: nat, target: int, here: nat, limit: nat)
    requires 0 <= target <= limit && here < base + limit + 1 && base + limit < 0x8000_0000
    ensures FitsI32(base + target - here - 1)
  {
  }

  lemma {:induction false} EntryReachable(p: Program)
    requires Compiled(p)
    ensures AllReachable(p.entry.bytes + p.text.bytes, p.entry.rels, 0, p.ctx, Base(p))
  {
    var both := p.entry.bytes + p.text.bytes;
    forall i | 0 <= i < |p.entry.rels| && IntoText(p.entry.rels[i], p.ctx)
      ensures Reachable(both, p.entry.rels[i], 0, p.ctx, Base(p))
    {
      var at := p.entry.rels[i].offset;
      assert at % 8 == 0 && at + 8 <= |p.entry.bytes|;
      assert both[at..at + 8] == p.entry.bytes[at..at + 8] && both[at] == p.entry.bytes[at];
      if both[at] == OP_CALL {
        DeltaFits(Base(p), Destination(p.entry.rels[i], both[at..at + 8], p.ctx), at / 8, |p.text.bytes| / 8);
      }
    }
    assert forall i :: 0 <= i < |p.entry.rels| ==> p.entry.rels[i] in p.entry.rels;
  }

  /** The first sweep leaves the copy of `.text` as it was. */
  lemma {:induction false} CopyLeft(p: Program, data: Bytes, i: nat)
    requires Foldable(p) && InCode(p.text.bytes, i)
    requires Sweep(p.entry.bytes + p.text.bytes, p.entry.rels, 0, p.ctx, |p.entry.bytes|).Ok?
    requires data == Sweep(p.entry.bytes + p.text.bytes, p.entry.rels, 0, p.ctx, |p.entry.bytes|).value.data
    ensures InCode(data, Base(p) + i) && Insn(data, Base(p) + i) == Insn(p.text.bytes, i)
  {
    var both, j := p.entry.bytes + p.text.bytes, Base(p) + i;
    assert |p.entry.bytes| == INSN * Base(p);
    InsnAfter(p.entry.bytes, p.text.bytes, Base(p), i);
    NoCallsElsewhere(p.entry.rels, INSN * j - 0, p.ctx);
    SweepInsn(both, p.entry.rels, 0, p.ctx, |p.entry.bytes|, j);
  }

  lemma {:induction false} CopySlice(p: Program, data: Bytes, from: nat)
    requires Foldable(p) && from % 8 == 0 && from + 8 <= |p.text.bytes|
    requires Sweep(p.entry.bytes + p.text.bytes, p.entry.rels, 0, p.ctx, |p.entry.bytes|).Ok?
    requires data == Sweep(p.entry.bytes + p.text.bytes, p.entry.rels, 0, p.ctx, |p.entry.bytes|).value.data
    ensures var at := from + |p.entry.bytes|;
            at % 8 == 0 && at + 8 <= |data| && data[at..at + 8] == p.text.bytes[from..from + 8]
            && data[at] == p.text.bytes[from]
  {
    var k, at := from / 8, from + |p.entry.bytes|;
    assert from == 8 * k && |p.entry.bytes| == 8 * Base(p);
    CopyLeft(p, data, k);
    assert data[at..at + 8] == Insn(data, Base(p) + k) && p.text.bytes[from..from + 8] == Insn(p.text.bytes, k);
    InsnAt(data, Base(p) + k, 0);
    InsnAt(p.text.bytes, k, 0);
  }

  lemma {:induction false} CopyReachable(p: Program, data: Bytes)
    requires Compiled(p) && Sweep(p.entry.bytes + p.text.bytes, p.entry.rels, 0, p.ctx, |p.entry.bytes|).Ok?
    requires data == Sweep(p.entry.bytes + p.text.bytes, p.entry.rels, 0, p.ctx, |p.entry.bytes|).value.data
    ensures AllReachable(data, p.text.rels, |p.entry.bytes|, p.ctx, Base(p))
  {
    forall i | 0 <= i < |p.text.rels| && IntoText(p.text.rels[i], p.ctx)
      ensures Reachable(data, p.text.rels[i], |p.entry.bytes|, p.ctx, Base(p))
    {
      var rel := p.text.rels[i];
      CopyReach(p, data, rel);
    }
  }

  lemma {:induction false} CopyReach(p: Program, data: Bytes, rel: Rel)
    requires Foldable(p) && |p.entry.bytes| + |p.text.bytes| < 0x4_0000_0000
    requires Sweep(p.entry.bytes + p.text.bytes, p.entry.rels, 0, p.ctx, |p.entry.bytes|).Ok?
    requires data == Sweep(p.entry.bytes + p.text.bytes, p.entry.rels, 0, p.ctx, |p.entry.bytes|).value.data
    requires rel.offset % 8 == 0 && rel.offset + 8 <= |p.text.bytes| && rel.Sym() < |p.ctx.symbols|
    requires p.text.bytes[rel.offset] == 0x85 ==>
               0 <= Destination(rel, p.text.bytes[rel.offset..rel.offset + 8], p.ctx) <= |p.text.bytes| / 8
    ensures Reachable(data, rel, |p.entry.bytes|, p.ctx, Base(p))
  {
    var from, at := rel.offset, rel.offset + |p.entry.bytes|;
    CopySlice(p, data, from);
    assert Sweep(p.entry.bytes + p.text.bytes, p.entry.rels, 0, p.ctx, |p.entry.bytes|).value.data == data;
    if data[at] == OP_CALL {
      var target := Destination(rel, p.text.bytes[from..from + 8], p.ctx);
      assert at / 8 == from / 8 + Base(p);
      DeltaFits(Base(p), target, at / 8, |p.text.bytes| / 8);
    }
  }

  lemma {:induction false} KeptOnInstructions(rels: seq<Rel>, kept: seq<Rel>, size: nat, shift: nat)
    requires OnInstructions(rels, size) && shift % 8 == 0
    requires forall r :: r in kept ==> shift <= r.offset && Rel(r.offset - shift, r.info) in rels
    ensures OnInstructions(kept, size + shift)
  {
    forall i | 0 <= i < |kept| && kept[i].info % 0x1_0000_0000 == 10
      ensures kept[i].offset % 8 == 0 && kept[i].offset + 8 <= size + shift
    {
      assert kept[i] in kept;
      var k :| 0 <= k < |rels| && rels[k] == Rel(kept[i].offset - shift, kept[i].info);
    }
  }

  lemma {:induction false} OwnSwept(p: Program) returns (own: Swept)
    requires Compiled(p)
    ensures Sweep(p.entry.bytes + p.text.bytes, p.entry.rels, 0, p.ctx, |p.entry.bytes|) == Ok(own)
    ensures OnInstructions(own.kept, |p.entry.bytes|)
  {
    var original, both := |p.entry.bytes|, p.entry.bytes + p.text.bytes;
    EntryReachable(p);
    SweepOk(both, p.entry.rels, 0, p.ctx, original);
    own := Sweep(both, p.entry.rels, 0, p.ctx, original).value;
    SweepKept(both, p.entry.rels, 0, p.ctx, original);
    KeptOnInstructions(p.entry.rels, own.kept, original, 0);
  }

  lemma {:induction false} CopySwept(p: Program, own: Swept) returns (copied: Swept)
    requires Compiled(p) && Sweep(p.entry.bytes + p.text.bytes, p.entry.rels, 0, p.ctx, |p.entry.bytes|) == Ok(own)
    ensures Sweep(own.data, p.text.rels, |p.entry.bytes|, p.ctx, |p.entry.bytes|) == Ok(copied)
    ensures OnInstructions(copied.kept, |p.text.bytes| + |p.entry.bytes|)
  {
    var original := |p.entry.bytes|;
    CopyReachable(p, own.data);
    SweepOk(own.data, p.text.rels, original, p.ctx, original);
    copied := Sweep(own.data, p.text.rels, original, p.ctx, original).value;
    SweepKept(own.data, p.text.rels, original, p.ctx, original);
    KeptOnInstructions(p.text.rels, copied.kept, |p.text.bytes|, original);
  }

  /** A compiled program folds. */
  lemma {:induction false} CompiledFolds(p: Program)
    requires Compiled(p)
    ensures FoldProgram(p).Ok?
  {
    var own := OwnSwept(p);
    var copied := CopySwept(p, own);
    OnInstructionsConcat(own.kept, copied.kept, |p.entry.bytes|, |copied.data|);
    PruneIff(copied.data, own.kept + copied.kept, {});
  }

  lemma {:induction false} OnInstructionsConcat(a: seq<Rel>, b: seq<Rel>, small: nat, size: nat)
    requires OnInstructions(a, small) && small <= size && OnInstructions(b, size)
    ensures OnInstructions(a + b, size)
  {
  }

  lemma {:induction false} OneEach(rels: seq<Rel>, at: int, ctx: Context)
    requires Apart(rels, ctx)
    ensures |TextCallsAt(rels, at, ctx)| <= 1
  {
    if rels != [] {
      var rest := rels[1..];
      assert forall i :: 0 <= i < |rest| ==> rest[i] == rels[i + 1];
      OneEach(rest, at, ctx);
      if rels[0].offset == at && IntoText(rels[0], ctx) {
        forall r | r in rest
          ensures r.offset != at || !IsTextCall(r, ctx)
        {
          SameCall(r, ctx);
        }
        NoCallsElsewhere(rest, at, ctx);
      }
    }
  }

  lemma {:induction false} OneAgreesAt(p: Program, pc: Place)
    requires |TextCallsAt(CodeOf(p, pc.inText).rels, INSN * pc.index, p.ctx)| <= 1
    ensures AgreeAt(p, pc)
  {
    var code := CodeOf(p, pc.inText);
    var calls := TextCallsAt(code.rels, INSN * pc.index, p.ctx);
    if |calls| == 1 && InCode(code.bytes, pc.index) {
      assert calls == [calls[0]];
      OneAgrees(calls[0], Imm(Insn(code.bytes, pc.index)), p.ctx, Base(p), LiftPlace(Base(p), pc).index);
    }
  }

  /** And its relocations agree. */
  lemma {:induction false} CompiledAgrees(p: Program)
    requires Compiled(p)
    ensures CallsAgree(p)
  {
    forall pc
      ensures AgreeAt(p, pc)
    {
      OneEach(CodeOf(p, pc.inText).rels, INSN * pc.index, p.ctx);
      OneAgreesAt(p, pc);
    }
  }

  // ----- when an object folds -----

  /** Whether a target's own fold succeeds. */
  ghost predicate TargetFolds(ss: seq<Section>, p: Parsed, t: nat)
    requires t < |ss| && p.ctx.text < |ss|
  {
    match RelIndex(ss, t)
    case None => true
    case Some(ri) => Outcome(ss, p, t, ri).Ok?
  }

  lemma {:induction false} TargetOkIff(start: seq<Section>, ss: seq<Section>, p: Parsed, targets: seq<nat>, t: nat)
    requires Pending(start, ss, p, targets) && t in targets
    ensures FoldTarget(ss, p, t).Ok? <==> TargetFolds(start, p, t)
  {
    SameRelIndex(start, ss, t);
    match RelIndex(start, t)
    case None =>
    case Some(ri) => SameOutcome(start, ss, p, t, ri);
  }

  /** All targets fold exactly when each does. */
  lemma {:induction false} TargetsOkIff(start: seq<Section>, ss: seq<Section>, p: Parsed, targets: seq<nat>)
    requires Pending(start, ss, p, targets)
    ensures FoldTargets(ss, p, targets).Ok? <==> forall t :: t in targets ==> TargetFolds(start, p, t)
    decreases targets
  {
    if targets != [] {
      var t, rest := targets[0], targets[1..];
      assert t in targets && targets == [t] + rest;
      TargetOkIff(start, ss, p, targets, t);
      if FoldTarget(ss, p, t).Ok? {
        var mid := FoldTarget(ss, p, t).value.sections;
        StartsDone(start, ss, p, targets);
        PendingStep(start, ss, p, targets, mid);
        TargetsOkIff(start, mid, p, rest);
      }
    }
  }

  lemma {:induction false} TargetChanges(start: seq<Section>, ss: seq<Section>, p: Parsed, targets: seq<nat>, t: nat,
                                         ri: nat)
    requires Pending(start, ss, p, targets) && t in targets && FoldTarget(ss, p, t).Ok?
    requires RelIndex(start, t) == Some(ri) && ReadRels(start[ri]).Ok?
    requires CallsText(ReadRels(start[ri]).value, p.ctx) && |start[t].data| % INSN == 0
    ensures FoldTarget(ss, p, t).value.changed
  {
    SameRelIndex(start, ss, t);
    assert ss[ri] == start[ri].(data := ss[ri].data, size := ss[ri].size, offset := ss[ri].offset);
    assert ReadRels(ss[ri]) == ReadRels(start[ri]);
  }

  /** One target that calls `.text` is enough of a change. */
  lemma {:induction false} TargetsChange(start: seq<Section>, ss: seq<Section>, p: Parsed, targets: seq<nat>, t: nat,
                                         ri: nat)
    requires Pending(start, ss, p, targets) && t in targets && FoldTargets(ss, p, targets).Ok?
    requires RelIndex(start, t) == Some(ri) && ReadRels(start[ri]).Ok?
    requires CallsText(ReadRels(start[ri]).value, p.ctx) && |start[t].data| % INSN == 0
    ensures FoldTargets(ss, p, targets).value.changed
    decreases targets
  {
    var first, rest := targets[0], targets[1..];
    assert first in targets && targets == [first] + rest;
    if first == t {
      TargetChanges(start, ss, p, targets, t, ri);
    } else {
      StartsDone(start, ss, p, targets);
      PendingStep(start, ss, p, targets, FoldTarget(ss, p, first).value.sections);
      TargetsChange(start, FoldTarget(ss, p, first).value.sections, p, rest, t, ri);
    }
  }

  /** An entrypoint: code other than `.text`. */
  predicate IsEntry(v: View, t: nat) {
    t < |v.sections| && t != v.text && v.sections[t].kind == 1 && v.sections[t].flags == 6 && v.sections[t].data != []
  }

  predicate CallsInto(rels: seq<Rel>, ctx: Context) {
    exists i :: 0 <= i < |rels| && IntoText(rels[i], ctx)
  }

  lemma {:induction false} CallsIff(rels: seq<Rel>, ctx: Context)
    ensures CallsInto(rels, ctx) <==> CallsText(rels, ctx)
  {
    forall i | 0 <= i < |rels|
      ensures IntoText(rels[i], ctx) <==> IsTextCall(rels[i], ctx)
    {
      SameCall(rels[i], ctx);
    }
  }

  /** The program an entrypoint and `.text` make up. */
  function Before(v: View, t: nat, rels: seq<Rel>): Program
    requires Rooted(v) && t < |v.sections|
  {
    Program(Code(v.sections[t].data, rels), Code(v.sections[v.text].data, v.textRels), ContextOf(v))
  }

  /** A compiler's entrypoint: compiled code if it calls `.text`, and otherwise relocations on its instructions. */
  ghost predicate EntryFine(v: View, t: nat)
    requires Rooted(v) && IsEntry(v, t)
  {
    exists rels: seq<Rel> ::
      Relocates(v.sections, t, rels)
      && if CallsInto(rels, ContextOf(v)) then Compiled(Before(v, t, rels))
         else OnInstructions(rels, |v.sections[t].data|)
  }

  function ParsedOf(v: View): Parsed
    requires Rooted(v)
  {
    Parsed(v.sections, ContextOf(v), v.textRels)
  }

  lemma {:induction false} FineFolds(v: View, t: nat)
    requires Rooted(v) && IsEntry(v, t) && EntryFine(v, t)
    ensures TargetFolds(v.sections, ParsedOf(v), t)
  {
    var rels: seq<Rel> :| Relocates(v.sections, t, rels)
      && if CallsInto(rels, ContextOf(v)) then Compiled(Before(v, t, rels))
         else OnInstructions(rels, |v.sections[t].data|);
    RelocatesRead(v.sections, t, rels);
    CallsIff(rels, ContextOf(v));
    if CallsInto(rels, ContextOf(v)) {
      assert |v.sections[t].data| % INSN == 0 && FoldProgram(Before(v, t, rels)).Ok? by {
        CompiledFolds(Before(v, t, rels));
      }
    } else {
      PruneIff(v.sections[t].data, rels, {});
    }
    OutcomeOk(v.sections, ParsedOf(v), t, rels);
  }

  lemma {:induction false} OutcomeOk(ss: seq<Section>, p: Parsed, t: nat, rels: seq<Rel>)
    requires t < |ss| && p.ctx.text < |ss| && RelsFor(ss, t) == Ok(rels)
    requires if CallsText(rels, p.ctx)
             then FoldCode(ss[t].data, rels, ss[p.ctx.text].data, p.textRels, p.ctx).Ok?
             else Prune(ss[t].data, rels, {}).Ok?
    ensures TargetFolds(ss, p, t)
  {
  }

  lemma {:induction false} TargetsAre(v: View, p: Parsed)
    requires Rooted(v) && p == ParsedOf(v)
    ensures forall t :: t in AllTargets(p) <==> 0 <= t && IsEntry(v, t)
  {
  }

  lemma {:induction false} SpecIs(obj: Bytes, p: Parsed)
    requires Parse(obj) == Ok(Some(p)) && p.ctx.text < |p.sections| && |obj| >= 64
    ensures var done := FoldTargets(p.sections, p, AllTargets(p));
            && (done.Ok? ==> FoldSpec(obj).Ok? || FoldSpec(obj) == Err("capacity overflow"))
            && (FoldSpec(obj).Ok? ==> done.Ok? && (FoldSpec(obj).value.Some? <==> done.value.changed))
  {
  }

  /** The pass over an object, from what the object says. */
  lemma {:induction false} SpecOf(obj: Bytes, v: View, p: Parsed)
    requires Describes(obj, v) && p == ParsedOf(v)
    ensures p.ctx.text < |p.sections| && Pending(p.sections, p.sections, p, AllTargets(p))
    ensures forall t :: t in AllTargets(p) <==> 0 <= t && IsEntry(v, t)
    ensures var done := FoldTargets(p.sections, p, AllTargets(p));
            && (done.Ok? ==> FoldSpec(obj).Ok? || FoldSpec(obj) == Err("capacity overflow"))
            && (FoldSpec(obj).Ok? ==> done.Ok? && (FoldSpec(obj).value.Some? <==> done.value.changed))
  {
    assert Parse(obj) == Ok(Some(p)) && p.ctx.text < |p.sections| && IsCode(p.sections[p.ctx.text]) && |obj| >= 64 by {
      DescribedParses(obj, v);
      ParsedText(obj);
    }
    StartPending(p);
    TargetsAre(v, p);
    SpecIs(obj, p);
  }

  /** An object as compilers write them is never refused, but for a layout no file can have. */
  lemma {:induction false} CompiledObjectFolds(obj: Bytes, v: View)
    requires Describes(obj, v) && forall t :: 0 <= t < |v.sections| && IsEntry(v, t) ==> EntryFine(v, t)
    ensures FoldSpec(obj).Ok? || FoldSpec(obj) == Err("capacity overflow")
  {
    var p := ParsedOf(v);
    SpecOf(obj, v, p);
    forall t | t in AllTargets(p)
      ensures TargetFolds(p.sections, p, t)
    {
      FineFolds(v, t);
    }
    TargetsOkIff(p.sections, p.sections, p, AllTargets(p));
  }

  /** An object with an entrypoint that calls `.text` comes out folded, or is refused. */
  lemma {:induction false} CallerFolds(obj: Bytes, v: View, t: nat, ri: nat, rels: seq<Rel>)
    requires Describes(obj, v) && IsEntry(v, t) && FirstRel(v.sections, t, ri) && RelsStand(v.sections[ri], rels)
    requires CallsInto(rels, ContextOf(v)) && |v.sections[t].data| % 8 == 0 && FoldSpec(obj).Ok?
    ensures FoldSpec(obj).value.Some?
  {
    var p := ParsedOf(v);
    SpecOf(obj, v, p);
    RelFound(v.sections, t, ri);
    RelsIff(v.sections[ri], rels);
    CallsIff(rels, p.ctx);
    TargetsChange(p.sections, p.sections, p, AllTargets(p), t, ri);
  }

  /**
   End to end: in an object with an entrypoint that calls `.text`, take from the object `fold_text` returns the bytes of
   that section and the relocations that stand for it, and run them alone. They do what the entrypoint did with `.text`,
   for every meaning of the other instructions, every start and every number of steps that did not fault.
   */
  lemma {:induction false} FoldTextPreservesRuns<D>(
    obj: Bytes, v: View, t: nat, ri: nat, rels: seq<Rel>, exec: Exec<D>, s: State<D>, steps: nat)
    returns (out: Bytes, shoff: nat, read: seq<Section>, kept: seq<Rel>)
    requires Describes(obj, v) && v.sections[0].kind == 0 && v.sections[0].data == []
    requires IsEntry(v, t) && FirstRel(v.sections, t, ri) && RelsStand(v.sections[ri], rels)
    requires v.sections[ri].entsize == 0 || v.sections[ri].entsize == 16
    requires CallsInto(rels, ContextOf(v)) && FoldSpec(obj).Ok?
    requires Foldable(Before(v, t, rels)) && CallsAgree(Before(v, t, rels))
    requires Run(Before(v, t, rels), exec, s, steps) != Fault
    ensures FoldSpec(obj) == Ok(Some(out)) && ObjectStands(out, shoff, read, v.names)
    ensures |read| == |v.sections| && RelsStand(read[ri], kept)
    ensures var before := Before(v, t, rels);
            Run(Alone(Folded(read[t].data, kept), before.ctx), exec, Lift(Base(before), s), steps)
            == Lift(Base(before), Run(before, exec, s, steps))
  {
    var p;
    DescribedParses(obj, v);
    CallerFolds(obj, v, t, ri, rels);
    RelFound(v.sections, t, ri);
    RelsIff(v.sections[ri], rels);
    CallsIff(rels, ContextOf(v));
    p, out, read := FoldedRuns(obj, t, ri, exec, s, steps);
    kept := ReadRels(read[ri]).value;
    RelsIff(read[ri], kept);
    shoff := OutputStands(obj, v, out, read);
  }

  /** The object that comes out has the sections read from it, at their positions. */
  lemma {:induction false} OutputStands(obj: Bytes, v: View, out: Bytes, read: seq<Section>) returns (shoff: nat)
    requires Describes(obj, v) && FoldSpec(obj) == Ok(Some(out)) && |out| >= 64
    requires SectionsAt(out, FromLE(out[40..48]), |v.sections|) == Ok(read)
    ensures ObjectStands(out, shoff, read, v.names)
  {
    var p, done := FoldSpecParts(obj);
    shoff := FromLE(out[40..48]);
    ObjectIff(obj, v.shoff, v.sections, v.names);
    HeaderReadBack(obj[..64], done);
    SameTable(obj, out);
    ObjectIff(out, shoff, read, v.names);
  }

  // ----- what is left alone -----

  /** A rewrite changes the source register and the immediate of one call, and nothing else. */
  lemma {:induction false} RewriteKeeps(data: Bytes, rel: Rel, ctx: Context, original: nat, k: nat)
    requires RewriteCall(data, rel, ctx, original).Ok? && k < |data|
    ensures var out, at := RewriteCall(data, rel, ctx, original).value, rel.offset;
            && (k != at + 1 && !(at + 4 <= k < at + 8) ==> out[k] == data[k])
            && (k == at + 1 ==> out[k] % 16 == data[k] % 16)
  {
  }

  /** Neither an entrypoint nor relocations of one. */
  predicate Bystander(v: View, i: nat)
    requires i < |v.sections|
  {
    !IsEntry(v, i) && !(v.sections[i].kind == 9 && IsEntry(v, v.sections[i].info))
  }

  /** In the object that comes out every section has its header but for offset and size, and bystanders their bytes. */
  lemma {:induction false} RestKept(obj: Bytes, v: View, out: Bytes) returns (shoff: nat, read: seq<Section>)
    requires Describes(obj, v) && v.sections[0].kind == 0 && v.sections[0].data == [] && FoldSpec(obj) == Ok(Some(out))
    ensures ObjectStands(out, shoff, read, v.names) && |read| == |v.sections|
    ensures forall i :: 0 <= i < |read| ==>
                          read[i] == v.sections[i].(data := read[i].data, size := read[i].size,
                                                    offset := read[i].offset)
    ensures forall i :: 0 <= i < |read| && Bystander(v, i) ==> read[i].data == v.sections[i].data
  {
    var p, done := FoldSpecParts(obj);
    DescribedParses(obj, v);
    AllTargetsDone(obj, p, done, out);
    OutputReadsBack(obj, p, done, out);
    PlacedShape(obj[..64], p.sections, done);
    read := PlacedAll(obj[..64], done);
    shoff := OutputStands(obj, v, out, read);
    TargetsAre(v, p);
    forall i | 0 <= i < |read| && Bystander(v, i)
      ensures read[i].data == v.sections[i].data
    {
      assert !Touched(p.sections, AllTargets(p), i);
    }
  }
}
