/**
 Folding preserves meaning (`crates/synch-cc/src/fold.rs`): the folded section, run alone, does step for step
 what the entrypoint and `.text` did together.
 */
module Simulation {
  import opened Words
  import opened Bytes
  import opened Relocs
  import opened Machine

  // ----- the pass reads what the machine means -----

  /** The name of a symbol is `.text` exactly when that string stands at its offset. */
  lemma {:induction false} SameName(strings: Bytes, at: nat)
    ensures CStr(strings, at) == Some(TEXT_NAME)
       <==> at + 6 <= |strings| && strings[at..at + 6] == TEXT_STRING
  {
    if at <= |strings| {
      var rest := strings[at..];
      if CStr(strings, at) == Some(TEXT_NAME) {
        assert strings[at + 5] == rest[5] == 0;
        assert strings[at..at + 6] == strings[at..at + 5] + [strings[at + 5]];
      }
      if at + 6 <= |strings| && strings[at..at + 6] == TEXT_STRING {
        assert rest[..6] == TEXT_STRING;
        assert rest[..5] == TEXT_NAME && rest[5] == 0;
        ZeroFirst(rest);
        assert strings[at..at + 5] == rest[..5];
      }
    }
  }

  lemma {:induction false} ZeroFirst(rest: Bytes)
    requires |rest| >= 6 && rest[..5] == TEXT_NAME && rest[5] == 0
    ensures ZeroAt(rest) == Some(5)
  {
    assert 0 in rest by {
      assert rest[5] in rest;
    }
    var k := ZeroAt(rest).value;
    assert forall i :: 0 <= i < 5 ==> rest[i] == rest[..5][i] == TEXT_NAME[i];
    assert forall i :: 0 <= i < k ==> rest[i] == rest[..k][i];
  }

  lemma {:induction false} SameCall(rel: Rel, ctx: Context)
    ensures IntoText(rel, ctx) <==> IsTextCall(rel, ctx)
  {
    if rel.Sym() < |ctx.symbols| {
      SameName(ctx.strings, ctx.symbols[rel.Sym()].nameOffset);
    }
  }

  lemma {:induction false} SameImm(insn: Bytes)
    requires |insn| == INSN
    ensures SignedImm(insn) == Imm(insn)
  {
    var p, q, r, t := [insn[7]], [insn[6], insn[7]], [insn[5], insn[6], insn[7]], insn[4..8];
    assert p[1..] == [] && q[1..] == p && r[1..] == q && t[1..] == r && t[0] == insn[4];
    assert FromLE(p) == insn[7];
    assert FromLE(q) == insn[6] + 256 * FromLE(p);
    assert FromLE(r) == insn[5] + 256 * FromLE(q);
    assert FromLE(t) == insn[4] + 256 * FromLE(r);
    Pow256Values();
  }

  lemma {:induction false} SameDestination(rel: Rel, insn: Bytes, ctx: Context)
    requires |insn| == INSN && rel.Sym() < |ctx.symbols|
    ensures Destination(rel, insn, ctx) == CallTarget(rel, insn, ctx)
  {
    SameImm(insn);
  }

  // ----- what one rewrite does to the instructions -----

  /** `after` is the call `before`, made relative with displacement `delta`. */
  ghost predicate Relative(before: Bytes, after: Bytes, delta: int)
    requires |before| == INSN && |after| == INSN
  {
    before[0] == after[0] == OP_CALL && after[1] / 16 == 1 && Imm(after) == delta
  }

  lemma {:induction false} InsnAt(code: Bytes, i: nat, k: nat)
    requires InCode(code, i) && k < INSN
    ensures Insn(code, i)[k] == code[INSN * i + k]
  {
  }

  lemma {:induction false} SameInsn(a: Bytes, b: Bytes, i: nat)
    requires |a| == |b| && InCode(a, i)
    requires forall k :: INSN * i <= k < INSN * i + INSN ==> a[k] == b[k]
    ensures Insn(a, i) == Insn(b, i)
  {
  }

  lemma {:induction false} PatchElsewhere(data: Bytes, at: nat, delta: i32, i: nat)
    requires at % INSN == 0 && at + INSN <= |data| && InCode(data, i) && INSN * i != at
    ensures Insn(PatchCall(data, at, delta), i) == Insn(data, i)
  {
    assert INSN * i + INSN <= at || at + INSN <= INSN * i;
    SameInsn(PatchCall(data, at, delta), data, i);
  }

  lemma {:induction false} PatchHere(data: Bytes, i: nat, delta: i32)
    requires InCode(data, i) && data[INSN * i] == OP_CALL
    ensures Relative(Insn(data, i), Insn(PatchCall(data, INSN * i, delta), i), delta)
  {
    var out := PatchCall(data, INSN * i, delta);
    var d := LE(FromI32(delta), 4);
    assert Insn(out, i)[4..8] == [d[0], d[1], d[2], d[3]] == d;
    Pow256Values();
    LERoundTrip(FromI32(delta), 4);
  }

  /** The displacement a call is left with when its relocations are applied one after the other. */
  function Settled(calls: seq<Rel>, imm: int, ctx: Context, base: nat, here: int): int
    requires forall r :: r in calls ==> r.Sym() < |ctx.symbols|
  {
    if calls == [] then imm
    else
      assert forall r :: r in calls[1..] ==> r in calls;
      Settled(calls[1..], base + TargetOf(calls[0], imm, ctx) - here - 1, ctx, base, here)
  }

  /** What the sweep leaves at instruction `i`: the instruction itself, or the call made relative. */
  ghost predicate SweptInsn(before: Bytes, after: Bytes, calls: seq<Rel>, ctx: Context, base: nat, i: nat)
    requires |before| == INSN && |after| == INSN
    requires forall r :: r in calls ==> r.Sym() < |ctx.symbols|
  {
    if calls == [] || before[0] != OP_CALL then after == before
    else Relative(before, after, Settled(calls, Imm(before), ctx, base, i))
  }

  lemma {:induction false} SweepInsn(data: Bytes, rels: seq<Rel>, shift: nat, ctx: Context, original: nat, i: nat)
    requires Sweep(data, rels, shift, ctx, original).Ok? && InCode(data, i)
    ensures SweptInsn(Insn(data, i), Insn(Sweep(data, rels, shift, ctx, original).value.data, i),
                      TextCallsAt(rels, INSN * i - shift, ctx), ctx, original / INSN, i)
    decreases rels
  {
    if rels != [] {
      var moved := Rel(rels[0].offset + shift, rels[0].info);
      var next := data;
      SameCall(moved, ctx);
      if IsTextCall(moved, ctx) {
        next := RewriteCall(data, moved, ctx, original).value;
        RewriteInsn(data, moved, ctx, original, i);
      }
      SweepInsn(next, rels[1..], shift, ctx, original, i);
      if IsTextCall(moved, ctx) && moved.offset == INSN * i {
        SweptNext(Insn(data, i), Insn(next, i), Insn(Sweep(data, rels, shift, ctx, original).value.data, i), rels[0],
                  TextCallsAt(rels[1..], INSN * i - shift, ctx), ctx, original / INSN, i);
      }
    }
  }

  /** A rewrite in front of others. */
  lemma {:induction false} SweptNext(before: Bytes, next: Bytes, after: Bytes, rel: Rel, rest: seq<Rel>, ctx: Context,
                                     base: nat, i: nat)
    requires |before| == |next| == |after| == INSN
    requires rel.Sym() < |ctx.symbols| && forall r :: r in rest ==> r.Sym() < |ctx.symbols|
    requires if before[0] == OP_CALL then Relative(before, next, Delta(rel, before, ctx, base, i)) else next == before
    requires SweptInsn(next, after, rest, ctx, base, i)
    ensures SweptInsn(before, after, [rel] + rest, ctx, base, i)
  {
    if before[0] == OP_CALL {
      SettledNext(rel, rest, Imm(before), ctx, base, i);
    }
  }

  lemma {:induction false} SettledNext(rel: Rel, rest: seq<Rel>, imm: int, ctx: Context, base: nat, here: int)
    requires rel.Sym() < |ctx.symbols| && forall r :: r in rest ==> r.Sym() < |ctx.symbols|
    ensures Settled([rel] + rest, imm, ctx, base, here)
         == Settled(rest, base + TargetOf(rel, imm, ctx) - here - 1, ctx, base, here)
  {
    assert ([rel] + rest)[1..] == rest;
  }

  lemma {:induction false} RewriteInsn(data: Bytes, rel: Rel, ctx: Context, original: nat, i: nat)
    requires IsTextCall(rel, ctx) && RewriteCall(data, rel, ctx, original).Ok? && InCode(data, i)
    ensures var before, after := Insn(data, i), Insn(RewriteCall(data, rel, ctx, original).value, i);
            if rel.offset == INSN * i && before[0] == OP_CALL
            then Relative(before, after, Delta(rel, before, ctx, original / INSN, i)) else after == before
  {
    var at := rel.offset;
    if data[at] == OP_CALL {
      if at == INSN * i {
        assert data[at..at + INSN] == Insn(data, i);
        PatchHere(data, i, Delta(rel, Insn(data, i), ctx, original / INSN, i));
      } else {
        PatchElsewhere(data, at, Delta(rel, data[at..at + INSN], ctx, original / INSN, at / INSN), i);
      }
    }
  }

  // ----- what survives of the relocations -----

  lemma {:induction false} SweepKept(data: Bytes, rels: seq<Rel>, shift: nat, ctx: Context, original: nat)
    requires Sweep(data, rels, shift, ctx, original).Ok?
    ensures forall r :: r in Sweep(data, rels, shift, ctx, original).value.kept ==>
                          !IsTextCall(r, ctx) && shift <= r.offset && Rel(r.offset - shift, r.info) in rels
    decreases rels
  {
    if rels != [] {
      var moved := Rel(rels[0].offset + shift, rels[0].info);
      assert rels == [rels[0]] + rels[1..];
      if IsTextCall(moved, ctx) {
        SweepKept(RewriteCall(data, moved, ctx, original).value, rels[1..], shift, ctx, original);
      } else {
        SweepKept(data, rels[1..], shift, ctx, original);
      }
    }
  }

  lemma {:induction false} SweepFixups(data: Bytes, rels: seq<Rel>, shift: nat, ctx: Context, original: nat,
                                       lo: int, hi: int, isCall: bool, taken: bool)
    requires Sweep(data, rels, shift, ctx, original).Ok?
    ensures Fixups(Sweep(data, rels, shift, ctx, original).value.kept, lo + shift, hi + shift, isCall, taken, ctx)
         == Fixups(rels, lo, hi, isCall, taken, ctx)
    decreases rels
  {
    if rels != [] {
      var moved := Rel(rels[0].offset + shift, rels[0].info);
      SameCall(moved, ctx);
      if IsTextCall(moved, ctx) {
        SweepFixups(RewriteCall(data, moved, ctx, original).value, rels[1..], shift, ctx, original, lo, hi, isCall,
                    taken);
      } else {
        var rest := Sweep(data, rels[1..], shift, ctx, original).value;
        assert ([moved] + rest.kept)[1..] == rest.kept;
        var counts := lo <= rels[0].offset < hi && moved.Kind() == R_BPF_64_32 && isCall && !taken;
        SweepFixups(data, rels[1..], shift, ctx, original, lo, hi, isCall, taken || counts);
      }
    }
  }

  /** Relocations outside the window contribute nothing. */
  lemma {:induction false} FixupsOutside(rels: seq<Rel>, lo: int, hi: int, isCall: bool, taken: bool, ctx: Context)
    requires forall r :: r in rels ==> r.offset < lo || hi <= r.offset
    ensures Fixups(rels, lo, hi, isCall, taken, ctx) == []
    decreases rels
  {
    if rels != [] {
      assert rels[0] in rels;
      FixupsOutside(rels[1..], lo, hi, isCall, taken, ctx);
    }
  }

  lemma {:induction false} FixupsLeft(a: seq<Rel>, b: seq<Rel>, lo: int, hi: int, isCall: bool, taken: bool,
                                      ctx: Context)
    requires forall r :: r in b ==> r.offset < lo || hi <= r.offset
    ensures Fixups(a + b, lo, hi, isCall, taken, ctx) == Fixups(a, lo, hi, isCall, taken, ctx)
    decreases a
  {
    if a == [] {
      assert a + b == b;
      FixupsOutside(b, lo, hi, isCall, taken, ctx);
    } else {
      assert (a + b)[1..] == a[1..] + b;
      FixupsLeft(a[1..], b, lo, hi, isCall, taken, ctx);
      FixupsLeft(a[1..], b, lo, hi, isCall, true, ctx);
    }
  }

  lemma {:induction false} FixupsRight(a: seq<Rel>, b: seq<Rel>, lo: int, hi: int, isCall: bool, taken: bool,
                                       ctx: Context)
    requires forall r :: r in a ==> r.offset < lo || hi <= r.offset
    ensures Fixups(a + b, lo, hi, isCall, taken, ctx) == Fixups(b, lo, hi, isCall, taken, ctx)
    decreases a
  {
    if a == [] {
      assert a + b == b;
    } else {
      assert a[0] in a && (a + b)[1..] == a[1..] + b;
      FixupsRight(a[1..], b, lo, hi, isCall, taken, ctx);
    }
  }

  /** Pruning drops only what no instruction sees. */
  lemma {:induction false} PruneFixups(data: Bytes, rels: seq<Rel>, seen: set<u64>, i: nat, slots: nat, ctx: Context)
    requires Prune(data, rels, seen).Ok? && 1 <= slots <= 2 && InCode(data, i + slots - 1)
    requires slots == 2 ==> data[INSN * i] != OP_CALL && data[INSN * i + INSN] != OP_CALL
    requires forall r :: r in rels ==> !IsTextCall(r, ctx)
    ensures Fixups(Prune(data, rels, seen).value, INSN * i, INSN * (i + slots), data[INSN * i] == OP_CALL,
                   INSN * i in seen, ctx)
         == Fixups(rels, INSN * i, INSN * (i + slots), data[INSN * i] == OP_CALL, INSN * i in seen, ctx)
    decreases rels
  {
    if rels != [] {
      var rel, rest := rels[0], rels[1..];
      assert rel in rels;
      SameCall(rel, ctx);
      if rel.Kind() == R_BPF_64_32 {
        assert rel.offset % INSN == 0;
        assert INSN * i <= rel.offset < INSN * (i + slots) ==> rel.offset == INSN * i || rel.offset == INSN * i + INSN;
        if data[rel.offset] != OP_CALL || rel.offset in seen {
          PruneFixups(data, rest, seen, i, slots, ctx);
        } else {
          PruneFixups(data, rest, seen + {rel.offset}, i, slots, ctx);
          assert ([rel] + Prune(data, rest, seen + {rel.offset}).value)[1..]
                 == Prune(data, rest, seen + {rel.offset}).value;
        }
      } else {
        PruneFixups(data, rest, seen, i, slots, ctx);
        assert ([rel] + Prune(data, rest, seen).value)[1..] == Prune(data, rest, seen).value;
      }
    }
  }

  // ----- one folded section -----

  /** What the fold needs of an entrypoint: whole instructions, and relocations on them. */
  ghost predicate Foldable(p: Program) {
    && |p.entry.bytes| % INSN == 0 && |p.text.bytes| % INSN == 0
    && (forall r :: r in p.entry.rels ==> r.offset < |p.entry.bytes|)
  }

  function FoldProgram(p: Program): Result<Folded> {
    FoldCode(p.entry.bytes, p.entry.rels, p.text.bytes, p.text.rels, p.ctx)
  }

  /** The folded section by itself. */
  function Alone(f: Folded, ctx: Context): Program {
    Program(Code(f.code, f.rels), Code([], []), ctx)
  }

  function Base(p: Program): nat {
    |p.entry.bytes| / INSN
  }

  lemma {:induction false} NoCallsElsewhere(rels: seq<Rel>, at: int, ctx: Context)
    requires forall r :: r in rels ==> r.offset != at || !IsTextCall(r, ctx)
    ensures TextCallsAt(rels, at, ctx) == []
  {
    if rels != [] {
      assert rels[0] in rels;
      SameCall(rels[0], ctx);
      NoCallsElsewhere(rels[1..], at, ctx);
    }
  }

  /** The instruction at `pc` is in the folded section at its new place, its call into `.text` made relative. */
  ghost predicate InsnMoved(p: Program, f: Folded, pc: Place) {
    InCode(CodeOf(p, pc.inText).bytes, pc.index) ==>
      var j := LiftPlace(Base(p), pc).index;
      && InCode(f.code, j)
      && SweptInsn(Insn(CodeOf(p, pc.inText).bytes, pc.index), Insn(f.code, j),
                   TextCallsAt(CodeOf(p, pc.inText).rels, INSN * pc.index, p.ctx), p.ctx, Base(p), j)
  }

  /** An instruction of `slots` slots at `pc`, in both programs, that is not two calls. */
  ghost predicate Windowed(p: Program, f: Folded, pc: Place, slots: nat) {
    var j := LiftPlace(Base(p), pc).index;
    && 1 <= slots <= 2 && InCode(f.code, j) && InCode(f.code, j + slots - 1)
    && InCode(CodeOf(p, pc.inText).bytes, pc.index) && InCode(CodeOf(p, pc.inText).bytes, pc.index + slots - 1)
    && (slots == 2 ==> f.code[INSN * j] != OP_CALL && f.code[INSN * j + INSN] != OP_CALL)
  }

  /** The other relocations reach the instruction they reached before. */
  ghost predicate FixupsMoved(p: Program, f: Folded, pc: Place, slots: nat) {
    Windowed(p, f, pc, slots) ==>
      var j := LiftPlace(Base(p), pc).index;
      Fixups(f.rels, INSN * j, INSN * (j + slots), f.code[INSN * j] == OP_CALL, false, p.ctx)
      == Fixups(CodeOf(p, pc.inText).rels, INSN * pc.index, INSN * (pc.index + slots), f.code[INSN * j] == OP_CALL,
                false, p.ctx)
  }

  /** Everything the simulation needs of a folded section. */
  ghost predicate Refines(p: Program, f: Folded) {
    && (forall pc :: InsnMoved(p, f, pc))
    && (forall pc, slots :: FixupsMoved(p, f, pc, slots))
    && (forall at: int :: TextCallsAt(f.rels, at, p.ctx) == [])
  }

  ghost predicate SweptAt(data: Bytes, rels: seq<Rel>, shift: nat, ctx: Context, base: nat, out: Bytes, j: nat)
    requires |out| == |data|
  {
    InCode(data, j) ==>
      SweptInsn(Insn(data, j), Insn(out, j), TextCallsAt(rels, INSN * j - shift, ctx), ctx, base, j)
  }

  ghost predicate SameFixups(a: seq<Rel>, shiftA: int, b: seq<Rel>, shiftB: int, ctx: Context, lo: int, hi: int,
                             isCall: bool) {
    Fixups(a, lo + shiftA, hi + shiftA, isCall, false, ctx) == Fixups(b, lo + shiftB, hi + shiftB, isCall, false, ctx)
  }

  /** What a sweep over relocations moved by `shift` did to the code, and which of them it kept. */
  ghost predicate SweepFacts(data: Bytes, rels: seq<Rel>, shift: nat, ctx: Context, base: nat, s: Swept) {
    && |s.data| == |data|
    && (forall j: nat :: SweptAt(data, rels, shift, ctx, base, s.data, j))
    && (forall lo, hi, isCall :: SameFixups(s.kept, shift, rels, 0, ctx, lo, hi, isCall))
    && (forall r :: r in s.kept ==> !IsTextCall(r, ctx) && shift <= r.offset && Rel(r.offset - shift, r.info) in rels)
  }

  lemma {:induction false} SweepHasFacts(data: Bytes, rels: seq<Rel>, shift: nat, ctx: Context, original: nat)
    requires Sweep(data, rels, shift, ctx, original).Ok?
    ensures SweepFacts(data, rels, shift, ctx, original / INSN, Sweep(data, rels, shift, ctx, original).value)
  {
    var s := Sweep(data, rels, shift, ctx, original).value;
    forall j: nat
      ensures SweptAt(data, rels, shift, ctx, original / INSN, s.data, j)
    {
      if InCode(data, j) {
        SweepInsn(data, rels, shift, ctx, original, j);
      }
    }
    forall lo, hi, isCall
      ensures SameFixups(s.kept, shift, rels, 0, ctx, lo, hi, isCall)
    {
      SweepFixups(data, rels, shift, ctx, original, lo, hi, isCall, false);
    }
    SweepKept(data, rels, shift, ctx, original);
  }

  ghost predicate PrunedAt(data: Bytes, rels: seq<Rel>, ctx: Context, out: seq<Rel>, i: nat, slots: nat) {
    && 1 <= slots <= 2 && InCode(data, i) && InCode(data, i + slots - 1)
    && (slots == 2 ==> data[INSN * i] != OP_CALL && data[INSN * i + INSN] != OP_CALL)
    ==>
      Fixups(out, INSN * i, INSN * (i + slots), data[INSN * i] == OP_CALL, false, ctx)
      == Fixups(rels, INSN * i, INSN * (i + slots), data[INSN * i] == OP_CALL, false, ctx)
  }

  /** What pruning relocations that call nothing in `.text` left. */
  ghost predicate PruneFacts(data: Bytes, rels: seq<Rel>, ctx: Context, out: seq<Rel>) {
    && (forall i: nat, slots: nat :: PrunedAt(data, rels, ctx, out, i, slots))
    && (forall r :: r in out ==> r in rels)
    && Pruned(data, out)
  }

  lemma {:induction false} PruneHasFacts(data: Bytes, rels: seq<Rel>, ctx: Context)
    requires Prune(data, rels, {}).Ok? && forall r :: r in rels ==> !IsTextCall(r, ctx)
    ensures PruneFacts(data, rels, ctx, Prune(data, rels, {}).value)
  {
    var out := Prune(data, rels, {}).value;
    forall i: nat, slots: nat
      ensures PrunedAt(data, rels, ctx, out, i, slots)
    {
      if && 1 <= slots <= 2 && InCode(data, i) && InCode(data, i + slots - 1)
         && (slots == 2 ==> data[INSN * i] != OP_CALL && data[INSN * i + INSN] != OP_CALL) {
        PruneFixups(data, rels, {}, i, slots, ctx);
      }
    }
    PruneIsPruned(data, rels, {});
  }

  /** The two sweeps and the pruning a successful fold went through. */
  ghost predicate Parts(p: Program, own: Swept, copied: Swept, f: Folded) {
    && SweepFacts(p.entry.bytes + p.text.bytes, p.entry.rels, 0, p.ctx, Base(p), own)
    && SweepFacts(own.data, p.text.rels, |p.entry.bytes|, p.ctx, Base(p), copied)
    && PruneFacts(copied.data, own.kept + copied.kept, p.ctx, f.rels) && f.code == copied.data
  }

  lemma {:induction false} FoldParts(p: Program) returns (own: Swept, copied: Swept)
    requires FoldProgram(p).Ok?
    ensures Parts(p, own, copied, FoldProgram(p).value)
  {
    var original := |p.entry.bytes|;
    own := Sweep(p.entry.bytes + p.text.bytes, p.entry.rels, 0, p.ctx, original).value;
    copied := Sweep(own.data, p.text.rels, original, p.ctx, original).value;
    SweepHasFacts(p.entry.bytes + p.text.bytes, p.entry.rels, 0, p.ctx, original);
    SweepHasFacts(own.data, p.text.rels, original, p.ctx, original);
    PruneHasFacts(copied.data, own.kept + copied.kept, p.ctx);
  }

  /** Instruction `j` of the two sections end to end. */
  lemma {:induction false} InsnOfBoth(p: Program, pc: Place)
    requires |p.entry.bytes| % INSN == 0 && InCode(CodeOf(p, pc.inText).bytes, pc.index)
    ensures var j := LiftPlace(Base(p), pc).index;
            InCode(p.entry.bytes + p.text.bytes, j)
            && Insn(p.entry.bytes + p.text.bytes, j) == Insn(CodeOf(p, pc.inText).bytes, pc.index)
  {
    assert |p.entry.bytes| == INSN * Base(p);
    if pc.inText {
      InsnAfter(p.entry.bytes, p.text.bytes, Base(p), pc.index);
    } else {
      assert (p.entry.bytes + p.text.bytes)[..|p.entry.bytes|] == p.entry.bytes;
    }
  }

  lemma {:induction false} InsnAfter(a: Bytes, b: Bytes, base: nat, i: nat)
    requires |a| == INSN * base && InCode(b, i)
    ensures InCode(a + b, base + i) && Insn(a + b, base + i) == Insn(b, i)
  {
    assert (a + b)[|a|..] == b;
  }

  /** The other section has no relocation on the instruction. */
  lemma {:induction false} OtherSideCalls(p: Program, pc: Place)
    requires Foldable(p) && InCode(CodeOf(p, pc.inText).bytes, pc.index)
    ensures var at := INSN * LiftPlace(Base(p), pc).index;
            if pc.inText then TextCallsAt(p.entry.rels, at, p.ctx) == []
            else TextCallsAt(p.text.rels, at - |p.entry.bytes|, p.ctx) == []
  {
    var at := INSN * LiftPlace(Base(p), pc).index;
    if pc.inText {
      NoCallsElsewhere(p.entry.rels, at, p.ctx);
    } else {
      NoCallsElsewhere(p.text.rels, at - |p.entry.bytes|, p.ctx);
    }
  }

  /** At an instruction only one of the sweeps has a relocation for, the other changes nothing. */
  lemma {:induction false} EntryInsn(p: Program, own: Swept, copied: Swept, f: Folded, j: nat)
    requires Parts(p, own, copied, f) && InCode(f.code, j)
    requires TextCallsAt(p.text.rels, INSN * j - |p.entry.bytes|, p.ctx) == []
    ensures SweptInsn(Insn(p.entry.bytes + p.text.bytes, j), Insn(f.code, j),
                      TextCallsAt(p.entry.rels, INSN * j, p.ctx), p.ctx, Base(p), j)
  {
    assert SweptAt(p.entry.bytes + p.text.bytes, p.entry.rels, 0, p.ctx, Base(p), own.data, j);
    assert SweptAt(own.data, p.text.rels, |p.entry.bytes|, p.ctx, Base(p), copied.data, j);
  }

  lemma {:induction false} CopiedInsn(p: Program, own: Swept, copied: Swept, f: Folded, j: nat)
    requires Parts(p, own, copied, f) && InCode(f.code, j)
    requires TextCallsAt(p.entry.rels, INSN * j, p.ctx) == []
    ensures SweptInsn(Insn(p.entry.bytes + p.text.bytes, j), Insn(f.code, j),
                      TextCallsAt(p.text.rels, INSN * j - |p.entry.bytes|, p.ctx), p.ctx, Base(p), j)
  {
    assert SweptAt(p.entry.bytes + p.text.bytes, p.entry.rels, 0, p.ctx, Base(p), own.data, j);
    assert SweptAt(own.data, p.text.rels, |p.entry.bytes|, p.ctx, Base(p), copied.data, j);
  }

  lemma {:induction false} FoldedInsn(p: Program, own: Swept, copied: Swept, f: Folded, pc: Place)
    requires Foldable(p) && Parts(p, own, copied, f)
    ensures InsnMoved(p, f, pc)
  {
    if InCode(CodeOf(p, pc.inText).bytes, pc.index) {
      assert |p.entry.bytes| == INSN * Base(p);
      InsnOfBoth(p, pc);
      OtherSideCalls(p, pc);
      if pc.inText {
        CopiedInsn(p, own, copied, f, LiftPlace(Base(p), pc).index);
      } else {
        EntryInsn(p, own, copied, f, pc.index);
      }
    }
  }

  /** No relocation left in a folded section is a call into `.text`. */
  lemma {:induction false} FoldedRelsPlain(p: Program, own: Swept, copied: Swept, f: Folded)
    requires Parts(p, own, copied, f)
    ensures forall r :: r in own.kept + copied.kept ==> !IsTextCall(r, p.ctx)
    ensures forall r :: r in f.rels ==> !IsTextCall(r, p.ctx)
    ensures forall at: int :: TextCallsAt(f.rels, at, p.ctx) == []
  {
    forall at: int
      ensures TextCallsAt(f.rels, at, p.ctx) == []
    {
      NoCallsElsewhere(f.rels, at, p.ctx);
    }
  }

  /** The entrypoint's relocations stay in front of `original`, and `.text`'s come after. */
  lemma {:induction false} KeptSides(p: Program, own: Swept, copied: Swept, f: Folded)
    requires Foldable(p) && Parts(p, own, copied, f)
    ensures forall r :: r in own.kept ==> r.offset < |p.entry.bytes|
    ensures forall r :: r in copied.kept ==> |p.entry.bytes| <= r.offset
  {
    var original := |p.entry.bytes|;
    forall r | r in own.kept
      ensures r.offset < original
    {
      assert Rel(r.offset - 0, r.info) in p.entry.rels;
    }
  }

  lemma {:induction false} EntryFixups(p: Program, own: Swept, copied: Swept, f: Folded, lo: int, hi: int, isCall: bool)
    requires Foldable(p) && Parts(p, own, copied, f) && hi <= |p.entry.bytes|
    ensures Fixups(own.kept + copied.kept, lo, hi, isCall, false, p.ctx)
         == Fixups(p.entry.rels, lo, hi, isCall, false, p.ctx)
  {
    assert forall r :: r in copied.kept ==> r.offset < lo || hi <= r.offset by {
      KeptSides(p, own, copied, f);
    }
    FixupsLeft(own.kept, copied.kept, lo, hi, isCall, false, p.ctx);
    assert SameFixups(own.kept, 0, p.entry.rels, 0, p.ctx, lo, hi, isCall);
  }

  lemma {:induction false} TextFixups(p: Program, own: Swept, copied: Swept, f: Folded, lo: int, hi: int, isCall: bool)
    requires Foldable(p) && Parts(p, own, copied, f) && 0 <= lo
    ensures Fixups(own.kept + copied.kept, lo + |p.entry.bytes|, hi + |p.entry.bytes|, isCall, false, p.ctx)
         == Fixups(p.text.rels, lo, hi, isCall, false, p.ctx)
  {
    var original := |p.entry.bytes|;
    assert forall r :: r in own.kept ==> r.offset < lo + original || hi + original <= r.offset by {
      KeptSides(p, own, copied, f);
    }
    FixupsRight(own.kept, copied.kept, lo + original, hi + original, isCall, false, p.ctx);
    assert SameFixups(copied.kept, original, p.text.rels, 0, p.ctx, lo, hi, isCall);
  }

  lemma {:induction false} KeptFixups(p: Program, own: Swept, copied: Swept, f: Folded, pc: Place, slots: nat,
                                      isCall: bool)
    requires Foldable(p) && Parts(p, own, copied, f) && slots >= 1
    requires InCode(CodeOf(p, pc.inText).bytes, pc.index) && InCode(CodeOf(p, pc.inText).bytes, pc.index + slots - 1)
    ensures var j := LiftPlace(Base(p), pc).index;
            Fixups(own.kept + copied.kept, INSN * j, INSN * (j + slots), isCall, false, p.ctx)
            == Fixups(CodeOf(p, pc.inText).rels, INSN * pc.index, INSN * (pc.index + slots), isCall, false, p.ctx)
  {
    assert |p.entry.bytes| == INSN * Base(p);
    if pc.inText {
      TextFixups(p, own, copied, f, INSN * pc.index, INSN * (pc.index + slots), isCall);
    } else {
      EntryFixups(p, own, copied, f, INSN * pc.index, INSN * (pc.index + slots), isCall);
    }
  }

  /** What pruning left for a window of the folded code. */
  lemma {:induction false} PrunedFixups(p: Program, own: Swept, copied: Swept, f: Folded, j: nat, slots: nat)
    requires Parts(p, own, copied, f) && 1 <= slots <= 2 && InCode(f.code, j) && InCode(f.code, j + slots - 1)
    requires slots == 2 ==> f.code[INSN * j] != OP_CALL && f.code[INSN * j + INSN] != OP_CALL
    ensures Fixups(f.rels, INSN * j, INSN * (j + slots), f.code[INSN * j] == OP_CALL, false, p.ctx)
         == Fixups(own.kept + copied.kept, INSN * j, INSN * (j + slots), f.code[INSN * j] == OP_CALL, false, p.ctx)
  {
    assert PrunedAt(copied.data, own.kept + copied.kept, p.ctx, f.rels, j, slots);
  }

  lemma {:induction false} FoldedFixups(p: Program, own: Swept, copied: Swept, f: Folded, pc: Place, slots: nat)
    requires Foldable(p) && Parts(p, own, copied, f)
    ensures FixupsMoved(p, f, pc, slots)
  {
    if Windowed(p, f, pc, slots) {
      var j := LiftPlace(Base(p), pc).index;
      KeptFixups(p, own, copied, f, pc, slots, f.code[INSN * j] == OP_CALL);
      PrunedFixups(p, own, copied, f, j, slots);
    }
  }

  lemma {:induction false} FoldRefines(p: Program)
    requires Foldable(p) && FoldProgram(p).Ok?
    ensures Refines(p, FoldProgram(p).value)
  {
    var own, copied := FoldParts(p);
    var f := FoldProgram(p).value;
    forall pc ensures InsnMoved(p, f, pc) { FoldedInsn(p, own, copied, f, pc); }
    forall pc, slots ensures FixupsMoved(p, f, pc, slots) { FoldedFixups(p, own, copied, f, pc, slots); }
    FoldedRelsPlain(p, own, copied, f);
  }

  // ----- the simulation -----

  /** The bytes of the instruction at `pc`, `slots` slots wide, are unchanged at its new place. */
  ghost predicate SameWindow(p: Program, f: Folded, pc: Place, slots: nat) {
    var code, j := CodeOf(p, pc.inText).bytes, LiftPlace(Base(p), pc).index;
    && InCode(code, pc.index) && InCode(code, pc.index + slots - 1) && InCode(f.code, j)
    && InCode(f.code, j + slots - 1)
    && 1 <= slots <= 2
    && f.code[INSN * j..INSN * (j + slots)] == code[INSN * pc.index..INSN * (pc.index + slots)]
  }

  lemma {:induction false} OneSlotWindow(p: Program, f: Folded, pc: Place)
    requires InCode(CodeOf(p, pc.inText).bytes, pc.index) && InCode(f.code, LiftPlace(Base(p), pc).index)
    requires Insn(f.code, LiftPlace(Base(p), pc).index) == Insn(CodeOf(p, pc.inText).bytes, pc.index)
    ensures SameWindow(p, f, pc, 1)
  {
  }

  lemma {:induction false} TwoSlotWindow(p: Program, f: Folded, pc: Place)
    requires InsnMoved(p, f, pc) && InsnMoved(p, f, Place(pc.inText, pc.index + 1))
    requires var code := CodeOf(p, pc.inText).bytes;
             && InCode(code, pc.index) && InCode(code, pc.index + 1)
             && code[INSN * pc.index] != OP_CALL && code[INSN * (pc.index + 1)] != OP_CALL
    ensures SameWindow(p, f, pc, 2)
  {
    var code, i, j := CodeOf(p, pc.inText).bytes, pc.index, LiftPlace(Base(p), pc).index;
    InsnAt(code, i, 0);
    InsnAt(code, i + 1, 0);
    TwoInsns(f.code, j);
    TwoInsns(code, i);
  }

  lemma {:induction false} TwoInsns(code: Bytes, i: nat)
    requires InCode(code, i) && InCode(code, i + 1)
    ensures code[INSN * i..INSN * (i + 2)] == Insn(code, i) + Insn(code, i + 1)
  {
  }

  /** The opcodes of the slots are the same. */
  lemma {:induction false} SameOpcodes(p: Program, f: Folded, pc: Place, slots: nat)
    requires SameWindow(p, f, pc, slots)
    ensures var code, j := CodeOf(p, pc.inText).bytes, LiftPlace(Base(p), pc).index;
            && f.code[INSN * j] == code[INSN * pc.index]
            && (slots == 2 ==> f.code[INSN * j + INSN] == code[INSN * pc.index + INSN])
  {
    var code, j := CodeOf(p, pc.inText).bytes, LiftPlace(Base(p), pc).index;
    var window, here := f.code[INSN * j..INSN * (j + slots)], code[INSN * pc.index..INSN * (pc.index + slots)];
    assert f.code[INSN * j] == window[0] && here[0] == code[INSN * pc.index];
    if slots == 2 {
      assert f.code[INSN * j + INSN] == window[INSN] && here[INSN] == code[INSN * pc.index + INSN];
    }
  }

  /** A plain instruction has the same effect in its new place. */
  lemma {:induction false} PerformSim<D>(p: Program, f: Folded, exec: Exec<D>, pc: Place, slots: nat,
                                         stack: seq<Place>, data: D)
    requires SameWindow(p, f, pc, slots) && FixupsMoved(p, f, pc, slots)
    requires var code := CodeOf(p, pc.inText).bytes;
             slots == 2 ==> code[INSN * pc.index] != OP_CALL && code[INSN * pc.index + INSN] != OP_CALL
    ensures Perform(Code(f.code, f.rels), LiftPlace(Base(p), pc), slots, LiftStack(Base(p), stack), data, p.ctx, exec)
         == Lift(Base(p), Perform(CodeOf(p, pc.inText), pc, slots, stack, data, p.ctx, exec))
  {
    SameOpcodes(p, f, pc, slots);
  }

  // ----- several relocations on one call -----

  /** The instruction of `.text` a list of relocations on a call names in the end, but for strays. */
  function Named(calls: seq<Rel>, imm: int, ctx: Context): int
    requires calls != [] && forall r :: r in calls ==> r.Sym() < |ctx.symbols|
  {
    var last := calls[|calls| - 1];
    if |calls| == 1 || Valued(last, ctx) then TargetOf(last, imm, ctx) else Named(calls[..|calls| - 1], imm, ctx)
  }

  /** How many relocations at the end of the list, after the first, name a symbol without a value. */
  function Strays(calls: seq<Rel>, ctx: Context): nat
    requires forall r :: r in calls ==> r.Sym() < |ctx.symbols|
  {
    if |calls| <= 1 || Valued(calls[|calls| - 1], ctx) then 0 else 1 + Strays(calls[..|calls| - 1], ctx)
  }

  lemma {:induction false} SettledLast(calls: seq<Rel>, last: Rel, imm: int, ctx: Context, base: nat, here: int)
    requires last.Sym() < |ctx.symbols| && forall r :: r in calls ==> r.Sym() < |ctx.symbols|
    ensures Settled(calls + [last], imm, ctx, base, here)
         == base + TargetOf(last, Settled(calls, imm, ctx, base, here), ctx) - here - 1
    decreases |calls|
  {
    if calls == [] {
      assert calls + [last] == [last] + [];
      SettledNext(last, [], imm, ctx, base, here);
    } else {
      SettledLast(calls[1..], last, base + TargetOf(calls[0], imm, ctx) - here - 1, ctx, base, here);
      assert (calls + [last])[1..] == calls[1..] + [last];
    }
  }

  /** `n` times `d`. */
  function Repeated(n: nat, d: int): int {
    if n == 0 then 0 else d + Repeated(n - 1, d)
  }

  lemma {:induction false} RepeatedIs(n: nat, d: int)
    ensures Repeated(n, d) == n * d
  {
    if n > 0 {
      RepeatedIs(n - 1, d);
      assert n * d == (n - 1) * d + d;
    }
  }

  /** A stray adds the distance from the call to the copy of `.text`. */
  lemma {:induction false} SettledIs(calls: seq<Rel>, imm: int, ctx: Context, base: nat, here: int)
    requires calls != [] && forall r :: r in calls ==> r.Sym() < |ctx.symbols|
    ensures Settled(calls, imm, ctx, base, here)
         == base + Named(calls, imm, ctx) - here - 1 + Repeated(Strays(calls, ctx), base - here)
  {
    var front, last := calls[..|calls| - 1], calls[|calls| - 1];
    assert calls == front + [last];
    SettledLast(front, last, imm, ctx, base, here);
    if front == [] || Valued(last, ctx) {
      assert Strays(calls, ctx) == 0 && Named(calls, imm, ctx) == TargetOf(last, imm, ctx);
      assert front == [] ==> Settled(front, imm, ctx, base, here) == imm;
    } else {
      SettledIs(front, imm, ctx, base, here);
    }
  }

  /** The relocations on a call leave it at the instruction the first of them names. */
  predicate Agree(calls: seq<Rel>, imm: int, ctx: Context, base: nat, here: int)
    requires forall r :: r in calls ==> r.Sym() < |ctx.symbols|
  {
    calls == [] || Named(calls, imm, ctx) + Strays(calls, ctx) * (base - here) == TargetOf(calls[0], imm, ctx)
  }

  /** The displacement is the one the first relocation alone would leave. */
  predicate Keeps(calls: seq<Rel>, imm: int, ctx: Context, base: nat, here: int)
    requires calls != [] && forall r :: r in calls ==> r.Sym() < |ctx.symbols|
  {
    Settled(calls, imm, ctx, base, here) == base + TargetOf(calls[0], imm, ctx) - here - 1
  }

  lemma {:induction false} KeepsIff(calls: seq<Rel>, imm: int, ctx: Context, base: nat, here: int)
    requires calls != [] && forall r :: r in calls ==> r.Sym() < |ctx.symbols|
    ensures Keeps(calls, imm, ctx, base, here) <==> Agree(calls, imm, ctx, base, here)
  {
    SettledIs(calls, imm, ctx, base, here);
    RepeatedIs(Strays(calls, ctx), base - here);
  }

  /** One relocation agrees with itself. */
  lemma {:induction false} OneAgrees(rel: Rel, imm: int, ctx: Context, base: nat, here: int)
    requires rel.Sym() < |ctx.symbols|
    ensures Agree([rel], imm, ctx, base, here)
  {
  }

  /** So do any number against symbols with the same value in `.text`. */
  lemma {:induction false} ValuedAgree(calls: seq<Rel>, imm: int, ctx: Context, base: nat, here: int)
    requires forall r :: r in calls ==> r.Sym() < |ctx.symbols|
    requires forall i :: 1 <= i < |calls| ==>
               Valued(calls[i], ctx) && TargetOf(calls[i], imm, ctx) == TargetOf(calls[0], imm, ctx)
    ensures Agree(calls, imm, ctx, base, here)
  {
  }

  /** Relocations that all go by the immediate agree when there is one, or on the first instruction of the copy. */
  lemma {:induction false} UnvaluedAgree(calls: seq<Rel>, imm: int, ctx: Context, base: nat, here: int)
    requires calls != [] && forall r :: r in calls ==> r.Sym() < |ctx.symbols| && !Valued(r, ctx)
    ensures Agree(calls, imm, ctx, base, here) <==> |calls| == 1 || here == base
  {
    UnvaluedNamed(calls, imm, ctx);
    NoProduct(Strays(calls, ctx), base - here);
  }

  lemma {:induction false} UnvaluedNamed(calls: seq<Rel>, imm: int, ctx: Context)
    requires calls != [] && forall r :: r in calls ==> r.Sym() < |ctx.symbols| && !Valued(r, ctx)
    ensures Named(calls, imm, ctx) == imm + 1 && Strays(calls, ctx) == |calls| - 1
  {
    if |calls| > 1 {
      UnvaluedNamed(calls[..|calls| - 1], imm, ctx);
    }
  }

  lemma {:induction false} NoProduct(n: nat, d: int)
    ensures n * d == 0 <==> n == 0 || d == 0
  {
  }

  /** The relocations on the instruction at `pc`, if it is a call, agree. */
  ghost predicate AgreeAt(p: Program, pc: Place) {
    var code := CodeOf(p, pc.inText);
    InCode(code.bytes, pc.index) && code.bytes[INSN * pc.index] == OP_CALL ==>
      Agree(TextCallsAt(code.rels, INSN * pc.index, p.ctx), Imm(Insn(code.bytes, pc.index)), p.ctx, Base(p),
            LiftPlace(Base(p), pc).index)
  }

  ghost predicate CallsAgree(p: Program) {
    forall pc :: AgreeAt(p, pc)
  }

  /** One step of the program that does not fault is one step of the folded section. */
  lemma {:induction false} StepSim<D>(p: Program, f: Folded, exec: Exec<D>, s: State<D>)
    requires Refines(p, f) && Step(p, exec, s) != Fault && (s.Running? ==> AgreeAt(p, s.pc))
    ensures Step(Alone(f, p.ctx), exec, Lift(Base(p), s)) == Lift(Base(p), Step(p, exec, s))
  {
    if s.Running? {
      assert InsnMoved(p, f, s.pc);
      if Insn(CodeOf(p, s.pc.inText).bytes, s.pc.index)[0] == OP_CALL {
        CallSim(p, f, exec, s);
      } else {
        PlainSim(p, f, exec, s);
      }
    }
  }

  /** The next instruction is a call. */
  ghost predicate AtCall<D>(p: Program, s: State<D>) {
    && s.Running? && InCode(CodeOf(p, s.pc.inText).bytes, s.pc.index)
    && Insn(CodeOf(p, s.pc.inText).bytes, s.pc.index)[0] == OP_CALL
  }

  function CallsHere<D>(p: Program, s: State<D>): seq<Rel>
    requires s.Running?
  {
    TextCallsAt(CodeOf(p, s.pc.inText).rels, INSN * s.pc.index, p.ctx)
  }

  lemma {:induction false} CallSim<D>(p: Program, f: Folded, exec: Exec<D>, s: State<D>)
    requires Refines(p, f) && AtCall(p, s) && Step(p, exec, s) != Fault
    ensures Step(Alone(f, p.ctx), exec, Lift(Base(p), s)) == Lift(Base(p), Step(p, exec, s)) <==> AgreeAt(p, s.pc)
  {
    InsnAt(CodeOf(p, s.pc.inText).bytes, s.pc.index, 0);
    if CallsHere(p, s) != [] {
      TextCallSim(p, f, exec, s);
      KeepsIff(CallsHere(p, s), Imm(Insn(CodeOf(p, s.pc.inText).bytes, s.pc.index)), p.ctx, Base(p),
               LiftPlace(Base(p), s.pc).index);
    } else {
      OtherCallSim(p, f, exec, s);
    }
  }

  lemma {:induction false} TextCallSim<D>(p: Program, f: Folded, exec: Exec<D>, s: State<D>)
    requires Refines(p, f) && AtCall(p, s) && CallsHere(p, s) != []
    ensures Step(Alone(f, p.ctx), exec, Lift(Base(p), s)) == Lift(Base(p), Step(p, exec, s))
       <==> Keeps(CallsHere(p, s), Imm(Insn(CodeOf(p, s.pc.inText).bytes, s.pc.index)), p.ctx, Base(p),
                  LiftPlace(Base(p), s.pc).index)
  {
    var insn, j := Insn(CodeOf(p, s.pc.inText).bytes, s.pc.index), LiftPlace(Base(p), s.pc).index;
    var back := Place(s.pc.inText, s.pc.index + 1);
    assert InsnMoved(p, f, s.pc) && TextCallsAt(f.rels, INSN * j, p.ctx) == [];
    RelativeStep(f, p.ctx, exec, j, LiftStack(Base(p), s.stack), s.data);
    SameDestination(CallsHere(p, s)[0], insn, p.ctx);
    assert Step(p, exec, s)
           == Running(Place(true, CallTarget(CallsHere(p, s)[0], insn, p.ctx)), [back] + s.stack, s.data);
    LiftPush(Base(p), back, s.stack);
  }

  lemma {:induction false} RelativeStep<D>(f: Folded, ctx: Context, exec: Exec<D>, j: nat, stack: seq<Place>, data: D)
    requires InCode(f.code, j) && Insn(f.code, j)[0] == OP_CALL && Insn(f.code, j)[1] / 16 == 1
    requires TextCallsAt(f.rels, INSN * j, ctx) == []
    ensures Step(Alone(f, ctx), exec, Running(Place(false, j), stack, data))
         == Running(Place(false, j + 1 + Imm(Insn(f.code, j))), [Place(false, j + 1)] + stack, data)
  {
    SameImm(Insn(f.code, j));
  }

  lemma {:induction false} OtherCallSim<D>(p: Program, f: Folded, exec: Exec<D>, s: State<D>)
    requires Refines(p, f) && AtCall(p, s) && CallsHere(p, s) == [] && Step(p, exec, s) != Fault
    ensures Step(Alone(f, p.ctx), exec, Lift(Base(p), s)) == Lift(Base(p), Step(p, exec, s))
  {
    assert InsnMoved(p, f, s.pc);
    LiftPush(Base(p), Place(s.pc.inText, s.pc.index + 1), s.stack);
    assert TextCallsAt(f.rels, INSN * LiftPlace(Base(p), s.pc).index, p.ctx) == [];
    if Insn(CodeOf(p, s.pc.inText).bytes, s.pc.index)[1] / 16 != 1 {
      OneSlotWindow(p, f, s.pc);
      assert FixupsMoved(p, f, s.pc, 1);
      PerformSim(p, f, exec, s.pc, 1, s.stack, s.data);
    }
  }

  /** A running state whose next instruction is not a call. */
  ghost predicate AtPlain<D>(p: Program, s: State<D>) {
    && s.Running? && InCode(CodeOf(p, s.pc.inText).bytes, s.pc.index)
    && Insn(CodeOf(p, s.pc.inText).bytes, s.pc.index)[0] != OP_CALL
  }

  lemma {:induction false} PlainSim<D>(p: Program, f: Folded, exec: Exec<D>, s: State<D>)
    requires Refines(p, f) && AtPlain(p, s) && Step(p, exec, s) != Fault
    ensures Step(Alone(f, p.ctx), exec, Lift(Base(p), s)) == Lift(Base(p), Step(p, exec, s))
  {
    var op := Insn(CodeOf(p, s.pc.inText).bytes, s.pc.index)[0];
    if op == OP_EXIT {
      assert InsnMoved(p, f, s.pc);
      if s.stack != [] {
        LiftPop(Base(p), s.stack);
      }
    } else if op == OP_LDDW {
      WideSim(p, f, exec, s);
    } else {
      assert InsnMoved(p, f, s.pc);
      OneSlotWindow(p, f, s.pc);
      assert FixupsMoved(p, f, s.pc, 1);
      PerformSim(p, f, exec, s.pc, 1, s.stack, s.data);
    }
  }

  lemma {:induction false} WideSim<D>(p: Program, f: Folded, exec: Exec<D>, s: State<D>)
    requires Refines(p, f) && AtPlain(p, s) && Step(p, exec, s) != Fault
    requires Insn(CodeOf(p, s.pc.inText).bytes, s.pc.index)[0] == OP_LDDW
    ensures Step(Alone(f, p.ctx), exec, Lift(Base(p), s)) == Lift(Base(p), Step(p, exec, s))
  {
    assert InsnMoved(p, f, s.pc) && InsnMoved(p, f, Place(s.pc.inText, s.pc.index + 1));
    InsnAt(CodeOf(p, s.pc.inText).bytes, s.pc.index, 0);
    TwoSlotWindow(p, f, s.pc);
    NextSlot(p, f, s.pc);
    assert FixupsMoved(p, f, s.pc, 2);
    PerformSim(p, f, exec, s.pc, 2, s.stack, s.data);
  }

  lemma {:induction false} NextSlot(p: Program, f: Folded, pc: Place)
    requires SameWindow(p, f, pc, 2)
    ensures f.code[INSN * (LiftPlace(Base(p), pc).index + 1)] == CodeOf(p, pc.inText).bytes[INSN * (pc.index + 1)]
  {
    var code, j := CodeOf(p, pc.inText).bytes, LiftPlace(Base(p), pc).index;
    assert f.code[INSN * j..INSN * (j + 2)][INSN] == code[INSN * pc.index..INSN * (pc.index + 2)][INSN];
  }

  lemma {:induction false} RefinesRuns<D>(p: Program, f: Folded, exec: Exec<D>, s: State<D>, n: nat)
    requires Refines(p, f) && CallsAgree(p) && Run(p, exec, s, n) != Fault
    ensures Run(Alone(f, p.ctx), exec, Lift(Base(p), s), n) == Lift(Base(p), Run(p, exec, s, n))
  {
    if n > 0 {
      RefinesRuns(p, f, exec, s, n - 1);
      StepSim(p, f, exec, Run(p, exec, s, n - 1));
    }
  }

  /**
   Folding preserves meaning: for every instruction semantics, start and number of steps, a run of the
   entrypoint with `.text` that has not faulted is matched, state for state, by the folded section alone.
   */
  lemma {:induction false} FoldPreservesRuns<D>(p: Program, exec: Exec<D>, s: State<D>, n: nat)
    requires Foldable(p) && CallsAgree(p) && FoldProgram(p).Ok? && Run(p, exec, s, n) != Fault
    ensures Run(Alone(FoldProgram(p).value, p.ctx), exec, Lift(Base(p), s), n) == Lift(Base(p), Run(p, exec, s, n))
  {
    FoldRefines(p);
    RefinesRuns(p, FoldProgram(p).value, exec, s, n);
  }

  // ----- when folding does not -----

  ghost predicate RunsMatch<D(!new)>(p: Program, f: Folded, exec: Exec<D>) {
    forall s: State<D>, n: nat :: Run(p, exec, s, n) != Fault ==>
                                    Run(Alone(f, p.ctx), exec, Lift(Base(p), s), n) == Lift(Base(p), Run(p, exec, s, n))
  }

  /** A call whose relocations do not agree is sent elsewhere. */
  lemma {:induction false} DisagreementShows<D(!new)>(p: Program, f: Folded, exec: Exec<D>, d: D, pc: Place)
    requires Refines(p, f) && !AgreeAt(p, pc)
    ensures !RunsMatch(p, f, exec)
  {
    var s := Running(pc, [], d);
    InsnAt(CodeOf(p, pc.inText).bytes, pc.index, 0);
    assert Run(p, exec, s, 0) == s && Run(Alone(f, p.ctx), exec, Lift(Base(p), s), 0) == Lift(Base(p), s);
    assert Run(p, exec, s, 1) == Step(p, exec, s);
    assert Run(Alone(f, p.ctx), exec, Lift(Base(p), s), 1) == Step(Alone(f, p.ctx), exec, Lift(Base(p), s));
    CallSim(p, f, exec, s);
  }

  /** All runs are preserved exactly when the relocations on every call agree. */
  lemma {:induction false} FoldPreservesIff<D(!new)>(p: Program, exec: Exec<D>, d: D)
    requires Foldable(p) && FoldProgram(p).Ok?
    ensures RunsMatch(p, FoldProgram(p).value, exec) <==> CallsAgree(p)
  {
    var f := FoldProgram(p).value;
    FoldRefines(p);
    if CallsAgree(p) {
      forall s: State<D>, n: nat | Run(p, exec, s, n) != Fault
        ensures Run(Alone(f, p.ctx), exec, Lift(Base(p), s), n) == Lift(Base(p), Run(p, exec, s, n))
      {
        RefinesRuns(p, f, exec, s, n);
      }
    } else {
      var pc :| !AgreeAt(p, pc);
      DisagreementShows(p, f, exec, d, pc);
    }
  }

  /**
   A second relocation on the same call, against a symbol without a value, reads back the displacement the
   first one wrote: the call still reaches its target exactly when it is the first instruction of the copy.
   */
  lemma {:induction false} RewriteTwice(data: Bytes, rel: Rel, ctx: Context, original: nat)
    requires IsTextCall(rel, ctx) && rel.offset + INSN <= |data| && rel.offset % INSN == 0
             && data[rel.offset] == OP_CALL
    requires !Valued(rel, ctx)
    requires RewriteCall(data, rel, ctx, original).Ok?
    requires RewriteCall(RewriteCall(data, rel, ctx, original).value, rel, ctx, original).Ok?
    ensures var i := rel.offset / INSN;
            var once := RewriteCall(data, rel, ctx, original).value;
            var twice := RewriteCall(once, rel, ctx, original).value;
            Imm(Insn(twice, i)) == Imm(Insn(once, i)) <==> i == original / INSN
  {
    var i := rel.offset / INSN;
    RewriteInsn(data, rel, ctx, original, i);
    RewriteInsn(RewriteCall(data, rel, ctx, original).value, rel, ctx, original, i);
  }

  // ----- two relocations on one call -----

  const CALL: Bytes := [OP_CALL, 0, 0, 0, 0, 0, 0, 0]
  const EXIT: Bytes := [OP_EXIT, 0, 0, 0, 0, 0, 0, 0]

  /** An entrypoint that only calls the second instruction of `.text`, with the relocation for it recorded twice. */
  function TwiceCalled(): Program {
    Program(Code(CALL, [Rel(0, R_BPF_64_32), Rel(0, R_BPF_64_32)]), Code(EXIT + EXIT, []),
            Context([Symbol(0, 1, 0)], [], 1))
  }

  lemma {:induction false} ZeroImm(code: Bytes)
    requires CALL <= code
    ensures Insn(code, 0) == CALL && Imm(Insn(code, 0)) == 0
  {
    assert CALL[4..8] == [0, 0, 0, 0];
    assert FromLE([0, 0, 0, 0]) == 0;
  }

  /** Applied once the displacement is 1, applied again it is 2. */
  lemma {:induction false} TwiceSwept(code: Bytes)
    requires CALL <= code
    ensures var p := TwiceCalled();
            var once := RewriteCall(code, p.entry.rels[0], p.ctx, INSN);
            && once.Ok? && |once.value| == |code| && once.value[0] == OP_CALL
            && RewriteCall(once.value, p.entry.rels[0], p.ctx, INSN).Ok?
  {
    var p := TwiceCalled();
    var rel := p.entry.rels[0];
    ZeroImm(code);
    assert code[0..INSN] == Insn(code, 0);
    assert rel.Sym() == 0 && IsTextCall(rel, p.ctx);
    var once := RewriteCall(code, rel, p.ctx, INSN).value;
    RewriteInsn(code, rel, p.ctx, INSN, 0);
    InsnAt(once, 0, 0);
    assert once[0..INSN] == Insn(once, 0);
  }

  lemma {:induction false} TwiceFolds()
    ensures FoldProgram(TwiceCalled()).Ok?
  {
    var p := TwiceCalled();
    var code, rel := p.entry.bytes + p.text.bytes, p.entry.rels[0];
    assert CALL <= code;
    TwiceSwept(code);
    assert rel.Sym() == 0 && IsTextCall(rel, p.ctx);
    assert p.entry.rels == [rel] + [rel] && ([rel] + [rel])[1..] == [rel] && [rel][1..] == [];
    var once := RewriteCall(code, rel, p.ctx, INSN).value;
    assert Sweep(once, [rel], 0, p.ctx, INSN).Ok?;
    assert Sweep(code, p.entry.rels, 0, p.ctx, INSN) == Sweep(once, [rel], 0, p.ctx, INSN);
  }

  lemma {:induction false} TwiceCalls()
    ensures TextCallsAt(TwiceCalled().entry.rels, 0, TwiceCalled().ctx) == TwiceCalled().entry.rels
  {
    var p := TwiceCalled();
    var rel := p.entry.rels[0];
    assert rel.Sym() == 0 && IsTextCall(rel, p.ctx);
    SameCall(rel, p.ctx);
    assert p.entry.rels[1..] == [rel] && [rel][1..] == [];
    assert TextCallsAt([rel], 0, p.ctx) == [rel];
  }

  lemma {:induction false} TwiceDisagrees()
    ensures Foldable(TwiceCalled()) && !AgreeAt(TwiceCalled(), Place(false, 0))
  {
    var p := TwiceCalled();
    TwiceCalls();
    ZeroImm(p.entry.bytes);
    assert p.entry.rels[0].Sym() == 0 && p.entry.rels[1] == p.entry.rels[0];
    UnvaluedAgree(p.entry.rels, 0, p.ctx, Base(p), 0);
  }

  /** The call is folded, and sent elsewhere: no semantics of the other instructions makes its runs match. */
  lemma {:induction false} TwiceMisdirected<D(!new)>(exec: Exec<D>, d: D)
    ensures Foldable(TwiceCalled()) && FoldProgram(TwiceCalled()).Ok?
    ensures !RunsMatch(TwiceCalled(), FoldProgram(TwiceCalled()).value, exec)
  {
    TwiceDisagrees();
    TwiceFolds();
    FoldPreservesIff(TwiceCalled(), exec, d);
  }
}
