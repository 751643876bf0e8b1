/**
 Relocations and the call rewrite of `crates/synch-cc/src/fold.rs`: which relocations are calls into
 `.text`, how a call instruction is turned into a relative one, and which relocations survive.
 */
module Relocs {
  import opened Words
  import opened Bytes

  const OP_CALL: u8 := 0x85
  const R_BPF_64_32: u32 := 10
  const INSN: nat := 8

  /** `.text`, as the bytes of a section or symbol name. */
  const TEXT_NAME: Bytes := [0x2e, 0x74, 0x65, 0x78, 0x74]

  datatype Symbol = Symbol(nameOffset: u32, section: u16, value: u64)

  datatype Rel = Rel(offset: u64, info: u64) {
    function Sym(): nat {
      info / 0x1_0000_0000
    }

    function Kind(): u32 {
      info % 0x1_0000_0000
    }
  }

  /** What a relocation is read against: the symbol table, its names, and which section is `.text`. */
  datatype Context = Context(symbols: seq<Symbol>, strings: Bytes, text: nat)

  // ----- names -----

  /** Distance to the first zero byte, if there is one. */
  function ZeroAt(data: Bytes): (r: Option<nat>)
    ensures r.Some? ==> r.value < |data| && data[r.value] == 0 && 0 !in data[..r.value]
    ensures r.None? ==> 0 !in data
  {
    if data == [] then None
    else if data[0] == 0 then Some(0)
    else
      match ZeroAt(data[1..])
      case None => None
      case Some(k) =>
        assert data[..k + 1] == [data[0]] + data[1..][..k];
        Some(k + 1)
  }

  /** The zero-terminated string at `at`. */
  function CStr(data: Bytes, at: nat): Option<Bytes> {
    if at > |data| then None
    else
      match ZeroAt(data[at..])
      case None => None
      case Some(k) => Some(data[at..at + k])
  }

  // ----- calls into .text -----

  /** Whether a relocation is a call into `.text`. */
  predicate IsTextCall(rel: Rel, ctx: Context) {
    && rel.Kind() == R_BPF_64_32
    && rel.Sym() < |ctx.symbols|
    && var symbol := ctx.symbols[rel.Sym()];
       symbol.section == ctx.text || CStr(ctx.strings, symbol.nameOffset) == Some(TEXT_NAME)
  }

  /** One instruction of a code section. */
  function Insn(code: Bytes, i: nat): (insn: Bytes)
    requires INSN * i + INSN <= |code|
    ensures |insn| == INSN
  {
    code[INSN * i..INSN * i + INSN]
  }

  /** The signed immediate of an instruction. */
  function Imm(insn: Bytes): i32
    requires |insn| == INSN
  {
    Pow256Values();
    ToI32(FromLE(insn[4..8]))
  }

  /** The symbol has a value in `.text`, and so says by itself where a call goes. */
  predicate Valued(rel: Rel, ctx: Context)
    requires rel.Sym() < |ctx.symbols|
  {
    ctx.symbols[rel.Sym()].section == ctx.text && ctx.symbols[rel.Sym()].value != 0
  }

  /**
   The instruction of `.text` a call names: the symbol's value when it has one, and otherwise the
   immediate, counted from the instruction after the call.
   */
  function TargetOf(rel: Rel, imm: int, ctx: Context): int
    requires rel.Sym() < |ctx.symbols|
  {
    if Valued(rel, ctx) then ctx.symbols[rel.Sym()].value / INSN else imm + 1
  }

  function CallTarget(rel: Rel, insn: Bytes, ctx: Context): int
    requires |insn| == INSN && rel.Sym() < |ctx.symbols|
  {
    TargetOf(rel, Imm(insn), ctx)
  }

  /** The displacement that reaches `.text`'s instruction from position `here` once `.text` starts at `base`. */
  function Delta(rel: Rel, insn: Bytes, ctx: Context, base: nat, here: nat): int
    requires |insn| == INSN && rel.Sym() < |ctx.symbols|
  {
    base + CallTarget(rel, insn, ctx) - here - 1
  }

  predicate FitsI32(v: int) {
    -0x8000_0000 <= v < 0x8000_0000
  }

  /** Marks the call as relative (source register 1) and stores the displacement. */
  function PatchCall(data: Bytes, at: nat, delta: i32): (out: Bytes)
    requires at + INSN <= |data|
    ensures |out| == |data|
  {
    var d := LE(FromI32(delta), 4);
    data[at + 1 := data[at + 1] % 16 + 16][at + 4 := d[0]][at + 5 := d[1]][at + 6 := d[2]][at + 7 := d[3]]
  }

  /** Turns a call into `.text` into a relative call inside the folded section. */
  function RewriteCall(data: Bytes, rel: Rel, ctx: Context, original: nat): (r: Result<Bytes>)
    ensures r.Ok? ==> |r.value| == |data|
  {
    var at := rel.offset;
    if at % INSN != 0 || at + INSN > |data| then Err("a call relocation points outside its section")
    else if data[at] != OP_CALL then Ok(data)
    else if rel.Sym() >= |ctx.symbols| then Err("a call relocation names no symbol")
    else
      var delta := Delta(rel, data[at..at + INSN], ctx, original / INSN, at / INSN);
      if FitsI32(delta) then Ok(PatchCall(data, at, delta)) else Err("a call target is out of range")
  }

  /** The same rewrite, on the buffer itself. */
  method RewriteCallInPlace(data: array<u8>, rel: Rel, ctx: Context, original: nat) returns (r: Result<()>)
    modifies data
    ensures match RewriteCall(old(data[..]), rel, ctx, original)
            case Ok(out) => r.Ok? && data[..] == out
            case Err(e) => r == Err(e) && data[..] == old(data[..])
  {
    var at := rel.offset;
    if at % INSN != 0 || at + INSN > data.Length {
      return Err("a call relocation points outside its section");
    }
    if data[at] != OP_CALL {
      return Ok(());
    }
    if rel.Sym() >= |ctx.symbols| {
      return Err("a call relocation names no symbol");
    }
    var symbol := ctx.symbols[rel.Sym()];
    assert data[..][at..at + INSN] == data[at..at + INSN];
    assert data[at + 4..at + 8] == data[at..at + INSN][4..8];
    Pow256Values();
    var immediate: int := ToI32(FromLE(data[at + 4..at + 8]));
    var within: int := if symbol.section == ctx.text && symbol.value != 0 then symbol.value / INSN else immediate + 1;
    var delta: int := original / INSN + within - at / INSN - 1;
    if !FitsI32(delta) {
      return Err("a call target is out of range");
    }
    PatchInPlace(data, at, delta);
    return Ok(());
  }

  method PatchInPlace(data: array<u8>, at: nat, delta: i32)
    requires at + INSN <= data.Length
    modifies data
    ensures data[..] == PatchCall(old(data[..]), at, delta)
  {
    var d := LE(FromI32(delta), 4);
    data[at + 1] := data[at + 1] % 16 + 16;
    data[at + 4], data[at + 5], data[at + 6], data[at + 7] := d[0], d[1], d[2], d[3];
  }

  // ----- rewriting every call -----

  datatype Swept = Swept(data: Bytes, kept: seq<Rel>)

  /**
   Goes through relocations in order, each moved by `shift`: calls into `.text` are rewritten in the code,
   the rest are kept.
   */
  function Sweep(data: Bytes, rels: seq<Rel>, shift: nat, ctx: Context, original: nat): (r: Result<Swept>)
    ensures r.Ok? ==> |r.value.data| == |data|
    decreases rels
  {
    if rels == [] then Ok(Swept(data, []))
    else if rels[0].offset + shift > U64_MAX then Err("relocation offset overflow")
    else
      var moved := Rel(rels[0].offset + shift, rels[0].info);
      if IsTextCall(moved, ctx) then
        var data' :- RewriteCall(data, moved, ctx, original);
        Sweep(data', rels[1..], shift, ctx, original)
      else
        var rest :- Sweep(data, rels[1..], shift, ctx, original);
        Ok(Swept(rest.data, [moved] + rest.kept))
  }

  /** Puts relocations kept earlier in front of what the rest of the sweep keeps. */
  function Prepend(kept: seq<Rel>, r: Result<Swept>): Result<Swept> {
    match r
    case Err(e) => Err(e)
    case Ok(s) => Ok(Swept(s.data, kept + s.kept))
  }

  method SweepInPlace(data: array<u8>, rels: seq<Rel>, shift: nat, ctx: Context, original: nat)
    returns (r: Result<seq<Rel>>)
    modifies data
    ensures match Sweep(old(data[..]), rels, shift, ctx, original)
            case Ok(s) => r == Ok(s.kept) && data[..] == s.data
            case Err(e) => r == Err(e)
  {
    ghost var whole := Sweep(data[..], rels, shift, ctx, original);
    var kept := [];
    var i := 0;
    assert rels[0..] == rels;
    PrependNone(whole);
    while i < |rels|
      invariant 0 <= i <= |rels|
      invariant whole == Prepend(kept, Sweep(data[..], rels[i..], shift, ctx, original))
    {
      var rel := rels[i];
      assert rels[i..][1..] == rels[i + 1..];
      if rel.offset + shift > U64_MAX {
        return Err("relocation offset overflow");
      }
      var moved := Rel(rel.offset + shift, rel.info);
      if IsTextCall(moved, ctx) {
        var ok := RewriteCallInPlace(data, moved, ctx, original);
        if ok.Err? {
          return Err(ok.error);
        }
      } else {
        PrependOne(kept, moved, Sweep(data[..], rels[i + 1..], shift, ctx, original));
        kept := kept + [moved];
      }
      i := i + 1;
    }
    assert kept + [] == kept;
    return Ok(kept);
  }

  lemma {:induction false} PrependNone(r: Result<Swept>)
    ensures Prepend([], r) == r
  {
    if r.Ok? {
      assert [] + r.value.kept == r.value.kept;
    }
  }

  lemma {:induction false} PrependOne(kept: seq<Rel>, rel: Rel, r: Result<Swept>)
    ensures Prepend(kept, Prepend([rel], r)) == Prepend(kept + [rel], r)
  {
    if r.Ok? {
      assert kept + ([rel] + r.value.kept) == kept + [rel] + r.value.kept;
    }
  }

  // ----- pruning -----

  /** Drops call relocations that no longer describe a call, and repeats; `seen` holds the offsets kept so far. */
  function Prune(data: Bytes, rels: seq<Rel>, seen: set<u64>): Result<seq<Rel>>
    decreases rels
  {
    if rels == [] then Ok([])
    else
      var rel := rels[0];
      if rel.Kind() == R_BPF_64_32 then
        if rel.offset % INSN != 0 || rel.offset + INSN > |data| then Err("a call relocation points outside its section")
        else if data[rel.offset] != OP_CALL || rel.offset in seen then Prune(data, rels[1..], seen)
        else
          var rest :- Prune(data, rels[1..], seen + {rel.offset});
          Ok([rel] + rest)
      else
        var rest :- Prune(data, rels[1..], seen);
        Ok([rel] + rest)
  }

  function Concat(out: seq<Rel>, r: Result<seq<Rel>>): Result<seq<Rel>> {
    match r
    case Err(e) => Err(e)
    case Ok(rest) => Ok(out + rest)
  }

  method PruneRels(data: Bytes, rels: seq<Rel>) returns (r: Result<seq<Rel>>)
    ensures r == Prune(data, rels, {})
  {
    var out: seq<Rel> := [];
    var seen: set<u64> := {};
    var i := 0;
    assert rels[0..] == rels;
    ConcatNone(Prune(data, rels, {}));
    while i < |rels|
      invariant 0 <= i <= |rels|
      invariant Prune(data, rels, {}) == Concat(out, Prune(data, rels[i..], seen))
    {
      var rel := rels[i];
      assert rels[i..][1..] == rels[i + 1..];
      var keep := true;
      if rel.Kind() == R_BPF_64_32 {
        var at := rel.offset;
        if at % INSN != 0 || at + INSN > |data| {
          return Err("a call relocation points outside its section");
        }
        keep := data[at] == OP_CALL && rel.offset !in seen;
        if keep {
          seen := seen + {rel.offset};
        }
      }
      if keep {
        ConcatOne(out, rel, Prune(data, rels[i + 1..], seen));
        out := out + [rel];
      }
      i := i + 1;
    }
    assert out + [] == out;
    return Ok(out);
  }

  lemma {:induction false} ConcatNone(r: Result<seq<Rel>>)
    ensures Concat([], r) == r
  {
    if r.Ok? {
      assert [] + r.value == r.value;
    }
  }

  lemma {:induction false} ConcatOne(out: seq<Rel>, rel: Rel, r: Result<seq<Rel>>)
    ensures Concat(out, Concat([rel], r)) == Concat(out + [rel], r)
  {
    if r.Ok? {
      assert out + ([rel] + r.value) == out + [rel] + r.value;
    }
  }

  /** What survives: every call relocation sits on a call inside the code, no two on the same one. */
  ghost predicate Pruned(data: Bytes, rels: seq<Rel>) {
    && (forall i :: 0 <= i < |rels| && rels[i].Kind() == R_BPF_64_32 ==>
          rels[i].offset % INSN == 0 && rels[i].offset + INSN <= |data| && data[rels[i].offset] == OP_CALL)
    && (forall i, j :: 0 <= i < j < |rels| && rels[i].Kind() == R_BPF_64_32 && rels[j].Kind() == R_BPF_64_32 ==>
          rels[i].offset != rels[j].offset)
  }

  lemma {:induction false} PruneIsPruned(data: Bytes, rels: seq<Rel>, seen: set<u64>)
    requires Prune(data, rels, seen).Ok?
    ensures Pruned(data, Prune(data, rels, seen).value)
    ensures forall r :: r in Prune(data, rels, seen).value && r.Kind() == R_BPF_64_32 ==> r.offset !in seen
    ensures forall r :: r in Prune(data, rels, seen).value ==> r in rels
    decreases rels
  {
    if rels != [] {
      var rel := rels[0];
      assert rels == [rel] + rels[1..];
      if rel.Kind() == R_BPF_64_32 && data[rel.offset] == OP_CALL && rel.offset !in seen {
        PruneIsPruned(data, rels[1..], seen + {rel.offset});
      } else {
        PruneIsPruned(data, rels[1..], seen);
      }
    }
  }

  /** Pruning what is pruned changes nothing. */
  lemma {:induction false} PruneFixpoint(data: Bytes, rels: seq<Rel>, seen: set<u64>)
    requires Pruned(data, rels)
    requires forall r :: r in rels && r.Kind() == R_BPF_64_32 ==> r.offset !in seen
    ensures Prune(data, rels, seen) == Ok(rels)
    decreases rels
  {
    if rels != [] {
      var rel := rels[0];
      assert rels == [rel] + rels[1..];
      if rel.Kind() == R_BPF_64_32 {
        forall r | r in rels[1..] && r.Kind() == R_BPF_64_32
          ensures r.offset !in seen + {rel.offset}
        {
          var k :| 0 <= k < |rels[1..]| && rels[1..][k] == r;
          assert rels[k + 1] == r;
        }
        PruneFixpoint(data, rels[1..], seen + {rel.offset});
      } else {
        PruneFixpoint(data, rels[1..], seen);
      }
    }
  }

  // ----- folding one section -----

  datatype Folded = Folded(code: Bytes, rels: seq<Rel>)

  /** An entrypoint's code with a copy of `.text` behind it, its calls into `.text` made relative. */
  function FoldCode(code: Bytes, rels: seq<Rel>, textCode: Bytes, textRels: seq<Rel>, ctx: Context): Result<Folded> {
    var original := |code|;
    var own :- Sweep(code + textCode, rels, 0, ctx, original);
    var copied :- Sweep(own.data, textRels, original, ctx, original);
    var kept :- Prune(copied.data, own.kept + copied.kept, {});
    Ok(Folded(copied.data, kept))
  }
}
