/**
 A machine that runs eBPF code out of an entrypoint section and `.text`: what the relocations of an object
 mean to the instructions they sit on. Program-local calls follow section 4.3.2 of RFC 9669. What an
 instruction other than a local call or an exit does is a parameter.
 */
module Machine {
  import opened Words
  import opened Bytes
  import opened Relocs

  const OP_EXIT: u8 := 0x95
  const OP_LDDW: u8 := 0x18

  /** A code section with the relocations that apply to it. */
  datatype Code = Code(bytes: Bytes, rels: seq<Rel>)

  datatype Program = Program(entry: Code, text: Code, ctx: Context)

  datatype Place = Place(inText: bool, index: int)

  datatype State<D> =
    | Running(pc: Place, stack: seq<Place>, data: D)
    | Halted(data: D)
    | Fault

  /** A relocation as the instruction it applies to sees it: where in the instruction, and what it names. */
  datatype Fixup = Fixup(at: int, info: u64)

  /** What an instruction does to the data, and how far past the next instruction control goes. */
  datatype Effect<D> = Next(data: D, jump: int) | Stuck

  type Exec<!D> = (Bytes, seq<Fixup>, D) -> Effect<D>

  predicate InCode(code: Bytes, i: int) {
    0 <= i && INSN * i + INSN <= |code|
  }

  /** `.text` with the zero after it, as it stands in a string table. */
  const TEXT_STRING: Bytes := [0x2e, 0x74, 0x65, 0x78, 0x74, 0x00]

  /**
   A relocation of type 10 (`R_BPF_64_32`, in the low half of the info) whose symbol (in the high half) is defined in
   `.text` or named `.text`.
   */
  predicate IntoText(rel: Rel, ctx: Context) {
    && rel.info % 0x1_0000_0000 == 10 && rel.info / 0x1_0000_0000 < |ctx.symbols|
    && var symbol := ctx.symbols[rel.info / 0x1_0000_0000];
       || symbol.section == ctx.text
       || (symbol.nameOffset + 6 <= |ctx.strings|
           && ctx.strings[symbol.nameOffset..symbol.nameOffset + 6] == TEXT_STRING)
  }

  /** The signed 32-bit immediate in the last four bytes of an instruction. */
  function SignedImm(insn: Bytes): int
    requires |insn| == 8
  {
    var a: int, b: int, c: int, d: int := insn[4], insn[5], insn[6], insn[7];
    var v := a + 0x100 * b + 0x1_0000 * c + 0x100_0000 * d;
    if v < 0x8000_0000 then v else v - 0x1_0000_0000
  }

  /**
   The instruction of `.text` a relocated call goes to: where the symbol is, when it has a value there, and otherwise
   as many instructions on as the immediate says, counted from the second.
   */
  function Destination(rel: Rel, insn: Bytes, ctx: Context): int
    requires |insn| == 8 && rel.info / 0x1_0000_0000 < |ctx.symbols|
  {
    var symbol := ctx.symbols[rel.info / 0x1_0000_0000];
    if symbol.section == ctx.text && symbol.value > 0 then symbol.value / 8 else 1 + SignedImm(insn)
  }

  /** The calls into `.text` recorded for the instruction at byte offset `at`, in order. */
  function TextCallsAt(rels: seq<Rel>, at: int, ctx: Context): (calls: seq<Rel>)
    ensures forall r :: r in calls ==> r in rels && IntoText(r, ctx) && r.offset == at
  {
    if rels == [] then []
    else
      var rest := TextCallsAt(rels[1..], at, ctx);
      if rels[0].offset == at && IntoText(rels[0], ctx) then [rels[0]] + rest else rest
  }

  /**
   The other relocations on bytes `[lo, hi)`. A call relocation counts only on a call instruction, and only
   the first one does; `taken` says whether one has counted already.
   */
  function Fixups(rels: seq<Rel>, lo: int, hi: int, isCall: bool, taken: bool, ctx: Context): seq<Fixup>
    decreases rels
  {
    if rels == [] then []
    else
      var rel, rest := rels[0], rels[1..];
      if !(lo <= rel.offset < hi) || IntoText(rel, ctx) then Fixups(rest, lo, hi, isCall, taken, ctx)
      else if rel.Kind() != R_BPF_64_32 then
        [Fixup(rel.offset - lo, rel.info)] + Fixups(rest, lo, hi, isCall, taken, ctx)
      else if isCall && !taken then
        [Fixup(rel.offset - lo, rel.info)] + Fixups(rest, lo, hi, isCall, true, ctx)
      else Fixups(rest, lo, hi, isCall, taken, ctx)
  }

  function CodeOf(p: Program, inText: bool): Code {
    if inText then p.text else p.entry
  }

  /** Runs an instruction of `slots` slots that is neither a local call nor an exit. */
  function Perform<D>(code: Code, pc: Place, slots: nat, stack: seq<Place>, data: D, ctx: Context,
                      exec: Exec<D>): State<D>
    requires InCode(code.bytes, pc.index) && 1 <= slots <= 2 && InCode(code.bytes, pc.index + slots - 1)
  {
    var lo, hi := INSN * pc.index, INSN * (pc.index + slots);
    var isCall := code.bytes[lo] == OP_CALL;
    match exec(code.bytes[lo..hi], Fixups(code.rels, lo, hi, isCall, false, ctx), data)
    case Stuck => Fault
    case Next(data', jump) => Running(Place(pc.inText, pc.index + slots + jump), stack, data')
  }

  function Step<D>(p: Program, exec: Exec<D>, s: State<D>): State<D> {
    match s
    case Halted(_) => s
    case Fault => s
    case Running(pc, stack, data) =>
      var code := CodeOf(p, pc.inText);
      if !InCode(code.bytes, pc.index) then Fault
      else
        var insn := Insn(code.bytes, pc.index);
        var back := [Place(pc.inText, pc.index + 1)] + stack;
        if insn[0] == OP_CALL then
          var calls := TextCallsAt(code.rels, INSN * pc.index, p.ctx);
          if calls != [] then Running(Place(true, Destination(calls[0], insn, p.ctx)), back, data)
          else if insn[1] / 16 == 1 then Running(Place(pc.inText, pc.index + 1 + SignedImm(insn)), back, data)
          else Perform(code, pc, 1, stack, data, p.ctx, exec)
        else if insn[0] == OP_EXIT then
          if stack == [] then Halted(data) else Running(stack[0], stack[1..], data)
        else if insn[0] == OP_LDDW then
          if !InCode(code.bytes, pc.index + 1) || code.bytes[INSN * (pc.index + 1)] != 0 then Fault
          else Perform(code, pc, 2, stack, data, p.ctx, exec)
        else Perform(code, pc, 1, stack, data, p.ctx, exec)
  }

  function Run<D>(p: Program, exec: Exec<D>, s: State<D>, n: nat): State<D> {
    if n == 0 then s else Step(p, exec, Run(p, exec, s, n - 1))
  }

  // ----- the places of one program in another -----

  /** Where a place of the two-section program is once `.text` follows the entrypoint at instruction `base`. */
  function LiftPlace(base: nat, pc: Place): Place {
    Place(false, if pc.inText then base + pc.index else pc.index)
  }

  function LiftStack(base: nat, stack: seq<Place>): (r: seq<Place>)
    ensures |r| == |stack|
    ensures forall i :: 0 <= i < |stack| ==> r[i] == LiftPlace(base, stack[i])
  {
    seq(|stack|, i requires 0 <= i < |stack| => LiftPlace(base, stack[i]))
  }

  function Lift<D>(base: nat, s: State<D>): State<D> {
    match s
    case Running(pc, stack, data) => Running(LiftPlace(base, pc), LiftStack(base, stack), data)
    case Halted(_) => s
    case Fault => s
  }

  lemma {:induction false} LiftPush(base: nat, pc: Place, stack: seq<Place>)
    ensures LiftStack(base, [pc] + stack) == [LiftPlace(base, pc)] + LiftStack(base, stack)
  {
  }

  lemma {:induction false} LiftPop(base: nat, stack: seq<Place>)
    requires stack != []
    ensures LiftStack(base, stack[1..]) == LiftStack(base, stack)[1..]
  {
  }
}
