/**
 * The system-call filter `csqlite` emits for itself (`control-plane/csqlite/wrapper.c`): a classic BPF program
 * with relative forward jumps, its interpreter, and the policy it has to compute.
 */
module Seccomp {
  import opened Words
  import opened Bytes

  const RET_KILL_PROCESS: u32 := 0x8000_0000
  const RET_ALLOW: u32 := 0x7fff_0000
  const PROT_EXEC: u32 := 4
  const X32_BIT: u32 := 0x4000_0000

  // `offsetof` in `struct seccomp_data`.
  const NR: nat := 0
  const ARCH: nat := 4
  const ARG2: nat := 32

  datatype Insn =
    | Load(offset: nat)
    | JumpEq(k: u32, jt: u8, jf: u8)
    | JumpGe(k: u32, jt: u8, jf: u8)
    | JumpSet(k: u32, jt: u8, jf: u8)
    | Return(k: u32)

  /** What the kernel hands a filter about one system call. */
  datatype Call = Call(nr: u32, arch: u32, ip: u64, a0: u64, a1: u64, a2: u64, a3: u64, a4: u64, a5: u64)

  // ----- the machine -----

  /** `struct seccomp_data` as it lies in memory on a little-endian machine. */
  function Layout(c: Call): (b: Bytes)
    ensures |b| == 64
  {
    LE(c.nr, 4) + LE(c.arch, 4) + LE(c.ip, 8)
    + LE(c.a0, 8) + LE(c.a1, 8) + LE(c.a2, 8) + LE(c.a3, 8) + LE(c.a4, 8) + LE(c.a5, 8)
  }

  /** The bits two words share. */
  function And(a: nat, b: nat): nat {
    if a == 0 || b == 0 then 0 else 2 * And(a / 2, b / 2) + (a % 2) * (b % 2)
  }

  /** The instruction sequence left to run is the program counter: every jump goes forward from it. */
  function Run(code: seq<Insn>, acc: nat, data: Bytes): Option<u32>
    decreases |code|
  {
    if code == [] then None
    else match code[0]
      case Return(k) => Some(k)
      case Load(o) => if o + 4 <= |data| then Run(code[1..], FromLE(data[o..o + 4]), data) else None
      case JumpEq(k, jt, jf) => Jump(code, acc, data, if acc == k then jt else jf)
      case JumpGe(k, jt, jf) => Jump(code, acc, data, if acc >= k then jt else jf)
      case JumpSet(k, jt, jf) => Jump(code, acc, data, if And(acc, k) != 0 then jt else jf)
  }

  function Jump(code: seq<Insn>, acc: nat, data: Bytes, skip: u8): Option<u32>
    requires code != []
    decreases |code|, 0
  {
    if 1 + skip <= |code| then Run(code[1 + skip..], acc, data) else None
  }

  function Verdict(code: seq<Insn>, c: Call): Option<u32> {
    Run(code, 0, Layout(c))
  }

  // ----- the program -----

  /** A `long` cast to `uint32_t`. */
  function Cast(v: int): u32 {
    v % 0x1_0000_0000
  }

  function Prologue(x86: bool, arch: u32): seq<Insn> {
    [Load(ARCH), JumpEq(arch, 1, 0), Return(RET_KILL_PROCESS), Load(NR)]
    + if x86 then [JumpGe(X32_BIT, 0, 1), Return(RET_KILL_PROCESS)] else []
  }

  function ProtBlock(call: int): seq<Insn> {
    [JumpEq(Cast(call), 0, 4), Load(ARG2), JumpSet(PROT_EXEC, 0, 1), Return(RET_KILL_PROCESS), Return(RET_ALLOW)]
  }

  function ProtBlocks(calls: seq<int>): seq<Insn> {
    if calls == [] then [] else ProtBlocks(calls[..|calls| - 1]) + ProtBlock(calls[|calls| - 1])
  }

  function AllowPair(call: int): seq<Insn> {
    [JumpEq(Cast(call), 0, 1), Return(RET_ALLOW)]
  }

  function AllowPairs(calls: seq<int>): seq<Insn> {
    if calls == [] then [] else AllowPairs(calls[..|calls| - 1]) + AllowPair(calls[|calls| - 1])
  }

  function Program(x86: bool, arch: u32, protCalls: seq<int>, allowed: seq<int>): seq<Insn> {
    Prologue(x86, arch) + ProtBlocks(protCalls) + AllowPairs(allowed) + [Return(RET_KILL_PROCESS)]
  }

  lemma {:induction false} BlockLengths(protCalls: seq<int>, allowed: seq<int>)
    ensures |ProtBlocks(protCalls)| == 5 * |protCalls|
    ensures |AllowPairs(allowed)| == 2 * |allowed|
    decreases |protCalls| + |allowed|
  {
    if protCalls != [] {
      BlockLengths(protCalls[..|protCalls| - 1], allowed);
    }
    if allowed != [] {
      BlockLengths(protCalls, allowed[..|allowed| - 1]);
    }
  }

  /** Writes `code` at `prog[n..]`. */
  method Append(prog: array<Insn>, n: nat, code: seq<Insn>) returns (m: nat)
    requires n + |code| <= prog.Length
    modifies prog
    ensures m == n + |code|
    ensures prog[..m] == old(prog[..n]) + code
  {
    m := n;
    for i := 0 to |code|
      invariant m == n + i
      invariant prog[..m] == old(prog[..n]) + code[..i]
    {
      prog[m] := code[i];
      m := m + 1;
    }
    assert code[..|code|] == code;
  }

  method EmitPrologue(prog: array<Insn>, x86: bool, arch: u32) returns (n: nat)
    requires prog.Length >= 6
    modifies prog
    ensures n <= prog.Length && prog[..n] == Prologue(x86, arch)
  {
    n := Append(prog, 0, [Load(ARCH), JumpEq(arch, 1, 0), Return(RET_KILL_PROCESS), Load(NR)]);
    if x86 {
      n := Append(prog, n, [JumpGe(X32_BIT, 0, 1), Return(RET_KILL_PROCESS)]);
    }
  }

  method EmitProtBlocks(prog: array<Insn>, start: nat, calls: seq<int>) returns (n: nat)
    requires start + 5 * |calls| <= prog.Length
    modifies prog
    ensures n == start + 5 * |calls|
    ensures prog[..n] == old(prog[..start]) + ProtBlocks(calls)
  {
    n := start;
    for i := 0 to |calls|
      invariant n == start + 5 * i
      invariant prog[..n] == old(prog[..start]) + ProtBlocks(calls[..i])
    {
      n := Append(prog, n, ProtBlock(calls[i]));
      assert calls[..i + 1][..i] == calls[..i];
    }
    assert calls[..|calls|] == calls;
  }

  method EmitAllowPairs(prog: array<Insn>, start: nat, calls: seq<int>) returns (n: nat)
    requires start + 2 * |calls| <= prog.Length
    modifies prog
    ensures n == start + 2 * |calls|
    ensures prog[..n] == old(prog[..start]) + AllowPairs(calls)
  {
    n := start;
    for i := 0 to |calls|
      invariant n == start + 2 * i
      invariant prog[..n] == old(prog[..start]) + AllowPairs(calls[..i])
    {
      n := Append(prog, n, AllowPair(calls[i]));
      assert calls[..i + 1][..i] == calls[..i];
    }
    assert calls[..|calls|] == calls;
  }

  /**
   * Emission into the stack array of `17 + 2 * NALLOWED` slots. A platform names `mmap`, `mprotect`, both or
   * neither, so there are at most two calls to guard.
   */
  method Emit(x86: bool, arch: u32, protCalls: seq<int>, allowed: seq<int>) returns (prog: array<Insn>, n: nat)
    requires |protCalls| <= 2
    ensures prog.Length == 17 + 2 * |allowed|
    ensures n <= prog.Length
    ensures prog[..n] == Program(x86, arch, protCalls, allowed)
    ensures n == prog.Length <==> x86 && |protCalls| == 2
  {
    prog := new Insn[17 + 2 * |allowed|];
    n := EmitPrologue(prog, x86, arch);
    assert n == if x86 then 6 else 4;
    n := EmitProtBlocks(prog, n, protCalls);
    n := EmitAllowPairs(prog, n, allowed);
    n := Append(prog, n, [Return(RET_KILL_PROCESS)]);
  }

  // ----- the policy -----

  predicate Named(calls: seq<int>, nr: u32) {
    exists i :: 0 <= i < |calls| && Cast(calls[i]) == nr
  }

  /** The lower half of an argument word has the execute bit. */
  predicate Executable(prot: u64) {
    prot / 4 % 2 == 1
  }

  predicate Permitted(x86: bool, arch: u32, protCalls: seq<int>, allowed: seq<int>, c: Call) {
    && c.arch == arch
    && (x86 ==> c.nr < X32_BIT)
    && if Named(protCalls, c.nr) then !Executable(c.a2) else Named(allowed, c.nr)
  }

  // ----- what the words hold -----

  lemma {:induction false} WordsOfCall(c: Call)
    ensures FromLE(Layout(c)[NR..NR + 4]) == c.nr
    ensures FromLE(Layout(c)[ARCH..ARCH + 4]) == c.arch
    ensures FromLE(Layout(c)[ARG2..ARG2 + 4]) == c.a2 % 0x1_0000_0000
  {
    Pow256Values();
    assert Layout(c)[NR..NR + 4] == LE(c.nr, 4);
    assert Layout(c)[ARCH..ARCH + 4] == LE(c.arch, 4);
    assert Layout(c)[ARG2..ARG2 + 4] == LE(c.a2, 8)[..4];
    LERoundTrip(c.nr, 4);
    LERoundTrip(c.arch, 4);
    LowWord(c.a2);
  }

  /** The first four bytes of a little-endian argument are its low half. */
  lemma {:induction false} LowWord(v: u64)
    ensures FromLE(LE(v, 8)[..4]) == v % 0x1_0000_0000
  {
    var w1 := v / 256;
    var w2 := w1 / 256;
    var w3 := w2 / 256;
    LowByte(v, 8, 4);
    LowByte(w1, 7, 3);
    LowByte(w2, 6, 2);
    LowByte(w3, 5, 1);
    assert LE(w3 / 256, 4)[..0] == [];
    assert v == 0x100_0000 * w3 + 0x1_0000 * (w2 % 256) + 0x100 * (w1 % 256) + v % 256;
  }

  lemma {:induction false} LowByte(v: nat, n: nat, k: nat)
    requires 0 < k <= n
    ensures FromLE(LE(v, n)[..k]) == v % 256 + 256 * FromLE(LE(v / 256, n - 1)[..k - 1])
  {
    assert LE(v, n)[..k][1..] == LE(v / 256, n - 1)[..k - 1];
  }

  lemma {:induction false} ExecuteBit(prot: u64)
    ensures And(prot % 0x1_0000_0000, PROT_EXEC) != 0 <==> Executable(prot)
  {
    var high, low: nat := prot / 0x1_0000_0000, prot % 0x1_0000_0000;
    AndFour(low);
    SameBit(0x2000_0000 * high, low / 4, low % 4);
    assert prot == 4 * (2 * (0x2000_0000 * high) + low / 4) + low % 4;
  }

  lemma {:induction false} SameBit(h: nat, a: nat, b: nat)
    requires b < 4
    ensures (4 * (2 * h + a) + b) / 4 % 2 == a % 2
  {
    assert (4 * (2 * h + a) + b) / 4 == 2 * h + a;
  }

  lemma {:induction false} AndFour(low: nat)
    ensures And(low, 4) != 0 <==> low / 4 % 2 == 1
  {
    assert And(low, 4) == 2 * And(low / 2, 2);
    assert And(low / 2, 2) == 2 * And(low / 2 / 2, 1);
    assert And(low / 2 / 2, 1) == low / 2 / 2 % 2;
  }

  // ----- running the program -----

  lemma {:induction false} RunProtBlock(call: int, rest: seq<Insn>, c: Call)
    ensures Run(ProtBlock(call) + rest, c.nr, Layout(c))
         == if Cast(call) != c.nr then Run(rest, c.nr, Layout(c))
            else Some(if Executable(c.a2) then RET_KILL_PROCESS else RET_ALLOW)
  {
    var code, data := ProtBlock(call) + rest, Layout(c);
    var prot := c.a2 % 0x1_0000_0000;
    WordsOfCall(c);
    ExecuteBit(c.a2);
    assert code[5..] == rest;
    assert Run(code[4..], prot, data) == Some(RET_ALLOW);
    assert Run(code[3..], prot, data) == Some(RET_KILL_PROCESS);
    assert code[2..][1..] == code[3..] && code[2..][2..] == code[4..];
    assert Run(code[2..], prot, data) == Some(if Executable(c.a2) then RET_KILL_PROCESS else RET_ALLOW);
    assert code[1..][1..] == code[2..];
    assert Run(code[1..], c.nr, data) == Run(code[2..], prot, data);
  }

  /** A call to guard is answered by its block; any other leaves the blocks with the number still loaded. */
  lemma {:induction false} RunProtBlocks(calls: seq<int>, rest: seq<Insn>, c: Call)
    ensures Run(ProtBlocks(calls) + rest, c.nr, Layout(c))
         == if !Named(calls, c.nr) then Run(rest, c.nr, Layout(c))
            else Some(if Executable(c.a2) then RET_KILL_PROCESS else RET_ALLOW)
  {
    if calls == [] {
      assert ProtBlocks(calls) + rest == rest;
    } else {
      var front, last := calls[..|calls| - 1], calls[|calls| - 1];
      RunProtBlocks(front, ProtBlock(last) + rest, c);
      RunProtBlock(last, rest, c);
      NamedLast(calls, c.nr);
      assert ProtBlocks(calls) + rest == ProtBlocks(front) + (ProtBlock(last) + rest);
    }
  }

  lemma {:induction false} NamedLast(calls: seq<int>, nr: u32)
    requires calls != []
    ensures Named(calls, nr) <==> Named(calls[..|calls| - 1], nr) || Cast(calls[|calls| - 1]) == nr
  {
    var front := calls[..|calls| - 1];
    if Named(front, nr) {
      var i :| 0 <= i < |front| && Cast(front[i]) == nr;
      assert Cast(calls[i]) == nr;
    }
    if Named(calls, nr) && Cast(calls[|calls| - 1]) != nr {
      var i :| 0 <= i < |calls| && Cast(calls[i]) == nr;
      assert Cast(front[i]) == nr;
    }
  }

  lemma {:induction false} RunAllowPair(call: int, rest: seq<Insn>, nr: u32, data: Bytes)
    ensures Run(AllowPair(call) + rest, nr, data) == if Cast(call) == nr then Some(RET_ALLOW) else Run(rest, nr, data)
  {
    var code := AllowPair(call) + rest;
    assert code[2..] == rest;
    assert Run(code[1..], nr, data) == Some(RET_ALLOW);
  }

  lemma {:induction false} RunAllowPairs(calls: seq<int>, rest: seq<Insn>, nr: u32, data: Bytes)
    ensures Run(AllowPairs(calls) + rest, nr, data) == if Named(calls, nr) then Some(RET_ALLOW) else Run(rest, nr, data)
  {
    if calls == [] {
      assert AllowPairs(calls) + rest == rest;
    } else {
      var front, last := calls[..|calls| - 1], calls[|calls| - 1];
      RunAllowPairs(front, AllowPair(last) + rest, nr, data);
      RunAllowPair(last, rest, nr, data);
      NamedLast(calls, nr);
      assert AllowPairs(calls) + rest == AllowPairs(front) + (AllowPair(last) + rest);
    }
  }

  lemma {:induction false} RunPrologue(x86: bool, arch: u32, rest: seq<Insn>, c: Call)
    ensures Verdict(Prologue(x86, arch) + rest, c)
         == if c.arch != arch || (x86 && c.nr >= X32_BIT) then Some(RET_KILL_PROCESS) else Run(rest, c.nr, Layout(c))
  {
    var code, data := Prologue(x86, arch) + rest, Layout(c);
    WordsOfCall(c);
    var after := (if x86 then [JumpGe(X32_BIT, 0, 1), Return(RET_KILL_PROCESS)] else []) + rest;
    assert code[4..] == after;
    assert Run(after, c.nr, data)
           == if x86 && c.nr >= X32_BIT then Some(RET_KILL_PROCESS) else Run(rest, c.nr, data) by {
      if x86 {
        assert after[2..] == rest;
        assert Run(after[1..], c.nr, data) == Some(RET_KILL_PROCESS);
      } else {
        assert after == rest;
      }
    }
    assert code[3..][1..] == code[4..] && code[1..][2..] == code[3..] && code[1..][1..] == code[2..];
    assert Run(code[3..], c.arch, data) == Run(code[4..], c.nr, data);
    assert Run(code[2..], c.arch, data) == Some(RET_KILL_PROCESS);
    assert Run(code[1..], c.arch, data) == Run(if c.arch == arch then code[3..] else code[2..], c.arch, data);
  }

  /** For allowlists of any length, the emitted program answers every call, and exactly as the policy says. */
  lemma {:induction false} ProgramIsPolicy(x86: bool, arch: u32, protCalls: seq<int>, allowed: seq<int>, c: Call)
    ensures Verdict(Program(x86, arch, protCalls, allowed), c)
         == Some(if Permitted(x86, arch, protCalls, allowed, c) then RET_ALLOW else RET_KILL_PROCESS)
  {
    var end := [Return(RET_KILL_PROCESS)];
    var tail := ProtBlocks(protCalls) + (AllowPairs(allowed) + end);
    assert Program(x86, arch, protCalls, allowed) == Prologue(x86, arch) + tail;
    RunPrologue(x86, arch, tail, c);
    RunProtBlocks(protCalls, AllowPairs(allowed) + end, c);
    RunAllowPairs(allowed, end, c.nr, Layout(c));
  }

  // ----- admission by the kernel -----

  /** An instruction with `left` instructions from itself to the end may stand there. */
  predicate Fits(insn: Insn, left: nat) {
    match insn
    case Return(_) => true
    case Load(o) => o % 4 == 0 && o < 64
    case JumpEq(_, jt, jf) => 1 + jt < left && 1 + jf < left
    case JumpGe(_, jt, jf) => 1 + jt < left && 1 + jf < left
    case JumpSet(_, jt, jf) => 1 + jt < left && 1 + jf < left
  }

  predicate Sound(code: seq<Insn>) {
    code != [] && code[|code| - 1].Return? && forall i :: 0 <= i < |code| ==> Fits(code[i], |code| - i)
  }

  /** No jump of the block goes past the instruction right after it. */
  predicate StaysInside(block: seq<Insn>) {
    forall i :: 0 <= i < |block| ==> Fits(block[i], |block| + 1 - i)
  }

  lemma {:induction false} BlocksStayInside(x86: bool, arch: u32, call: int)
    ensures StaysInside(Prologue(x86, arch)) && StaysInside(ProtBlock(call)) && StaysInside(AllowPair(call))
  {
  }

  const MAX_INSNS := 4096

  predicate Admitted(code: seq<Insn>) {
    |code| <= MAX_INSNS && Sound(code)
  }

  lemma {:induction false} SoundBefore(block: seq<Insn>, rest: seq<Insn>)
    requires Sound(rest) && StaysInside(block)
    ensures Sound(block + rest)
  {
    var code := block + rest;
    forall i | 0 <= i < |code|
      ensures Fits(code[i], |code| - i)
    {
      if i < |block| {
        assert Fits(block[i], |block| + 1 - i);
      } else {
        assert Fits(rest[i - |block|], |rest| - (i - |block|));
      }
    }
  }

  lemma {:induction false} SoundProtBlocks(calls: seq<int>, rest: seq<Insn>)
    requires Sound(rest)
    ensures Sound(ProtBlocks(calls) + rest)
  {
    if calls == [] {
      assert ProtBlocks(calls) + rest == rest;
    } else {
      var front, last := calls[..|calls| - 1], calls[|calls| - 1];
      BlocksStayInside(true, 0, last);
      SoundBefore(ProtBlock(last), rest);
      SoundProtBlocks(front, ProtBlock(last) + rest);
      assert ProtBlocks(calls) + rest == ProtBlocks(front) + (ProtBlock(last) + rest);
    }
  }

  lemma {:induction false} SoundAllowPairs(calls: seq<int>, rest: seq<Insn>)
    requires Sound(rest)
    ensures Sound(AllowPairs(calls) + rest)
  {
    if calls == [] {
      assert AllowPairs(calls) + rest == rest;
    } else {
      var front, last := calls[..|calls| - 1], calls[|calls| - 1];
      BlocksStayInside(true, 0, last);
      SoundBefore(AllowPair(last), rest);
      SoundAllowPairs(front, AllowPair(last) + rest);
      assert AllowPairs(calls) + rest == AllowPairs(front) + (AllowPair(last) + rest);
    }
  }

  /** Every jump stays inside the emitted program and it ends in a return, so only its length can be refused. */
  lemma {:induction false} ProgramAdmitted(x86: bool, arch: u32, protCalls: seq<int>, allowed: seq<int>)
    ensures Admitted(Program(x86, arch, protCalls, allowed))
       <==> (if x86 then 7 else 5) + 5 * |protCalls| + 2 * |allowed| <= MAX_INSNS
  {
    var end := [Return(RET_KILL_PROCESS)];
    var pairs := AllowPairs(allowed) + end;
    SoundAllowPairs(allowed, end);
    SoundProtBlocks(protCalls, pairs);
    BlocksStayInside(x86, arch, 0);
    SoundBefore(Prologue(x86, arch), ProtBlocks(protCalls) + pairs);
    BlockLengths(protCalls, allowed);
    assert Program(x86, arch, protCalls, allowed) == Prologue(x86, arch) + (ProtBlocks(protCalls) + pairs);
  }
}
