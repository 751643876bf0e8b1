/**
 * Atomic file replacement (`crates/synch-core/src/fs.rs`) as a state machine: any number of writers in any number
 * of processes save over one path, their system calls interleave freely, calls fail, processes die and their ids
 * are reused, and the machine may crash after any step.
 */
module AtomicWrite {
  import opened Words
  import opened Bytes
  import opened Numerals

  type Name = string

  // ----- temporary names -----

  const COUNTER_MODULUS := 0x1_0000_0000_0000_0000

  /** `{pid}-{counter}`: the counter is a `u64` that wraps. */
  function Suffix(pid: u32, ticket: nat): string {
    Decimal(pid) + "-" + Decimal(ticket % COUNTER_MODULUS)
  }

  function Temporary(target: Name, pid: u32, ticket: nat): Name {
    target + "." + Suffix(pid, ticket) + ".tmp"
  }

  /** Where the text before the first dash ends. */
  function Dash(s: string): nat {
    if s == [] || s[0] == '-' then 0 else 1 + Dash(s[1..])
  }

  lemma {:induction false} DashAfter(a: string, b: string)
    requires '-' !in a
    ensures Dash(a + "-" + b) == |a|
  {
    if a != [] {
      DashAfter(a[1..], b);
      assert (a + "-" + b)[1..] == a[1..] + "-" + b;
    }
  }

  lemma {:induction false} SplitUnique(a: string, b: string, c: string, d: string)
    requires '-' !in a && '-' !in c && a + "-" + b == c + "-" + d
    ensures a == c && b == d
  {
    var s := a + "-" + b;
    DashAfter(a, b);
    DashAfter(c, d);
    assert s[..|a|] == a && s[..|c|] == c;
    assert s[|a| + 1..] == b && s[|c| + 1..] == d;
  }

  /** Two writes share a temporary exactly when the process id and the wrapped counter agree. */
  lemma {:induction false} TemporaryInjective(target: Name, p: u32, m: nat, q: u32, n: nat)
    ensures Temporary(target, p, m) == Temporary(target, q, n) <==> p == q && m % COUNTER_MODULUS == n % COUNTER_MODULUS
    ensures Temporary(target, p, m) != target
  {
    var a, b := Decimal(p), Decimal(m % COUNTER_MODULUS);
    var c, d := Decimal(q), Decimal(n % COUNTER_MODULUS);
    if Temporary(target, p, m) == Temporary(target, q, n) {
      Cancel(target + ".", a + "-" + b, c + "-" + d, ".tmp");
      DecimalRoundTrip(p);
      DecimalRoundTrip(q);
      SplitUnique(a, b, c, d);
      DecimalRoundTrip(m % COUNTER_MODULUS);
      DecimalRoundTrip(n % COUNTER_MODULUS);
    }
  }

  lemma {:induction false} Cancel(front: string, a: string, b: string, back: string)
    requires front + a + back == front + b + back
    ensures a == b
  {
    var x, y := front + a + back, front + b + back;
    assert x[|front|..|front| + |a|] == a && y[|front|..|front| + |b|] == b;
  }

  // ----- the machine -----

  type Node = nat

  datatype Process = Waiting | Running(issued: nat) | Exited

  /** How far one call of `write_atomic` has come. */
  datatype Phase =
    | Idle
    | Named(ticket: nat)
    | Open(ticket: nat, node: Node, written: nat)
    | Flushed(ticket: nat, node: Node)
    | Renamed(at: nat)
    | Done(at: nat, flushed: bool)
    | Failed

  datatype Writer = Writer(process: nat, data: Bytes)

  datatype Config = Config(target: Name, pids: seq<u32>, writers: seq<Writer>)

  /** What the target named at one time, and the writer that put it there. */
  datatype Entry = Entry(node: Option<Node>, author: Option<nat>)

  /**
   * `directory` and `contents` are what running processes see. `flushed` are the files whose contents have
   * reached the device, `history` is everything the target has named, and from `durable` on the entries of
   * `history` are those a crash may leave behind.
   */
  datatype State = State(
    directory: map<Name, Node>,
    contents: map<Node, Bytes>,
    flushed: set<Node>,
    history: seq<Entry>,
    durable: nat,
    processes: seq<Process>,
    phases: seq<Phase>)

  datatype Step =
    | Spawn(process: nat)
    | Exit(process: nat)
    | TakeName(writer: nat)
    | Create(writer: nat, unused: Node)
    | Write(writer: nat, count: nat)
    | Flush(writer: nat)
    | Rename(writer: nat)
    | Return(writer: nat, flushed: bool)
    | Fail(writer: nat, removed: bool)

  predicate Live(c: Config, s: State, i: nat)
    requires |s.processes| == |c.pids| && |s.phases| == |c.writers|
  {
    && i < |c.writers|
    && c.writers[i].process < |c.pids|
    && s.processes[c.writers[i].process].Running?
  }

  function TemporaryOf(c: Config, i: nat, ticket: nat): Name
    requires i < |c.writers| && c.writers[i].process < |c.pids|
  {
    Temporary(c.target, c.pids[c.writers[i].process], ticket)
  }

  predicate Shaped(c: Config, s: State) {
    |s.processes| == |c.pids| && |s.phases| == |c.writers|
  }

  /**
   * What can happen next. Processes alive at one time have different ids, and no process takes `2^64` names:
   * past that the counter wraps and names repeat.
   */
  predicate Enabled(c: Config, s: State, step: Step)
    requires Shaped(c, s)
  {
    match step
    case Spawn(p) =>
      && p < |c.pids| && s.processes[p].Waiting?
      && forall q :: 0 <= q < |c.pids| && s.processes[q].Running? ==> c.pids[q] != c.pids[p]
    case Exit(p) => p < |c.pids| && s.processes[p].Running?
    case TakeName(i) => Live(c, s, i) && s.phases[i].Idle? && s.processes[c.writers[i].process].issued < COUNTER_MODULUS
    case Create(i, unused) => Live(c, s, i) && s.phases[i].Named? && unused !in s.contents
    case Write(i, n) => Live(c, s, i) && s.phases[i].Open? && s.phases[i].written + n <= |c.writers[i].data|
    case Flush(i) => Live(c, s, i) && s.phases[i].Open? && s.phases[i].written == |c.writers[i].data|
    case Rename(i) => Live(c, s, i) && s.phases[i].Flushed?
    case Return(i, _) => Live(c, s, i) && s.phases[i].Renamed?
    case Fail(i, _) => Live(c, s, i) && (s.phases[i].Named? || s.phases[i].Open? || s.phases[i].Flushed?)
  }

  function Ticket(p: Phase): nat {
    match p
    case Named(t) => t
    case Open(t, _, _) => t
    case Flushed(t, _) => t
    case _ => 0
  }

  function Apply(c: Config, s: State, step: Step): (t: State)
    requires Shaped(c, s) && Enabled(c, s, step)
    ensures Shaped(c, t)
  {
    match step
    case Spawn(p) => s.(processes := s.processes[p := Running(0)])
    case Exit(p) => s.(processes := s.processes[p := Exited])
    case TakeName(i) => Take(c, s, i)
    case Create(i, unused) => Opened(c, s, i, unused)
    case Write(i, n) => Written(c, s, i, n)
    case Flush(i) =>
      var p := s.phases[i];
      s.(flushed := s.flushed + {p.node}, phases := s.phases[i := Flushed(p.ticket, p.node)])
    case Rename(i) => Moved(c, s, i)
    case Return(i, flushed) =>
      s.(durable := if flushed && |s.history| > 0 then |s.history| - 1 else s.durable,
         phases := s.phases[i := Done(s.phases[i].at, flushed)])
    case Fail(i, removed) =>
      s.(directory := if removed then s.directory - {TemporaryOf(c, i, Ticket(s.phases[i]))} else s.directory,
         phases := s.phases[i := Failed])
  }

  /** `unique_suffix`: the process counter is read and raised at once. */
  function Take(c: Config, s: State, i: nat): State
    requires Shaped(c, s) && Live(c, s, i)
  {
    var p := c.writers[i].process;
    var n := s.processes[p].issued;
    s.(processes := s.processes[p := Running(n + 1)], phases := s.phases[i := Named(n)])
  }

  /** `File::create`: an existing file of that name is emptied, otherwise a new one is linked. */
  function Opened(c: Config, s: State, i: nat, unused: Node): State
    requires Shaped(c, s) && Live(c, s, i) && s.phases[i].Named?
  {
    var name := TemporaryOf(c, i, s.phases[i].ticket);
    var node := if name in s.directory then s.directory[name] else unused;
    s.(directory := s.directory[name := node],
       contents := s.contents[node := []],
       flushed := s.flushed - {node},
       phases := s.phases[i := Open(s.phases[i].ticket, node, 0)])
  }

  /** One `write` of `write_all`, at the end of what the handle wrote before. */
  function Written(c: Config, s: State, i: nat, n: nat): State
    requires Shaped(c, s) && Live(c, s, i) && s.phases[i].Open? && s.phases[i].written + n <= |c.writers[i].data|
  {
    var p := s.phases[i];
    var before := if p.node in s.contents then s.contents[p.node] else [];
    s.(contents := s.contents[p.node := before + c.writers[i].data[p.written..p.written + n]],
       flushed := s.flushed - {p.node},
       phases := s.phases[i := Open(p.ticket, p.node, p.written + n)])
  }

  function Moved(c: Config, s: State, i: nat): State
    requires Shaped(c, s) && Live(c, s, i) && s.phases[i].Flushed?
  {
    var p := s.phases[i];
    s.(directory := (s.directory - {TemporaryOf(c, i, p.ticket)})[c.target := p.node],
       history := s.history + [Entry(Some(p.node), Some(i))],
       phases := s.phases[i := Renamed(|s.history|)])
  }

  /** A name a write uses: the target, or a temporary of one of the processes. */
  ghost predicate Ours(c: Config, n: Name) {
    n == c.target || exists p: nat, ticket: nat :: p < |c.pids| && n == Temporary(c.target, c.pids[p], ticket)
  }

  /** Every name leads to a file, and no two names that writes use lead to the same one. */
  ghost predicate Linked(c: Config, s: State) {
    && (forall n :: n in s.directory ==> s.directory[n] in s.contents)
    && (forall m, n :: m in s.directory && n in s.directory && Ours(c, m) && Ours(c, n) ==>
                         s.directory[m] == s.directory[n] ==> m == n)
  }

  /**
   * Any directory may be the first: the target there or not, whatever earlier crashes left behind, and files under
   * several names. Only, the target's file has reached the device, and no two names that writes use share a file.
   */
  ghost predicate Initial(c: Config, s: State) {
    && Shaped(c, s)
    && (forall p :: 0 <= p < |s.processes| ==> s.processes[p].Waiting?)
    && (forall i :: 0 <= i < |s.phases| ==> s.phases[i].Idle?)
    && Linked(c, s)
    && (c.target in s.directory ==> s.directory[c.target] in s.flushed)
    && s.history == [Entry(if c.target in s.directory then Some(s.directory[c.target]) else None, None)]
    && s.durable == 0
  }

  predicate Runs(c: Config, s: State, steps: seq<Step>)
    requires Shaped(c, s)
    decreases |steps|
  {
    steps == [] || (Enabled(c, s, steps[0]) && Runs(c, Apply(c, s, steps[0]), steps[1..]))
  }

  function Final(c: Config, s: State, steps: seq<Step>): State
    requires Shaped(c, s) && Runs(c, s, steps)
    decreases |steps|
  {
    if steps == [] then s else Final(c, Apply(c, s, steps[0]), steps[1..])
  }

  // ----- what is observed -----

  /** What a reader of the target finds. */
  function Seen(c: Config, s: State): Option<Bytes> {
    if c.target in s.directory && s.directory[c.target] in s.contents then Some(s.contents[s.directory[c.target]])
    else None
  }

  /**
   * What the target may hold after a crash: the device has some entry of the history from the durable one on,
   * and a file never flushed holds whatever `junk` says.
   */
  function Recovered(s: State, k: nat, junk: Node -> Bytes): Option<Bytes>
    requires k < |s.history|
  {
    match s.history[k].node
    case None => None
    case Some(n) => Some(if n in s.flushed && n in s.contents then s.contents[n] else junk(n))
  }

  // ----- what every step keeps -----

  predicate Holding(c: Config, s: State, i: nat)
    requires Shaped(c, s)
  {
    Live(c, s, i) && (s.phases[i].Named? || s.phases[i].Open? || s.phases[i].Flushed?)
  }

  predicate Siblings(c: Config, i: nat, j: nat)
    requires i < |c.writers| && j < |c.writers|
  {
    c.writers[i].process == c.writers[j].process
  }

  function Issued(c: Config, s: State, i: nat): nat
    requires Shaped(c, s) && Live(c, s, i)
  {
    s.processes[c.writers[i].process].issued
  }

  /** No two live processes share an id and no two live writers of a process share a ticket. */
  ghost predicate Unique(c: Config, s: State)
    requires Shaped(c, s)
  {
    && (forall p, q :: 0 <= p < q < |c.pids| && s.processes[p].Running? && s.processes[q].Running? ==>
          c.pids[p] != c.pids[q])
    && (forall p :: 0 <= p < |c.pids| && s.processes[p].Running? ==> s.processes[p].issued <= COUNTER_MODULUS)
    && (forall i :: 0 <= i < |c.writers| && Holding(c, s, i) ==> Ticket(s.phases[i]) < Issued(c, s, i))
    && (forall i, j :: 0 <= i < j < |c.writers| && Holding(c, s, i) && Holding(c, s, j) && Siblings(c, i, j)
                       ==> Ticket(s.phases[i]) != Ticket(s.phases[j]))
    && (forall i :: 0 <= i < |c.writers| && c.writers[i].process < |c.pids| ==>
                      s.processes[c.writers[i].process].Waiting? ==> s.phases[i].Idle?)
  }

  /** An entry of the history is on the device, whole, as its author or the first state had it. */
  ghost predicate Whole(c: Config, contents: map<Node, Bytes>, flushed: set<Node>, e: Entry, first: Option<Bytes>) {
    match e.node
    case None => e.author.None? && first.None?
    case Some(n) =>
      && n in contents && n in flushed
      && (match e.author
          case None => first == Some(contents[n])
          case Some(i) => i < |c.writers| && contents[n] == c.writers[i].data)
  }

  ghost predicate Past(c: Config, s: State, first: Option<Bytes>) {
    && |s.history| > 0 && s.durable < |s.history|
    && s.history[|s.history| - 1].node == (if c.target in s.directory then Some(s.directory[c.target]) else None)
    && (forall k :: 0 <= k < |s.history| ==> Whole(c, s.contents, s.flushed, s.history[k], first))
  }

  /** What the target has ever named has no other name that writes use. */
  ghost predicate Apart(c: Config, s: State) {
    forall m, k :: m in s.directory && m != c.target && Ours(c, m) && 0 <= k < |s.history|
                   ==> s.history[k].node != Some(s.directory[m])
  }

  lemma {:induction false} OursTemporary(c: Config, i: nat, ticket: nat)
    requires i < |c.writers| && c.writers[i].process < |c.pids|
    ensures Ours(c, TemporaryOf(c, i, ticket)) && Ours(c, c.target) && TemporaryOf(c, i, ticket) != c.target
  {
    TemporaryInjective(c.target, c.pids[c.writers[i].process], ticket, 0, 0);
  }

  /** A live writer's file is under its own name and holds what it has written. */
  ghost predicate Owns(c: Config, s: State, i: nat)
    requires Shaped(c, s) && Live(c, s, i)
  {
    var p, data := s.phases[i], c.writers[i].data;
    match p
    case Open(t, node, written) =>
      && TemporaryOf(c, i, t) in s.directory && s.directory[TemporaryOf(c, i, t)] == node
      && written <= |data| && node in s.contents && s.contents[node] == data[..written]
    case Flushed(t, node) =>
      && TemporaryOf(c, i, t) in s.directory && s.directory[TemporaryOf(c, i, t)] == node
      && node in s.contents && s.contents[node] == data && node in s.flushed
    case _ => true
  }

  ghost predicate Files(c: Config, s: State)
    requires Shaped(c, s)
  {
    forall i :: 0 <= i < |c.writers| && Live(c, s, i) ==> Owns(c, s, i)
  }

  /** A writer that renamed has its entry, and one that also flushed the directory has it for good. */
  ghost predicate Ends(c: Config, s: State)
    requires Shaped(c, s)
  {
    forall i :: 0 <= i < |c.writers| ==>
      match s.phases[i]
      case Renamed(at) => at < |s.history| && s.history[at].author == Some(i)
      case Done(at, flushed) => at < |s.history| && s.history[at].author == Some(i) && (flushed ==> at <= s.durable)
      case _ => true
  }

  predicate Finished(s: State, i: nat) {
    i < |s.phases| && (s.phases[i].Renamed? || s.phases[i].Done?)
  }

  ghost predicate Authors(s: State) {
    && (forall k :: 0 <= k < |s.history| && s.history[k].author.Some? ==> Finished(s, s.history[k].author.value))
    && (forall k :: 0 < k < |s.history| ==> s.history[k].author.Some?)
  }

  ghost predicate Inv(c: Config, s: State, first: Option<Bytes>) {
    && Shaped(c, s)
    && Unique(c, s)
    && Linked(c, s)
    && Past(c, s, first)
    && Apart(c, s)
    && Files(c, s)
    && Ends(c, s)
    && Authors(s)
  }

  lemma {:induction false} InitialInv(c: Config, s: State)
    requires Initial(c, s)
    ensures Inv(c, s, Seen(c, s))
  {
  }

  /** Live writers have different temporaries, none of them the target. */
  lemma {:induction false} NamesDiffer(c: Config, s: State, i: nat, j: nat)
    requires Shaped(c, s) && Unique(c, s) && Holding(c, s, i) && Holding(c, s, j) && i != j
    ensures TemporaryOf(c, i, Ticket(s.phases[i])) != TemporaryOf(c, j, Ticket(s.phases[j]))
  {
    var p, q := c.writers[i].process, c.writers[j].process;
    var m, n := Ticket(s.phases[i]), Ticket(s.phases[j]);
    assert m < Issued(c, s, i) <= COUNTER_MODULUS && n < Issued(c, s, j) <= COUNTER_MODULUS;
    TemporaryInjective(c.target, c.pids[p], m, c.pids[q], n);
    assert m % COUNTER_MODULUS == m && n % COUNTER_MODULUS == n;
  }

  /** A writer that moves on keeps its ticket or gives it up. */
  lemma {:induction false} UniqueMovesOn(c: Config, s: State, t: State, i: nat)
    requires Shaped(c, s) && Shaped(c, t) && Unique(c, s) && Live(c, s, i)
    requires t.processes == s.processes && t.phases == s.phases[i := t.phases[i]]
    requires Holding(c, t, i) ==> Holding(c, s, i) && Ticket(t.phases[i]) == Ticket(s.phases[i])
    ensures Unique(c, t)
  {
    assert forall j :: 0 <= j < |c.writers| && Holding(c, t, j) ==>
             Holding(c, s, j) && Ticket(t.phases[j]) == Ticket(s.phases[j]);
  }

  /** A writer that has not renamed yet leaves the records of those that have. */
  lemma {:induction false} EndsStay(c: Config, s: State, t: State, i: nat)
    requires Shaped(c, s) && Shaped(c, t) && Ends(c, s) && Authors(s) && i < |s.phases|
    requires t.history == s.history && t.durable == s.durable && t.phases == s.phases[i := t.phases[i]]
    requires !Finished(s, i) && !Finished(t, i)
    ensures Ends(c, t) && Authors(t)
  {
    forall k | 0 <= k < |t.history| && t.history[k].author.Some?
      ensures Finished(t, t.history[k].author.value)
    {
      assert Finished(s, s.history[k].author.value);
    }
  }

  /** Changing a file outside the history, or flushing one, leaves the past whole. */
  lemma {:induction false} PastStays(c: Config, s: State, t: State, first: Option<Bytes>, node: Node)
    requires Past(c, s, first)
    requires t.history == s.history && t.durable == s.durable
    requires c.target in t.directory <==> c.target in s.directory
    requires c.target in s.directory ==> t.directory[c.target] == s.directory[c.target]
    requires forall n :: n in s.contents && n != node ==> n in t.contents && t.contents[n] == s.contents[n]
    requires forall n :: n in s.flushed && n != node ==> n in t.flushed
    requires forall k :: 0 <= k < |s.history| ==> s.history[k].node != Some(node)
    ensures Past(c, t, first)
  {
    forall k | 0 <= k < |t.history|
      ensures Whole(c, t.contents, t.flushed, t.history[k], first)
    {
      assert Whole(c, s.contents, s.flushed, s.history[k], first);
    }
  }

  /** A change to writer `i`'s name and file leaves the other writers theirs. */
  lemma {:induction false} FilesStay(c: Config, s: State, t: State, i: nat, name: Name, node: Node)
    requires Shaped(c, s) && Shaped(c, t) && Unique(c, s) && Linked(c, s) && Files(c, s)
    requires Holding(c, s, i) && name == TemporaryOf(c, i, Ticket(s.phases[i]))
    requires t.processes == s.processes && t.phases == s.phases[i := t.phases[i]]
    requires forall m :: m in s.directory && m != name && m != c.target ==>
               m in t.directory && t.directory[m] == s.directory[m]
    requires forall m :: m in s.directory && Ours(c, m) && s.directory[m] == node ==> m == name
    requires forall n :: n in s.contents && n != node ==> n in t.contents && t.contents[n] == s.contents[n]
    requires forall n :: n in s.flushed && n != node ==> n in t.flushed
    requires Owns(c, t, i)
    ensures Files(c, t)
  {
    forall j | 0 <= j < |c.writers| && Live(c, t, j)
      ensures Owns(c, t, j)
    {
      assert Owns(c, s, j);
      if j != i && Holding(c, s, j) {
        NamesDiffer(c, s, i, j);
        OursTemporary(c, j, Ticket(s.phases[j]));
      }
    }
  }

  /** A change to processes alone leaves the files of writers that live on. */
  lemma {:induction false} FilesLive(c: Config, s: State, t: State)
    requires Shaped(c, s) && Shaped(c, t) && Files(c, s)
    requires t.directory == s.directory && t.contents == s.contents && t.flushed == s.flushed
    requires forall i :: 0 <= i < |c.writers| && Live(c, t, i) ==>
               (Live(c, s, i) && t.phases[i] == s.phases[i]) || !(t.phases[i].Open? || t.phases[i].Flushed?)
    ensures Files(c, t)
  {
    forall j | 0 <= j < |c.writers| && Live(c, t, j)
      ensures Owns(c, t, j)
    {
      assert Live(c, s, j) ==> Owns(c, s, j);
    }
  }

  // Each step keeps the invariant.

  lemma {:induction false} SpawnUnique(c: Config, s: State, p: nat)
    requires Shaped(c, s) && Unique(c, s) && Enabled(c, s, Spawn(p))
    ensures Unique(c, Apply(c, s, Spawn(p)))
  {
  }

  lemma {:induction false} SpawnKeeps(c: Config, s: State, p: nat, first: Option<Bytes>)
    requires Inv(c, s, first) && Enabled(c, s, Spawn(p))
    ensures Inv(c, Apply(c, s, Spawn(p)), first)
  {
    SpawnUnique(c, s, p);
    FilesLive(c, s, Apply(c, s, Spawn(p)));
  }

  lemma {:induction false} ExitUnique(c: Config, s: State, p: nat)
    requires Shaped(c, s) && Unique(c, s) && Enabled(c, s, Exit(p))
    ensures Unique(c, Apply(c, s, Exit(p)))
  {
    var t := Apply(c, s, Exit(p));
    assert forall j :: 0 <= j < |c.writers| && Holding(c, t, j) ==> Holding(c, s, j);
  }

  lemma {:induction false} ExitKeeps(c: Config, s: State, p: nat, first: Option<Bytes>)
    requires Inv(c, s, first) && Enabled(c, s, Exit(p))
    ensures Inv(c, Apply(c, s, Exit(p)), first)
  {
    ExitUnique(c, s, p);
    FilesLive(c, s, Apply(c, s, Exit(p)));
  }

  lemma {:induction false} TakeUnique(c: Config, s: State, i: nat)
    requires Shaped(c, s) && Unique(c, s) && Enabled(c, s, TakeName(i))
    ensures Unique(c, Take(c, s, i))
  {
  }

  lemma {:induction false} TakeKeeps(c: Config, s: State, i: nat, first: Option<Bytes>)
    requires Inv(c, s, first) && Enabled(c, s, TakeName(i))
    ensures Inv(c, Take(c, s, i), first)
  {
    var t := Take(c, s, i);
    TakeUnique(c, s, i);
    EndsStay(c, s, t, i);
    FilesLive(c, s, t);
  }

  lemma {:induction false} CreateKeeps(c: Config, s: State, i: nat, unused: Node, first: Option<Bytes>)
    requires Inv(c, s, first) && Enabled(c, s, Create(i, unused))
    ensures Inv(c, Opened(c, s, i, unused), first)
  {
    var t := Opened(c, s, i, unused);
    var name := TemporaryOf(c, i, s.phases[i].ticket);
    var node := t.phases[i].node;
    OursTemporary(c, i, s.phases[i].ticket);
    UniqueMovesOn(c, s, t, i);
    EndsStay(c, s, t, i);
    forall k | 0 <= k < |s.history|
      ensures s.history[k].node != Some(node)
    {
      assert Whole(c, s.contents, s.flushed, s.history[k], first);
    }
    PastStays(c, s, t, first, node);
    FilesStay(c, s, t, i, name, node);
  }

  /** What a handle has written is a growing prefix of the data. */
  lemma {:induction false} WriteExtends(c: Config, s: State, i: nat, n: nat)
    requires Shaped(c, s) && Enabled(c, s, Write(i, n)) && Owns(c, s, i)
    ensures Owns(c, Written(c, s, i, n), i)
  {
    var data, w := c.writers[i].data, s.phases[i].written;
    assert data[..w] + data[w..w + n] == data[..w + n];
  }

  lemma {:induction false} WriteKeeps(c: Config, s: State, i: nat, n: nat, first: Option<Bytes>)
    requires Inv(c, s, first) && Enabled(c, s, Write(i, n))
    ensures Inv(c, Written(c, s, i, n), first)
  {
    var t, p := Written(c, s, i, n), s.phases[i];
    OursTemporary(c, i, p.ticket);
    assert Owns(c, s, i);
    WriteExtends(c, s, i, n);
    UniqueMovesOn(c, s, t, i);
    EndsStay(c, s, t, i);
    PastStays(c, s, t, first, p.node);
    FilesStay(c, s, t, i, TemporaryOf(c, i, p.ticket), p.node);
  }

  lemma {:induction false} FlushKeeps(c: Config, s: State, i: nat, first: Option<Bytes>)
    requires Inv(c, s, first) && Enabled(c, s, Flush(i))
    ensures Inv(c, Apply(c, s, Flush(i)), first)
  {
    var t, p := Apply(c, s, Flush(i)), s.phases[i];
    OursTemporary(c, i, p.ticket);
    assert Owns(c, s, i);
    UniqueMovesOn(c, s, t, i);
    EndsStay(c, s, t, i);
    PastStays(c, s, t, first, p.node);
    FilesStay(c, s, t, i, TemporaryOf(c, i, p.ticket), p.node);
  }

  lemma {:induction false} RenamePast(c: Config, s: State, i: nat, first: Option<Bytes>)
    requires Shaped(c, s) && Past(c, s, first) && Enabled(c, s, Rename(i)) && Owns(c, s, i)
    ensures Past(c, Moved(c, s, i), first)
  {
    var t := Moved(c, s, i);
    forall k | 0 <= k < |t.history|
      ensures Whole(c, t.contents, t.flushed, t.history[k], first)
    {
      assert k < |s.history| ==> Whole(c, s.contents, s.flushed, s.history[k], first);
    }
  }

  lemma {:induction false} RenameEnds(c: Config, s: State, i: nat)
    requires Shaped(c, s) && Ends(c, s) && Authors(s) && Enabled(c, s, Rename(i)) && s.durable < |s.history|
    ensures Ends(c, Moved(c, s, i)) && Authors(Moved(c, s, i))
  {
    var t := Moved(c, s, i);
    forall k | 0 <= k < |t.history| && t.history[k].author.Some?
      ensures Finished(t, t.history[k].author.value)
    {
      assert k < |s.history| ==> Finished(s, s.history[k].author.value);
    }
  }

  lemma {:induction false} RenameLinks(c: Config, s: State, i: nat, name: Name)
    requires Shaped(c, s) && Linked(c, s) && Apart(c, s) && Enabled(c, s, Rename(i)) && Owns(c, s, i)
    requires name == TemporaryOf(c, i, s.phases[i].ticket) && name != c.target && Ours(c, name) && Ours(c, c.target)
    ensures Linked(c, Moved(c, s, i)) && Apart(c, Moved(c, s, i))
  {
  }

  lemma {:induction false} RenameKeeps(c: Config, s: State, i: nat, first: Option<Bytes>)
    requires Inv(c, s, first) && Enabled(c, s, Rename(i))
    ensures Inv(c, Moved(c, s, i), first)
  {
    var t, p := Moved(c, s, i), s.phases[i];
    var name := TemporaryOf(c, i, p.ticket);
    OursTemporary(c, i, p.ticket);
    assert Owns(c, s, i);
    UniqueMovesOn(c, s, t, i);
    RenamePast(c, s, i, first);
    RenameEnds(c, s, i);
    RenameLinks(c, s, i, name);
    FilesStay(c, s, t, i, name, p.node);
  }

  lemma {:induction false} ReturnEnds(c: Config, s: State, i: nat, flushed: bool)
    requires Shaped(c, s) && Ends(c, s) && Authors(s) && Enabled(c, s, Return(i, flushed)) && s.durable < |s.history|
    ensures Ends(c, Apply(c, s, Return(i, flushed))) && Authors(Apply(c, s, Return(i, flushed)))
  {
    var t := Apply(c, s, Return(i, flushed));
    forall k | 0 <= k < |t.history| && t.history[k].author.Some?
      ensures Finished(t, t.history[k].author.value)
    {
      assert Finished(s, s.history[k].author.value);
    }
  }

  lemma {:induction false} ReturnPast(c: Config, s: State, i: nat, flushed: bool, first: Option<Bytes>)
    requires Shaped(c, s) && Past(c, s, first) && Apart(c, s) && Linked(c, s) && Enabled(c, s, Return(i, flushed))
    ensures var t := Apply(c, s, Return(i, flushed));
            Past(c, t, first) && Apart(c, t) && Linked(c, t)
  {
  }

  lemma {:induction false} ReturnKeeps(c: Config, s: State, i: nat, flushed: bool, first: Option<Bytes>)
    requires Inv(c, s, first) && Enabled(c, s, Return(i, flushed))
    ensures Inv(c, Apply(c, s, Return(i, flushed)), first)
  {
    var t := Apply(c, s, Return(i, flushed));
    UniqueMovesOn(c, s, t, i);
    ReturnEnds(c, s, i, flushed);
    ReturnPast(c, s, i, flushed, first);
    FilesLive(c, s, t);
  }

  lemma {:induction false} FailFiles(c: Config, s: State, t: State, i: nat)
    requires Shaped(c, s) && Unique(c, s) && Files(c, s) && Holding(c, s, i) && Shaped(c, t)
    requires t.processes == s.processes && t.phases == s.phases[i := Failed] && t.contents == s.contents
             && t.flushed == s.flushed
    requires forall m :: m in s.directory && m != TemporaryOf(c, i, Ticket(s.phases[i])) ==>
               m in t.directory && t.directory[m] == s.directory[m]
    ensures Files(c, t)
  {
    forall j | 0 <= j < |c.writers| && Live(c, t, j)
      ensures Owns(c, t, j)
    {
      assert Owns(c, s, j);
      if j != i && Holding(c, s, j) {
        NamesDiffer(c, s, i, j);
      }
    }
  }

  lemma {:induction false} FailKeeps(c: Config, s: State, i: nat, removed: bool, first: Option<Bytes>)
    requires Inv(c, s, first) && Enabled(c, s, Fail(i, removed))
    ensures Inv(c, Apply(c, s, Fail(i, removed)), first)
  {
    var t := Apply(c, s, Fail(i, removed));
    OursTemporary(c, i, Ticket(s.phases[i]));
    UniqueMovesOn(c, s, t, i);
    EndsStay(c, s, t, i);
    FailFiles(c, s, t, i);
  }

  /** Every step any process may take keeps the invariant. */
  lemma {:induction false} StepKeeps(c: Config, s: State, step: Step, first: Option<Bytes>)
    requires Inv(c, s, first) && Enabled(c, s, step)
    ensures Inv(c, Apply(c, s, step), first)
  {
    match step
    case Spawn(p) => SpawnKeeps(c, s, p, first);
    case Exit(p) => ExitKeeps(c, s, p, first);
    case TakeName(i) => TakeKeeps(c, s, i, first);
    case Create(i, unused) => CreateKeeps(c, s, i, unused, first);
    case Write(i, n) => WriteKeeps(c, s, i, n, first);
    case Flush(i) => FlushKeeps(c, s, i, first);
    case Rename(i) => RenameKeeps(c, s, i, first);
    case Return(i, flushed) => ReturnKeeps(c, s, i, flushed, first);
    case Fail(i, removed) => FailKeeps(c, s, i, removed, first);
  }

  lemma {:induction false} RunKeeps(c: Config, s: State, steps: seq<Step>, first: Option<Bytes>)
    requires Inv(c, s, first) && Runs(c, s, steps)
    ensures Inv(c, Final(c, s, steps), first)
    decreases |steps|
  {
    if steps != [] {
      StepKeeps(c, s, steps[0], first);
      RunKeeps(c, Apply(c, s, steps[0]), steps[1..], first);
    }
  }

  // ----- the theorems -----

  /** What one writer was asked to save, whole, after it renamed. */
  predicate SavedBy(c: Config, s: State, i: nat, found: Option<Bytes>) {
    Finished(s, i) && i < |c.writers| && found == Some(c.writers[i].data)
  }

  /** At every moment of every run, a reader finds the first contents or the whole data of one writer. */
  lemma {:induction false} ReaderSeesWhole(c: Config, s: State, steps: seq<Step>)
    requires Initial(c, s) && Runs(c, s, steps)
    ensures var t := Final(c, s, steps);
            Seen(c, t) == Seen(c, s) || exists i :: SavedBy(c, t, i, Seen(c, t))
  {
    var t := Final(c, s, steps);
    InitialInv(c, s);
    RunKeeps(c, s, steps, Seen(c, s));
    var e := t.history[|t.history| - 1];
    assert Whole(c, t.contents, t.flushed, e, Seen(c, s));
    if e.author.Some? {
      assert SavedBy(c, t, e.author.value, Seen(c, t));
    }
  }

  /** So does the machine after a crash at any moment, whatever became of the files it had not flushed. */
  lemma {:induction false} CrashLeavesWhole(c: Config, s: State, steps: seq<Step>, k: nat, junk: Node -> Bytes)
    requires Initial(c, s) && Runs(c, s, steps)
    requires Final(c, s, steps).durable <= k < |Final(c, s, steps).history|
    ensures var t := Final(c, s, steps);
            Recovered(t, k, junk) == Seen(c, s) || exists i :: SavedBy(c, t, i, Recovered(t, k, junk))
  {
    var t := Final(c, s, steps);
    InitialInv(c, s);
    RunKeeps(c, s, steps, Seen(c, s));
    var e := t.history[k];
    assert Whole(c, t.contents, t.flushed, e, Seen(c, s));
    if e.author.Some? {
      assert SavedBy(c, t, e.author.value, Recovered(t, k, junk));
    }
  }

  /** A save whose directory flush went through survives a crash: only a rename made after it can show instead. */
  lemma {:induction false} SavedIsNotLost(c: Config, s: State, steps: seq<Step>, i: nat, k: nat, junk: Node -> Bytes)
    requires Initial(c, s) && Runs(c, s, steps)
    requires var t := Final(c, s, steps);
             i < |t.phases| && t.phases[i].Done? && t.phases[i].flushed && t.durable <= k < |t.history|
    ensures var t := Final(c, s, steps);
            var at := t.phases[i].at;
            && at <= k && t.history[at].author == Some(i)
            && t.history[k].author.Some? && SavedBy(c, t, t.history[k].author.value, Recovered(t, k, junk))
  {
    var t := Final(c, s, steps);
    InitialInv(c, s);
    RunKeeps(c, s, steps, Seen(c, s));
    assert Whole(c, t.contents, t.flushed, t.history[k], Seen(c, s));
  }

  // ----- a write gets done -----

  /** The calls after the last byte is written. */
  function LastCalls(i: nat, flushed: bool): seq<Step> {
    [Flush(i)] + ([Rename(i)] + ([Return(i, flushed)] + []))
  }

  /** The calls of one write, nothing failing. */
  function WholeWrite(c: Config, i: nat, unused: Node, flushed: bool): seq<Step>
    requires i < |c.writers|
  {
    [TakeName(i)] + ([Create(i, unused)] + ([Write(i, |c.writers[i].data|)] + LastCalls(i, flushed)))
  }

  lemma {:induction false} RunsOne(c: Config, s: State, step: Step, rest: seq<Step>)
    requires Shaped(c, s) && Enabled(c, s, step) && Runs(c, Apply(c, s, step), rest)
    ensures Runs(c, s, [step] + rest) && Final(c, s, [step] + rest) == Final(c, Apply(c, s, step), rest)
  {
    assert ([step] + rest)[0] == step && ([step] + rest)[1..] == rest;
  }

  lemma {:induction false} LastCallsRun(c: Config, s: State, i: nat, flushed: bool)
    requires Shaped(c, s) && Enabled(c, s, Flush(i))
    ensures Runs(c, s, LastCalls(i, flushed))
    ensures var t := Final(c, s, LastCalls(i, flushed));
            && t.history != [] && t.history[|t.history| - 1] == Entry(Some(s.phases[i].node), Some(i))
            && (flushed ==> t.durable == |t.history| - 1)
  {
    var s1 := Apply(c, s, Flush(i));
    var s2 := Moved(c, s1, i);
    var none: seq<Step> := [];
    RunsOne(c, s2, Return(i, flushed), none);
    RunsOne(c, s1, Rename(i), [Return(i, flushed)] + none);
    RunsOne(c, s, Flush(i), [Rename(i)] + ([Return(i, flushed)] + none));
  }

  lemma {:induction false} WholeWriteRuns(c: Config, s: State, i: nat, unused: Node, flushed: bool)
    requires Shaped(c, s) && Live(c, s, i) && s.phases[i].Idle? && Issued(c, s, i) < COUNTER_MODULUS
    requires unused !in s.contents
    ensures Runs(c, s, WholeWrite(c, i, unused, flushed))
    ensures var t := Final(c, s, WholeWrite(c, i, unused, flushed));
            && t.history != [] && t.history[|t.history| - 1].author == Some(i) && t.history[|t.history| - 1].node.Some?
            && (flushed ==> t.durable == |t.history| - 1)
  {
    var data, last := c.writers[i].data, LastCalls(i, flushed);
    var s1 := Take(c, s, i);
    var s2 := Opened(c, s1, i, unused);
    var s3 := Written(c, s2, i, |data|);
    LastCallsRun(c, s3, i, flushed);
    RunsOne(c, s2, Write(i, |data|), last);
    RunsOne(c, s1, Create(i, unused), [Write(i, |data|)] + last);
    RunsOne(c, s, TakeName(i), [Create(i, unused)] + ([Write(i, |data|)] + last));
  }

  /**
   * At any moment of any run, a live writer that has not begun can go through with its write: every call is possible in
   * turn, and then readers find its data, and with the directory flushed so does the machine after a crash.
   */
  lemma {:induction false} WriteCompletes(
    c: Config, start: State, before: seq<Step>, s: State, i: nat, unused: Node, flushed: bool, junk: Node -> Bytes)
    requires Initial(c, start) && Runs(c, start, before) && s == Final(c, start, before)
    requires Shaped(c, s) && Live(c, s, i) && s.phases[i].Idle? && Issued(c, s, i) < COUNTER_MODULUS
    requires unused !in s.contents
    ensures Runs(c, s, WholeWrite(c, i, unused, flushed))
    ensures var t := Final(c, s, WholeWrite(c, i, unused, flushed));
            && Seen(c, t) == Some(c.writers[i].data)
            && (flushed ==> t.durable + 1 == |t.history| && Recovered(t, t.durable, junk) == Some(c.writers[i].data))
  {
    var first := Seen(c, start);
    InitialInv(c, start);
    RunKeeps(c, start, before, first);
    WholeWriteRuns(c, s, i, unused, flushed);
    RunKeeps(c, s, WholeWrite(c, i, unused, flushed), first);
    var t := Final(c, s, WholeWrite(c, i, unused, flushed));
    assert Whole(c, t.contents, t.flushed, t.history[|t.history| - 1], first);
  }
}
