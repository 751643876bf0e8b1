/** The listener's sliding acceptance window (`crates/synch-cli/src/connect.rs`), over whole runs of its clock. */
module AcceptRate {
  import opened Bytes

  const MAX_ACCEPTS := 64
  const MAX_ACCEPTS_PER_IP := 8

  /** An admission, or an attempt at one: instants are nanoseconds of the monotonic clock. */
  datatype Arrival<Ip> = Arrival(at: nat, ip: Ip)

  /** `Instant::duration_since`, zero for an instant still to come. */
  function Elapsed(now: nat, at: nat): nat {
    if now >= at then now - at else 0
  }

  // ----- counting admissions -----

  /** Within the window that begins at `lo` and, when an address is given, from it. */
  predicate Matches<Ip(==)>(a: Arrival<Ip>, lo: int, window: nat, who: Option<Ip>) {
    lo <= a.at < lo + window && (who.Some? ==> a.ip == who.value)
  }

  function Count<Ip(==)>(log: seq<Arrival<Ip>>, lo: int, window: nat, who: Option<Ip>): (n: nat)
    ensures n <= |log|
  {
    if log == [] then 0
    else
      Count(log[..|log| - 1], lo, window, who) + if Matches(log[|log| - 1], lo, window, who) then 1 else 0
  }

  lemma {:induction false} CountAppend<Ip>(log: seq<Arrival<Ip>>, a: Arrival<Ip>, lo: int, window: nat, who: Option<Ip>)
    ensures Count(log + [a], lo, window, who)
         == Count(log, lo, window, who) + if Matches(a, lo, window, who) then 1 else 0
  {
    assert (log + [a])[..|log|] == log;
  }

  /** Admissions that do not match may be dropped from the front. */
  lemma {:induction false} CountSuffix<Ip>(log: seq<Arrival<Ip>>, k: nat, lo: int, window: nat, who: Option<Ip>)
    requires k <= |log| && forall i :: 0 <= i < k ==> !Matches(log[i], lo, window, who)
    ensures Count(log, lo, window, who) == Count(log[k..], lo, window, who)
  {
    if k < |log| {
      var front := log[..|log| - 1];
      CountSuffix(front, k, lo, window, who);
      assert log[k..][..|log| - k - 1] == front[k..];
    } else if k > 0 {
      var front := log[..|log| - 1];
      CountSuffix(front, k - 1, lo, window, who);
      assert front[k - 1..] == [] && log[k..] == [];
    }
  }

  lemma {:induction false} CountAll<Ip>(log: seq<Arrival<Ip>>, lo: int, window: nat)
    requires forall i :: 0 <= i < |log| ==> lo <= log[i].at < lo + window
    ensures Count(log, lo, window, None) == |log|
  {
    if log != [] {
      CountAll(log[..|log| - 1], lo, window);
    }
  }

  // ----- one call -----

  /** How far the front of the queue, from index `k`, is a window old. */
  function Stale<Ip>(window: nat, recent: seq<Arrival<Ip>>, now: nat, k: nat): (d: nat)
    requires k <= |recent|
    ensures k <= d <= |recent|
    ensures forall i :: k <= i < d ==> Elapsed(now, recent[i].at) >= window
    ensures d < |recent| ==> Elapsed(now, recent[d].at) < window
    decreases |recent| - k
  {
    if k < |recent| && Elapsed(now, recent[k].at) >= window then Stale(window, recent, now, k + 1) else k
  }

  /** The queue without the admissions at its front that are a window old. */
  function Expire<Ip>(window: nat, recent: seq<Arrival<Ip>>, now: nat): seq<Arrival<Ip>> {
    recent[Stale(window, recent, now, 0)..]
  }

  function From<Ip(==)>(recent: seq<Arrival<Ip>>, ip: Ip): nat {
    if recent == [] then 0 else From(recent[..|recent| - 1], ip) + if recent[|recent| - 1].ip == ip then 1 else 0
  }

  predicate Admits<Ip(==)>(window: nat, recent: seq<Arrival<Ip>>, now: nat, ip: Ip) {
    var live := Expire(window, recent, now);
    |live| < MAX_ACCEPTS && From(live, ip) < MAX_ACCEPTS_PER_IP
  }

  function After<Ip(==)>(window: nat, recent: seq<Arrival<Ip>>, now: nat, ip: Ip): seq<Arrival<Ip>> {
    Expire(window, recent, now) + if Admits(window, recent, now, ip) then [Arrival(now, ip)] else []
  }

  // ----- what every call keeps -----

  ghost predicate Ordered<Ip>(log: seq<Arrival<Ip>>) {
    forall i, j :: 0 <= i < j < |log| ==> log[i].at <= log[j].at
  }

  /** No half-open interval one window long holds more than either budget. */
  ghost predicate WithinBudget<Ip(!new)>(window: nat, log: seq<Arrival<Ip>>) {
    && (forall lo: int :: Count(log, lo, window, None) <= MAX_ACCEPTS)
    && (forall lo: int, ip: Ip :: Count(log, lo, window, Some(ip)) <= MAX_ACCEPTS_PER_IP)
  }

  /** The queue is the end of the log of all admissions, and what it lost is a window old. */
  ghost predicate Tracks<Ip>(window: nat, log: seq<Arrival<Ip>>, recent: seq<Arrival<Ip>>, clock: nat) {
    && Ordered(log)
    && (forall i :: 0 <= i < |log| ==> log[i].at <= clock)
    && |recent| <= |log|
    && recent == log[|log| - |recent|..]
    && (forall i :: 0 <= i < |log| - |recent| ==> log[i].at + window <= clock)
  }

  lemma {:induction false} StaleSplits<Ip>(window: nat, log: seq<Arrival<Ip>>, k: nat, clock: nat, now: nat)
    requires Ordered(log) && (forall i :: 0 <= i < |log| ==> log[i].at <= clock) && clock <= now
    requires k <= |log| && forall i :: 0 <= i < k ==> log[i].at + window <= clock
    ensures var d := k + Stale(window, log[k..], now, 0);
            d <= |log| && forall i :: 0 <= i < |log| ==> (i < d <==> log[i].at + window <= now)
  {
    var recent := log[k..];
    var d := k + Stale(window, recent, now, 0);
    forall i | 0 <= i < |log|
      ensures i < d <==> log[i].at + window <= now
    {
      if k <= i < d {
        assert recent[i - k] == log[i];
      } else if d <= i {
        assert recent[d - k] == log[d];
        assert log[d].at <= log[i].at;
      }
    }
  }

  /** Expiry keeps the queue true to the log, and leaves exactly the admissions less than a window old. */
  lemma {:induction false} ExpireTracks<Ip>(window: nat, log: seq<Arrival<Ip>>, recent: seq<Arrival<Ip>>, clock: nat,
                                            now: nat)
    requires Tracks(window, log, recent, clock) && clock <= now
    ensures var live := Expire(window, recent, now);
            Tracks(window, log, live, now) && forall i :: 0 <= i < |live| ==> live[i].at + window > now
  {
    var k := |log| - |recent|;
    StaleSplits(window, log, k, clock, now);
    Shifted(log, k, Stale(window, recent, now, 0));
  }

  lemma {:induction false} Shifted<T>(s: seq<T>, k: nat, d: nat)
    requires k + d <= |s|
    ensures s[k..][d..] == s[k + d..]
  {
  }

  lemma {:induction false} FromCounts<Ip>(live: seq<Arrival<Ip>>, lo: int, window: nat, ip: Ip)
    requires forall i :: 0 <= i < |live| ==> lo <= live[i].at < lo + window
    ensures From(live, ip) == Count(live, lo, window, Some(ip))
  {
    if live != [] {
      FromCounts(live[..|live| - 1], lo, window, ip);
    }
  }

  /** Neither budget is full over the window that ends now. */
  predicate HasRoom<Ip(==)>(window: nat, log: seq<Arrival<Ip>>, now: nat, ip: Ip) {
    && Count(log, now - window + 1, window, None) < MAX_ACCEPTS
    && Count(log, now - window + 1, window, Some(ip)) < MAX_ACCEPTS_PER_IP
  }

  /** A call is refused exactly when one of the budgets of the window that ends now is full. */
  lemma {:induction false} RefusedWhenFull<Ip>(
      window: nat, log: seq<Arrival<Ip>>, recent: seq<Arrival<Ip>>, clock: nat, now: nat, ip: Ip)
    requires Tracks(window, log, recent, clock) && clock <= now
    ensures Admits(window, recent, now, ip) <==> HasRoom(window, log, now, ip)
  {
    var live := Expire(window, recent, now);
    ExpireTracks(window, log, recent, clock, now);
    LiveCounts(window, log, live, now, ip);
  }

  lemma {:induction false} LiveCounts<Ip>(window: nat, log: seq<Arrival<Ip>>, live: seq<Arrival<Ip>>, now: nat, ip: Ip)
    requires Tracks(window, log, live, now) && forall i :: 0 <= i < |live| ==> live[i].at + window > now
    ensures Count(log, now - window + 1, window, None) == |live|
    ensures Count(log, now - window + 1, window, Some(ip)) == From(live, ip)
  {
    var k, lo := |log| - |live|, now - window + 1;
    assert forall i :: 0 <= i < |live| ==> live[i] == log[k + i];
    CountSuffix(log, k, lo, window, None);
    CountSuffix(log, k, lo, window, Some(ip));
    CountAll(live, lo, window);
    FromCounts(live, lo, window, ip);
  }

  /** What the queue holds bounds what any window-long interval reaching `now` holds. */
  lemma {:induction false} LiveBounds<Ip>(window: nat, log: seq<Arrival<Ip>>, live: seq<Arrival<Ip>>, now: nat,
                                          lo: int, who: Option<Ip>)
    requires Tracks(window, log, live, now) && lo <= now < lo + window
    ensures Count(log, lo, window, who) <= match who case None => |live| case Some(ip) => From(live, ip)
  {
    var k := |log| - |live|;
    CountSuffix(log, k, lo, window, who);
    if who.Some? {
      CountAtMostFrom(live, lo, window, who.value);
    }
  }

  lemma {:induction false} CountAtMostFrom<Ip>(live: seq<Arrival<Ip>>, lo: int, window: nat, ip: Ip)
    ensures Count(live, lo, window, Some(ip)) <= From(live, ip)
  {
    if live != [] {
      CountAtMostFrom(live[..|live| - 1], lo, window, ip);
    }
  }

  lemma {:induction false} AdmissionWithinBudget<Ip(!new)>(
      window: nat, log: seq<Arrival<Ip>>, recent: seq<Arrival<Ip>>, clock: nat, now: nat, ip: Ip)
    requires Tracks(window, log, recent, clock) && clock <= now
    requires WithinBudget(window, log) && Admits(window, recent, now, ip)
    ensures WithinBudget(window, log + [Arrival(now, ip)])
  {
    var a, live := Arrival(now, ip), Expire(window, recent, now);
    ExpireTracks(window, log, recent, clock, now);
    forall lo: int
      ensures Count(log + [a], lo, window, None) <= MAX_ACCEPTS
    {
      CountAppend(log, a, lo, window, None);
      if Matches(a, lo, window, None) {
        LiveBounds(window, log, live, now, lo, None);
      }
    }
    forall lo: int, who: Ip
      ensures Count(log + [a], lo, window, Some(who)) <= MAX_ACCEPTS_PER_IP
    {
      CountAppend(log, a, lo, window, Some(who));
      if Matches(a, lo, window, Some(who)) {
        LiveBounds(window, log, live, now, lo, Some(who));
      }
    }
  }

  lemma {:induction false} AfterTracks<Ip>(
      window: nat, log: seq<Arrival<Ip>>, recent: seq<Arrival<Ip>>, clock: nat, now: nat, ip: Ip)
    requires Tracks(window, log, recent, clock) && clock <= now
    ensures var log' := if Admits(window, recent, now, ip) then log + [Arrival(now, ip)] else log;
            Tracks(window, log', After(window, recent, now, ip), now)
  {
    var live := Expire(window, recent, now);
    ExpireTracks(window, log, recent, clock, now);
    PushTracks(window, log, live, now, ip);
    assert live + [] == live;
  }

  lemma {:induction false} PushTracks<Ip>(window: nat, log: seq<Arrival<Ip>>, live: seq<Arrival<Ip>>, now: nat, ip: Ip)
    requires Tracks(window, log, live, now)
    ensures Tracks(window, log + [Arrival(now, ip)], live + [Arrival(now, ip)], now)
  {
  }

  ghost predicate Sound<Ip(!new)>(window: nat, log: seq<Arrival<Ip>>, recent: seq<Arrival<Ip>>, clock: nat) {
    Tracks(window, log, recent, clock) && WithinBudget(window, log)
  }

  lemma {:induction false} AdmitKeeps<Ip(!new)>(
      window: nat, log: seq<Arrival<Ip>>, recent: seq<Arrival<Ip>>, clock: nat, now: nat, ip: Ip)
    requires Sound(window, log, recent, clock) && clock <= now
    ensures Admits(window, recent, now, ip) <==> HasRoom(window, log, now, ip)
    ensures Sound(window, if Admits(window, recent, now, ip) then log + [Arrival(now, ip)] else log,
                  After(window, recent, now, ip), now)
  {
    RefusedWhenFull(window, log, recent, clock, now, ip);
    AfterTracks(window, log, recent, clock, now, ip);
    if Admits(window, recent, now, ip) {
      AdmissionWithinBudget(window, log, recent, clock, now, ip);
    }
  }

  // ----- whole runs -----

  /** The clock never goes back. */
  ghost predicate Forward<Ip>(attempts: seq<Arrival<Ip>>) {
    Ordered(attempts)
  }

  function QueueAfter<Ip(==)>(window: nat, attempts: seq<Arrival<Ip>>): seq<Arrival<Ip>> {
    if attempts == [] then []
    else
      var last := attempts[|attempts| - 1];
      After(window, QueueAfter(window, attempts[..|attempts| - 1]), last.at, last.ip)
  }

  /** Every attempt that was let in, in order. */
  function Admitted<Ip(==)>(window: nat, attempts: seq<Arrival<Ip>>): seq<Arrival<Ip>> {
    if attempts == [] then []
    else
      var front, last := attempts[..|attempts| - 1], attempts[|attempts| - 1];
      Admitted(window, front) + if Admits(window, QueueAfter(window, front), last.at, last.ip) then [last] else []
  }

  /** Over every run, no interval one window long admits more than either budget. */
  lemma {:induction false} RunWithinBudget<Ip(!new)>(window: nat, attempts: seq<Arrival<Ip>>)
    requires Forward(attempts)
    ensures Sound(window, Admitted(window, attempts), QueueAfter(window, attempts),
                  if attempts == [] then 0 else attempts[|attempts| - 1].at)
  {
    if attempts != [] {
      var front, last := attempts[..|attempts| - 1], attempts[|attempts| - 1];
      var log, recent := Admitted(window, front), QueueAfter(window, front);
      var now, ip := last.at, last.ip;
      assert Admitted(window, attempts)
             == (if Admits(window, recent, now, ip) then log + [Arrival(now, ip)] else log) by {
        assert log + [] == log && Arrival(now, ip) == last;
      }
      assert QueueAfter(window, attempts) == After(window, recent, now, ip);
      RunWithinBudget(window, front);
      AdmitKeeps(window, log, recent, if front == [] then 0 else front[|front| - 1].at, now, ip);
    }
  }

  /** In every run, an attempt is turned away only when the run so far really filled a budget. */
  lemma {:induction false} RunRefusesWhenFull<Ip(!new)>(window: nat, attempts: seq<Arrival<Ip>>)
    requires Forward(attempts) && attempts != []
    ensures var front, last := attempts[..|attempts| - 1], attempts[|attempts| - 1];
            var log := Admitted(window, front);
            Admitted(window, attempts) == if HasRoom(window, log, last.at, last.ip) then log + [last] else log
  {
    var front, last := attempts[..|attempts| - 1], attempts[|attempts| - 1];
    var clock := if front == [] then 0 else front[|front| - 1].at;
    RunWithinBudget(window, front);
    RefusedWhenFull(window, Admitted(window, front), QueueAfter(window, front), clock, last.at, last.ip);
  }

  // ----- the object -----

  class Window<Ip(==,!new)> {
    const window: nat
    var recent: seq<Arrival<Ip>>
    ghost var log: seq<Arrival<Ip>>
    ghost var clock: nat

    ghost predicate Valid()
      reads this
    {
      Sound(window, log, recent, clock)
    }

    constructor (window: nat)
      ensures Valid() && this.window == window && recent == [] && log == [] && clock == 0
    {
      this.window := window;
      recent := [];
      log := [];
      clock := 0;
    }

    method DropStale(now: nat)
      modifies this`recent
      ensures recent == Expire(window, old(recent), now)
    {
      ghost var was, k := recent, 0;
      while recent != [] && Elapsed(now, recent[0].at) >= window
        invariant k <= |was| && recent == was[k..]
        invariant Stale(window, was, now, 0) == Stale(window, was, now, k)
        decreases |recent|
      {
        recent := recent[1..];
        k := k + 1;
      }
    }

    method Admit(now: nat, ip: Ip) returns (ok: bool)
      requires Valid() && clock <= now
      modifies this
      ensures Valid() && clock == now
      ensures recent == After(window, old(recent), now, ip)
      ensures log == if ok then old(log) + [Arrival(now, ip)] else old(log)
      ensures ok <==> HasRoom(window, old(log), now, ip)
    {
      AdmitKeeps(window, log, recent, clock, now, ip);
      DropStale(now);
      clock := now;
      if |recent| >= MAX_ACCEPTS {
        return false;
      }
      if From(recent, ip) >= MAX_ACCEPTS_PER_IP {
        return false;
      }
      recent := recent + [Arrival(now, ip)];
      log := log + [Arrival(now, ip)];
      ok := true;
    }
  }
}
