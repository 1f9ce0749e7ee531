/**
 The coalescing fsync barrier (`src/concurrency/writer_pipeline.rs`) and the commit around it
 (`WriteConnection::commit` in `src/concurrency/connection.rs`), as a state machine: any number of
 callers, each region under the mutex one atomic step, in any interleaving, with fsyncs that may fail
 and condvar waits that may wake for no reason.
 */
module GroupFsync {
  import opened Basics

  // ------------------------------------------------------------------ the shared state

  datatype Shared = Shared(nextTicket: nat, lastFsynced: nat, leaderActive: bool)

  const FRESH := Shared(1, 0, false)

  /** What a caller holding ticket `t` finds under the lock. */
  datatype Verdict = Covered | Wait | Lead(target: int)

  function Recheck(sh: Shared, t: nat): Verdict
  {
    if sh.lastFsynced >= t then Covered else if sh.leaderActive then Wait else Lead(sh.nextTicket - 1)
  }

  /** A caller's first region: the ticket it gets, whether that is covered already, and the counter advanced. */
  function Ticketing(sh: Shared): (nat, bool, Shared)
  {
    (sh.nextTicket, sh.lastFsynced >= sh.nextTicket, sh.(nextTicket := sh.nextTicket + 1))
  }

  function Released(sh: Shared, target: int, ok: bool): Shared
  {
    sh.(leaderActive := false, lastFsynced := if ok && target > sh.lastFsynced then target else sh.lastFsynced)
  }

  /** The mutex-guarded object: one method per locked region. */
  class Barrier {
    var nextTicket: nat
    var lastFsynced: nat
    var leaderActive: bool

    constructor ()
      ensures State() == FRESH
    {
      nextTicket, lastFsynced, leaderActive := 1, 0, false;
    }

    function State(): Shared
      reads this
    {
      Shared(nextTicket, lastFsynced, leaderActive)
    }

    /** Takes the next ticket; `covered` is the early exit. */
    method TakeTicket() returns (t: nat, covered: bool)
      modifies this
      ensures (t, covered, State()) == Ticketing(old(State()))
    {
      t := nextTicket;
      nextTicket := nextTicket + 1;
      covered := lastFsynced >= t;
    }

    /** One turn of the retry loop, up to where the lock is given up. */
    method Try(t: nat) returns (v: Verdict)
      modifies this
      ensures v == Recheck(old(State()), t)
      ensures State() == if v.Lead? then old(State()).(leaderActive := true) else old(State())
    {
      if lastFsynced >= t { return Covered; }
      if leaderActive { return Wait; }
      leaderActive := true;
      v := Lead(nextTicket - 1);
    }

    /** The leader's return under the lock. */
    method Release(target: int, ok: bool)
      modifies this
      ensures State() == Released(old(State()), target, ok)
    {
      leaderActive := false;
      if ok {
        lastFsynced := if target > lastFsynced then target else lastFsynced;
      }
    }
  }

  // ------------------------------------------------------------------ the callers

  datatype Pc =
    | Idle                                       // phase A not done
    | Written                                    // bytes in the page cache, no ticket yet
    | Trying                                     // about to take the lock in the retry loop
    | Parked                                     // waiting on the condvar
    | Leading(target: int)                       // promoted, closure not called yet
    | Syncing(target: int, covers: set<nat>)     // inside the closure, which started with these bytes written
    | Synced(target: int, ok: bool)              // closure returned
    | Notifying(ok: bool)                        // leadership released, waiters not yet notified
    | Returned(ok: bool)
    | Published

  /** `used`: the caller's closure was consumed; `rounds`: successful rounds finished since its ticket. */
  datatype Caller = Caller(pc: Pc, ticket: nat, used: bool, rounds: nat)

  datatype State = State(shared: Shared, callers: seq<Caller>, written: set<nat>, durable: set<nat>)

  function Start(n: nat): State
  {
    State(FRESH, seq(n, _ => Caller(Idle, 0, false, 0)), {}, {})
  }

  datatype Action =
    | WriteBytes(i: nat)
    | TakeTicket(i: nat)
    | Try(i: nat)
    | Wake(i: nat)
    | BeginSync(i: nat)
    | EndSync(i: nat, ok: bool)
    | Release(i: nat)
    | Notify(i: nat)
    | Publish(i: nat)

  predicate Leads(pc: Pc)
  {
    pc.Leading? || pc.Syncing? || pc.Synced?
  }

  predicate Enabled(s: State, a: Action)
  {
    && a.i < |s.callers|
    && var pc := s.callers[a.i].pc;
       match a
       case WriteBytes(_) => pc.Idle?
       case TakeTicket(_) => pc.Written?
       case Try(_) => pc.Trying?
       case Wake(_) => pc.Parked?
       case BeginSync(_) => pc.Leading?
       case EndSync(_, _) => pc.Syncing?
       case Release(_) => pc.Synced?
       case Notify(_) => pc.Notifying?
       case Publish(_) => pc == Returned(true)
  }

  function At(s: State, i: nat, pc: Pc): seq<Caller>
    requires i < |s.callers|
  {
    s.callers[i := s.callers[i].(pc := pc)]
  }

  /** One more successful round for every caller that holds a ticket. */
  function Counted(c: Caller, ok: bool): Caller
  {
    if ok && c.ticket > 0 then c.(rounds := c.rounds + 1) else c
  }

  function Woken(c: Caller): Caller
  {
    if c.pc.Parked? then c.(pc := Trying) else c
  }

  function Next(s: State, a: Action): State
    requires Enabled(s, a)
  {
    var c := s.callers[a.i];
    match a
    case WriteBytes(i) => s.(callers := At(s, i, Written), written := s.written + {i})
    case TakeTicket(i) =>
      var (t, covered, shared) := Ticketing(s.shared);
      s.(shared := shared, callers := s.callers[i := c.(pc := if covered then Returned(true) else Trying, ticket := t)])
    case Try(i) =>
      (match Recheck(s.shared, c.ticket)
       case Covered => s.(callers := At(s, i, Returned(true)))
       case Wait => s.(callers := At(s, i, Parked))
       case Lead(target) =>
         s.(shared := s.shared.(leaderActive := true),
             callers := s.callers[i := c.(pc := Leading(target), used := true)]))
    case Wake(i) => s.(callers := At(s, i, Trying))
    case BeginSync(i) => s.(callers := At(s, i, Syncing(c.pc.target, s.written)))
    case EndSync(i, ok) =>
      s.(callers := At(s, i, Synced(c.pc.target, ok)), durable := if ok then s.durable + c.pc.covers else s.durable)
    case Release(i) =>
      s.(shared := Released(s.shared, c.pc.target, c.pc.ok),
         callers := seq(|s.callers|, j requires 0 <= j < |s.callers| =>
           if j == i then Counted(c.(pc := Notifying(c.pc.ok)), c.pc.ok) else Counted(s.callers[j], c.pc.ok)))
    case Notify(i) =>
      s.(callers := seq(|s.callers|, j requires 0 <= j < |s.callers| =>
           if j == i then c.(pc := Returned(c.pc.ok)) else Woken(s.callers[j])))
    case Publish(i) => s.(callers := At(s, i, Published))
  }

  // ------------------------------------------------------------------ what every step keeps

  /** Callers that have taken their ticket. */
  predicate Ticketed(c: Caller)
  {
    !c.pc.Idle? && !c.pc.Written?
  }

  /** One caller against the shared state. */
  predicate CallerFits(s: State, i: nat, c: Caller)
  {
    && (!c.pc.Idle? ==> i in s.written)
    && (if Ticketed(c) then 1 <= c.ticket < s.shared.nextTicket else c.ticket == 0 && c.rounds == 0)
    && (c.pc.Idle? || c.pc.Written? || c.pc.Trying? || c.pc.Parked? ==> !c.used)
    && (Leads(c.pc) ==> s.shared.leaderActive && c.ticket <= c.pc.target < s.shared.nextTicket)
    && (1 <= c.ticket <= s.shared.lastFsynced ==> i in s.durable)
    && (c.pc == Notifying(true) || c.pc == Returned(true) || c.pc.Published? ==> i in s.durable)
    && (c.ticket > 0 && c.rounds >= 2 ==> c.ticket <= s.shared.lastFsynced)
  }

  /** One caller as leader against another whose ticket its target may cover. */
  predicate PairFits(s: State, i: nat, c: Caller, j: nat, d: Caller)
  {
    && (Leads(c.pc) && Leads(d.pc) ==> i == j)
    && (c.ticket > 0 && c.ticket == d.ticket ==> i == j)
    && (c.pc.Syncing? && 1 <= d.ticket <= c.pc.target ==> j in c.pc.covers)
    && (c.pc.Synced? && c.pc.ok && 1 <= d.ticket <= c.pc.target ==> j in s.durable)
    && (Leads(c.pc) && d.ticket > 0 && d.rounds >= 1 ==> d.ticket <= c.pc.target)
  }

  predicate Fits(s: State, i: nat, j: nat)
    requires i < |s.callers| && j < |s.callers|
  {
    CallerFits(s, i, s.callers[i]) && PairFits(s, i, s.callers[i], j, s.callers[j])
  }

  ghost predicate AllFit(s: State)
  {
    forall i: nat, j: nat :: i < |s.callers| && j < |s.callers| ==> Fits(s, i, j)
  }

  predicate IsLeader(s: State, i: nat)
  {
    i < |s.callers| && Leads(s.callers[i].pc)
  }

  predicate IsNotifying(s: State, i: nat)
  {
    i < |s.callers| && s.callers[i].pc.Notifying?
  }

  predicate IsParked(s: State, i: nat)
  {
    i < |s.callers| && s.callers[i].pc.Parked?
  }

  ghost predicate LeaderExists(s: State)
  {
    s.shared.leaderActive ==> exists i: nat :: IsLeader(s, i)
  }

  /** Nobody sleeps without a leader or a notification still to come. */
  ghost predicate NotStranded(s: State)
  {
    forall i: nat :: IsParked(s, i) && !s.shared.leaderActive ==> exists j: nat :: IsNotifying(s, j)
  }

  ghost predicate Inv(s: State)
  {
    s.shared.lastFsynced < s.shared.nextTicket && AllFit(s) && LeaderExists(s) && NotStranded(s)
  }

  lemma StartInv(n: nat)
    ensures Inv(Start(n))
  {
  }

  lemma NextLength(s: State, a: Action)
    requires Enabled(s, a)
    ensures |Next(s, a).callers| == |s.callers|
  {
  }

  lemma CallerFitsKept(s: State, a: Action, i: nat)
    requires s.shared.lastFsynced < s.shared.nextTicket && Enabled(s, a) && i < |s.callers|
    requires Fits(s, i, i) && Fits(s, a.i, i) && Fits(s, a.i, a.i)
    ensures |Next(s, a).callers| == |s.callers| && CallerFits(Next(s, a), i, Next(s, a).callers[i])
  {
    match a {
      case Release(_) =>
      case Notify(_) =>
      case _ =>
    }
  }

  lemma PairFitsKept(s: State, a: Action, i: nat, j: nat)
    requires s.shared.lastFsynced < s.shared.nextTicket && Enabled(s, a) && i < |s.callers| && j < |s.callers|
    requires Fits(s, i, j) && Fits(s, a.i, j) && Fits(s, i, a.i) && Fits(s, j, a.i) && Fits(s, a.i, a.i)
    ensures |Next(s, a).callers| == |s.callers|
    ensures PairFits(Next(s, a), i, Next(s, a).callers[i], j, Next(s, a).callers[j])
  {
    match a {
      case Release(_) =>
      case Notify(_) =>
      case _ =>
    }
  }

  lemma FitsKept(s: State, a: Action, i: nat, j: nat)
    requires s.shared.lastFsynced < s.shared.nextTicket && AllFit(s) && Enabled(s, a) && i < |s.callers|
             && j < |s.callers|
    ensures |Next(s, a).callers| == |s.callers| && Fits(Next(s, a), i, j)
  {
    assert Fits(s, i, i) && Fits(s, i, j) && Fits(s, a.i, i) && Fits(s, a.i, j) && Fits(s, i, a.i) && Fits(s, j, a.i)
      && Fits(s, a.i, a.i);
    CallerFitsKept(s, a, i);
    PairFitsKept(s, a, i, j);
    hide AllFit, Next, CallerFits, PairFits;
  }

  lemma LeaderKept(s: State, a: Action)
    requires LeaderExists(s) && AllFit(s) && Enabled(s, a)
    ensures LeaderExists(Next(s, a))
  {
    var t := Next(s, a);
    if t.shared.leaderActive {
      if a.Try? && t.callers[a.i].pc.Leading? {
        assert IsLeader(t, a.i);
      } else if !a.Release? {
        var i: nat :| IsLeader(s, i);
        assert Fits(s, i, a.i);
        assert IsLeader(t, i);
      }
    }
  }

  lemma NotStrandedKept(s: State, a: Action)
    requires NotStranded(s) && AllFit(s) && Enabled(s, a)
    ensures NotStranded(Next(s, a))
  {
    var t := Next(s, a);
    forall i: nat | IsParked(t, i) && !t.shared.leaderActive ensures exists j: nat :: IsNotifying(t, j) {
      if a.Release? {
        assert IsNotifying(t, a.i);
      } else {
        assert i < |s.callers|;
        if IsParked(s, i) {
          var j: nat :| IsNotifying(s, j);
          assert !a.Notify?;
          assert IsNotifying(t, j);
        }
      }
    }
  }

  lemma NextKeepsInv(s: State, a: Action)
    requires Inv(s) && Enabled(s, a)
    ensures Inv(Next(s, a))
  {
    LeaderKept(s, a);
    NotStrandedKept(s, a);
    assert Fits(s, a.i, a.i);
    assert Next(s, a).shared.lastFsynced < Next(s, a).shared.nextTicket;
    forall i: nat, j: nat | i < |Next(s, a).callers| && j < |Next(s, a).callers| ensures Fits(Next(s, a), i, j) {
      NextLength(s, a);
      FitsKept(s, a, i, j);
    }
    hide Next, Enabled, LeaderExists, NotStranded, Fits;
  }

  // ------------------------------------------------------------------ whole runs

  /** The state after a sequence of actions, if each was enabled in turn. */
  function Exec(n: nat, run: seq<Action>): (r: Option<State>)
    ensures r.Some? ==> |r.value.callers| == n
  {
    if run == [] then Some(Start(n))
    else
      var before := Exec(n, run[..|run| - 1]);
      if before.Some? && Enabled(before.value, run[|run| - 1]) then Some(Next(before.value, run[|run| - 1])) else None
  }

  lemma {:induction false} RunInv(n: nat, run: seq<Action>)
    requires Exec(n, run).Some?
    ensures Inv(Exec(n, run).value)
  {
    hide Inv, Next, Enabled;
    if run == [] {
      StartInv(n);
    } else {
      RunInv(n, run[..|run| - 1]);
      NextKeepsInv(Exec(n, run[..|run| - 1]).value, run[|run| - 1]);
    }
  }

  /** In every interleaving, a call that returned Ok has its bytes durable. */
  lemma OkMeansDurable(n: nat, run: seq<Action>, i: nat)
    requires Exec(n, run).Some? && i < n
    ensures var s := Exec(n, run).value; s.callers[i].pc == Returned(true) ==> i in s.durable
    ensures var s := Exec(n, run).value; s.callers[i].pc.Published? ==> i in s.durable
  {
    RunInv(n, run);
    assert Fits(Exec(n, run).value, i, i);
  }

  /** A commit reaches its publish phase only with its phase A bytes on disk. */
  lemma PublishesDurable(n: nat, run: seq<Action>, i: nat)
    requires Exec(n, run).Some? && Enabled(Exec(n, run).value, Publish(i))
    ensures i in Exec(n, run).value.written && i in Exec(n, run).value.durable
  {
    RunInv(n, run);
    assert Fits(Exec(n, run).value, i, i);
  }

  lemma AtMostOneLeader(n: nat, run: seq<Action>, i: nat, j: nat)
    requires Exec(n, run).Some? && IsLeader(Exec(n, run).value, i) && IsLeader(Exec(n, run).value, j)
    ensures i == j
  {
    RunInv(n, run);
    assert Fits(Exec(n, run).value, i, j);
  }

  /** Finished rounds never catch up with the next ticket, so the early exit is never taken. */
  lemma EarlyExitIsDead(n: nat, run: seq<Action>, i: nat)
    requires Exec(n, run).Some? && Enabled(Exec(n, run).value, TakeTicket(i))
    ensures Exec(n, run).value.shared.lastFsynced < Exec(n, run).value.shared.nextTicket
    ensures Next(Exec(n, run).value, TakeTicket(i)).callers[i].pc == Trying
  {
    RunInv(n, run);
  }

  /** Every ticket up to the counter of finished rounds is durable. */
  lemma CoveredTicketsDurable(n: nat, run: seq<Action>, i: nat)
    requires Exec(n, run).Some? && i < n
    ensures var s := Exec(n, run).value; 1 <= s.callers[i].ticket <= s.shared.lastFsynced ==> i in s.durable
  {
    RunInv(n, run);
    assert Fits(Exec(n, run).value, i, i);
  }

  /** Nobody is left sleeping: a parked caller has a leader or a notification ahead of it. */
  lemma NeverStranded(n: nat, run: seq<Action>, i: nat)
    requires Exec(n, run).Some? && IsParked(Exec(n, run).value, i)
    ensures exists j: nat :: IsLeader(Exec(n, run).value, j) || IsNotifying(Exec(n, run).value, j)
  {
    RunInv(n, run);
    var s := Exec(n, run).value;
    if s.shared.leaderActive {
      var j: nat :| IsLeader(s, j);
    } else {
      var j: nat :| IsNotifying(s, j);
    }
  }

  /** Two successful rounds after a caller took its ticket, its next look finds it covered. */
  lemma CoveredAfterTwoRounds(n: nat, run: seq<Action>, i: nat)
    requires Exec(n, run).Some? && i < n && Exec(n, run).value.callers[i].pc.Trying?
             && Exec(n, run).value.callers[i].rounds >= 2
    ensures Recheck(Exec(n, run).value.shared, Exec(n, run).value.callers[i].ticket) == Covered
  {
    RunInv(n, run);
    assert Fits(Exec(n, run).value, i, i);
  }

  // ------------------------------------------------------------------ what a call returns

  /** On its way to returning an error, or there. */
  predicate Failing(pc: Pc)
  {
    pc == Notifying(false) || pc == Returned(false) || (pc.Synced? && !pc.ok)
  }

  predicate Succeeding(pc: Pc)
  {
    pc == Notifying(true) || pc == Returned(true) || pc.Published? || (pc.Synced? && pc.ok)
  }

  lemma AnswerStep(s: State, a: Action, i: nat)
    requires Inv(s) && Enabled(s, a) && i < |s.callers|
    ensures |Next(s, a).callers| == |s.callers|
    ensures Failing(Next(s, a).callers[i].pc) <==> Failing(s.callers[i].pc) || a == EndSync(i, false)
    ensures Succeeding(s.callers[i].pc) || a == EndSync(i, true) ==> Succeeding(Next(s, a).callers[i].pc)
    ensures Succeeding(Next(s, a).callers[i].pc) && !Succeeding(s.callers[i].pc) && a != EndSync(i, true) ==>
              a == Try(i) && Recheck(s.shared, s.callers[i].ticket) == Covered
  {
    assert Fits(s, i, i);
    match a {
      case Release(_) =>
      case Notify(_) =>
      case _ =>
    }
  }

  /** A call fails exactly if its own fsync failed; one whose fsync succeeded returns success. */
  lemma {:induction false} AnswersAreOwn(n: nat, run: seq<Action>, i: nat)
    requires Exec(n, run).Some? && i < n
    ensures var pc := Exec(n, run).value.callers[i].pc;
            && (Failing(pc) <==> EndSync(i, false) in run)
            && (EndSync(i, true) in run ==> Succeeding(pc))
  {
    hide Inv, Next, Enabled, Failing, Succeeding;
    if run == [] {
      NothingAnswered(n, i);
    } else {
      var before, a := run[..|run| - 1], run[|run| - 1];
      AnswersAreOwn(n, before, i);
      RunInv(n, before);
      AnswerStep(Exec(n, before).value, a, i);
      assert run == before + [a];
    }
  }

  lemma NothingAnswered(n: nat, i: nat)
    requires i < n
    ensures !Failing(Start(n).callers[i].pc) && !Succeeding(Start(n).callers[i].pc)
  {
  }

  /** A finished call failed if and only if its own fsync did; while no fsync fails, every finished call published. */
  lemma FailsIffFsyncFailed(n: nat, run: seq<Action>, i: nat)
    requires Exec(n, run).Some? && i < n && Finished(Exec(n, run).value.callers[i].pc)
    ensures Exec(n, run).value.callers[i].pc == Returned(false) <==> EndSync(i, false) in run
    ensures (forall j: nat :: EndSync(j, false) !in run) ==> Exec(n, run).value.callers[i].pc == Published
  {
    AnswersAreOwn(n, run, i);
    hide Exec;
  }

  /** A caller that never led returns success only off a round that covered its ticket. */
  lemma CoveredReturnsOk(n: nat, run: seq<Action>, i: nat)
    requires Exec(n, run).Some? && Enabled(Exec(n, run).value, Try(i))
    ensures var s := Exec(n, run).value;
            Next(s, Try(i)).callers[i].pc == Returned(true) <==> 1 <= s.callers[i].ticket <= s.shared.lastFsynced
    ensures !Finished(Exec(n, run).value.callers[i].pc) && EndSync(i, false) !in run
  {
    RunInv(n, run);
    assert Fits(Exec(n, run).value, i, i);
    AnswersAreOwn(n, run, i);
    hide Exec, Inv;
  }

  // ------------------------------------------------------------------ each closure at most once

  /** How often caller `i` called its closure. */
  function Begun(run: seq<Action>, i: nat): nat
  {
    if run == [] then 0 else Begun(run[..|run| - 1], i) + (if run[|run| - 1] == BeginSync(i) then 1 else 0)
  }

  /** The slot is full whenever a caller can be promoted, and the closure runs at most once. */
  lemma {:induction false} ClosureOnce(n: nat, run: seq<Action>, i: nat)
    requires Exec(n, run).Some? && i < n
    ensures var c := Exec(n, run).value.callers[i];
            && Begun(run, i) == (if c.used && !c.pc.Leading? then 1 else 0)
            && (c.pc.Trying? ==> !c.used)
  {
    RunInv(n, run);
    assert Fits(Exec(n, run).value, i, i);
    if run != [] {
      var before := run[..|run| - 1];
      ClosureOnce(n, before, i);
      RunInv(n, before);
      var s, a := Exec(n, before).value, run[|run| - 1];
      assert Fits(s, i, i) && Fits(s, a.i, a.i);
      LeadersUsed(n, before, i);
      hide Inv, CallerFits, PairFits;
      BegunStep(s, a, i);
    }
  }

  lemma BegunStep(s: State, a: Action, i: nat)
    requires Enabled(s, a) && i < |s.callers| && (Leads(s.callers[i].pc) ==> s.callers[i].used)
    requires s.callers[i].pc.Trying? ==> !s.callers[i].used
    ensures |Next(s, a).callers| == |s.callers|
    ensures var c, d := s.callers[i], Next(s, a).callers[i];
            (if d.used && !d.pc.Leading? then 1 else 0) ==
            (if c.used && !c.pc.Leading? then 1 else 0) + (if a == BeginSync(i) then 1 else 0)
  {
  }

  lemma {:induction false} LeadersUsed(n: nat, run: seq<Action>, i: nat)
    requires Exec(n, run).Some? && i < n
    ensures Leads(Exec(n, run).value.callers[i].pc) ==> Exec(n, run).value.callers[i].used
  {
    if run != [] {
      LeadersUsed(n, run[..|run| - 1], i);
    }
  }

  function Rounds(run: seq<Action>): nat
  {
    if run == [] then 0 else Rounds(run[..|run| - 1]) + (if run[|run| - 1].BeginSync? then 1 else 0)
  }

  /** Callers below `m` that called their closure. */
  function Callers(run: seq<Action>, m: nat): nat
  {
    if m == 0 then 0 else Callers(run, m - 1) + Begun(run, m - 1)
  }

  lemma {:induction false} CallersStep(run: seq<Action>, m: nat)
    requires run != []
    ensures var a := run[|run| - 1];
            Callers(run, m) == Callers(run[..|run| - 1], m) + (if a.BeginSync? && a.i < m then 1 else 0)
  {
    if m > 0 { CallersStep(run, m - 1); }
  }

  lemma {:induction false} CallersNone(m: nat)
    ensures Callers([], m) == 0
  {
    if m > 0 { CallersNone(m - 1); }
  }

  lemma {:induction false} RoundsAreCallers(n: nat, run: seq<Action>)
    requires Exec(n, run).Some?
    ensures Rounds(run) == Callers(run, n)
  {
    if run == [] {
      CallersNone(n);
    } else {
      RoundsAreCallers(n, run[..|run| - 1]);
      CallersStep(run, n);
    }
  }

  lemma {:induction false} CallersBounded(n: nat, run: seq<Action>, m: nat)
    requires Exec(n, run).Some? && m <= n
    ensures Callers(run, m) <= m
  {
    if m > 0 {
      CallersBounded(n, run, m - 1);
      ClosureOnce(n, run, m - 1);
    }
  }

  /** The device is never asked more often than there are callers. */
  lemma RoundsBounded(n: nat, run: seq<Action>)
    requires Exec(n, run).Some?
    ensures Rounds(run) <= n
  {
    RoundsAreCallers(n, run);
    CallersBounded(n, run, n);
  }

  // ------------------------------------------------------------------ every call returns

  predicate Finished(pc: Pc)
  {
    pc == Returned(false) || pc.Published?
  }

  /** Until every call is finished, some step other than a spurious wake-up is possible. */
  lemma NeverStuck(n: nat, run: seq<Action>, i: nat) returns (a: Action)
    requires Exec(n, run).Some? && i < n && !Finished(Exec(n, run).value.callers[i].pc)
    ensures !a.Wake? && Enabled(Exec(n, run).value, a)
  {
    var s := Exec(n, run).value;
    var j := i;
    if s.callers[i].pc.Parked? {
      assert IsParked(s, i);
      NeverStranded(n, run, i);
      j :| IsLeader(s, j) || IsNotifying(s, j);
    }
    match s.callers[j].pc {
      case Idle => a := WriteBytes(j);
      case Written => a := TakeTicket(j);
      case Trying => a := Try(j);
      case Leading(_) => a := BeginSync(j);
      case Syncing(_, _) => a := EndSync(j, true);
      case Synced(_, _) => a := Release(j);
      case Notifying(_) => a := Notify(j);
      case Returned(_) => a := Publish(j);
    }
  }

  /** How much a caller has still to do; `w` outweighs everyone it may wake. */
  function Weight(pc: Pc, w: nat): nat
    requires w >= 3
  {
    match pc
    case Idle => w + 6
    case Written => w + 5
    case Trying => w + 4
    case Parked => w + 3
    case Leading(_) => w + 2
    case Syncing(_, _) => w + 1
    case Synced(_, _) => w
    case Notifying(_) => w - 1
    case Returned(_) => 1
    case Published => 0
  }

  function Total(callers: seq<Caller>, w: nat): nat
    requires w >= 3
  {
    if callers == [] then 0 else Total(callers[..|callers| - 1], w) + Weight(callers[|callers| - 1].pc, w)
  }

  /** The weights of two lists differ as much as their entries do. */
  lemma {:induction false} TotalsApart(before: seq<Caller>, after: seq<Caller>, w: nat, i: nat)
    requires |before| == |after| && w >= 3 && i < |before|
    requires forall j :: 0 <= j < |before| && j != i ==> Weight(after[j].pc, w) <= Weight(before[j].pc, w) + 1
    ensures Total(after, w) + Weight(before[i].pc, w) <= Total(before, w) + Weight(after[i].pc, w) + |before| - 1
    ensures (forall j :: 0 <= j < |before| && j != i ==> after[j].pc == before[j].pc) ==>
              Total(after, w) + Weight(before[i].pc, w) == Total(before, w) + Weight(after[i].pc, w)
  {
    var n := |before| - 1;
    if i < n {
      TotalsApart(before[..n], after[..n], w, i);
    } else {
      TotalsClose(before[..n], after[..n], w);
    }
  }

  lemma {:induction false} TotalsClose(before: seq<Caller>, after: seq<Caller>, w: nat)
    requires |before| == |after| && w >= 3
    requires forall j :: 0 <= j < |before| ==> Weight(after[j].pc, w) <= Weight(before[j].pc, w) + 1
    ensures Total(after, w) <= Total(before, w) + |before|
    ensures (forall j :: 0 <= j < |before| ==> after[j].pc == before[j].pc) ==> Total(after, w) == Total(before, w)
  {
    if before != [] {
      TotalsClose(before[..|before| - 1], after[..|before| - 1], w);
    }
  }

  lemma OthersClose(s: State, a: Action, j: nat, w: nat)
    requires Enabled(s, a) && j < |s.callers| && j != a.i && w >= 3
    ensures |Next(s, a).callers| == |s.callers|
    ensures Weight(Next(s, a).callers[j].pc, w) <= Weight(s.callers[j].pc, w) + 1
    ensures !a.Notify? ==> Next(s, a).callers[j].pc == s.callers[j].pc
  {
  }

  lemma OwnShrinks(s: State, a: Action, w: nat)
    requires Enabled(s, a) && w >= 3
    ensures |Next(s, a).callers| == |s.callers|
    ensures var before, after := Weight(s.callers[a.i].pc, w), Weight(Next(s, a).callers[a.i].pc, w);
            after + (if a.Notify? then w - 2 else 1) <= before + (if a.Wake? then 2 else 0)
  {
  }

  /** Every step but a spurious wake-up leaves less to do; that one adds a single unit. */
  lemma StepShrinks(s: State, a: Action)
    requires Enabled(s, a)
    ensures var w := |s.callers| + 3;
            Total(Next(s, a).callers, w) + 1 <= Total(s.callers, w) + (if a.Wake? then 2 else 0)
  {
    var w, t := |s.callers| + 3, Next(s, a);
    OwnShrinks(s, a, w);
    assert a.i < |s.callers|;
    hide Next, Enabled, Weight, Total;
    forall j | 0 <= j < |s.callers| && j != a.i
      ensures Weight(t.callers[j].pc, w) <= Weight(s.callers[j].pc, w) + 1
              && (!a.Notify? ==> t.callers[j].pc == s.callers[j].pc)
    {
      OthersClose(s, a, j, w);
    }
    TotalsApart(s.callers, t.callers, w, a.i);
  }

  function Wakes(run: seq<Action>): nat
  {
    if run == [] then 0 else Wakes(run[..|run| - 1]) + (if run[|run| - 1].Wake? then 1 else 0)
  }

  lemma {:induction false} StartTotal(n: nat, m: nat, w: nat)
    requires m <= n && w >= 3
    ensures Total(Start(n).callers[..m], w) == m * (w + 6)
  {
    if m > 0 {
      StartTotal(n, m - 1, w);
      assert Start(n).callers[..m][..m - 1] == Start(n).callers[..m - 1];
    }
  }

  /** Every run is bounded: with `NeverStuck`, each of the `n` calls returns, successful fsync or not. */
  lemma {:induction false} RunsAreBounded(n: nat, run: seq<Action>)
    requires Exec(n, run).Some?
    ensures |run| + Total(Exec(n, run).value.callers, n + 3) <= n * (n + 9) + 2 * Wakes(run)
  {
    hide Next, Enabled, Total;
    if run == [] {
      StartTotal(n, n, n + 3);
      assert Start(n).callers[..n] == Start(n).callers;
    } else {
      RunsAreBounded(n, run[..|run| - 1]);
      StepShrinks(Exec(n, run[..|run| - 1]).value, run[|run| - 1]);
    }
  }
}
