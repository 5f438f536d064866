/**
 The verification queue: one master adds checks and then waits, any number of workers take
 them in batches.  Each step below is what one thread does while it holds the mutex (or, for
 Work, outside it); a run is any interleaving of steps, with spurious wake-ups.
 */
module CheckQueue {

  type Check = nat

  /** Where a thread is.  A batch is reported in the critical section after the one that took it. */
  datatype Thread =
    | Outside                                // the master between two calls of Wait
    | Entering                               // about to lock the mutex for the first time
    | Locked                                 // holds the mutex, with nothing of its own to report
    | Asleep(notified: bool)
    | Running(batch: seq<Check>, ok: bool)   // ok is what fAllOk was when the batch was taken
    | Finished(batch: seq<Check>, ok: bool)
    | Gone

  const MASTER := 0

  datatype State = State(
    queue: seq<Check>,
    nIdle: int,
    nTotal: int,
    fAllOk: bool,
    nTodo: int,
    fQuit: bool,
    nBatchSize: nat,
    threads: seq<Thread>,
    // history: the checks added and reported since the last Wait returned, and every result of Wait
    added: multiset<Check>,
    done: multiset<Check>,
    waits: seq<(bool, multiset<Check>)>)

  // ----- Totals over the threads -----

  function Batch(t: Thread): seq<Check> {
    if t.Running? || t.Finished? then t.batch else []
  }

  ghost function InFlight(ts: seq<Thread>): multiset<Check> {
    if ts == [] then multiset{} else multiset(Batch(ts[0])) + InFlight(ts[1..])
  }

  ghost function Count(ts: seq<Thread>, p: Thread -> bool): nat {
    if ts == [] then 0 else (if p(ts[0]) then 1 else 0) + Count(ts[1..], p)
  }

  lemma {:induction false} InFlightUpdate(ts: seq<Thread>, i: nat, t: Thread)
    requires i < |ts|
    ensures InFlight(ts[i := t]) + multiset(Batch(ts[i])) == InFlight(ts) + multiset(Batch(t))
  {
    if i == 0 {
      assert ts[i := t][1..] == ts[1..];
    } else {
      assert ts[i := t][1..] == ts[1..][i - 1 := t];
      InFlightUpdate(ts[1..], i - 1, t);
      var first, rest, rest' := multiset(Batch(ts[0])), InFlight(ts[1..]), InFlight(ts[1..][i - 1 := t]);
      assert first + rest' + multiset(Batch(ts[i])) == first + (rest' + multiset(Batch(ts[i])));
      assert first + rest + multiset(Batch(t)) == first + (rest + multiset(Batch(t)));
    }
  }

  lemma {:induction false} CountUpdate(ts: seq<Thread>, i: nat, t: Thread, p: Thread -> bool)
    requires i < |ts|
    ensures Count(ts[i := t], p) + (if p(ts[i]) then 1 else 0) == Count(ts, p) + (if p(t) then 1 else 0)
  {
    if i == 0 {
      assert ts[i := t][1..] == ts[1..];
    } else {
      assert ts[i := t][1..] == ts[1..][i - 1 := t];
      CountUpdate(ts[1..], i - 1, t, p);
    }
  }

  lemma Exchanged(m: multiset<Check>, m': multiset<Check>, a: multiset<Check>, b: multiset<Check>)
    requires m' + a == m + b
    ensures a == b ==> m' == m
    ensures b == multiset{} ==> m == m' + a
    ensures a == multiset{} ==> m' == m + b
    ensures |m'| + |a| == |m| + |b|
  {
    assert |m' + a| == |m + b|;
    assert m' == m' + a - a && m == m + b - b;
  }

  /** One thread moves on: what that does to every total. */
  lemma Moved(ts: seq<Thread>, i: nat, t: Thread)
    requires i < |ts|
    ensures Batch(t) == Batch(ts[i]) ==> InFlight(ts[i := t]) == InFlight(ts)
    ensures Batch(t) == [] ==> InFlight(ts) == InFlight(ts[i := t]) + multiset(Batch(ts[i]))
    ensures Batch(ts[i]) == [] ==> InFlight(ts[i := t]) == InFlight(ts) + multiset(Batch(t))
    ensures |InFlight(ts[i := t])| + |Batch(ts[i])| == |InFlight(ts)| + |Batch(t)|
    ensures Count(ts[i := t], IsAsleep) + (if IsAsleep(ts[i]) then 1 else 0) == Count(ts, IsAsleep) + (if IsAsleep(t) then 1 else 0)
    ensures Count(ts[i := t], InLoop) + (if InLoop(ts[i]) then 1 else 0) == Count(ts, InLoop) + (if InLoop(t) then 1 else 0)
  {
    InFlightUpdate(ts, i, t);
    Exchanged(InFlight(ts), InFlight(ts[i := t]), multiset(Batch(ts[i])), multiset(Batch(t)));
    CountUpdate(ts, i, t, IsAsleep);
    CountUpdate(ts, i, t, InLoop);
  }

  lemma Regroup(q: multiset<Check>, m: multiset<Check>, b: multiset<Check>, d: multiset<Check>)
    ensures q + m + (d + b) == q + (m + b) + d
    ensures q + (m + b) + d == q + b + m + d
  {
  }

  /** A thread's batch is part of what is in flight. */
  lemma {:induction false} BatchInFlight(ts: seq<Thread>, i: nat)
    requires i < |ts|
    ensures multiset(Batch(ts[i])) <= InFlight(ts)
  {
    if i > 0 {
      BatchInFlight(ts[1..], i - 1);
    }
  }

  lemma {:induction false} InFlightSome(ts: seq<Thread>)
    requires InFlight(ts) != multiset{}
    ensures exists i :: 0 <= i < |ts| && Batch(ts[i]) != []
  {
    if Batch(ts[0]) == [] {
      InFlightSome(ts[1..]);
      var i :| 0 <= i < |ts[1..]| && Batch(ts[1..][i]) != [];
      assert Batch(ts[i + 1]) != [];
    }
  }

  // ----- The steps -----

  function AllPass(cs: seq<Check>, passes: Check -> bool): bool {
    forall i | 0 <= i < |cs| :: passes(cs[i])
  }

  predicate AllPassBag(cs: multiset<Check>, passes: Check -> bool) {
    forall c | c in cs :: passes(c)
  }

  function Min(a: int, b: int): int { if a < b then a else b }

  function Max(a: int, b: int): int { if a < b then b else a }

  /** How many checks to take: at least one, at most a batch, less as the queue drains. */
  function BatchLength(s: State): int
    requires s.nTotal + s.nIdle + 1 > 0
  {
    Max(1, Min(s.nBatchSize, |s.queue| / (s.nTotal + s.nIdle + 1)))
  }

  /** Wakes the master if it is asleep. */
  function NotifyMaster(ts: seq<Thread>): seq<Thread>
    requires |ts| > 0
  {
    if ts[MASTER].Asleep? then ts[MASTER := Asleep(true)] else ts
  }

  /** The loop head of the critical section: return, fall asleep, or take a batch off the stack's top. */
  function Settle(s: State, t: nat): State
    requires t < |s.threads| && s.nTotal + s.nIdle + 1 > 0 && (s.queue != [] ==> BatchLength(s) <= |s.queue|)
  {
    if s.queue == [] then
      if (t == MASTER || s.fQuit) && s.nTodo == 0 then
        var left := s.(nTotal := s.nTotal - 1, threads := s.threads[t := if t == MASTER then Outside else Gone]);
        if t == MASTER
        then left.(fAllOk := true, added := multiset{}, done := multiset{}, waits := s.waits + [(s.fAllOk, s.added)])
        else left
      else
        s.(nIdle := s.nIdle + 1, threads := s.threads[t := Asleep(false)])
    else
      var n := |s.queue| - BatchLength(s);
      s.(queue := s.queue[..n], threads := s.threads[t := Running(s.queue[n..], s.fAllOk)])
  }

  /** The first lock of a call: one more thread in the loop. */
  function Enter(s: State, t: nat): State
    requires t < |s.threads| && s.threads[t].Entering?
  {
    s.(nTotal := s.nTotal + 1, threads := s.threads[t := Locked])
  }

  /** The lock after a batch: account for it and, if it was the last, tell the master. */
  function Report(s: State, t: nat): State
    requires t < |s.threads| && s.threads[t].Finished?
  {
    var Finished(batch, ok) := s.threads[t];
    var left := s.nTodo - |batch|;
    var ts := s.threads[t := Locked];
    s.(fAllOk := s.fAllOk && ok,
       nTodo := left,
       done := s.done + multiset(batch),
       threads := if left == 0 && t != MASTER then NotifyMaster(ts) else ts)
  }

  function Wake(s: State, t: nat): State
    requires t < |s.threads| && s.threads[t].Asleep?
  {
    s.(nIdle := s.nIdle - 1, threads := s.threads[t := Locked])
  }

  /** Outside the mutex: run the batch, skipping checks once one has failed. */
  function Work(s: State, t: nat, passes: Check -> bool): State
    requires t < |s.threads| && s.threads[t].Running?
  {
    var Running(batch, ok) := s.threads[t];
    s.(threads := s.threads[t := Finished(batch, ok && AllPass(batch, passes))])
  }

  /** The master pushes checks; sleepers in woken are notified (one for one check, all for more). */
  function AddChecks(s: State, cs: seq<Check>, woken: set<nat>): State {
    s.(queue := s.queue + cs,
       nTodo := s.nTodo + |cs|,
       added := s.added + multiset(cs),
       threads := seq(|s.threads|, i requires 0 <= i < |s.threads| =>
         if i != MASTER && i in woken && s.threads[i].Asleep? then Asleep(true) else s.threads[i]))
  }
  // ----- Runs -----

  datatype Step =
    | DoEnter(t: nat)
    | DoReport(t: nat)
    | DoWake(t: nat)
    | DoWork(t: nat)
    | DoAdd(checks: seq<Check>, woken: set<nat>)
    | DoWait

  ghost predicate Sleeper(s: State, i: int) {
    0 < i < |s.threads| && s.threads[i].Asleep?
  }

  /** notify_one for a single check, notify_all for more than one. */
  ghost predicate WakesRight(s: State, checks: seq<Check>, woken: set<nat>) {
    if |checks| == 0 then woken == {}
    else if |checks| == 1 then |woken| <= 1 && (woken == {} ==> forall i | Sleeper(s, i) :: s.threads[i].notified)
    else forall i: nat | Sleeper(s, i) :: i in woken
  }

  ghost predicate Enabled(s: State, step: Step) {
    match step
    case DoEnter(t) => t < |s.threads| && s.threads[t].Entering?
    case DoReport(t) => t < |s.threads| && s.threads[t].Finished?
    case DoWake(t) => t < |s.threads| && s.threads[t].Asleep?
    case DoWork(t) => t < |s.threads| && s.threads[t].Running?
    case DoAdd(checks, woken) => |s.threads| > 0 && s.threads[MASTER].Outside? && WakesRight(s, checks, woken)
    case DoWait => |s.threads| > 0 && s.threads[MASTER].Outside?
  }

  ghost function Next(s: State, step: Step, passes: Check -> bool): State
    requires Inv(s, passes) && Enabled(s, step)
  {
    match step
    case DoEnter(t) => EnterKeeps(s, t, passes); Settle(Enter(s, t), t)
    case DoReport(t) => ReportKeeps(s, t, passes); Settle(Report(s, t), t)
    case DoWake(t) => WakeKeeps(s, t, passes); Settle(Wake(s, t), t)
    case DoWork(t) => Work(s, t, passes)
    case DoAdd(checks, woken) => AddChecks(s, checks, woken)
    case DoWait => s.(threads := s.threads[MASTER := Entering])
  }

  /** A new queue with some workers about to start. */
  function Init(workers: nat, nBatchSize: nat): State {
    State([], 0, 0, true, 0, false, nBatchSize, [Outside] + seq(workers, _ => Entering),
          multiset{}, multiset{}, [])
  }

  // ----- The invariant -----

  predicate InLoop(t: Thread) {
    t.Locked? || t.Asleep? || t.Running? || t.Finished?
  }

  predicate IsAsleep(t: Thread) {
    t.Asleep?
  }

  ghost predicate ThreadOk(t: Thread, s: State, passes: Check -> bool) {
    && ((t.Running? || t.Finished?) ==> t.batch != [])
    && ((t.Running? || t.Finished?) && !t.ok ==> !AllPassBag(s.added, passes))
    && (t.Finished? && t.ok ==> AllPass(t.batch, passes))
  }

  /** Nothing is lost or counted twice. */
  ghost predicate Conserved(s: State) {
    && s.nTodo == |s.queue| + |InFlight(s.threads)|
    && multiset(s.queue) + InFlight(s.threads) + s.done == s.added
    && s.nIdle == Count(s.threads, IsAsleep)
    && s.nTotal == Count(s.threads, InLoop)
  }

  /** The verdict so far is right, and so was every verdict returned. */
  ghost predicate Truthful(s: State, passes: Check -> bool) {
    && (s.fAllOk ==> AllPassBag(s.done, passes))
    && (!s.fAllOk ==> !AllPassBag(s.added, passes))
    && (forall i | 0 <= i < |s.threads| :: ThreadOk(s.threads[i], s, passes))
    && (forall i | 0 <= i < |s.waits| :: s.waits[i].0 <==> AllPassBag(s.waits[i].1, passes))
  }

  /**
   Nobody but the given threads is in a critical section, and the master never sleeps through
   the end: while it sleeps nothing is queued, and with nothing left to do it has been notified.
   */
  ghost predicate Awake(s: State, locked: set<nat>) {
    && |s.threads| > 0
    && (forall i: nat | i < |s.threads| :: s.threads[i].Locked? <==> i in locked)
    && (forall i | 0 < i < |s.threads| :: !s.threads[i].Outside?)
    && !s.threads[MASTER].Gone?
    && (s.threads[MASTER].Asleep? ==> s.queue == [])
    && (s.threads[MASTER].Asleep? && s.nTodo == 0 ==> s.threads[MASTER].notified)
  }

  ghost predicate InvAt(s: State, locked: set<nat>, passes: Check -> bool) {
    Conserved(s) && Truthful(s, passes) && Awake(s, locked)
  }

  ghost predicate Inv(s: State, passes: Check -> bool) {
    InvAt(s, {}, passes)
  }

  lemma BatchFits(s: State)
    requires s.nTotal >= 0 && s.nIdle >= 0 && s.queue != []
    ensures 1 <= BatchLength(s) <= |s.queue|
    ensures BatchLength(s) <= Max(1, s.nBatchSize)
  {
    assert |s.queue| / (s.nTotal + s.nIdle + 1) <= |s.queue|;
  }

  /** A thread that did not move, or that moved to a place that is in order, is in order. */
  lemma ThreadsOk(s: State, s': State, passes: Check -> bool)
    requires |s.threads| == |s'.threads| && s.added <= s'.added
    requires forall i | 0 <= i < |s.threads| :: ThreadOk(s.threads[i], s, passes)
    requires forall i | 0 <= i < |s.threads| :: s'.threads[i] == s.threads[i] || ThreadOk(s'.threads[i], s', passes)
    ensures forall i | 0 <= i < |s'.threads| :: ThreadOk(s'.threads[i], s', passes)
  {
    forall i | 0 <= i < |s'.threads| ensures ThreadOk(s'.threads[i], s', passes) {
      assert ThreadOk(s.threads[i], s, passes);
    }
  }

  lemma EnterKeeps(s: State, t: nat, passes: Check -> bool)
    requires Inv(s, passes) && t < |s.threads| && s.threads[t].Entering?
    ensures InvAt(Enter(s, t), {t}, passes)
    ensures Enter(s, t).queue != [] ==> BatchLength(Enter(s, t)) <= |s.queue|
  {
    Moved(s.threads, t, Locked);
    ThreadsOk(s, Enter(s, t), passes);
    if s.queue != [] { BatchFits(Enter(s, t)); }
  }

  lemma WakeKeeps(s: State, t: nat, passes: Check -> bool)
    requires Inv(s, passes) && t < |s.threads| && s.threads[t].Asleep?
    ensures InvAt(Wake(s, t), {t}, passes)
    ensures Wake(s, t).queue != [] ==> BatchLength(Wake(s, t)) <= |s.queue|
  {
    Moved(s.threads, t, Locked);
    ThreadsOk(s, Wake(s, t), passes);
    if s.queue != [] { BatchFits(Wake(s, t)); }
  }
  lemma ReportConserved(s: State, t: nat)
    requires Conserved(s) && t < |s.threads| && s.threads[t].Finished?
    ensures Conserved(Report(s, t))
  {
    var ts := s.threads[t := Locked];
    Moved(s.threads, t, Locked);
    Regroup(multiset(s.queue), InFlight(ts), multiset(s.threads[t].batch), s.done);
    NotifyTotals(ts);
  }

  lemma NotifyTotals(ts: seq<Thread>)
    requires |ts| > 0
    ensures var ts' := NotifyMaster(ts);
            InFlight(ts') == InFlight(ts) && Count(ts', IsAsleep) == Count(ts, IsAsleep) && Count(ts', InLoop) == Count(ts, InLoop)
  {
    if ts[MASTER].Asleep? {
      Moved(ts, MASTER, Asleep(true));
    }
  }

  lemma ReportTruthful(s: State, t: nat, passes: Check -> bool)
    requires Truthful(s, passes) && t < |s.threads| && s.threads[t].Finished?
    ensures Truthful(Report(s, t), passes)
  {
    assert ThreadOk(s.threads[t], s, passes);
    ThreadsOk(s, Report(s, t), passes);
  }

  lemma ReportKeeps(s: State, t: nat, passes: Check -> bool)
    requires Inv(s, passes) && t < |s.threads| && s.threads[t].Finished?
    ensures InvAt(Report(s, t), {t}, passes)
    ensures Report(s, t).queue != [] ==> BatchLength(Report(s, t)) <= |s.queue|
  {
    ReportConserved(s, t);
    ReportTruthful(s, t, passes);
    if s.queue != [] { BatchFits(Report(s, t)); }
  }

  lemma InFlightNone(ts: seq<Thread>, i: nat)
    requires InFlight(ts) == multiset{} && i < |ts|
    ensures Batch(ts[i]) == []
  {
    BatchInFlight(ts, i);
    assert |multiset(Batch(ts[i]))| == |Batch(ts[i])|;
  }

  lemma SettleConserved(s: State, t: nat)
    requires Conserved(s) && t < |s.threads| && s.threads[t].Locked?
    requires s.queue != [] ==> BatchLength(s) <= |s.queue|
    ensures Conserved(Settle(s, t))
  {
    if s.queue == [] {
      if (t == MASTER || s.fQuit) && s.nTodo == 0 {
        LeaveConserved(s, t);
      } else {
        Moved(s.threads, t, Asleep(false));
      }
    } else {
      BatchFits(s);
      var n := |s.queue| - BatchLength(s);
      TakeConserved(s, t, n);
      assert Settle(s, t) == s.(queue := s.queue[..n], threads := s.threads[t := Running(s.queue[n..], s.fAllOk)]);
    }
  }

  lemma LeaveConserved(s: State, t: nat)
    requires Conserved(s) && t < |s.threads| && s.threads[t].Locked? && s.queue == [] && s.nTodo == 0
    requires t == MASTER || s.fQuit
    ensures Conserved(Settle(s, t))
  {
    Moved(s.threads, t, if t == MASTER then Outside else Gone);
    assert InFlight(Settle(s, t).threads) == multiset{};
  }

  lemma TakeConserved(s: State, t: nat, n: nat)
    requires Conserved(s) && t < |s.threads| && s.threads[t].Locked? && n <= |s.queue|
    ensures Conserved(s.(queue := s.queue[..n], threads := s.threads[t := Running(s.queue[n..], s.fAllOk)]))
  {
    assert s.queue == s.queue[..n] + s.queue[n..];
    Moved(s.threads, t, Running(s.queue[n..], s.fAllOk));
    Regroup(multiset(s.queue[..n]), InFlight(s.threads), multiset(s.queue[n..]), s.done);
  }

  lemma SettleTruthful(s: State, t: nat, passes: Check -> bool)
    requires InvAt(s, {t}, passes) && t < |s.threads|
    requires s.queue != [] ==> BatchLength(s) <= |s.queue|
    ensures Truthful(Settle(s, t), passes)
  {
    if s.queue == [] && t == MASTER && s.nTodo == 0 {
      ReturnKeeps(s, passes);
      ReturnTruthful(s, passes);
    } else {
      if s.queue != [] {
        BatchFits(s);
      }
      var s' := Settle(s, t);
      StayTruthful(s, s', t, passes);
    }
  }

  /** A thread that takes a batch, goes to sleep or leaves says nothing new. */
  lemma StayTruthful(s: State, s': State, t: nat, passes: Check -> bool)
    requires Truthful(s, passes) && t < |s.threads| && |s'.threads| == |s.threads|
    requires s'.fAllOk == s.fAllOk && s'.done == s.done && s'.added == s.added && s'.waits == s.waits
    requires s'.threads == s.threads[t := s'.threads[t]]
    requires ThreadOk(s'.threads[t], s', passes)
    ensures Truthful(s', passes)
  {
    ThreadsOk(s, s', passes);
  }

  /** The master leaves with the verdict, and the next round starts with nothing. */
  lemma ReturnTruthful(s: State, passes: Check -> bool)
    requires Truthful(s, passes) && |s.threads| > MASTER && s.queue == [] && s.nTodo == 0 && s.nTotal + s.nIdle + 1 > 0
    requires s.fAllOk <==> AllPassBag(s.added, passes)
    requires forall i: nat | i < |s.threads| :: !s.threads[i].Running? && !s.threads[i].Finished?
    ensures Truthful(Settle(s, MASTER), passes)
  {
  }

  lemma SettleKeeps(s: State, t: nat, passes: Check -> bool)
    requires InvAt(s, {t}, passes) && t < |s.threads|
    requires s.queue != [] ==> BatchLength(s) <= |s.queue|
    ensures Inv(Settle(s, t), passes)
  {
    SettleConserved(s, t);
    SettleTruthful(s, t, passes);
    SettleAwake(s, t);
  }

  lemma SettleAwake(s: State, t: nat)
    requires Awake(s, {t}) && t < |s.threads| && s.nTotal + s.nIdle + 1 > 0
    requires s.queue != [] ==> BatchLength(s) <= |s.queue|
    ensures Awake(Settle(s, t), {})
  {
    var s' := Settle(s, t);
    forall i: nat | i < |s'.threads| ensures !s'.threads[i].Locked? {
      assert s.threads[i].Locked? ==> i == t;
    }
  }

  /** Wait returns with everything done, and with the truth. */
  lemma ReturnKeeps(s: State, passes: Check -> bool)
    requires InvAt(s, {MASTER}, passes) && s.queue == [] && s.nTodo == 0
    ensures s.done == s.added
    ensures s.fAllOk <==> AllPassBag(s.added, passes)
    ensures forall i: nat | i < |s.threads| :: !s.threads[i].Running? && !s.threads[i].Finished?
  {
    assert InFlight(s.threads) == multiset{};
    forall i: nat | i < |s.threads| ensures !s.threads[i].Running? && !s.threads[i].Finished? {
      InFlightNone(s.threads, i);
      assert ThreadOk(s.threads[i], s, passes);
    }
  }

  lemma {:induction false} SameTotals(ts: seq<Thread>, ts': seq<Thread>, p: Thread -> bool)
    requires |ts| == |ts'|
    requires forall i | 0 <= i < |ts| :: Batch(ts[i]) == Batch(ts'[i]) && p(ts[i]) == p(ts'[i])
    ensures InFlight(ts) == InFlight(ts') && Count(ts, p) == Count(ts', p)
  {
    if ts != [] {
      SameTotals(ts[1..], ts'[1..], p);
    }
  }

  lemma AddKeeps(s: State, cs: seq<Check>, woken: set<nat>, passes: Check -> bool)
    requires Inv(s, passes) && s.threads[MASTER].Outside?
    ensures Inv(AddChecks(s, cs, woken), passes)
  {
    var s' := AddChecks(s, cs, woken);
    SameTotals(s.threads, s'.threads, IsAsleep);
    SameTotals(s.threads, s'.threads, InLoop);
    forall i | 0 <= i < |s'.threads| ensures ThreadOk(s'.threads[i], s', passes) {
      assert ThreadOk(s.threads[i], s, passes);
    }
  }

  lemma WorkTruthful(s: State, t: nat, passes: Check -> bool)
    requires Inv(s, passes) && t < |s.threads| && s.threads[t].Running?
    ensures Truthful(Work(s, t, passes), passes)
  {
    var batch := s.threads[t].batch;
    assert ThreadOk(s.threads[t], s, passes);
    if i :| 0 <= i < |batch| && !passes(batch[i]) {
      BatchInFlight(s.threads, t);
      assert batch[i] in multiset(batch);
      assert batch[i] in s.added;
    }
    ThreadsOk(s, Work(s, t, passes), passes);
  }

  lemma WorkKeeps(s: State, t: nat, passes: Check -> bool)
    requires Inv(s, passes) && t < |s.threads| && s.threads[t].Running?
    ensures Inv(Work(s, t, passes), passes)
  {
    Moved(s.threads, t, Work(s, t, passes).threads[t]);
    WorkTruthful(s, t, passes);
  }

  /** Every step of every thread keeps the invariant. */
  lemma NextKeeps(s: State, step: Step, passes: Check -> bool)
    requires Inv(s, passes) && Enabled(s, step)
    ensures Inv(Next(s, step, passes), passes)
  {
    match step
    case DoEnter(t) => EnterSettles(s, t, passes);
    case DoReport(t) => ReportSettles(s, t, passes);
    case DoWake(t) => WakeSettles(s, t, passes);
    case DoWork(t) => WorkKeeps(s, t, passes);
    case DoAdd(checks, woken) => AddKeeps(s, checks, woken, passes);
    case DoWait => WaitKeeps(s, passes);
  }

  lemma EnterSettles(s: State, t: nat, passes: Check -> bool)
    requires Inv(s, passes) && Enabled(s, DoEnter(t))
    ensures Inv(Next(s, DoEnter(t), passes), passes)
  {
    EnterKeeps(s, t, passes);
    SettleKeeps(Enter(s, t), t, passes);
  }

  lemma ReportSettles(s: State, t: nat, passes: Check -> bool)
    requires Inv(s, passes) && Enabled(s, DoReport(t))
    ensures Inv(Next(s, DoReport(t), passes), passes)
  {
    ReportKeeps(s, t, passes);
    SettleKeeps(Report(s, t), t, passes);
  }

  lemma WakeSettles(s: State, t: nat, passes: Check -> bool)
    requires Inv(s, passes) && Enabled(s, DoWake(t))
    ensures Inv(Next(s, DoWake(t), passes), passes)
  {
    WakeKeeps(s, t, passes);
    SettleKeeps(Wake(s, t), t, passes);
  }

  lemma WaitKeeps(s: State, passes: Check -> bool)
    requires Inv(s, passes) && Enabled(s, DoWait)
    ensures Inv(Next(s, DoWait, passes), passes)
  {
    Moved(s.threads, MASTER, Entering);
    ThreadsOk(s, s.(threads := s.threads[MASTER := Entering]), passes);
  }

  lemma {:induction false} InitTotals(ts: seq<Thread>, p: Thread -> bool)
    requires forall i | 0 <= i < |ts| :: Batch(ts[i]) == [] && !p(ts[i])
    ensures InFlight(ts) == multiset{} && Count(ts, p) == 0
  {
    if ts != [] {
      InitTotals(ts[1..], p);
    }
  }

  lemma InitHolds(workers: nat, nBatchSize: nat, passes: Check -> bool)
    ensures Inv(Init(workers, nBatchSize), passes)
  {
    var s := Init(workers, nBatchSize);
    InitTotals(s.threads, IsAsleep);
    InitTotals(s.threads, InLoop);
  }

  // ----- What the invariant means for every run -----

  /** The states of a run: each step enabled where it is taken. */
  ghost predicate IsRun(s: State, steps: seq<Step>, passes: Check -> bool)
    requires Inv(s, passes)
    decreases |steps|
  {
    steps == [] ||
    (Enabled(s, steps[0]) && (NextKeeps(s, steps[0], passes); IsRun(Next(s, steps[0], passes), steps[1..], passes)))
  }

  ghost function After(s: State, steps: seq<Step>, passes: Check -> bool): (r: State)
    requires Inv(s, passes) && IsRun(s, steps, passes)
    ensures Inv(r, passes)
    decreases |steps|
  {
    if steps == [] then s
    else
      NextKeeps(s, steps[0], passes);
      After(Next(s, steps[0], passes), steps[1..], passes)
  }

  /** A run of some workers and the master, from a queue that was just set up. */
  ghost predicate IsRunFromStart(workers: nat, nBatchSize: nat, steps: seq<Step>, passes: Check -> bool) {
    InitHolds(workers, nBatchSize, passes);
    IsRun(Init(workers, nBatchSize), steps, passes)
  }

  ghost function Reached(workers: nat, nBatchSize: nat, steps: seq<Step>, passes: Check -> bool): (s: State)
    requires IsRunFromStart(workers, nBatchSize, steps, passes)
    ensures Inv(s, passes)
  {
    InitHolds(workers, nBatchSize, passes);
    After(Init(workers, nBatchSize), steps, passes)
  }

  /**
   After any run of any number of threads: no check is lost, duplicated or still owned by two
   threads; every completed Wait returned true exactly if all checks of its round pass; and a
   master that sleeps without having been notified has a worker still holding a batch, so
   somebody can always make progress.
   */
  lemma Safety(workers: nat, nBatchSize: nat, steps: seq<Step>, passes: Check -> bool)
    requires IsRunFromStart(workers, nBatchSize, steps, passes)
    ensures
      var s := Reached(workers, nBatchSize, steps, passes);
      && multiset(s.queue) + InFlight(s.threads) + s.done == s.added
      && s.nTodo == |s.queue| + |InFlight(s.threads)|
      && (forall i | 0 <= i < |s.waits| :: s.waits[i].0 <==> AllPassBag(s.waits[i].1, passes))
      && (s.threads[MASTER] == Asleep(false) ==>
            exists i :: 0 < i < |s.threads| && (s.threads[i].Running? || s.threads[i].Finished?))
  {
    var s := Reached(workers, nBatchSize, steps, passes);
    if s.threads[MASTER] == Asleep(false) {
      assert InFlight(s.threads) != multiset{};
      InFlightSome(s.threads);
    }
  }

  // ----- Every Wait returns -----

  /** How many useful steps a thread can still take without new work. */
  function Energy(t: Thread): nat {
    match t
    case Running(_, _) => 3
    case Finished(_, _) => 2
    case Entering => 2
    case Asleep(notified) => if notified then 1 else 0
    case _ => 0
  }

  ghost function TotalEnergy(ts: seq<Thread>): nat {
    if ts == [] then 0 else Energy(ts[0]) + TotalEnergy(ts[1..])
  }

  ghost function Measure(s: State): nat {
    4 * |s.queue| + TotalEnergy(s.threads)
  }

  lemma {:induction false} EnergyUpdate(ts: seq<Thread>, i: nat, t: Thread)
    requires i < |ts|
    ensures TotalEnergy(ts[i := t]) + Energy(ts[i]) == TotalEnergy(ts) + Energy(t)
  {
    if i == 0 {
      assert ts[i := t][1..] == ts[1..];
    } else {
      assert ts[i := t][1..] == ts[1..][i - 1 := t];
      EnergyUpdate(ts[1..], i - 1, t);
    }
  }

  /** A step of the waiting phase that is not a spurious wake-up. */
  ghost predicate Useful(s: State, step: Step) {
    && Enabled(s, step)
    && !step.DoAdd? && !step.DoWait?
    && (step.DoWake? ==> s.threads[step.t].notified)
  }

  lemma SettleEnergy(s: State, t: nat)
    requires t < |s.threads| && s.threads[t].Locked? && s.nTotal >= 0 && s.nIdle >= 0
    requires s.queue != [] ==> BatchLength(s) <= |s.queue|
    ensures Measure(Settle(s, t)) <= Measure(s)
  {
    EnergyUpdate(s.threads, t, Settle(s, t).threads[t]);
    if s.queue != [] {
      BatchFits(s);
    }
  }

  lemma UsefulDecreases(s: State, step: Step, passes: Check -> bool)
    requires Inv(s, passes) && Useful(s, step)
    ensures Measure(Next(s, step, passes)) < Measure(s)
  {
    match step
    case DoEnter(t) => EnterDecreases(s, t, passes);
    case DoWake(t) => WakeDecreases(s, t, passes);
    case DoReport(t) => ReportDecreases(s, t, passes);
    case DoWork(t) => EnergyUpdate(s.threads, t, Work(s, t, passes).threads[t]);
  }

  lemma EnterDecreases(s: State, t: nat, passes: Check -> bool)
    requires Inv(s, passes) && Useful(s, DoEnter(t))
    ensures Measure(Next(s, DoEnter(t), passes)) < Measure(s)
  {
    EnterKeeps(s, t, passes);
    EnergyUpdate(s.threads, t, Locked);
    SettleEnergy(Enter(s, t), t);
  }

  lemma WakeDecreases(s: State, t: nat, passes: Check -> bool)
    requires Inv(s, passes) && Useful(s, DoWake(t))
    ensures Measure(Next(s, DoWake(t), passes)) < Measure(s)
  {
    WakeKeeps(s, t, passes);
    EnergyUpdate(s.threads, t, Locked);
    SettleEnergy(Wake(s, t), t);
  }

  lemma ReportDecreases(s: State, t: nat, passes: Check -> bool)
    requires Inv(s, passes) && Useful(s, DoReport(t))
    ensures Measure(Next(s, DoReport(t), passes)) < Measure(s)
  {
    ReportKeeps(s, t, passes);
    ReportEnergy(s, t);
    SettleEnergy(Report(s, t), t);
  }

  lemma ReportEnergy(s: State, t: nat)
    requires t < |s.threads| && s.threads[t].Finished?
    ensures Measure(Report(s, t)) < Measure(s)
  {
    EnergyUpdate(s.threads, t, Locked);
    EnergyUpdate(s.threads[t := Locked], MASTER, Asleep(true));
  }

  /** While the master waits, some thread has a useful step to take. */
  lemma CanProgress(s: State, passes: Check -> bool)
    requires Inv(s, passes) && !s.threads[MASTER].Outside?
    ensures exists step :: Useful(s, step)
  {
    assert !s.threads[MASTER].Locked?;
    match s.threads[MASTER]
    case Entering => assert Useful(s, DoEnter(MASTER));
    case Running(_, _) => assert Useful(s, DoWork(MASTER));
    case Finished(_, _) => assert Useful(s, DoReport(MASTER));
    case Asleep(notified) =>
      if notified {
        assert Useful(s, DoWake(MASTER));
      } else {
        assert InFlight(s.threads) != multiset{};
        InFlightSome(s.threads);
        var i: nat :| i < |s.threads| && Batch(s.threads[i]) != [];
        assert s.threads[i].Running? ==> Useful(s, DoWork(i));
        assert s.threads[i].Finished? ==> Useful(s, DoReport(i));
      }
    case _ =>
  }

  ghost predicate UsefulRun(s: State, steps: seq<Step>, passes: Check -> bool)
    requires Inv(s, passes)
    decreases |steps|
  {
    steps == [] ||
    (Useful(s, steps[0]) && (NextKeeps(s, steps[0], passes); UsefulRun(Next(s, steps[0], passes), steps[1..], passes)))
  }

  /** No schedule of useful steps is longer than the measure. */
  lemma {:induction false} UsefulRunsEnd(s: State, steps: seq<Step>, passes: Check -> bool)
    requires Inv(s, passes) && UsefulRun(s, steps, passes)
    ensures |steps| <= Measure(s)
    decreases |steps|
  {
    if steps != [] {
      NextKeeps(s, steps[0], passes);
      UsefulDecreases(s, steps[0], passes);
      UsefulRunsEnd(Next(s, steps[0], passes), steps[1..], passes);
    }
  }

  lemma {:induction false} UsefulIsRun(s: State, steps: seq<Step>, passes: Check -> bool)
    requires Inv(s, passes) && UsefulRun(s, steps, passes)
    ensures IsRun(s, steps, passes)
    decreases |steps|
  {
    if steps != [] {
      NextKeeps(s, steps[0], passes);
      UsefulIsRun(Next(s, steps[0], passes), steps[1..], passes);
    }
  }

  /** Every Wait returns: from any reachable state, whatever useful steps are taken and in whatever order, after no
      more of them than the measure there is nothing left to do, and then the master is outside. */
  lemma WaitReturns(s: State, steps: seq<Step>, passes: Check -> bool)
    requires Inv(s, passes) && UsefulRun(s, steps, passes)
    ensures IsRun(s, steps, passes) && |steps| <= Measure(s)
    ensures var end := After(s, steps, passes);
            (forall step :: !Useful(end, step)) ==> end.threads[MASTER].Outside?
  {
    UsefulIsRun(s, steps, passes);
    UsefulRunsEnd(s, steps, passes);
    var end := After(s, steps, passes);
    if !end.threads[MASTER].Outside? {
      CanProgress(end, passes);
    }
  }
}
