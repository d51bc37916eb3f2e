/**
 The threads of a task queue as a state machine. A locked region is one step;
 the two condition variables are sets of sleeping threads, woken by broadcasts,
 by the single notification of an enqueue, and spuriously.

 Beside the program state the machine keeps a ledger: the fate of every ticket
 ever issued and how often its task was started.
 */
module TaskProtocol {
  import opened Order
  import opened HeapLevels
  import opened TaskQueues

  datatype PC =
    | Outside                    // not in the loop: a client, or a pool thread that has exited
    | Ready                      // about to lock, with no finished task to report
    | Executing(record: Record)
    | Finished(record: Record)   // about to lock and report the task
    | AsleepNew | AwakeNew       // in the wait for new tasks, blocked or notified
    | AsleepDone | AwakeDone     // in the wait for completion, blocked or notified

  datatype Thread = Thread(mode: Mode, pc: PC)

  datatype Fate = Queued | Held(thread: nat) | Executed | Removed

  datatype State = State(
    shared: Shared,
    pool: set<nat>,
    threads: map<nat, Thread>,
    closing: bool,               // the destructor has been entered
    fate: map<nat, Fate>,
    starts: map<nat, nat>)

  datatype Event =
    | Lock(thread: nat, pick: Record)    // one pass through the locked region
    | Return(thread: nat)                // a task's process() returns
    | Spurious(thread: nat)              // a wakeup nobody asked for
    | Enqueue(record: Record, wake: nat)
    | Edit(queue: multiset<Record>)      // cancel, erase_if and for_each
    | Clear
    | Call(thread: nat, mode: Mode)      // wait_for_all or the destructor is entered

  // ---- Steps ----

  ghost predicate Holds(pc: PC) { pc.Executing? || pc.Finished? }

  ghost predicate CanLock(pc: PC) { pc.Ready? || pc.Finished? || pc.AwakeNew? || pc.AwakeDone? }

  ghost function PhaseOf(pc: PC): Phase {
    if pc.Finished? then Finishing
    else if pc.AwakeNew? then ResumedNew
    else if pc.AwakeDone? then ResumedDone
    else Entering
  }

  ghost function After(outcome: Outcome): PC {
    match outcome
    case Run(r) => Executing(r)
    case SleepNew => AsleepNew
    case SleepDone => AsleepDone
    case Leave => Outside
  }

  ghost function WakePC(pc: PC, signals: Signals): PC {
    if pc.AsleepNew? && signals.newTasks then AwakeNew
    else if pc.AsleepDone? && signals.completion then AwakeDone
    else pc
  }

  ghost function WakeAll(threads: map<nat, Thread>, signals: Signals): map<nat, Thread> {
    map t | t in threads :: threads[t].(pc := WakePC(threads[t].pc, signals))
  }

  ghost predicate Client(s: State, t: nat) { t in s.threads && t !in s.pool }

  ghost predicate InLoop(s: State, t: nat) { t in s.threads && !s.threads[t].pc.Outside? }

  ghost predicate Asleep(s: State, t: nat) { t in s.threads && s.threads[t].pc.AsleepNew? }

  ghost predicate Enabled(s: State, e: Event) {
    match e
    case Lock(t, pick) =>
      t in s.threads && CanLock(s.threads[t].pc) && (s.shared.queue != multiset{} ==> IsTop(s.shared.queue, pick))
    case Return(t) => t in s.threads && s.threads[t].pc.Executing?
    case Spurious(t) => t in s.threads && (s.threads[t].pc.AsleepNew? || s.threads[t].pc.AsleepDone?)
    case Enqueue(r, wake) =>
      s.shared.level == Running && r.ticket !in s.fate && ((exists t :: Asleep(s, t)) ==> Asleep(s, wake))
    case Edit(queue) => Thinned(queue, s.shared.queue)
    case Clear => true
    case Call(t, mode) =>
      && Client(s, t) && !InLoop(s, t) && mode != Pool && !s.closing
      && (mode == Stopping ==> forall u :: Client(s, u) ==> !InLoop(s, u))
  }

  ghost function LockEffect(s: State, t: nat, pick: Record): Effect
    requires t in s.threads
  {
    LockedRegion(s.threads[t].mode, PhaseOf(s.threads[t].pc), s.shared, pick)
  }

  ghost predicate InQueue(queue: multiset<Record>, ticket: nat) {
    exists r :: r in queue && r.ticket == ticket
  }

  /** `less` holds some of the tickets of `queue`, each in one record, whose priority may be new. */
  ghost predicate Thinned(less: multiset<Record>, queue: multiset<Record>) {
    && |less| <= |queue|
    && (forall r :: r in less ==> less[r] == 1 && InQueue(queue, r.ticket))
    && (forall r, r' :: r in less && r' in less && r.ticket == r'.ticket ==> r == r')
  }

  ghost function Shrink(s: State, queue: multiset<Record>, signals: Signals): State {
    s.(shared := s.shared.(queue := queue),
       threads := WakeAll(s.threads, signals),
       fate := map k | k in s.fate :: if s.fate[k] == Queued && !InQueue(queue, k) then Removed else s.fate[k])
  }

  ghost function Reported(fate: map<nat, Fate>, pc: PC): map<nat, Fate> {
    if pc.Finished? then fate[pc.record.ticket := Executed] else fate
  }

  ghost function ApplyLock(s: State, t: nat, pick: Record): State
    requires t in s.threads
  {
    var e := LockEffect(s, t, pick);
    var fate := Reported(s.fate, s.threads[t].pc);
    s.(shared := e.shared,
       threads := WakeAll(s.threads, e.signals)[t := s.threads[t].(pc := After(e.outcome))],
       fate := if e.outcome.Run? then fate[pick.ticket := Held(t)] else fate,
       starts := if e.outcome.Run? && pick.ticket in s.starts then s.starts[pick.ticket := s.starts[pick.ticket] + 1] else s.starts)
  }

  ghost function Apply(s: State, e: Event): State
    requires Enabled(s, e)
  {
    match e
    case Lock(t, pick) => ApplyLock(s, t, pick)
    case Return(t) => s.(threads := s.threads[t := s.threads[t].(pc := Finished(s.threads[t].pc.record))])
    case Spurious(t) =>
      s.(threads := s.threads[t := s.threads[t].(pc := WakePC(s.threads[t].pc, Signals(true, true)))])
    case Enqueue(r, wake) =>
      s.(shared := s.shared.(queue := s.shared.queue + multiset{r}),
         threads := if Asleep(s, wake) then s.threads[wake := s.threads[wake].(pc := AwakeNew)] else s.threads,
         fate := s.fate[r.ticket := Queued],
         starts := s.starts[r.ticket := 0])
    case Edit(queue) =>
      Shrink(s, queue, Signals(false, |queue| < |s.shared.queue| && queue == multiset{}))
    case Clear => Shrink(s, multiset{}, Signals(false, true))
    case Call(t, mode) =>
      s.(threads := s.threads[t := Thread(mode, Ready)], closing := mode == Stopping)
  }

  /** A fresh queue: the pool threads about to lock for the first time, the clients outside. */
  ghost predicate Initial(s: State) {
    && s.shared == Shared(multiset{}, 0, Running)
    && s.pool != {} && s.pool <= s.threads.Keys
    && (forall t :: t in s.threads ==> (t in s.pool <==> s.threads[t].mode == Pool))
    && (forall t :: t in s.threads ==> s.threads[t].pc == if t in s.pool then Ready else Outside)
    && !s.closing && s.fate == map[] && s.starts == map[]
  }

  // ---- Edits ----

  /** Cancelling takes one ticket out. */
  lemma CancelIsEdit(queue: multiset<Record>, gone: Record)
    requires Thinned(queue, queue) && gone in queue
    ensures Thinned(queue - multiset{gone}, queue)
  {
    assert queue == (queue - multiset{gone}) + multiset{gone};
  }

  ghost predicate DistinctTickets(w: seq<Record>) {
    forall i, j :: 0 <= i < j < |w| ==> w[i].ticket != w[j].ticket
  }

  lemma TwiceIn(w: seq<Record>, i: nat, j: nat)
    requires i < j < |w| && w[i] == w[j]
    ensures multiset(w)[w[i]] >= 2
  {
    assert w == w[..j] + [w[j]] + w[j + 1..];
    assert w[i] in w[..j];
  }

  lemma ThinnedDistinct(w: seq<Record>)
    requires Thinned(multiset(w), multiset(w))
    ensures DistinctTickets(w)
  {
    hide InQueue;
    forall i, j | 0 <= i < j < |w| ensures w[i].ticket != w[j].ticket {
      if w[i].ticket == w[j].ticket {
        assert w[i] in multiset(w) && w[j] in multiset(w);
        TwiceIn(w, i, j);
      }
    }
  }

  /** The callable changes no record's ticket. */
  ghost predicate KeepsTickets(visit: Visitor) {
    forall seen, r :: visit(seen, r).record.ticket == r.ticket
  }

  /** Where the tickets of what is left come from. */
  lemma {:induction false} EditedTickets(visit: Visitor, w: seq<Record>, y: Record)
    requires KeepsTickets(visit) && y in Edited(visit, w)
    ensures exists i :: 0 <= i < |w| && w[i].ticket == y.ticket
  {
    var n := |w| - 1;
    if y !in Kept(visit(w[..n], w[n])) {
      EditedTickets(visit, w[..n], y);
      var i :| 0 <= i < n && w[..n][i].ticket == y.ticket;
      assert w[i].ticket == y.ticket;
    } else {
      assert w[n].ticket == y.ticket;
    }
  }

  lemma {:induction false} EditedSize(visit: Visitor, w: seq<Record>)
    ensures |Edited(visit, w)| <= |w|
  {
    if w != [] {
      EditedSize(visit, w[..|w| - 1]);
    }
  }

  lemma {:induction false} EditedOnce(visit: Visitor, w: seq<Record>, y: Record, z: Record)
    requires DistinctTickets(w) && KeepsTickets(visit)
    requires y in Edited(visit, w) && z in Edited(visit, w) && y.ticket == z.ticket
    ensures y == z && Edited(visit, w)[y] == 1
  {
    var n := |w| - 1;
    var rest := Edited(visit, w[..n]);
    forall x | x in rest ensures x.ticket != w[n].ticket {
      EditedTickets(visit, w[..n], x);
    }
    if y.ticket != w[n].ticket {
      EditedOnce(visit, w[..n], y, z);
    }
  }

  /** A callable of `erase_if` or `for_each` that leaves the task of a record alone makes an edit, in whatever order it visits. */
  lemma EditedIsEdit(visit: Visitor, w: seq<Record>)
    requires Thinned(multiset(w), multiset(w)) && KeepsTickets(visit)
    ensures Thinned(Edited(visit, w), multiset(w)) && Thinned(Edited(visit, Reversed(w)), multiset(w))
  {
    hide Edited, Reversed, Thinned;
    EditedInOrder(visit, w);
    ReversedPermutes(w);
    EditedInOrder(visit, Reversed(w));
  }

  lemma EditedInOrder(visit: Visitor, w: seq<Record>)
    requires Thinned(multiset(w), multiset(w)) && KeepsTickets(visit)
    ensures Thinned(Edited(visit, w), multiset(w))
  {
    hide Edited, KeepsTickets;
    ThinnedDistinct(w);
    EditedSize(visit, w);
    var edited := Edited(visit, w);
    forall y, z | y in edited && z in edited && y.ticket == z.ticket ensures y == z && edited[y] == 1 {
      EditedOnce(visit, w, y, z);
    }
    forall y | y in edited ensures InQueue(multiset(w), y.ticket) {
      EditedTickets(visit, w, y);
      var i :| 0 <= i < |w| && w[i].ticket == y.ticket;
      assert w[i] in multiset(w);
    }
  }

  // ---- The invariant ----

  ghost function Holders(s: State): set<nat> { set t | t in s.threads && Holds(s.threads[t].pc) }

  /** Pool threads that will look at the queue before they can sleep. */
  ghost function Lookers(s: State): set<nat> {
    set t | t in s.threads && t in s.pool && (s.threads[t].pc.Ready? || s.threads[t].pc.Finished? || s.threads[t].pc.AwakeNew?)
  }

  ghost predicate ThreadsTyped(s: State) {
    && s.pool != {} && s.pool <= s.threads.Keys
    && (forall t :: t in s.threads ==> (t in s.pool <==> s.threads[t].mode == Pool))
    && (forall t :: t in s.threads && t in s.pool ==> !s.threads[t].pc.AsleepDone? && !s.threads[t].pc.AwakeDone?)
    && (forall t :: t in s.threads && t !in s.pool ==> !s.threads[t].pc.AsleepNew? && !s.threads[t].pc.AwakeNew?)
  }

  /** `m_executing_count_` counts the threads holding a popped task. */
  ghost predicate CountExact(s: State) {
    s.shared.executing == |Holders(s)|
  }

  /** While a pool thread sleeps, there are at least as many awake ones as queued tasks. */
  ghost predicate WorkConserving(s: State) {
    (exists t :: Asleep(s, t)) ==> |s.shared.queue| <= |Lookers(s)|
  }

  /** A blocked completion waiter implies work is queued or executing. */
  ghost predicate WaitersJustified(s: State) {
    forall t :: t in s.threads && s.threads[t].pc.AsleepDone? ==> !Complete(s.shared)
  }

  ghost predicate StopSafe(s: State) {
    && (s.shared.level == Stopped ==> s.closing && Complete(s.shared))
    && (s.shared.level == Stopped ==> forall t :: t in s.threads ==> !Asleep(s, t) && (t !in s.pool ==> !InLoop(s, t)))
    && (forall t :: t in s.pool && t in s.threads && !InLoop(s, t) ==> s.shared.level == Stopped)
    && (forall t :: Client(s, t) && InLoop(s, t) ==> (s.closing <==> s.threads[t].mode == Stopping))
    && (s.closing ==> forall t, u :: Client(s, t) && InLoop(s, t) && Client(s, u) && InLoop(s, u) ==> t == u)
  }

  /** Once the destructor has been entered its thread stays in the loop until it has stopped the queue. */
  ghost predicate CloserInside(s: State) {
    s.closing && s.shared.level == Running ==> exists t :: Client(s, t) && InLoop(s, t)
  }

  /** The queued tickets are the ones whose fate is `Queued`, each in one record. */
  ghost predicate QueueLedger(queue: multiset<Record>, fate: map<nat, Fate>) {
    && (forall r :: r in queue ==> queue[r] == 1 && r.ticket in fate && fate[r.ticket] == Queued)
    && (forall r, r' :: r in queue && r' in queue && r.ticket == r'.ticket ==> r == r')
    && (forall k :: k in fate && fate[k] == Queued ==> InQueue(queue, k))
  }

  ghost predicate LedgerQueue(s: State) {
    QueueLedger(s.shared.queue, s.fate)
  }

  ghost predicate HoldsTicket(s: State, t: nat, k: nat) {
    t in s.threads && Holds(s.threads[t].pc) && s.threads[t].pc.record.ticket == k
  }

  ghost predicate LedgerHeld(s: State) {
    && (forall t :: t in s.threads && Holds(s.threads[t].pc) ==>
          s.threads[t].pc.record.ticket in s.fate && s.fate[s.threads[t].pc.record.ticket] == Held(t))
    && (forall k :: k in s.fate && s.fate[k].Held? ==> HoldsTicket(s, s.fate[k].thread, k))
  }

  ghost predicate LedgerStarts(s: State) {
    && s.starts.Keys == s.fate.Keys
    && (forall k :: k in s.fate ==> s.starts[k] == if s.fate[k].Held? || s.fate[k].Executed? then 1 else 0)
  }

  ghost predicate Inv(s: State) {
    && ThreadsTyped(s) && CountExact(s) && WorkConserving(s) && WaitersJustified(s) && StopSafe(s) && CloserInside(s)
    && LedgerQueue(s) && LedgerHeld(s) && LedgerStarts(s)
  }

  lemma InitialInv(s: State)
    requires Initial(s)
    ensures Inv(s)
  {
    assert Holders(s) == {};
  }

  // ---- What one step does to the thread sets ----

  lemma WakeAllAt(threads: map<nat, Thread>, signals: Signals)
    ensures WakeAll(threads, signals).Keys == threads.Keys
    ensures forall t :: t in threads ==> WakeAll(threads, signals)[t] == threads[t].(pc := WakePC(threads[t].pc, signals))
  {
  }

  lemma RemoveOne(a: set<nat>, b: set<nat>, t: nat)
    requires a - {t} <= b
    ensures |b| >= |a| - (if t in a then 1 else 0)
  {
    SubsetSize(a - {t}, b);
  }

  lemma {:induction false} SubsetSize(a: set<nat>, b: set<nat>)
    requires a <= b
    ensures |a| <= |b|
  {
    if a != {} {
      var x :| x in a;
      SubsetSize(a - {x}, b - {x});
    }
  }

  // ---- The locked region keeps the invariant ----

  /** What a pass that ends in executing `pick` does to the shared state. */
  ghost predicate RanStep(s: Shared, reports: bool, pick: Record, e: Effect) {
    && IsTop(s.queue, pick)
    && e == Effect(Shared(s.queue - multiset{pick}, s.executing - (if reports then 1 else 0) + 1, s.level), Run(pick), Signals(false, false))
  }

  /** What any other pass does: the queue stays, and a report that completes the work is broadcast. */
  ghost predicate IdleStep(s: Shared, reports: bool, e: Effect) {
    && !e.outcome.Run?
    && e.shared.queue == s.queue && e.shared.executing == s.executing - (if reports then 1 else 0)
    && (reports && Complete(e.shared) ==> e.signals.completion)
    && (e.signals.completion ==> reports || (e.shared.level == Stopped && e.signals.newTasks))
  }

  /** How an idle pass of a pool thread ends. */
  ghost predicate PoolStep(s: Shared, e: Effect) {
    && s.queue == multiset{} && e.shared.level == s.level && !e.signals.newTasks
    && e.outcome == (if s.level == Stopped then Leave else SleepNew)
  }

  /** How an idle pass of a client ends. */
  ghost predicate ClientStep(s: Shared, mode: Mode, e: Effect) {
    if !Complete(e.shared) then
      e.outcome == SleepDone && e.shared.level == s.level && !e.signals.newTasks
    else if mode == Stopping then
      e.outcome == Leave && e.shared.level == Stopped && e.signals == Signals(true, true)
    else
      e.outcome == Leave && e.shared.level == s.level && !e.signals.newTasks
  }

  lemma RegionRuns(mode: Mode, phase: Phase, s: Shared, pick: Record)
    requires IsTop(s.queue, pick) && s.queue != multiset{} && phase != ResumedDone
    ensures RanStep(s, phase == Finishing, pick, LockedRegion(mode, phase, s, pick))
  {
    hide IsTop, CompletionRegion;
  }

  lemma RegionIdles(mode: Mode, phase: Phase, s: Shared, pick: Record)
    requires s.queue == multiset{} || phase == ResumedDone
    requires phase == ResumedDone ==> mode != Pool
    ensures var e := LockedRegion(mode, phase, s, pick);
      IdleStep(s, phase == Finishing, e) && (if mode == Pool then PoolStep(s, e) else ClientStep(s, mode, e))
  {
  }

  ghost predicate WillRun(s: State, t: nat)
    requires t in s.threads
  {
    s.shared.queue != multiset{} && !s.threads[t].pc.AwakeDone?
  }

  /** The ways through the locked region. */
  lemma LockCases(s: State, t: nat, pick: Record)
    requires Enabled(s, Lock(t, pick)) && ThreadsTyped(s)
    ensures var e, reports := LockEffect(s, t, pick), s.threads[t].pc.Finished?;
      && (WillRun(s, t) ==> RanStep(s.shared, reports, pick, e))
      && (!WillRun(s, t) ==> IdleStep(s.shared, reports, e))
      && (!WillRun(s, t) && t in s.pool ==> PoolStep(s.shared, e))
      && (!WillRun(s, t) && t !in s.pool ==> ClientStep(s.shared, s.threads[t].mode, e))
  {
    hide IsTop, LockedRegion, RanStep, IdleStep, PoolStep, ClientStep;
    var mode, phase := s.threads[t].mode, PhaseOf(s.threads[t].pc);
    if WillRun(s, t) {
      RegionRuns(mode, phase, s.shared, pick);
    } else {
      RegionIdles(mode, phase, s.shared, pick);
    }
  }

  /** A pool thread never waits for completion, a client never for new tasks. */
  lemma LockOutcome(s: State, t: nat, pick: Record)
    requires Enabled(s, Lock(t, pick)) && ThreadsTyped(s)
    ensures LockEffect(s, t, pick).outcome != if t in s.pool then SleepDone else SleepNew
  {
    hide LockedRegion, IsTop, Complete, ThreadsTyped;
    LockCases(s, t, pick);
  }

  lemma LockThreads(s: State, t: nat, pick: Record)
    requires t in s.threads
    ensures var e, s' := LockEffect(s, t, pick), ApplyLock(s, t, pick);
      && s'.threads.Keys == s.threads.Keys && s'.pool == s.pool && s'.closing == s.closing && s'.shared == e.shared
      && s'.threads[t] == s.threads[t].(pc := After(e.outcome))
      && (forall u :: u in s.threads && u != t ==> s'.threads[u] == s.threads[u].(pc := WakePC(s.threads[u].pc, e.signals)))
  {
    hide LockedRegion;
    WakeAllAt(s.threads, LockEffect(s, t, pick).signals);
  }

  /** What the region does to the ledger. */
  lemma LockFate(s: State, t: nat, pick: Record)
    requires t in s.threads
    ensures var s', runs, pc := ApplyLock(s, t, pick), LockEffect(s, t, pick).outcome.Run?, s.threads[t].pc;
      && s'.fate == (if runs then Reported(s.fate, pc)[pick.ticket := Held(t)] else Reported(s.fate, pc))
      && s'.starts == (if runs && pick.ticket in s.starts then s.starts[pick.ticket := s.starts[pick.ticket] + 1] else s.starts)
  {
    hide LockedRegion, WakeAll, Reported;
  }

  lemma LockTyped(s: State, t: nat, pick: Record)
    requires Enabled(s, Lock(t, pick)) && ThreadsTyped(s)
    ensures ThreadsTyped(ApplyLock(s, t, pick))
  {
    hide ApplyLock, LockEffect, IsTop;
    LockOutcome(s, t, pick);
    LockThreads(s, t, pick);
  }

  lemma ReplaceOne(a: set<nat>, b: set<nat>, t: nat)
    requires a - {t} == b - {t}
    ensures |b| == |a| - (if t in a then 1 else 0) + (if t in b then 1 else 0)
  {
    assert |a - {t}| == |a| - (if t in a then 1 else 0);
    assert |b - {t}| == |b| - (if t in b then 1 else 0);
  }

  lemma LockHolders(s: State, t: nat, pick: Record)
    requires t in s.threads
    ensures Holders(ApplyLock(s, t, pick)) - {t} == Holders(s) - {t}
    ensures t in Holders(ApplyLock(s, t, pick)) <==> LockEffect(s, t, pick).outcome.Run?
    ensures t in Holders(s) <==> Holds(s.threads[t].pc)
  {
    hide ApplyLock, LockEffect;
    LockThreads(s, t, pick);
  }

  lemma LockCount(s: State, t: nat, pick: Record)
    requires Enabled(s, Lock(t, pick)) && ThreadsTyped(s) && CountExact(s)
    ensures CountExact(ApplyLock(s, t, pick))
  {
    hide ApplyLock, LockEffect, IsTop, Holders, Complete, ThreadsTyped, PoolStep, ClientStep;
    LockCases(s, t, pick);
    LockThreads(s, t, pick);
    LockHolders(s, t, pick);
    ReplaceOne(Holders(s), Holders(ApplyLock(s, t, pick)), t);
  }

  /** A thread that reports a finished task is among those counted. */
  lemma ReporterCounted(s: State, t: nat)
    requires CountExact(s) && t in s.threads
    ensures s.shared.executing >= if Holds(s.threads[t].pc) then 1 else 0
  {
    if Holds(s.threads[t].pc) {
      assert t in Holders(s);
    }
  }

  lemma LockWork(s: State, t: nat, pick: Record)
    requires Enabled(s, Lock(t, pick)) && ThreadsTyped(s) && WorkConserving(s)
    ensures WorkConserving(ApplyLock(s, t, pick))
  {
    hide ApplyLock, LockEffect;
    LockCases(s, t, pick);
    LockThreads(s, t, pick);
    var s' := ApplyLock(s, t, pick);
    if u :| Asleep(s', u) {
      if s.shared.queue != multiset{} {
        assert u != t && Asleep(s, u);
        assert Lookers(s) - {t} <= Lookers(s');
        RemoveOne(Lookers(s), Lookers(s'), t);
      }
    }
  }

  lemma LockWaiters(s: State, t: nat, pick: Record)
    requires Enabled(s, Lock(t, pick)) && ThreadsTyped(s) && CountExact(s) && WaitersJustified(s)
    ensures WaitersJustified(ApplyLock(s, t, pick))
  {
    hide ApplyLock, LockEffect, IsTop, CountExact;
    LockCases(s, t, pick);
    LockThreads(s, t, pick);
    ReporterCounted(s, t);
  }

  /** Who is in the loop after a pass: those who were, less the thread that leaves. */
  lemma LockInLoop(s: State, t: nat, pick: Record, u: nat)
    requires Enabled(s, Lock(t, pick)) && u in s.threads
    ensures var s' := ApplyLock(s, t, pick);
      && (InLoop(s', u) ==> InLoop(s, u)) && (InLoop(s, u) && u != t ==> InLoop(s', u))
      && Client(s', u) == Client(s, u) && s'.threads[u].mode == s.threads[u].mode
      && s'.threads.Keys == s.threads.Keys && s'.closing == s.closing
  {
    hide ApplyLock, LockEffect, IsTop;
    LockThreads(s, t, pick);
  }

  /** A pass stops the queue, or finds it stopped, only when nothing sleeps and no other client is left. */
  lemma LockStopped(s: State, t: nat, pick: Record)
    requires Enabled(s, Lock(t, pick)) && ThreadsTyped(s) && CountExact(s) && StopSafe(s)
    ensures var s' := ApplyLock(s, t, pick);
      && (s'.shared.level == Stopped ==> s'.closing && Complete(s'.shared))
      && (s'.shared.level == Stopped ==> forall u :: u in s'.threads ==> !Asleep(s', u) && (u !in s'.pool ==> !InLoop(s', u)))
      && (forall u :: u in s'.pool && u in s'.threads && !InLoop(s', u) ==> s'.shared.level == Stopped)
  {
    hide ApplyLock, LockEffect, IsTop, CountExact;
    LockCases(s, t, pick);
    LockThreads(s, t, pick);
    ReporterCounted(s, t);
    var s' := ApplyLock(s, t, pick);
    assert InLoop(s, t);
    forall u | u in s.threads ensures Client(s', u) == Client(s, u) && (InLoop(s', u) ==> InLoop(s, u)) {
      LockInLoop(s, t, pick, u);
    }
  }

  lemma LockStop(s: State, t: nat, pick: Record)
    requires Enabled(s, Lock(t, pick)) && ThreadsTyped(s) && CountExact(s) && StopSafe(s)
    ensures StopSafe(ApplyLock(s, t, pick))
  {
    hide ApplyLock, LockEffect, IsTop, CountExact, ThreadsTyped;
    var s' := ApplyLock(s, t, pick);
    LockStopped(s, t, pick);
    LockInLoop(s, t, pick, t);
    forall u | u in s.threads
      ensures (InLoop(s', u) ==> InLoop(s, u)) && Client(s', u) == Client(s, u) && s'.threads[u].mode == s.threads[u].mode
    {
      LockInLoop(s, t, pick, u);
    }
    forall u | Client(s', u) && InLoop(s', u) ensures s'.closing <==> s'.threads[u].mode == Stopping {
      assert Client(s, u) && InLoop(s, u);
    }
    forall u, v | s'.closing && Client(s', u) && InLoop(s', u) && Client(s', v) && InLoop(s', v) ensures u == v {
      assert Client(s, u) && InLoop(s, u) && Client(s, v) && InLoop(s, v);
    }
  }

  lemma LockCloser(s: State, t: nat, pick: Record)
    requires Enabled(s, Lock(t, pick)) && ThreadsTyped(s) && StopSafe(s) && CloserInside(s)
    ensures CloserInside(ApplyLock(s, t, pick))
  {
    hide ApplyLock, LockEffect, IsTop, Complete, IdleStep, PoolStep;
    var s' := ApplyLock(s, t, pick);
    LockCases(s, t, pick);
    LockThreads(s, t, pick);
    if s.closing && s'.shared.level == Running {
      LockKeepsStopped(s, t, pick);
      var u :| Client(s, u) && InLoop(s, u);
      LockInLoop(s, t, pick, u);
      assert Client(s', u) && InLoop(s', u);
    }
  }

  lemma LockKeepsStopped(s: State, t: nat, pick: Record)
    requires Enabled(s, Lock(t, pick)) && ThreadsTyped(s)
    ensures s.shared.level == Stopped ==> ApplyLock(s, t, pick).shared.level == Stopped
  {
    hide ApplyLock, LockEffect, IsTop, Complete, ThreadsTyped, IdleStep;
    LockCases(s, t, pick);
    LockThreads(s, t, pick);
  }

  lemma LedgerReport(queue: multiset<Record>, fate: map<nat, Fate>, ticket: nat)
    requires QueueLedger(queue, fate)
    requires ticket in fate && fate[ticket] != Queued
    ensures QueueLedger(queue, fate[ticket := Executed])
  {
  }

  lemma LedgerPop(queue: multiset<Record>, fate: map<nat, Fate>, pick: Record, t: nat)
    requires QueueLedger(queue, fate) && pick in queue
    ensures QueueLedger(queue - multiset{pick}, fate[pick.ticket := Held(t)])
  {
    var q, f := queue - multiset{pick}, fate[pick.ticket := Held(t)];
    forall k | k in f && f[k] == Queued ensures InQueue(q, k) {
      var r :| r in queue && r.ticket == k;
      assert r in q;
    }
  }

  lemma LockLedgerQueue(s: State, t: nat, pick: Record)
    requires Enabled(s, Lock(t, pick)) && ThreadsTyped(s) && LedgerQueue(s) && LedgerHeld(s)
    ensures LedgerQueue(ApplyLock(s, t, pick))
  {
    hide ApplyLock, LockEffect, Complete, PoolStep, ClientStep, ThreadsTyped, QueueLedger, LedgerHeld;
    LockCases(s, t, pick);
    LockThreads(s, t, pick);
    LockFate(s, t, pick);
    if s.threads[t].pc.Finished? {
      HeldFate(s, t);
      LedgerReport(s.shared.queue, s.fate, s.threads[t].pc.record.ticket);
    }
    if WillRun(s, t) {
      LedgerPop(s.shared.queue, Reported(s.fate, s.threads[t].pc), pick, t);
    }
  }

  lemma QueuedFate(queue: multiset<Record>, fate: map<nat, Fate>, r: Record)
    requires QueueLedger(queue, fate) && r in queue
    ensures r.ticket in fate && fate[r.ticket] == Queued
  {
  }

  lemma LockHeldForward(s: State, t: nat, pick: Record)
    requires Enabled(s, Lock(t, pick)) && ThreadsTyped(s) && LedgerQueue(s) && LedgerHeld(s)
    ensures var s' := ApplyLock(s, t, pick);
      forall u :: u in s'.threads && Holds(s'.threads[u].pc) ==>
        s'.threads[u].pc.record.ticket in s'.fate && s'.fate[s'.threads[u].pc.record.ticket] == Held(u)
  {
    hide ApplyLock, LockEffect, Complete, PoolStep, ClientStep, ThreadsTyped, QueueLedger;
    LockCases(s, t, pick);
    LockThreads(s, t, pick);
    LockFate(s, t, pick);
    if WillRun(s, t) {
      QueuedFate(s.shared.queue, s.fate, pick);
    }
    var s' := ApplyLock(s, t, pick);
    forall u | u in s'.threads && Holds(s'.threads[u].pc)
      ensures s'.threads[u].pc.record.ticket in s'.fate && s'.fate[s'.threads[u].pc.record.ticket] == Held(u)
    {
      if u != t {
        assert s'.threads[u].pc == s.threads[u].pc;
      }
    }
  }

  lemma LockLedgerHeld(s: State, t: nat, pick: Record)
    requires Enabled(s, Lock(t, pick)) && ThreadsTyped(s) && LedgerQueue(s) && LedgerHeld(s)
    ensures LedgerHeld(ApplyLock(s, t, pick))
  {
    hide ApplyLock, LockEffect, Complete, PoolStep, ClientStep, ThreadsTyped, QueueLedger;
    LockHeldForward(s, t, pick);
    LockCases(s, t, pick);
    LockThreads(s, t, pick);
    LockFate(s, t, pick);
    var s' := ApplyLock(s, t, pick);
    forall k | k in s'.fate && s'.fate[k].Held? ensures HoldsTicket(s', s'.fate[k].thread, k) {
      if !(WillRun(s, t) && k == pick.ticket) {
        assert k in s.fate && s.fate[k] == s'.fate[k] && HoldsTicket(s, s.fate[k].thread, k);
      }
    }
  }

  lemma LockLedgerStarts(s: State, t: nat, pick: Record)
    requires Enabled(s, Lock(t, pick)) && ThreadsTyped(s) && LedgerQueue(s) && LedgerHeld(s) && LedgerStarts(s)
    ensures LedgerStarts(ApplyLock(s, t, pick))
  {
    hide ApplyLock, LockEffect, IdleStep, PoolStep, ClientStep, ThreadsTyped, QueueLedger, LedgerHeld;
    LockCases(s, t, pick);
    LockFate(s, t, pick);
    HeldFate(s, t);
    if WillRun(s, t) {
      QueuedFate(s.shared.queue, s.fate, pick);
    } else {
      IdleOutcome(s.shared, s.threads[t].pc.Finished?, LockEffect(s, t, pick));
    }
  }

  lemma IdleOutcome(s: Shared, reports: bool, e: Effect)
    requires IdleStep(s, reports, e)
    ensures !e.outcome.Run?
  {
  }

  lemma HeldFate(s: State, t: nat)
    requires LedgerHeld(s) && t in s.threads
    ensures Holds(s.threads[t].pc) ==>
      s.threads[t].pc.record.ticket in s.fate && s.fate[s.threads[t].pc.record.ticket] == Held(t)
  {
  }

  lemma LockKeepsInv(s: State, t: nat, pick: Record)
    requires Inv(s) && Enabled(s, Lock(t, pick))
    ensures Inv(Apply(s, Lock(t, pick)))
  {
    hide ApplyLock, IsTop, ThreadsTyped, CountExact, WorkConserving, WaitersJustified, StopSafe, CloserInside,
      LedgerQueue, LedgerHeld, LedgerStarts;
    LockTyped(s, t, pick);
    LockCount(s, t, pick);
    LockWork(s, t, pick);
    LockWaiters(s, t, pick);
    LockStop(s, t, pick);
    LockCloser(s, t, pick);
    LockLedgerQueue(s, t, pick);
    LockLedgerHeld(s, t, pick);
    LockLedgerStarts(s, t, pick);
  }

  // ---- The other steps keep the invariant ----

  /** The closing thread stays where no client leaves and a stopped queue stays stopped. */
  lemma CloserStays(s: State, s': State)
    requires CloserInside(s) && s'.closing == s.closing && s'.shared.level == s.shared.level
    requires forall u :: Client(s, u) && InLoop(s, u) ==> Client(s', u) && InLoop(s', u)
    ensures CloserInside(s')
  {
    if s.closing && s.shared.level == Running {
      var u :| Client(s, u) && InLoop(s, u);
      assert Client(s', u) && InLoop(s', u);
    }
  }

  /** The ledger only depends on the queue and on who holds what. */
  lemma LedgerUnmoved(s: State, s': State)
    requires LedgerQueue(s) && LedgerHeld(s) && LedgerStarts(s)
    requires s'.shared.queue == s.shared.queue && s'.fate == s.fate && s'.starts == s.starts && s'.threads.Keys == s.threads.Keys
    requires forall u :: u in s.threads ==> Holds(s'.threads[u].pc) == Holds(s.threads[u].pc)
    requires forall u :: u in s.threads && Holds(s.threads[u].pc) && Holds(s'.threads[u].pc) ==>
      s'.threads[u].pc.record == s.threads[u].pc.record
    ensures LedgerQueue(s') && LedgerHeld(s') && LedgerStarts(s')
  {
    hide QueueLedger;
    forall k | k in s'.fate && s'.fate[k].Held? ensures HoldsTicket(s', s'.fate[k].thread, k) {
      assert HoldsTicket(s, s.fate[k].thread, k);
    }
  }

  lemma ReturnKeepsInv(s: State, t: nat)
    requires Inv(s) && Enabled(s, Return(t))
    ensures Inv(Apply(s, Return(t)))
  {
    hide CloserInside, LedgerQueue, LedgerHeld, LedgerStarts;
    var s' := Apply(s, Return(t));
    LedgerUnmoved(s, s');
    assert Holders(s') == Holders(s);
    SubsetSize(Lookers(s), Lookers(s'));
    forall u | Asleep(s', u) ensures Asleep(s, u) {
    }
    forall u | u in s.threads ensures InLoop(s', u) == InLoop(s, u) && Client(s', u) == Client(s, u) {
    }
    CloserStays(s, s');
  }

  lemma SpuriousKeepsInv(s: State, t: nat)
    requires Inv(s) && Enabled(s, Spurious(t))
    ensures Inv(Apply(s, Spurious(t)))
  {
    hide CloserInside, LedgerQueue, LedgerHeld, LedgerStarts;
    var s' := Apply(s, Spurious(t));
    LedgerUnmoved(s, s');
    assert Holders(s') == Holders(s);
    SubsetSize(Lookers(s), Lookers(s'));
    forall u | Asleep(s', u) ensures Asleep(s, u) {
    }
    forall u | u in s.threads ensures InLoop(s', u) == InLoop(s, u) && Client(s', u) == Client(s, u) {
    }
    CloserStays(s, s');
  }

  lemma CallKeepsInv(s: State, t: nat, mode: Mode)
    requires Inv(s) && Enabled(s, Call(t, mode))
    ensures Inv(Apply(s, Call(t, mode)))
  {
    hide LedgerQueue, LedgerHeld, LedgerStarts;
    var s' := Apply(s, Call(t, mode));
    LedgerUnmoved(s, s');
    assert Holders(s') == Holders(s);
    assert Lookers(s') == Lookers(s);
    forall u | Asleep(s', u) ensures Asleep(s, u) {
    }
    forall u | u in s.threads ensures (InLoop(s', u) <==> InLoop(s, u) || u == t) && Client(s', u) == Client(s, u) {
    }
    assert Client(s', t) && InLoop(s', t);
  }

  lemma LedgerPush(queue: multiset<Record>, fate: map<nat, Fate>, r: Record)
    requires QueueLedger(queue, fate) && r.ticket !in fate
    ensures QueueLedger(queue + multiset{r}, fate[r.ticket := Queued])
  {
    var q, f := queue + multiset{r}, fate[r.ticket := Queued];
    forall k | k in f && f[k] == Queued ensures InQueue(q, k) {
      if k == r.ticket {
        assert r in q;
      } else {
        var x :| x in queue && x.ticket == k;
        assert x in q;
      }
    }
  }

  lemma EnqueueKeepsLedger(s: State, r: Record, wake: nat)
    requires Inv(s) && Enabled(s, Enqueue(r, wake))
    ensures var s' := Apply(s, Enqueue(r, wake)); LedgerQueue(s') && LedgerHeld(s') && LedgerStarts(s')
  {
    hide QueueLedger, ThreadsTyped, CountExact, WorkConserving, WaitersJustified, StopSafe;
    LedgerPush(s.shared.queue, s.fate, r);
    var s' := Apply(s, Enqueue(r, wake));
    forall k | k in s'.fate && s'.fate[k].Held? ensures HoldsTicket(s', s'.fate[k].thread, k) {
      assert HoldsTicket(s, s.fate[k].thread, k);
    }
  }

  /** The single notification pays for the task it announces. */
  lemma EnqueueKeepsWork(s: State, r: Record, wake: nat)
    requires ThreadsTyped(s) && WorkConserving(s) && Enabled(s, Enqueue(r, wake))
    ensures WorkConserving(Apply(s, Enqueue(r, wake)))
  {
    var s' := Apply(s, Enqueue(r, wake));
    if u :| Asleep(s', u) {
      assert Asleep(s, u);
      assert Asleep(s, wake) && wake !in Lookers(s);
      assert Lookers(s') == Lookers(s) + {wake};
      assert |s'.shared.queue| == |s.shared.queue| + 1;
    }
  }

  lemma EnqueueKeepsInv(s: State, r: Record, wake: nat)
    requires Inv(s) && Enabled(s, Enqueue(r, wake))
    ensures Inv(Apply(s, Enqueue(r, wake)))
  {
    hide CloserInside, QueueLedger, WorkConserving, LedgerQueue, LedgerHeld, LedgerStarts, Lookers;
    EnqueueKeepsLedger(s, r, wake);
    EnqueueKeepsWork(s, r, wake);
    var s' := Apply(s, Enqueue(r, wake));
    assert Holders(s') == Holders(s);
    assert r in s'.shared.queue;
    forall u | u in s.threads ensures InLoop(s', u) == InLoop(s, u) && Client(s', u) == Client(s, u) {
    }
    CloserStays(s, s');
  }

  lemma LedgerShrink(queue: multiset<Record>, fate: map<nat, Fate>, less: multiset<Record>, fate': map<nat, Fate>)
    requires QueueLedger(queue, fate) && Thinned(less, queue)
    requires fate' == map k | k in fate :: if fate[k] == Queued && !InQueue(less, k) then Removed else fate[k]
    ensures QueueLedger(less, fate')
  {
    forall r | r in less ensures less[r] == 1 && r.ticket in fate' && fate'[r.ticket] == Queued {
      assert InQueue(less, r.ticket) && InQueue(queue, r.ticket);
    }
  }

  lemma ShrinkKeepsLedger(s: State, queue: multiset<Record>, signals: Signals)
    requires Inv(s) && Thinned(queue, s.shared.queue)
    ensures var s' := Shrink(s, queue, signals); LedgerQueue(s') && LedgerHeld(s') && LedgerStarts(s')
  {
    hide QueueLedger, InQueue, Thinned, ThreadsTyped, CountExact, WorkConserving, WaitersJustified, StopSafe;
    var s' := Shrink(s, queue, signals);
    WakeAllAt(s.threads, signals);
    LedgerShrink(s.shared.queue, s.fate, queue, s'.fate);
    forall k | k in s'.fate && s'.fate[k].Held? ensures HoldsTicket(s', s'.fate[k].thread, k) {
      assert HoldsTicket(s, s.fate[k].thread, k);
    }
  }

  /** Removing and reordering queued records, with a broadcast if the queue becomes empty. */
  lemma ShrinkKeepsInv(s: State, queue: multiset<Record>, signals: Signals)
    requires Inv(s) && Thinned(queue, s.shared.queue) && !signals.newTasks
    requires queue == multiset{} && s.shared.queue != multiset{} ==> signals.completion
    ensures Inv(Shrink(s, queue, signals))
  {
    hide CloserInside, LedgerQueue, LedgerHeld, LedgerStarts, InQueue;
    ShrinkKeepsLedger(s, queue, signals);
    var s' := Shrink(s, queue, signals);
    WakeAllAt(s.threads, signals);
    assert Holders(s') == Holders(s);
    assert Lookers(s') == Lookers(s);
    forall u | Asleep(s', u) ensures Asleep(s, u) {
    }
    forall u | u in s.threads ensures InLoop(s', u) == InLoop(s, u) && Client(s', u) == Client(s, u) {
    }
    CloserStays(s, s');
  }

  /** Every step from a state that satisfies the invariant leads to one that does. */
  lemma StepKeepsInv(s: State, e: Event)
    requires Inv(s) && Enabled(s, e)
    ensures Inv(Apply(s, e))
  {
    hide Inv, ApplyLock, IsTop;
    match e
    case Lock(t, pick) => LockKeepsInv(s, t, pick);
    case Return(t) => ReturnKeepsInv(s, t);
    case Spurious(t) => SpuriousKeepsInv(s, t);
    case Enqueue(r, wake) => EnqueueKeepsInv(s, r, wake);
    case Edit(queue) => ShrinkKeepsInv(s, queue, Signals(false, |queue| < |s.shared.queue| && queue == multiset{}));
    case Clear => ShrinkKeepsInv(s, multiset{}, Signals(false, true));
    case Call(t, mode) => CallKeepsInv(s, t, mode);
  }

  // ---- The machine and the methods of the queue ----

  /** A fresh queue with any pool and any clients is a state to start from. */
  lemma FreshIsInitial(pool: set<nat>, clients: set<nat>, s: State)
    requires pool != {} && pool !! clients
    requires s.shared == Shared(multiset{}, 0, Running) && s.pool == pool && s.threads.Keys == pool + clients
    requires forall t :: t in pool ==> s.threads[t] == Thread(Pool, Ready)
    requires forall t :: t in clients ==> s.threads[t].mode != Pool && s.threads[t].pc == Outside
    requires !s.closing && s.fate == map[] && s.starts == map[]
    ensures Initial(s)
  {
  }

  /** Every event changes the shared state as the method of the queue does. */
  lemma EventEffects(s: State, e: Event)
    requires Enabled(s, e)
    ensures match e
      case Lock(t, pick) => Apply(s, e).shared == LockEffect(s, t, pick).shared
      case Enqueue(r, _) => Apply(s, e).shared == s.shared.(queue := s.shared.queue + multiset{r})
      case Edit(queue) => Apply(s, e).shared == s.shared.(queue := queue)
      case Clear => Apply(s, e).shared == s.shared.(queue := multiset{})
      case _ => Apply(s, e).shared == s.shared
  {
    hide LockEffect;
  }

  /** A task that is started has the highest priority of all that are queued, and leaves exactly the others. */
  lemma HighestFirst(s: State, t: nat, pick: Record)
    requires Reachable(s) && Enabled(s, Lock(t, pick)) && LockEffect(s, t, pick).outcome.Run?
    ensures var r := LockEffect(s, t, pick).outcome.record;
      && r in s.shared.queue && (forall x :: x in s.shared.queue ==> x.priority <= r.priority)
      && Apply(s, Lock(t, pick)).shared.queue == s.shared.queue - multiset{r}
      && Apply(s, Lock(t, pick)).threads[t].pc == Executing(r)
  {
    hide LockEffect, ApplyLock, IsTop, IdleStep, PoolStep, ClientStep;
    ReachableInv(s);
    LockCases(s, t, pick);
    if !WillRun(s, t) {
      IdleOutcome(s.shared, s.threads[t].pc.Finished?, LockEffect(s, t, pick));
    }
    LockThreads(s, t, pick);
    TopPlain(s.shared.queue, pick);
  }

  lemma QueueDistinct(s: State)
    requires LedgerQueue(s)
    ensures Thinned(s.shared.queue, s.shared.queue)
  {
  }

  // What the machine allows from outside: everything the methods of the queue accept.

  lemma EnqueuePossible(s: State, r: Record)
    requires s.shared.level == Running && r.ticket !in s.fate
    ensures exists wake :: Enabled(s, Enqueue(r, wake))
  {
    if t :| Asleep(s, t) {
      assert Enabled(s, Enqueue(r, t));
    } else {
      assert Enabled(s, Enqueue(r, 0));
    }
  }

  lemma EditsPossible(s: State, visit: Visitor, w: seq<Record>)
    requires Reachable(s) && multiset(w) == s.shared.queue && forall seen, r :: visit(seen, r).record.ticket == r.ticket
    ensures Enabled(s, Edit(Edited(visit, w))) && Enabled(s, Edit(Edited(visit, Reversed(w))))
    ensures forall r :: r in w ==> Enabled(s, Edit(s.shared.queue - multiset{r}))
  {
    TicketsKept(visit);
    hide *;
    ReachableInv(s);
    InvLedgerQueue(s);
    QueueDistinct(s);
    EditedIsEdit(visit, w);
    ThinnedPossible(s, Edited(visit, w));
    ThinnedPossible(s, Edited(visit, Reversed(w)));
    forall r | r in w ensures Enabled(s, Edit(s.shared.queue - multiset{r})) {
      CancelPossible(s, w, r);
    }
  }

  lemma ThinnedPossible(s: State, queue: multiset<Record>)
    requires Thinned(queue, s.shared.queue)
    ensures Enabled(s, Edit(queue))
  {
  }

  lemma TicketsKept(visit: Visitor)
    requires forall seen, r :: visit(seen, r).record.ticket == r.ticket
    ensures KeepsTickets(visit)
  {
  }

  lemma CancelPossible(s: State, w: seq<Record>, r: Record)
    requires multiset(w) == s.shared.queue && Thinned(s.shared.queue, s.shared.queue) && r in w
    ensures Enabled(s, Edit(s.shared.queue - multiset{r}))
  {
    hide Thinned;
    assert r in multiset(w);
    CancelIsEdit(s.shared.queue, r);
  }

  lemma InvLedgerQueue(s: State)
    requires Inv(s)
    ensures LedgerQueue(s)
  {
  }

  /** Calls are possible as the source allows them, clearing and wakeups without a cause always. */
  lemma CallsPossible(s: State, t: nat)
    ensures Enabled(s, Clear)
    ensures t in s.threads && t !in s.pool && s.threads[t].pc.Outside? && !s.closing ==> Enabled(s, Call(t, Waiting))
    ensures t in s.threads && t !in s.pool && !s.closing && (forall u :: u in s.threads && u !in s.pool ==> s.threads[u].pc.Outside?) ==>
      Enabled(s, Call(t, Stopping))
    ensures t in s.threads && (s.threads[t].pc.AsleepNew? || s.threads[t].pc.AsleepDone?) ==> Enabled(s, Spurious(t))
  {
  }

  // ---- Runs ----

  /** `es` is a run from `s` to `s'`. */
  ghost predicate RunsTo(s: State, es: seq<Event>, s': State)
    decreases |es|
  {
    if es == [] then s == s' else Enabled(s, es[0]) && RunsTo(Apply(s, es[0]), es[1..], s')
  }

  /** The invariant holds in every state of every run. */
  lemma {:induction false} RunKeepsInv(s: State, es: seq<Event>, s': State)
    requires Inv(s) && RunsTo(s, es, s')
    ensures Inv(s')
    decreases |es|
  {
    hide Inv, Enabled, Apply;
    if es != [] {
      StepKeepsInv(s, es[0]);
      RunKeepsInv(Apply(s, es[0]), es[1..], s');
    }
  }

  /** `s` is reached by some run of a fresh queue. */
  ghost predicate Reachable(s: State) {
    exists s0, es :: Initial(s0) && RunsTo(s0, es, s)
  }

  lemma ReachableInv(s: State)
    requires Reachable(s)
    ensures Inv(s)
  {
    hide Inv, Enabled, Apply;
    var s0, es :| Initial(s0) && RunsTo(s0, es, s);
    InitialInv(s0);
    RunKeepsInv(s0, es, s);
  }

  /** Only its own pass takes a thread out of the loop. */
  lemma LeavesByPass(s: State, e: Event, t: nat)
    requires Enabled(s, e) && InLoop(s, t) && !InLoop(Apply(s, e), t)
    ensures e.Lock? && e.thread == t && LockEffect(s, t, e.pick).outcome == Leave
  {
    hide ApplyLock, LockEffect, IsTop, Thinned;
    match e
    case Lock(u, pick) =>
      LockThreads(s, u, pick);
      LockInLoop(s, u, pick, t);
    case _ =>
  }

  /**
   When a client leaves the loop of wait_for_all or of the destructor, nothing is
   queued or executing: every ticket ever issued, by clients or by running tasks,
   was started exactly once and finished, or was never started because it was removed.
   */
  lemma LeaveMeansAllDone(s: State, e: Event, t: nat)
    requires Reachable(s) && Enabled(s, e) && t in s.threads && t !in s.pool && t in Apply(s, e).threads
    requires !s.threads[t].pc.Outside? && Apply(s, e).threads[t].pc.Outside?
    ensures var s' := Apply(s, e);
      && s'.shared.queue == multiset{} && s'.shared.executing == 0
      && (forall u :: u in s'.threads ==> !Holds(s'.threads[u].pc))
      && s'.starts.Keys == s'.fate.Keys
      && (forall k :: k in s'.fate && k in s'.starts ==>
            (s'.fate[k] == Executed && s'.starts[k] == 1) || (s'.fate[k] == Removed && s'.starts[k] == 0))
  {
    hide ApplyLock, LockEffect, IsTop, QueueLedger, WorkConserving, WaitersJustified, StopSafe, Apply;
    ReachableInv(s);
    LeavesByPass(s, e, t);
    LeavingPass(s, t, e.pick);
  }

  lemma LeavingPass(s: State, t: nat, pick: Record)
    requires Inv(s) && Client(s, t) && Enabled(s, Lock(t, pick)) && LockEffect(s, t, pick).outcome == Leave
    ensures var s' := Apply(s, Lock(t, pick));
      && s'.shared.queue == multiset{} && s'.shared.executing == 0
      && (forall u :: u in s'.threads ==> !Holds(s'.threads[u].pc))
      && s'.starts.Keys == s'.fate.Keys
      && (forall k :: k in s'.fate && k in s'.starts ==>
            (s'.fate[k] == Executed && s'.starts[k] == 1) || (s'.fate[k] == Removed && s'.starts[k] == 0))
  {
    hide ApplyLock, LockEffect, IsTop, QueueLedger, WorkConserving, WaitersJustified, StopSafe;
    StepKeepsInv(s, Lock(t, pick));
    LockCases(s, t, pick);
    LockThreads(s, t, pick);
    var s' := Apply(s, Lock(t, pick));
    NobodyHolds(s');
    EmptyQueueFates(s');
  }

  lemma EmptyQueueFates(s: State)
    requires LedgerQueue(s) && s.shared.queue == multiset{}
    ensures forall k :: k in s.fate ==> s.fate[k] != Queued
  {
  }

  /** A fate, once decided, stays; a held ticket can only finish. */
  lemma FatesAreFinal(s: State, e: Event, k: nat)
    requires Inv(s) && Enabled(s, e) && k in s.fate
    ensures var f := Apply(s, e).fate;
      && k in f
      && (s.fate[k] == Executed || s.fate[k] == Removed ==> f[k] == s.fate[k])
      && (s.fate[k].Held? ==> f[k] == s.fate[k] || f[k] == Executed)
  {
    hide LockEffect, CountExact, WorkConserving, WaitersJustified, StopSafe;
    match e
    case Lock(t, pick) =>
      LockCases(s, t, pick);
      LockFate(s, t, pick);
    case _ =>
  }

  // ---- No lost wakeup, no deadlock ----

  /** Tasks queued implies some pool thread is on its way to them. */
  lemma NoLostWakeup(s: State)
    requires Reachable(s) && s.shared.queue != multiset{}
    ensures exists t :: t in s.pool && InLoop(s, t) && !Asleep(s, t)
  {
    hide QueueLedger;
    ReachableInv(s);
    if u :| Asleep(s, u) {
      assert |s.shared.queue| >= 1;
      assert Lookers(s) != {};
      var t :| t in Lookers(s);
      assert InLoop(s, t);
    } else {
      var t :| t in s.pool;
      assert InLoop(s, t) && !Asleep(s, t);
    }
  }

  /** Steps of the threads themselves, as opposed to calls and spurious wakeups. */
  ghost predicate Internal(e: Event) { e.Lock? || e.Return? }

  ghost predicate CanMove(s: State) {
    exists e :: Internal(e) && Enabled(s, e)
  }

  lemma CanMovePlain(s: State)
    ensures CanMove(s) <==> (exists t, pick :: Enabled(s, Lock(t, pick))) || (exists t :: Enabled(s, Return(t)))
  {
    hide Enabled;
    if e :| Internal(e) && Enabled(s, e) {
      if e.Lock? {
        assert Enabled(s, Lock(e.thread, e.pick));
      } else {
        assert Enabled(s, Return(e.thread));
      }
    }
    if t, pick :| Enabled(s, Lock(t, pick)) {
      assert Internal(Lock(t, pick));
    }
    if t :| Enabled(s, Return(t)) {
      assert Internal(Return(t));
    }
  }

  lemma SplitOff(queue: multiset<Record>, x: Record)
    requires x in queue
    ensures |queue - multiset{x}| < |queue|
    ensures forall y :: y in queue <==> y == x || y in queue - multiset{x}
  {
    assert queue == (queue - multiset{x}) + multiset{x};
  }

  lemma {:induction false} TopExists(queue: multiset<Record>)
    requires queue != multiset{}
    ensures exists r :: IsTop(queue, r)
    decreases |queue|
  {
    var x :| x in queue;
    var rest := queue - multiset{x};
    SplitOff(queue, x);
    if rest == multiset{} {
      assert IsTop(queue, x);
    } else {
      TopExists(rest);
      var r :| IsTop(rest, r);
      assert IsTop(queue, if r.priority < x.priority then x else r);
    }
  }

  lemma LockerCanMove(s: State, t: nat)
    requires t in s.threads && CanLock(s.threads[t].pc)
    ensures CanMove(s)
  {
    hide IsTop;
    if s.shared.queue == multiset{} {
      assert Enabled(s, Lock(t, Record(0, 0, 0)));
    } else {
      TopExists(s.shared.queue);
      var r :| IsTop(s.shared.queue, r);
      assert Enabled(s, Lock(t, r));
    }
  }

  lemma AwakeCanMove(s: State, t: nat)
    requires InLoop(s, t) && !s.threads[t].pc.AsleepNew? && !s.threads[t].pc.AsleepDone?
    ensures CanMove(s)
  {
    if s.threads[t].pc.Executing? {
      assert Enabled(s, Return(t));
    } else {
      LockerCanMove(s, t);
    }
  }

  /** While a client waits, some thread can always take a step of its own. */
  lemma NoDeadlock(s: State, c: nat)
    requires Reachable(s) && Client(s, c) && InLoop(s, c)
    ensures CanMove(s)
  {
    hide QueueLedger, CanMove;
    ReachableInv(s);
    if !s.threads[c].pc.AsleepDone? {
      AwakeCanMove(s, c);
    } else if s.shared.queue != multiset{} {
      NoLostWakeup(s);
      var t :| t in s.pool && InLoop(s, t) && !Asleep(s, t);
      AwakeCanMove(s, t);
    } else {
      assert Holders(s) != {};
      var t :| t in Holders(s);
      assert InLoop(s, t);
      AwakeCanMove(s, t);
    }
  }

  /** Once stopped, the queue is empty and stays so, and every pool thread left can lock and then exits. */
  lemma StoppedForGood(s: State, e: Event)
    requires Reachable(s) && s.shared.level == Stopped
    ensures s.shared.queue == multiset{} && s.shared.executing == 0
    ensures forall t :: t in s.pool && InLoop(s, t) ==> CanLock(s.threads[t].pc)
    ensures Enabled(s, e) ==> !e.Enqueue? && Apply(s, e).shared == s.shared
    ensures Enabled(s, e) && e.Lock? ==> e.thread in s.pool && !InLoop(Apply(s, e), e.thread)
  {
    hide ApplyLock, LockEffect, IsTop, QueueLedger;
    ReachableInv(s);
    NobodyHolds(s);
    forall t | t in s.pool && InLoop(s, t) ensures CanLock(s.threads[t].pc) {
      assert !Asleep(s, t);
    }
    if Enabled(s, e) && e.Lock? {
      assert InLoop(s, e.thread);
      LockCases(s, e.thread, e.pick);
      LockThreads(s, e.thread, e.pick);
    }
  }

  lemma NobodyHolds(s: State)
    requires CountExact(s) && s.shared.executing == 0
    ensures forall t :: t in s.threads ==> !Holds(s.threads[t].pc)
  {
    forall t | t in s.threads ensures !Holds(s.threads[t].pc) {
      assert t !in Holders(s);
    }
  }

  /**
   The assertions of the source hold: the wait for completion only runs while
   the queue is running, and an executing task may always enqueue more.
   */
  lemma RunningWhileWorking(s: State, t: nat)
    requires Reachable(s) && InLoop(s, t)
    requires t !in s.pool || Holds(s.threads[t].pc)
    ensures s.shared.level == Running
  {
    hide QueueLedger;
    ReachableInv(s);
    if t in s.pool {
      ReporterCounted(s, t);
    } else {
      assert Client(s, t);
    }
  }

  // ---- Every wait ends ----

  ghost function ExecutingThreads(s: State): set<nat> { set t | t in s.threads && s.threads[t].pc.Executing? }

  ghost function FinishedThreads(s: State): set<nat> { set t | t in s.threads && s.threads[t].pc.Finished? }

  ghost function AwakeThreads(s: State): set<nat> {
    set t | t in s.threads && (s.threads[t].pc.Ready? || s.threads[t].pc.AwakeNew? || s.threads[t].pc.AwakeDone?)
  }

  /** The work left: a queued task has to be popped, returned from and reported. */
  ghost function Work(s: State): nat {
    3 * |s.shared.queue| + 2 * |ExecutingThreads(s)| + |FinishedThreads(s)| + (if s.shared.level == Running then 1 else 0)
  }

  ghost function Measure(s: State): nat {
    Work(s) * (|s.threads| + 1) + |AwakeThreads(s)|
  }

  /** Thread `t` is the only one whose execution state changes. */
  lemma OthersWork(s: State, s': State, t: nat)
    requires t in s.threads && s'.threads.Keys == s.threads.Keys
    requires forall u :: u in s.threads && u != t ==> (s'.threads[u].pc.Executing? <==> s.threads[u].pc.Executing?)
    requires forall u :: u in s.threads && u != t ==> (s'.threads[u].pc.Finished? <==> s.threads[u].pc.Finished?)
    ensures |ExecutingThreads(s')| == |ExecutingThreads(s)|
      - (if s.threads[t].pc.Executing? then 1 else 0) + (if s'.threads[t].pc.Executing? then 1 else 0)
    ensures |FinishedThreads(s')| == |FinishedThreads(s)|
      - (if s.threads[t].pc.Finished? then 1 else 0) + (if s'.threads[t].pc.Finished? then 1 else 0)
  {
    assert ExecutingThreads(s') - {t} == ExecutingThreads(s) - {t};
    ReplaceOne(ExecutingThreads(s), ExecutingThreads(s'), t);
    assert FinishedThreads(s') - {t} == FinishedThreads(s) - {t};
    ReplaceOne(FinishedThreads(s), FinishedThreads(s'), t);
  }

  /** A pass that neither reports nor starts a task nor stops the queue takes its thread out of the awake ones. */
  lemma LockAwake(s: State, t: nat, pick: Record)
    requires Enabled(s, Lock(t, pick)) && ThreadsTyped(s) && StopSafe(s)
    requires !WillRun(s, t) && !s.threads[t].pc.Finished? && LockEffect(s, t, pick).shared.level == s.shared.level
    ensures AwakeThreads(ApplyLock(s, t, pick)) == AwakeThreads(s) - {t} && t in AwakeThreads(s)
  {
    hide ApplyLock, LockEffect, IsTop;
    LockCases(s, t, pick);
    LockThreads(s, t, pick);
    assert InLoop(s, t);
  }

  lemma LockOthersWork(s: State, t: nat, pick: Record)
    requires t in s.threads
    ensures var s' := ApplyLock(s, t, pick);
      && |ExecutingThreads(s')| == |ExecutingThreads(s)|
        - (if s.threads[t].pc.Executing? then 1 else 0) + (if LockEffect(s, t, pick).outcome.Run? then 1 else 0)
      && |FinishedThreads(s')| == |FinishedThreads(s)| - (if s.threads[t].pc.Finished? then 1 else 0)
  {
    hide ApplyLock, LockEffect, ExecutingThreads, FinishedThreads;
    LockThreads(s, t, pick);
    OthersWork(s, ApplyLock(s, t, pick), t);
  }

  lemma TakenSize(queue: multiset<Record>, r: Record)
    requires IsTop(queue, r)
    ensures |queue - multiset{r}| == |queue| - 1
  {
  }

  lemma LockWorks(s: State, t: nat, pick: Record)
    requires Enabled(s, Lock(t, pick)) && ThreadsTyped(s) && StopSafe(s)
    ensures var s' := ApplyLock(s, t, pick);
      Work(s') < Work(s) || (Work(s') == Work(s) && |AwakeThreads(s')| < |AwakeThreads(s)|)
  {
    hide ApplyLock, LockEffect, ExecutingThreads, FinishedThreads, AwakeThreads, StopSafe, ThreadsTyped, Complete, IsTop;
    LockCases(s, t, pick);
    LockThreads(s, t, pick);
    LockOthersWork(s, t, pick);
    var s' := ApplyLock(s, t, pick);
    if WillRun(s, t) {
      TakenSize(s.shared.queue, pick);
    } else if !s.threads[t].pc.Finished? && s'.shared.level == s.shared.level {
      LockAwake(s, t, pick);
    }
  }

  lemma AwakeBound(s: State)
    ensures |AwakeThreads(s)| <= |s.threads|
  {
    SubsetSize(AwakeThreads(s), s.threads.Keys);
    assert |s.threads.Keys| == |s.threads|;
  }

  lemma MeasureDrops(w: nat, w': nat, a: nat, a': nat, n: nat)
    requires w' < w || (w' == w && a' < a)
    requires a' <= n
    ensures w' * (n + 1) + a' < w * (n + 1) + a
  {
    if w' < w {
      MulStep(w', w, n + 1);
    }
  }

  /** Every step of the threads themselves uses up some of a bounded measure. */
  lemma InternalStepDrops(s: State, e: Event)
    requires Inv(s) && Enabled(s, e) && Internal(e)
    ensures Measure(Apply(s, e)) < Measure(s)
  {
    hide ApplyLock, IsTop, CountExact, WorkConserving, WaitersJustified, StopSafe, LedgerQueue, LedgerHeld, LedgerStarts,
      Work, AwakeThreads, ThreadsTyped;
    var s' := Apply(s, e);
    match e {
      case Lock(t, pick) =>
        LockWorks(s, t, pick);
        LockThreads(s, t, pick);
      case Return(t) =>
        ReturnWorks(s, t);
    }
    assert s'.threads.Keys == s.threads.Keys;
    assert |s'.threads| == |s'.threads.Keys| == |s.threads.Keys| == |s.threads|;
    AwakeBound(s');
    MeasureDrops(Work(s), Work(s'), |AwakeThreads(s)|, |AwakeThreads(s')|, |s.threads|);
  }

  lemma ReturnWorks(s: State, t: nat)
    requires Enabled(s, Return(t))
    ensures Work(Apply(s, Return(t))) < Work(s)
  {
    hide ExecutingThreads, FinishedThreads;
    OthersWork(s, Apply(s, Return(t)), t);
  }

  // ---- What clients and running tasks add ----

  /** How much an event from outside the thread loop can add to the measure of `n` threads. */
  ghost function Cost(e: Event, n: nat): nat {
    match e
    case Lock(_, _) => 0
    case Return(_) => 0
    case Spurious(_) => 1
    case Call(_, _) => 1
    case Enqueue(_, _) => 3 * (n + 1) + 1
    case Edit(_) => n
    case Clear => n
  }

  ghost function Costs(es: seq<Event>, n: nat): nat {
    if es == [] then 0 else Cost(es[0], n) + Costs(es[1..], n)
  }

  ghost function Internals(es: seq<Event>): nat {
    if es == [] then 0 else (if Internal(es[0]) then 1 else 0) + Internals(es[1..])
  }

  lemma {:induction false} InternalsCount(es: seq<Event>, own: Event -> bool)
    requires forall e :: own(e) <==> e.Lock? || e.Return?
    ensures Internals(es) == |Filter(own, es)| <= |es|
  {
    if es != [] {
      InternalsCount(es[1..], own);
      FilterConcat(own, [es[0]], es[1..]);
      assert es == [es[0]] + es[1..] && [es[0]][..0] == [];
    }
  }

  /** Only events from outside cost anything, and each a bounded amount. */
  lemma {:induction false} CostsBound(es: seq<Event>, n: nat)
    ensures Costs(es, n) <= (3 * n + 4) * (|es| - Internals(es))
  {
    if es != [] {
      CostsBound(es[1..], n);
      var k := |es[1..]| - Internals(es[1..]);
      if !Internal(es[0]) {
        assert (3 * n + 4) * (k + 1) == (3 * n + 4) * k + (3 * n + 4);
      }
    }
  }

  /** The threads that hold a task are the same ones, and at most `woken` more are awake. */
  lemma SameHolders(s: State, s': State, woken: nat)
    requires s'.threads.Keys == s.threads.Keys
    requires forall t :: t in s.threads ==> (s'.threads[t].pc.Executing? <==> s.threads[t].pc.Executing?)
    requires forall t :: t in s.threads ==> (s'.threads[t].pc.Finished? <==> s.threads[t].pc.Finished?)
    requires |AwakeThreads(s')| <= |AwakeThreads(s)| + woken
    requires s'.shared.level == s.shared.level
    ensures |s'.threads| == |s.threads|
    ensures |s'.shared.queue| <= |s.shared.queue| ==> Measure(s') <= Measure(s) + woken
    ensures |s'.shared.queue| == |s.shared.queue| + 1 ==> Measure(s') <= Measure(s) + 3 * (|s.threads| + 1) + woken
  {
    assert ExecutingThreads(s') == ExecutingThreads(s) && FinishedThreads(s') == FinishedThreads(s);
    assert |s'.threads| == |s'.threads.Keys| == |s.threads.Keys| == |s.threads|;
    hide ExecutingThreads, FinishedThreads, AwakeThreads;
    var n := |s.threads| + 1;
    if |s'.shared.queue| <= |s.shared.queue| {
      MulMonotone(Work(s'), Work(s), n);
    } else if |s'.shared.queue| == |s.shared.queue| + 1 {
      assert Work(s') == Work(s) + 3;
      assert (Work(s) + 3) * n == Work(s) * n + 3 * n;
    }
  }

  /** One thread wakes, or enters the loop. */
  lemma OneWoken(s: State, s': State, t: nat)
    requires t in s.threads && s'.threads.Keys == s.threads.Keys
    requires forall u :: u in s.threads && u != t ==> s'.threads[u] == s.threads[u]
    ensures |AwakeThreads(s')| <= |AwakeThreads(s)| + 1
  {
    SubsetSize(AwakeThreads(s'), AwakeThreads(s) + {t});
  }

  lemma EnqueueCosts(s: State, r: Record, wake: nat)
    requires Enabled(s, Enqueue(r, wake))
    ensures var s' := Apply(s, Enqueue(r, wake));
      |s'.threads| == |s.threads| && Measure(s') <= Measure(s) + Cost(Enqueue(r, wake), |s.threads|)
  {
    hide Measure, AwakeThreads;
    var s' := Apply(s, Enqueue(r, wake));
    if Asleep(s, wake) {
      OneWoken(s, s', wake);
    } else {
      assert s'.threads == s.threads;
      SameAwake(s, s');
    }
    assert |s'.shared.queue| == |s.shared.queue| + 1;
    SameHolders(s, s', 1);
  }

  lemma SameAwake(s: State, s': State)
    requires s'.threads == s.threads
    ensures AwakeThreads(s') == AwakeThreads(s)
  {
  }

  lemma ShrinkCosts(s: State, queue: multiset<Record>, signals: Signals)
    requires |queue| <= |s.shared.queue|
    ensures var s' := Shrink(s, queue, signals);
      |s'.threads| == |s.threads| && Measure(s') <= Measure(s) + |s.threads|
  {
    hide Measure, AwakeThreads;
    var s' := Shrink(s, queue, signals);
    assert s'.threads.Keys == s.threads.Keys;
    assert |s'.threads| == |s'.threads.Keys| == |s.threads.Keys| == |s.threads|;
    AwakeBound(s');
    SameHolders(s, s', |s.threads|);
  }

  lemma OneWokenCosts(s: State, e: Event)
    requires Enabled(s, e) && (e.Spurious? || e.Call?)
    ensures |Apply(s, e).threads| == |s.threads| && Measure(Apply(s, e)) <= Measure(s) + 1
  {
    hide Measure, AwakeThreads;
    OneWoken(s, Apply(s, e), e.thread);
    SameHolders(s, Apply(s, e), 1);
  }

  /** An event from outside adds no more than its cost. */
  lemma ExternalStepCosts(s: State, e: Event)
    requires Enabled(s, e) && !Internal(e)
    ensures |Apply(s, e).threads| == |s.threads|
    ensures Measure(Apply(s, e)) <= Measure(s) + Cost(e, |s.threads|)
  {
    hide Measure, Shrink;
    match e
    case Enqueue(r, wake) => EnqueueCosts(s, r, wake);
    case Spurious(t) => OneWokenCosts(s, e);
    case Call(t, mode) => OneWokenCosts(s, e);
    case Edit(queue) => ShrinkCosts(s, queue, Signals(false, |queue| < |s.shared.queue| && queue == multiset{}));
    case Clear => ShrinkCosts(s, multiset{}, Signals(false, true));
  }

  lemma InternalStepThreads(s: State, e: Event)
    requires Enabled(s, e) && Internal(e)
    ensures |Apply(s, e).threads| == |s.threads|
  {
    var s' := Apply(s, e);
    assert s'.threads.Keys == s.threads.Keys;
    assert |s'.threads| == |s'.threads.Keys| == |s.threads.Keys| == |s.threads|;
  }

  /** In every run the steps of the threads themselves are paid for by the measure and by the events from outside. */
  lemma {:induction false} RunCosts(s: State, es: seq<Event>, s': State)
    requires Inv(s) && RunsTo(s, es, s')
    ensures Internals(es) + Measure(s') <= Measure(s) + Costs(es, |s.threads|)
    decreases |es|
  {
    hide Inv, Enabled, Apply, Measure, Cost, Internal;
    if es != [] {
      if Internal(es[0]) {
        InternalStepDrops(s, es[0]);
        InternalStepThreads(s, es[0]);
      } else {
        ExternalStepCosts(s, es[0]);
      }
      StepKeepsInv(s, es[0]);
      RunCosts(Apply(s, es[0]), es[1..], s');
    }
  }

  lemma {:induction false} RunsConcat(s: State, es: seq<Event>, s': State, more: seq<Event>, s'': State)
    requires RunsTo(s, es, s') && RunsTo(s', more, s'')
    ensures RunsTo(s, es + more, s'')
    decreases |es|
  {
    hide Enabled, Apply;
    if es == [] {
      assert es + more == more;
    } else {
      assert (es + more)[1..] == es[1..] + more;
      RunsConcat(Apply(s, es[0]), es[1..], s', more, s'');
    }
  }

  /** Whatever is possible in a state that a run reaches makes a longer run. */
  lemma RunsStep(s: State, es: seq<Event>, s': State, e: Event)
    requires RunsTo(s, es, s') && Enabled(s', e)
    ensures RunsTo(s, [], s) && RunsTo(s, es + [e], Apply(s', e))
    ensures Initial(s) ==> Reachable(s) && Reachable(s') && Reachable(Apply(s', e))
  {
    hide Enabled, Apply, Initial;
    assert [e][1..] == [] && RunsTo(Apply(s', e), [], Apply(s', e));
    assert RunsTo(s', [e], Apply(s', e));
    RunsConcat(s, es, s', [e], Apply(s', e));
    assert RunsTo(s, [], s);
    if Initial(s) {
      ReachableBy(s, [], s);
      ReachableBy(s, es, s');
      ReachableBy(s, es + [e], Apply(s', e));
    }
  }

  lemma ReachableBy(s0: State, es: seq<Event>, s: State)
    requires Initial(s0) && RunsTo(s0, es, s)
    ensures Reachable(s)
  {
    hide Initial, RunsTo;
  }

  /** Where no thread can take a step of its own, everything is done and every wait has ended. */
  lemma QuietMeansDone(s: State)
    requires Reachable(s) && !CanMove(s)
    ensures s.shared.queue == multiset{} && s.shared.executing == 0
    ensures forall c :: c in s.threads && c !in s.pool ==> s.threads[c].pc.Outside?
    ensures s.closing ==> s.shared.level == Stopped && forall t :: t in s.threads ==> s.threads[t].pc.Outside?
  {
    hide QueueLedger, CanMove, Reachable;
    ReachableInv(s);
    if s.shared.queue != multiset{} {
      NoLostWakeup(s);
      var t :| t in s.pool && InLoop(s, t) && !Asleep(s, t);
      AwakeCanMove(s, t);
    }
    if Holders(s) != {} {
      var t :| t in Holders(s);
      assert InLoop(s, t);
      AwakeCanMove(s, t);
    }
    forall c | c in s.threads && c !in s.pool ensures s.threads[c].pc.Outside? {
      if !s.threads[c].pc.Outside? {
        assert Client(s, c) && InLoop(s, c);
        NoDeadlock(s, c);
      }
    }
    assert !exists c :: Client(s, c) && InLoop(s, c);
    if s.closing {
      forall t | t in s.threads ensures s.threads[t].pc.Outside? {
        if InLoop(s, t) {
          assert t in s.pool && !Asleep(s, t);
          AwakeCanMove(s, t);
        }
      }
    }
  }

  /**
   Every wait ends, whatever running tasks enqueue and clients do meanwhile: in a
   run with finitely many events from outside the threads take a bounded number
   of steps under every schedule, and where they stop nothing is queued or
   executing and no client is left in the loop. If the destructor has been entered
   the queue is then stopped and every pool thread has left, so that it can be joined.
   */
  lemma WaitsEnd(s: State, es: seq<Event>, s': State, own: Event -> bool)
    requires Reachable(s) && RunsTo(s, es, s') && forall e :: own(e) <==> e.Lock? || e.Return?
    ensures |Filter(own, es)| <= Measure(s) + (3 * |s.threads| + 4) * (|es| - |Filter(own, es)|)
    ensures Internals(es) <= Measure(s) + Costs(es, |s.threads|)
    ensures !CanMove(s') ==> s'.shared.queue == multiset{} && s'.shared.executing == 0
    ensures !CanMove(s') ==> forall c :: c in s'.threads && c !in s'.pool ==> s'.threads[c].pc.Outside?
    ensures !CanMove(s') && s'.closing ==> s'.shared.level == Stopped && forall t :: t in s'.threads ==> s'.threads[t].pc.Outside?
  {
    hide RunsTo, Inv, CanMove, Measure, InLoop, Client, Initial, Costs, Internals, Filter;
    InternalsCount(es, own);
    CostsBound(es, |s.threads|);
    var s0, before :| Initial(s0) && RunsTo(s0, before, s);
    ReachableInv(s);
    RunCosts(s, es, s');
    RunsConcat(s0, before, s, es, s');
    if !CanMove(s') {
      QuietMeansDone(s');
    }
  }
}
