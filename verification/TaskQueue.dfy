/**
 The shared state of `hxtask_queue` and its locked regions. Each region is one
 method of the class, proved against a function on the abstract state; the
 protocol of the threads that run them is in `TaskProtocol`.
 */
module TaskQueues {
  import opened Order
  import opened Heaps
  import opened HeapVectors

  /** A queued task. The ticket tells one enqueue call from another. */
  datatype Record = Record(ticket: nat, task: nat, priority: int)

  datatype Level = Running | Stopped
  datatype Mode = Pool | Waiting | Stopping

  /** Where a thread enters the locked region: at the top of the loop, with or without a finished task, or out of a wait. */
  datatype Phase = Entering | Finishing | ResumedNew | ResumedDone

  datatype Shared = Shared(queue: multiset<Record>, executing: int, level: Level)

  /** How a thread leaves the locked region: with a task, into one of the two waits, or for good. */
  datatype Outcome = Run(record: Record) | SleepNew | SleepDone | Leave

  /** Which condition variables were broadcast. */
  datatype Signals = Signals(newTasks: bool, completion: bool)

  datatype Effect = Effect(shared: Shared, outcome: Outcome, signals: Signals)

  /** `record_t::operator<`. */
  function PriorityLess(): (less: (Record, Record) -> bool) {
    (x: Record, y: Record) => x.priority < y.priority
  }

  lemma PriorityOrders()
    ensures StrictWeakOrder(PriorityLess())
  {
  }

  ghost predicate IsTop(queue: multiset<Record>, r: Record) {
    r in queue && forall x :: x in queue ==> x.priority <= r.priority
  }

  lemma TopPlain(queue: multiset<Record>, r: Record)
    ensures IsTop(queue, r) <==> r in queue && forall x :: x in queue ==> x.priority <= r.priority
  {
  }

  ghost function Complete(s: Shared): bool {
    s.queue == multiset{} && s.executing == 0
  }

  /** The wait for completion and what follows it. */
  ghost function CompletionRegion(mode: Mode, s: Shared, signals: Signals): Effect {
    if !Complete(s) then Effect(s, SleepDone, signals)
    else if mode == Stopping then Effect(s.(level := Stopped), Leave, Signals(true, true))
    else Effect(s, Leave, signals)
  }

  /** One pass of a thread through the locked region; `pick` is the record at the front. */
  ghost function LockedRegion(mode: Mode, phase: Phase, s: Shared, pick: Record): Effect {
    var s1 := if phase == Finishing then s.(executing := s.executing - 1) else s;
    var signals := Signals(false, phase == Finishing && Complete(s1));
    if phase == ResumedDone then CompletionRegion(mode, s1, signals)
    else if s1.queue != multiset{} then
      Effect(s1.(queue := s1.queue - multiset{pick}, executing := s1.executing + 1), Run(pick), signals)
    else if mode == Pool then
      Effect(s1, if s1.level == Stopped then Leave else SleepNew, signals)
    else CompletionRegion(mode, s1, signals)
  }

  // ---- The heap-ordered vector ----

  /** What the first `n` slots hold. */
  ghost function Contents(w: seq<Record>, n: nat): multiset<Record>
    requires n <= |w|
  {
    multiset(w[..n])
  }

  lemma ContentsEmpty(w: seq<Record>, n: nat)
    requires n <= |w|
    ensures Contents(w, n) == multiset{} <==> n == 0
  {
    if n > 0 {
      assert w[0] in multiset(w[..n]);
    }
  }

  lemma ContentsMember(w: seq<Record>, n: nat, r: Record)
    requires n <= |w|
    ensures r in Contents(w, n) <==> exists k :: 0 <= k < n && w[k] == r
  {
    if r in Contents(w, n) {
      assert r in w[..n];
    }
  }

  /** Moving the last of `n` elements into slot `i` removes element `i`. */
  lemma ContentsErase(w: seq<Record>, v: seq<Record>, n: nat, i: nat)
    requires i < n <= |w|
    requires v == if i == n - 1 then w else w[i := w[n - 1]]
    ensures Contents(v, n - 1) == Contents(w, n) - multiset{w[i]}
    ensures w[i] in Contents(w, n)
  {
    var m := n - 1;
    assert w[..n] == w[..m] + [w[m]];
    if i < m {
      assert v[..m] == w[..m][i := w[m]];
    }
  }

  lemma ContentsRearranged(v: seq<Record>, w: seq<Record>, n: nat)
    requires n <= |v| && Rearranged(v, w, 0, n)
    ensures |w| == |v| && Contents(w, n) == Contents(v, n)
  {
    RangePermutes(v, w, 0, n);
    assert v[0..n] == v[..n] && w[0..n] == w[..n];
  }

  /** `front` and `pop_heap`. */
  method PopTop(a: array<Record>, n: nat) returns (r: Record)
    requires 0 < n <= a.Length && HeapRange(PriorityLess(), a[..], 0, n, 0)
    modifies a
    ensures HeapRange(PriorityLess(), a[..], 0, n - 1, 0)
    ensures IsTop(Contents(old(a[..]), n), r)
    ensures Contents(a[..], n - 1) == Contents(old(a[..]), n) - multiset{r}
  {
    hide HeapRange, StrictWeakOrder;
    PriorityOrders();
    ghost var was := a[..];
    FrontIsMaximum(PriorityLess(), was, n);
    r := a[0];
    assert was[..n] == a[..n];
    PopHeap(a, n, PriorityLess());
    assert a[..][..n - 1] == a[..n - 1];
  }

  /** `push_heap`. */
  method PushRecord(a: array<Record>, n: nat, r: Record)
    requires n < a.Length && HeapRange(PriorityLess(), a[..], 0, n, 0)
    modifies a
    ensures HeapRange(PriorityLess(), a[..], 0, n + 1, 0)
    ensures Contents(a[..], n + 1) == Contents(old(a[..]), n) + multiset{r}
  {
    hide HeapRange, StrictWeakOrder;
    PriorityOrders();
    ghost var was := a[..];
    assert was[..n] == a[..n];
    PushHeap(a, n, r, PriorityLess());
    assert a[..][..n + 1] == a[..n + 1];
  }

  /** `hxmake_heap_` over the whole vector. */
  method MakeRecordHeap(a: array<Record>, n: nat)
    requires n <= a.Length
    modifies a
    ensures HeapRange(PriorityLess(), a[..], 0, n, 0)
    ensures Contents(a[..], n) == Contents(old(a[..]), n)
  {
    hide HeapRange, StrictWeakOrder, Contents, Rearranged;
    PriorityOrders();
    ghost var was := a[..];
    ghost var c := MakeHeap(a, 0, n, PriorityLess());
    ContentsRearranged(was, a[..], n);
  }

  /** `erase_unordered`. */
  method EraseSlot(a: array<Record>, n: nat, i: nat)
    requires i < n <= a.Length
    modifies a
    ensures Contents(a[..], n - 1) == Contents(old(a[..]), n) - multiset{old(a[..])[i]}
    ensures old(a[..])[i] in Contents(old(a[..]), n)
    ensures forall k :: 0 <= k < i ==> a[..][k] == old(a[..])[k]
  {
    hide Contents;
    ghost var was := a[..];
    if i != n - 1 {
      a[i] := a[n - 1];
    }
    ContentsErase(was, a[..], n, i);
  }

  // ---- Erasing and editing ----

  /** What a callable of `erase_if` does with a record: whether it is erased, and what it has become. */
  datatype Visit = Visit(erase: bool, record: Record)

  /** A callable: what it does with a record after the records it has been called on before. */
  type Visitor = (seq<Record>, Record) -> Visit

  /** The records left when those of `w` have been visited, in order. */
  ghost function Edited(visit: Visitor, w: seq<Record>): multiset<Record> {
    if w == [] then multiset{}
    else Edited(visit, w[..|w| - 1]) + Kept(visit(w[..|w| - 1], w[|w| - 1]))
  }

  ghost function Kept(v: Visit): multiset<Record> { if v.erase then multiset{} else multiset{v.record} }

  lemma EditedNext(visit: Visitor, w: seq<Record>, x: Record)
    ensures Edited(visit, w + [x]) == Edited(visit, w) + Kept(visit(w, x))
  {
    assert (w + [x])[..|w|] == w;
  }

  /** `kept` are the visits that erase nothing, in order. */
  ghost predicate KeepsThese(visit: Visitor, w: seq<Record>, kept: seq<nat>) {
    && (forall i :: 0 <= i < |w| ==> (i in kept <==> !visit(w[..i], w[i]).erase))
    && (forall k :: 0 <= k < |kept| ==> kept[k] < |w|)
    && (forall j, k :: 0 <= j < k < |kept| ==> kept[j] < kept[k])
  }

  /** `edited` is what the records of the visits `kept` have become. */
  ghost predicate Becoming(visit: Visitor, w: seq<Record>, kept: seq<nat>, edited: seq<Record>) {
    |edited| == |kept| && forall k :: 0 <= k < |kept| ==> kept[k] < |w| && edited[k] == visit(w[..kept[k]], w[kept[k]]).record
  }

  lemma KeepsStep(visit: Visitor, w: seq<Record>, x: Record, kept: seq<nat>)
    requires KeepsThese(visit, w, kept)
    ensures KeepsThese(visit, w + [x], if visit(w, x).erase then kept else kept + [|w|])
  {
    var v, kept' := w + [x], if visit(w, x).erase then kept else kept + [|w|];
    assert v[..|w|] == w;
    forall i | 0 <= i < |v| ensures i in kept' <==> !visit(v[..i], v[i]).erase {
      if i < |w| {
        assert v[..i] == w[..i];
        assert i in kept' <==> i in kept;
      } else {
        assert i !in kept;
      }
    }
  }

  lemma BecomingStep(visit: Visitor, w: seq<Record>, x: Record, kept: seq<nat>, edited: seq<Record>)
    requires Becoming(visit, w, kept, edited)
    ensures Becoming(visit, w + [x], kept, edited)
    ensures Becoming(visit, w + [x], kept + [|w|], edited + [visit(w, x).record])
  {
    var v := w + [x];
    assert v[..|w|] == w;
    forall k | 0 <= k < |kept| ensures v[..kept[k]] == w[..kept[k]] {
      assert kept[k] < |w|;
    }
  }

  /** The visits one by one. */
  lemma {:induction false} EditedShows(visit: Visitor, w: seq<Record>) returns (kept: seq<nat>, edited: seq<Record>)
    ensures KeepsThese(visit, w, kept) && Becoming(visit, w, kept, edited)
    ensures Edited(visit, w) == multiset(edited)
  {
    hide KeepsThese, Becoming, Edited, Kept;
    kept, edited := [], [];
    if w == [] {
      EditedNone(visit, w);
    } else {
      var n := |w| - 1;
      var prefix, x := w[..n], w[n];
      kept, edited := EditedShows(visit, prefix);
      assert w == prefix + [x];
      KeepsStep(visit, prefix, x, kept);
      BecomingStep(visit, prefix, x, kept, edited);
      EditedNext(visit, prefix, x);
      KeptIs(visit(prefix, x));
      if !visit(prefix, x).erase {
        kept, edited := kept + [n], edited + [visit(prefix, x).record];
      }
    }
  }

  lemma EditedNone(visit: Visitor, w: seq<Record>)
    requires w == []
    ensures Edited(visit, w) == multiset{} && KeepsThese(visit, w, []) && Becoming(visit, w, [], [])
  {
  }

  lemma KeptIs(v: Visit)
    ensures Kept(v) == if v.erase then multiset{} else multiset([v.record])
  {
  }

  /** A callable that looks at nothing but the record. */
  function Stateless(visit: Record -> Visit): Visitor { (seen, r) => visit(r) }

  /** The records that are kept and become `y`. */
  function Becomes(visit: Record -> Visit, y: Record): Record -> bool { x => !visit(x).erase && visit(x).record == y }

  /** A record is left as often as records that are kept become it. */
  lemma {:induction false} EditedCounts(visit: Record -> Visit, w: seq<Record>, y: Record)
    ensures Edited(Stateless(visit), w)[y] == |Filter(Becomes(visit, y), w)|
    ensures forall x :: Becomes(visit, y)(x) <==> !visit(x).erase && visit(x).record == y
  {
    if w != [] {
      EditedCounts(visit, w[..|w| - 1], y);
    }
  }

  /** So the order in which such a callable visits the records does not matter. */
  lemma EditedPermutes(visit: Record -> Visit, v: seq<Record>, w: seq<Record>)
    requires multiset(v) == multiset(w)
    ensures Edited(Stateless(visit), v) == Edited(Stateless(visit), w)
  {
    hide Filter, Edited;
    forall y ensures Edited(Stateless(visit), v)[y] == Edited(Stateless(visit), w)[y] {
      EditedCounts(visit, v, y);
      EditedCounts(visit, w, y);
      FilterPermutes(Becomes(visit, y), v, w);
    }
  }

  /** One that changes nothing erases exactly the records it matches. */
  lemma {:induction false} EditedUnchanged(visit: Record -> Visit, w: seq<Record>, y: Record)
    requires forall x :: visit(x).record == x
    ensures Edited(Stateless(visit), w)[y] == if visit(y).erase then 0 else multiset(w)[y]
  {
    if w != [] {
      var n := |w| - 1;
      assert w == w[..n] + [w[n]];
      EditedUnchanged(visit, w[..n], y);
    }
  }

  /** Overwriting element `i`, when the contents are `rest` and that element. */
  lemma ContentsUpdate(w: seq<Record>, n: nat, i: nat, x: Record, rest: multiset<Record>)
    requires i < n <= |w| && Contents(w, n) == rest + multiset{w[i]}
    ensures Contents(w[i := x], n) == rest + multiset{x}
  {
    assert w[i := x][..n] == w[..n][i := x];
    assert multiset(w[..n][i := x]) == multiset(w[..n]) - multiset{w[i]} + multiset{x};
  }

  /** Does to element `it` as the callable has answered; an erased one is overwritten by the last. */
  method VisitSlot(a: array<Record>, end: nat, it: nat, visited: Visit, ghost rest: multiset<Record>) returns (end': nat)
    requires it < end <= a.Length && Contents(a[..], end) == rest + multiset{a[..][it]}
    modifies a
    ensures end' == if visited.erase then end - 1 else end
    ensures Contents(a[..], end') == rest + Kept(visited)
    ensures forall k :: 0 <= k < it ==> a[..][k] == old(a[..])[k]
  {
    hide Contents;
    ghost var before := a[..];
    end' := end;
    a[it] := visited.record;
    ContentsUpdate(before, end, it, visited.record, rest);
    assert a[..] == before[it := visited.record];
    if visited.erase {
      EraseSlot(a, end, it);
      end' := end - 1;
    }
  }

  /** What is queued when the scan from the back has come down to `it`. */
  ghost function ScannedDown(visit: Visitor, w: seq<Record>, it: nat, n: nat): multiset<Record>
    requires it <= n <= |w|
  {
    Contents(w, it) + Edited(visit, Reversed(w[it..n]))
  }

  lemma ScanDown(visit: Visitor, w: seq<Record>, it: nat, n: nat)
    requires it < n <= |w|
    ensures var seen := Reversed(w[it + 1..n]);
      && Reversed(w[it..n]) == seen + [w[it]]
      && var rest := Contents(w, it) + Edited(visit, seen);
      && ScannedDown(visit, w, it + 1, n) == rest + multiset{w[it]}
      && ScannedDown(visit, w, it, n) == rest + Kept(visit(seen, w[it]))
  {
    hide Kept, Edited, Reversed;
    assert w[..it + 1] == w[..it] + [w[it]];
    assert w[it..n][1..] == w[it + 1..n];
    ReversedNext(w[it..n]);
    EditedNext(visit, Reversed(w[it + 1..n]), w[it]);
  }

  lemma ScanDownEnds(visit: Visitor, w: seq<Record>, n: nat)
    requires n <= |w|
    ensures Reversed(w[n..n]) == []
    ensures ScannedDown(visit, w, n, n) == Contents(w, n) && ScannedDown(visit, w, 0, n) == Edited(visit, Reversed(w[..n]))
  {
    assert w[0..n] == w[..n];
  }

  /** `erase_if_unordered`: scans from the back, moving the last element into each erased slot. */
  method EraseMatching(a: array<Record>, n: nat, visit: Visitor) returns (end: nat)
    requires n <= a.Length
    modifies a
    ensures end <= n
    ensures Contents(a[..], end) == Edited(visit, Reversed(old(a[..])[..n]))
  {
    hide Contents, Edited, ScannedDown, Kept, Reversed;
    ghost var was := a[..];
    end := n;
    var it, seen := n, [];
    ScanDownEnds(visit, was, n);
    while it != 0
      invariant 0 <= it <= end <= n && seen == Reversed(was[it..n])
      invariant Contents(a[..], end) == ScannedDown(visit, was, it, n)
      invariant forall k :: 0 <= k < it ==> a[..][k] == was[k]
    {
      it := it - 1;
      assert a[it] == a[..][it] == was[it];
      ScanDown(visit, was, it, n);
      var r := a[it];
      end := VisitSlot(a, end, it, visit(seen, r), Contents(was, it) + Edited(visit, seen));
      seen := seen + [r];
    }
  }

  /** What is queued when a scan from the front has come to `it`. */
  ghost function ScannedUp(visit: Visitor, w: seq<Record>, it: nat, n: nat): multiset<Record>
    requires it <= n <= |w|
  {
    Edited(visit, w[..it]) + multiset(w[it..n])
  }

  lemma ScanUp(visit: Visitor, w: seq<Record>, it: nat, n: nat)
    requires it < n <= |w|
    ensures var rest := Edited(visit, w[..it]) + multiset(w[it + 1..n]);
      && ScannedUp(visit, w, it, n) == rest + multiset{w[it]}
      && ScannedUp(visit, w, it + 1, n) == rest + Kept(visit(w[..it], w[it]))
  {
    hide Kept, Edited;
    assert w[it..n] == [w[it]] + w[it + 1..n];
    assert w[..it + 1] == w[..it] + [w[it]];
    EditedNext(visit, w[..it], w[it]);
  }

  lemma ScanUpEnds(visit: Visitor, w: seq<Record>, n: nat)
    requires n <= |w|
    ensures ScannedUp(visit, w, 0, n) == Contents(w, n) && ScannedUp(visit, w, n, n) == Edited(visit, w[..n])
  {
    assert w[0..n] == w[..n];
  }

  /** `for_each`, as the visit of `erase_if` that never erases. */
  function Keeping(visit: (seq<Record>, Record) -> Record): Visitor { (seen, r) => Visit(false, visit(seen, r)) }

  /** Nothing is erased: every record has become what the callable makes of it. */
  lemma {:induction false} KeepingShows(visit: (seq<Record>, Record) -> Record, w: seq<Record>) returns (edited: seq<Record>)
    ensures |edited| == |w| && Edited(Keeping(visit), w) == multiset(edited)
    ensures forall i :: 0 <= i < |w| ==> edited[i] == visit(w[..i], w[i])
  {
    if w == [] {
      edited := [];
    } else {
      var n := |w| - 1;
      edited := KeepingShows(visit, w[..n]);
      forall i | 0 <= i < n ensures w[..n][..i] == w[..i] && w[..n][i] == w[i] {
      }
      edited := edited + [visit(w[..n], w[n])];
    }
  }

  /** With a callable that looks at the record alone, a record is left as often as records become it. */
  lemma {:induction false} KeepingCounts(visit: (seq<Record>, Record) -> Record, becomes: Record -> bool, w: seq<Record>, y: Record)
    requires forall seen, r :: becomes(r) <==> visit(seen, r) == y
    ensures Edited(Keeping(visit), w)[y] == |Filter(becomes, w)|
  {
    if w != [] {
      KeepingCounts(visit, becomes, w[..|w| - 1], y);
    }
  }

  method EditAll(a: array<Record>, n: nat, visit: (seq<Record>, Record) -> Record)
    requires n <= a.Length
    modifies a
    ensures Contents(a[..], n) == Edited(Keeping(visit), old(a[..])[..n])
  {
    hide Contents, Edited, ScannedUp;
    ghost var was := a[..];
    var it, seen := 0, [];
    ScanUpEnds(Keeping(visit), was, n);
    while it != n
      invariant 0 <= it <= n && seen == was[..it]
      invariant Contents(a[..], n) == ScannedUp(Keeping(visit), was, it, n)
      invariant forall k :: it <= k < n ==> a[..][k] == was[k]
      decreases n - it
    {
      ghost var before := a[..];
      assert a[it] == before[it] == was[it];
      ScanUp(Keeping(visit), was, it, n);
      var r := a[it];
      a[it] := visit(seen, r);
      ContentsUpdate(before, n, it, a[it], Edited(Keeping(visit), was[..it]) + multiset(was[it + 1..n]));
      assert a[..] == before[it := a[it]];
      it, seen := it + 1, seen + [r];
    }
  }

  // ---- The queue ----

  class TaskQueue {
    var records: array<Record>
    var size: nat
    var executing: int
    var level: Level

    ghost predicate Valid()
      reads this, records
    {
      size <= records.Length && HeapRange(PriorityLess(), records[..], 0, size, 0)
    }

    ghost function Abs(): Shared
      requires size <= records.Length
      reads this, records
    {
      Shared(Contents(records[..], size), executing, level)
    }

    lemma AbsPlain()
      requires size <= records.Length
      ensures Abs() == Shared(multiset(records[..size]), executing, level)
    {
      assert records[..][..size] == records[..size];
    }

    constructor (capacity: nat)
      ensures Valid() && fresh(records) && records.Length == capacity
      ensures Abs() == Shared(multiset{}, 0, Running)
    {
      records := new Record[capacity](_ => Record(0, 0, 0));
      size := 0;
      executing := 0;
      level := Running;
      new;
      EmptyHeap(PriorityLess(), records[..]);
    }

    /** The wait for completion in `thread_task_loop_`, once its predicate has been evaluated. */
    method WaitCompletion(mode: Mode, signals0: Signals) returns (outcome: Outcome, signals: Signals)
      requires Valid()
      modifies this`level
      ensures Valid() && !outcome.Run?
      ensures Effect(Abs(), outcome, signals) == CompletionRegion(mode, old(Abs()), signals0)
    {
      hide HeapRange, Contents;
      ContentsEmpty(records[..], size);
      signals := signals0;
      if !(size == 0 && executing == 0) {
        outcome := SleepDone;
        return;
      }
      if mode == Stopping {
        level := Stopped;
        signals := Signals(true, true);
      }
      outcome := Leave;
    }

    /** The first lines of the locked region: a finished task is reported. */
    method ReportFinished(phase: Phase) returns (signals: Signals)
      requires Valid()
      modifies this`executing
      ensures Valid()
      ensures Abs() == if phase == Finishing then old(Abs()).(executing := old(Abs()).executing - 1) else old(Abs())
      ensures signals == Signals(false, phase == Finishing && Complete(Abs()))
    {
      hide HeapRange, Contents;
      ContentsEmpty(records[..], size);
      signals := Signals(false, false);
      if phase == Finishing {
        executing := executing - 1;
        if executing == 0 && size == 0 {
          signals := Signals(false, true);
        }
      }
    }

    /** Takes a record of the highest priority out of the queue to execute it. */
    method Take() returns (r: Record)
      requires Valid() && size > 0
      modifies this`size, this`executing, records
      ensures Valid()
      ensures IsTop(old(Abs()).queue, r)
      ensures Abs() == Shared(old(Abs()).queue - multiset{r}, old(Abs()).executing + 1, old(Abs()).level)
    {
      hide HeapRange, Contents, IsTop;
      r := PopTop(records, size);
      size := size - 1;
      executing := executing + 1;
    }

    /** One pass through the locked region of `thread_task_loop_`. */
    method Locked(mode: Mode, phase: Phase) returns (outcome: Outcome, signals: Signals, ghost pick: Record)
      requires Valid()
      requires phase == ResumedNew ==> mode == Pool
      requires phase == ResumedDone ==> mode != Pool
      modifies this, records
      ensures Valid() && records == old(records)
      ensures old(size) > 0 && phase != ResumedDone ==> IsTop(old(Abs()).queue, pick)
      ensures Effect(Abs(), outcome, signals) == LockedRegion(mode, phase, old(Abs()), pick)
      ensures outcome.Run? ==> outcome.record in old(Abs()).queue && Abs().queue == old(Abs()).queue - multiset{outcome.record}
      ensures outcome.Run? ==> forall x :: x in old(Abs()).queue ==> x.priority <= outcome.record.priority
    {
      hide HeapRange, Contents, IsTop, CompletionRegion, Complete;
      ghost var was := Abs().queue;
      ContentsEmpty(records[..], size);
      pick := Record(0, 0, 0);
      signals := ReportFinished(phase);
      if phase == ResumedDone {
        outcome, signals := WaitCompletion(mode, signals);
      } else if mode == Pool && !(size != 0 || level == Stopped) {
        outcome := SleepNew;
      } else if size != 0 {
        var r := Take();
        pick := r;
        outcome := Run(r);
        TopPlain(was, r);
      } else if mode == Pool {
        outcome := Leave;
      } else {
        outcome, signals := WaitCompletion(mode, signals);
      }
    }

    /** `enqueue`: the caller then notifies one thread waiting for new tasks. */
    method Enqueue(r: Record)
      requires Valid() && level == Running
      requires size < records.Length
      modifies this`size, records
      ensures Valid() && records == old(records)
      ensures Abs() == old(Abs()).(queue := old(Abs()).queue + multiset{r})
    {
      hide HeapRange, Contents;
      PushRecord(records, size, r);
      size := size + 1;
    }

    /** `clear`. */
    method Clear() returns (signals: Signals)
      requires Valid()
      modifies this`size
      ensures Valid()
      ensures Abs() == old(Abs()).(queue := multiset{}) && signals == Signals(false, true)
    {
      hide HeapRange, Contents;
      size := 0;
      signals := Signals(false, true);
      EmptyHeap(PriorityLess(), records[..]);
      ContentsEmpty(records[..], 0);
    }

    /** `find_if` on the task pointer. */
    method Find(task: nat) returns (i: nat)
      requires size <= records.Length
      ensures i <= size && (i < size ==> records[i].task == task)
      ensures i < size <==> exists r :: r in Contents(records[..], size) && r.task == task
    {
      hide Contents;
      i := 0;
      while i < size && records[i].task != task
        invariant 0 <= i <= size
        invariant forall k :: 0 <= k < i ==> records[k].task != task
      {
        i := i + 1;
      }
      if i < size {
        ContentsMember(records[..], size, records[i]);
        assert records[..][i] == records[i];
      } else {
        forall r | r in Contents(records[..], size) ensures r.task != task {
          ContentsMember(records[..], size, r);
        }
      }
    }

    /** `cancel`: removes one record of the task, if there is one, and restores the heap. */
    method Cancel(task: nat) returns (erased: bool, signals: Signals, ghost gone: Record)
      requires Valid()
      modifies this`size, records
      ensures Valid() && records == old(records)
      ensures erased <==> exists r :: r in old(Abs()).queue && r.task == task
      ensures erased ==> gone in old(Abs()).queue && gone.task == task
      ensures Abs() == old(Abs()).(queue := if erased then old(Abs()).queue - multiset{gone} else old(Abs()).queue)
      ensures signals == Signals(false, erased && Abs().queue == multiset{})
    {
      hide HeapRange, Contents;
      signals := Signals(false, false);
      gone := Record(0, 0, 0);
      var i := Find(task);
      erased := i < size;
      if erased {
        gone := records[i];
        assert records[..][i] == gone;
        EraseSlot(records, size, i);
        size := size - 1;
        MakeRecordHeap(records, size);
        ContentsEmpty(records[..], size);
        if size == 0 {
          signals := Signals(false, true);
        }
      }
    }

    /** `erase_if`: erases and edits records as the callable says, from the last to the first, and restores the heap. */
    method EraseIf(visit: Visitor) returns (removed: nat, signals: Signals, ghost kept: seq<nat>, ghost edited: seq<Record>)
      requires Valid()
      modifies this`size, records
      ensures Valid() && records == old(records)
      ensures Abs() == old(Abs()).(queue := Edited(visit, Reversed(old(records[..size]))))
      ensures var w := Reversed(old(records[..size]));
        && (forall i :: 0 <= i < |w| ==> (i in kept <==> !visit(w[..i], w[i]).erase))
        && |edited| == |kept| && multiset(records[..size]) == multiset(edited)
        && (forall k :: 0 <= k < |kept| ==> kept[k] < |w| && edited[k] == visit(w[..kept[k]], w[kept[k]]).record)
        && (forall j, k :: 0 <= j < k < |kept| ==> kept[j] < kept[k])
      ensures removed == old(size) - size
      ensures signals == Signals(false, removed != 0 && Abs().queue == multiset{})
    {
      hide HeapRange, Contents, Edited, Reversed;
      kept, edited := EditedShows(visit, Reversed(records[..size]));
      signals := Signals(false, false);
      var end := EraseMatching(records, size, visit);
      removed := size - end;
      size := end;
      MakeRecordHeap(records, size);
      ContentsEmpty(records[..], size);
      if removed != 0 && size == 0 {
        signals := Signals(false, true);
      }
      AbsPlain();
    }

    /** `for_each` with a callable that may edit the records: the heap is restored for their new priorities. */
    method ForEach(visit: (seq<Record>, Record) -> Record) returns (ghost edited: seq<Record>)
      requires Valid()
      modifies records
      ensures Valid() && records == old(records)
      ensures Abs() == old(Abs()).(queue := Edited(Keeping(visit), old(records[..size])))
      ensures |edited| == size && multiset(records[..size]) == multiset(edited)
      ensures forall i :: 0 <= i < size ==> edited[i] == visit(old(records[..size])[..i], old(records[..size])[i])
    {
      hide HeapRange, Contents, Edited;
      edited := KeepingShows(visit, records[..size]);
      EditAll(records, size, visit);
      MakeRecordHeap(records, size);
      AbsPlain();
    }
  }
}
