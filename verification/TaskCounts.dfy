/** kern/multitasking.c: for which task_count a worker, used by calls that follow one another, always
    hands its tasks over in order, and for which it never misses one. */
module TaskCounts {
  import opened Options
  import opened TaskQueue
  import opened TaskScan
  import opened TaskFifo

  // ---------------------------------------------------------------- between calls

  /** The positions between the two indices hold tasks. */
  predicate Dense(q: Worker)
    requires Sized(q)
  {
    forall p: int | q.readFrom < p < q.writeTo :: SyncAt(q.slots, q.taskCount, 0, p) == Queued
  }

  predicate BothEven(q: Worker) {
    q.readFrom % 2 == 0 && q.writeTo % 2 == 0
  }

  lemma SlotsNotEmpty(q: Worker, p: int)
    requires Tidy(q) && SyncAt(q.slots, q.taskCount, 0, p) != Empty
    ensures SyncAt(q.slots, q.taskCount, 0, p) == Queued
  {
    assert q.slots[SlotOf(q.taskCount, 0, p)].sync in {Empty, Queued};
  }

  /** enqueue_task uses the slot of write_to or the next one; without one write_to goes to the end of
      the window. */
  lemma AddedNear(q: Worker)
    requires Tidy(q)
    ensures match EmptySlot(q)
            case None => true
            case Some(i) => i == q.writeTo || (i == q.writeTo + 1 < q.readFrom + q.taskCount)
  {
    FirstIs(q.slots, q.taskCount, Empty, q.writeTo, q.readFrom + q.taskCount);
    if q.writeTo + 1 < q.readFrom + q.taskCount {
      assert SyncAt(q.slots, q.taskCount, 0, q.writeTo + 1) == Empty;
    }
  }

  lemma AddDense(q: Worker, data: TaskData)
    requires Tidy(q) && Dense(q)
    ensures Dense(Added(q, data))
    ensures q.taskCount % 2 == 0 && BothEven(q) ==> BothEven(Added(q, data))
  {
    var c, q', r, w := q.taskCount, Added(q, data), q.readFrom, q.writeTo;
    FirstIs(q.slots, c, Empty, w, r + c);
    AddedNear(q);
    forall p: int | r < p < q'.writeTo ensures SyncAt(q'.slots, c, 0, p) == Queued {
      if p < w { assert SyncAt(q.slots, c, 0, p) == Queued; } else { SlotsNotEmptyOrNew(q, data, p); }
    }
  }

  lemma SlotsNotEmptyOrNew(q: Worker, data: TaskData, p: int)
    requires Tidy(q) && q.writeTo <= p < Added(q, data).writeTo
    ensures SyncAt(Added(q, data).slots, q.taskCount, 0, p) == Queued
  {
    FirstIs(q.slots, q.taskCount, Empty, q.writeTo, q.readFrom + q.taskCount);
    if EmptySlot(q) == None || p < EmptySlot(q).value { SlotsNotEmpty(q, p); }
  }

  /** dequeue_task finds the task at read_from or the next one; it finds none only when the indices are
      at most one apart. */
  lemma TakenNear(q: Worker)
    requires Tidy(q) && Dense(q)
    ensures match QueuedSlot(q)
            case None => q.writeTo <= q.readFrom + 1
            case Some(i) => i == q.readFrom || i == q.readFrom + 1 < q.writeTo
  {
    FirstIs(q.slots, q.taskCount, Queued, q.readFrom, q.writeTo);
    if q.readFrom + 1 < q.writeTo { assert SyncAt(q.slots, q.taskCount, 0, q.readFrom + 1) == Queued; }
  }

  lemma TakeDense(q: Worker)
    requires Tidy(q) && Dense(q)
    ensures Dense(Taken(q))
    ensures BothEven(q) ==> BothEven(Taken(q))
  {
    var c, q' := q.taskCount, Taken(q);
    TakenNear(q);
    forall p: int | q'.readFrom < p < q'.writeTo ensures SyncAt(q'.slots, c, 0, p) == Queued {
      assert SyncAt(q.slots, c, 0, p) == Queued;
      var i := QueuedSlot(q).value;
      Distinct(c, i, p);
    }
  }

  /** What every sequence of calls keeps. */
  lemma {:induction false} DenseEver(taskCount: nat, calls: seq<Action>)
    requires taskCount > 0
    ensures var q := Calls(Start(taskCount), calls);
            Tidy(q) && Dense(q) && q.taskCount == taskCount && (taskCount % 2 == 0 ==> BothEven(q))
    decreases |calls|
  {
    if calls == [] {
      StartIsTidy(taskCount);
    } else {
      var n := |calls| - 1;
      DenseEver(taskCount, calls[..n]);
      var q := Calls(Start(taskCount), calls[..n]);
      match calls[n]
      case Add(_, data) => AddTidy(q, data); AddDense(q, data);
      case Get(_, _) => TakeTidy(q); TakeDense(q);
      case Move(_, _) =>
    }
  }

  // ---------------------------------------------------------------- filling and emptying

  /** The messages m, one for each slot, are in the slots between two positions; the others are empty. */
  predicate Hold(slots: seq<Task>, m: seq<Message>, from: nat, to: nat) {
    |slots| == |m| > 0 && forall p | 0 <= p < |m| :: SlotHolds(slots, m, from, to, p)
  }

  predicate SlotHolds(slots: seq<Task>, m: seq<Message>, from: nat, to: nat, p: nat) {
    p < |slots| == |m| &&
    if from <= p < to then slots[p].sync == Queued && Says(slots[p]) == m[p] else slots[p].sync == Empty
  }

  /** The positions of the first round are the slots, and the next one is the first slot again. */
  lemma FirstRound(slots: seq<Task>, m: seq<Message>, from: nat, to: nat)
    requires Hold(slots, m, from, to)
    ensures forall p: nat | p < |m| :: SyncAt(slots, |m|, 0, p) == if from <= p < to then Queued else Empty
    ensures SyncAt(slots, |m|, 0, |m|) == slots[0].sync && SlotOf(|m|, 0, |m|) == 0
  {
    forall p: nat | p < |m| ensures SyncAt(slots, |m|, 0, p) == if from <= p < to then Queued else Empty {
      InFirstRound(|m|, p);
      assert SlotHolds(slots, m, from, to, p);
    }
    NextRound(|m|, 0);
  }

  lemma InFirstRound(c: nat, p: nat)
    requires p < c
    ensures SlotOf(c, 0, p) == p
  {
    assert Wrap(p, c) == p;
  }

  /** After k of the tasks m have been added. */
  predicate Filled(q: Worker, m: seq<Message>, k: nat) {
    k <= |m| && Hold(q.slots, m, 0, k) && 0 <= q.writeTo <= k &&
    q == Worker(|m|, q.slots, 0, q.writeTo, k, m[..k], [])
  }

  predicate Numbered(m: seq<Message>) {
    forall k | 0 <= k < |m| :: m[k].id == k
  }

  lemma FillOne(q: Worker, m: seq<Message>, k: nat)
    requires Filled(q, m, k) && Numbered(m) && k < |m|
    ensures Filled(Added(q, m[k].data), m, k + 1)
  {
    var c, w := |m|, q.writeTo;
    FirstIs(q.slots, c, Empty, w, c);
    FirstRound(q.slots, m, 0, k);
    assert SyncAt(q.slots, c, 0, k) == Empty;
    assert EmptySlot(q) == Some(k);
    InFirstRound(c, k);
    var q' := Added(q, m[k].data);
    var next := k + 1;
    forall p | 0 <= p < c ensures SlotHolds(q'.slots, m, 0, next, p) {
      assert SlotHolds(q.slots, m, 0, k, p);
    }
  }

  /** add_task for the first k of the tasks m. */
  function Adds(m: seq<Message>, k: nat): seq<Action>
    requires k <= |m|
  {
    seq(k, i requires 0 <= i < k => Add(0, m[i].data))
  }

  lemma {:induction false} Fill(m: seq<Message>, k: nat) returns (calls: seq<Action>)
    requires |m| > 0 && Numbered(m) && k <= |m|
    ensures calls == Adds(m, k) && Filled(Calls(Start(|m|), calls), m, k)
  {
    calls := [];
    if k == 0 {
      forall p | 0 <= p < |m| ensures SlotHolds(Start(|m|).slots, m, 0, 0, p) {}
    } else {
      calls := Fill(m, k - 1);
      FillOne(Calls(Start(|m|), calls), m, k - 1);
      calls := CallsMore(Start(|m|), calls, Add(0, m[k - 1].data));
    }
  }

  /** With all slots full the next call fails and moves write_to to the end of the window. */
  lemma FillFails(q: Worker, m: seq<Message>, n: nat, data: TaskData)
    requires Filled(q, m, n) && n == |m|
    ensures Added(q, data) == q.(writeTo := n)
  {
    FirstIs(q.slots, n, Empty, q.writeTo, n);
    FirstRound(q.slots, m, 0, n);
    assert SlotHolds(q.slots, m, 0, n, 0);
    assert EmptySlot(q) == None;
  }

  /** read_from moves over two slots at a time. */
  function EvenBelow(k: nat): (r: nat)
    ensures r <= k <= r + 1 && r % 2 == 0
  {
    k - k % 2
  }

  lemma EvenBelowNext(k: nat, next: nat)
    requires next == k + 1
    ensures EvenBelow(next) == if k == EvenBelow(k) then k else next
  {
  }

  /** After k of the tasks m have been taken. */
  predicate Emptied(q: Worker, m: seq<Message>, k: nat, r: nat) {
    k <= |m| && r == EvenBelow(k) && Hold(q.slots, m, k, |m|) && q == Worker(|m|, q.slots, r, |m|, |m|, m, m[..k])
  }

  lemma EmptyOne(q: Worker, m: seq<Message>, k: nat, r: nat, next: nat)
    requires Emptied(q, m, k, r) && k < |m| && next == k + 1
    ensures Emptied(Taken(q), m, next, EvenBelow(next))
  {
    var c, q' := |m|, Taken(q);
    EvenBelowNext(k, next);
    FirstRound(q.slots, m, k, c);
    FirstQueued(q.slots, c, r, k);
    InFirstRound(c, k);
    assert SlotHolds(q.slots, m, k, c, k);
    forall p | 0 <= p < c ensures SlotHolds(q'.slots, m, next, c, p) {
      assert SlotHolds(q.slots, m, k, c, p);
    }
    assert m[..next] == m[..k] + [m[k]];
  }

  lemma FirstQueued(slots: seq<Task>, c: nat, r: nat, k: nat)
    requires c > 0 && r <= k <= r + 1 && k < c && SyncAt(slots, c, 0, k) == Queued
    requires r < k ==> SyncAt(slots, c, 0, r) != Queued
    ensures First(slots, c, 0, Queued, r, c) == Some(k)
  {
  }

  // ---------------------------------------------------------------- order

  lemma FullIsUntaken(q: Worker, m: seq<Message>, n: nat, data: TaskData, none: nat)
    requires Filled(q, m, n) && n == |m| && none == 0
    ensures Emptied(Added(q, data), m, none, EvenBelow(none))
  {
    FillFails(q, m, n, data);
    assert m[..n] == m && m[..none] == [];
    forall p | 0 <= p < n ensures SlotHolds(q.slots, m, none, n, p) {}
  }

  /** Fill all slots, and fail to add once more. */
  lemma FillUp(m: seq<Message>, n: nat, data: TaskData, none: nat) returns (calls: seq<Action>, q: Worker)
    requires n == |m| > 0 && Numbered(m) && none == 0
    ensures calls == Adds(m, n) + [Add(0, data)] && q == Calls(Start(n), calls)
    ensures Emptied(q, m, none, EvenBelow(none))
  {
    calls := Fill(m, n);
    var full := Calls(Start(n), calls);
    FullIsUntaken(full, m, n, data, none);
    q := Added(full, data);
    calls := CallsMore(Start(n), calls, Add(0, data));
  }

  lemma AddAtEnd(q: Worker, z: TaskData)
    requires Sized(q) && q.readFrom == 0 && q.writeTo == q.taskCount && q.slots[0].sync == Empty
    ensures Added(q, z) == q.(slots := q.slots[0 := Task(Queued, q.nextId, z)], nextId := q.nextId + 1,
                              published := q.published + [Message(q.nextId, z)])
  {
    InFirstRound(q.taskCount, 0);
    NextRound(q.taskCount, 0);
    assert SyncAt(q.slots, q.taskCount, 0, q.writeTo) == Empty;
  }

  lemma TakeAtStart(q: Worker)
    requires Sized(q) && q.readFrom == 0 && q.slots[0].sync == Queued
    ensures Taken(q) == q.(slots := q.slots[0 := q.slots[0].(sync := Empty)], taken := q.taken + [Says(q.slots[0])])
  {
    InFirstRound(q.taskCount, 0);
    assert SyncAt(q.slots, q.taskCount, 0, q.readFrom) == Queued;
  }

  /** One task of a full worker has been taken, from the first slot. */
  predicate FirstTaken(q: Worker, m: seq<Message>, n: nat) {
    && Sized(q) && q.taskCount == n == |m| && q.readFrom == 0 && q.writeTo == n && q.nextId == n
    && q.slots[0].sync == Empty && q.published == m && q.taken == [m[0]]
  }

  lemma EmptiedFirst(q: Worker, m: seq<Message>, n: nat, k: nat, none: nat)
    requires Emptied(q, m, k, none) && k == 1 && none == 0 && n == |m|
    ensures FirstTaken(q, m, n)
  {
    assert SlotHolds(q.slots, m, k, |m|, none);
    assert m[..k] == [m[0]];
  }

  /** The next task goes into that slot, at the end of the window, and is taken next. */
  lemma AheadOfRest(q: Worker, m: seq<Message>, n: nat, z: TaskData, q1: Worker, after: Worker)
    requires FirstTaken(q, m, n) && q1 == Added(q, z) && after == Taken(q1)
    ensures after.published == m + [Message(n, z)] && after.taken == [m[0]] + [Message(n, z)]
  {
    AddAtEnd(q, z);
    TakeAtStart(q1);
  }

  lemma FillUpTakeOne(m: seq<Message>, n: nat, data: TaskData, none: nat) returns (calls: seq<Action>, q: Worker)
    requires n == |m| > 0 && Numbered(m) && none == 0
    ensures calls == Adds(m, n) + [Add(0, data)] + [Get(0, 0)] && q == Calls(Start(n), calls) && FirstTaken(q, m, n)
  {
    var full, take := Start(n), Get(0, 0);
    calls, full := FillUp(m, n, data, none);
    q := TakeFirst(full, m, n, none, take);
    calls := CallsMore(Start(n), calls, take);
  }

  lemma TakeFirst(q: Worker, m: seq<Message>, n: nat, none: nat, take: Action) returns (q': Worker)
    requires none == 0 < n == |m| && Emptied(q, m, none, EvenBelow(none)) && take == Get(0, 0)
    ensures q' == Called(q, take) && FirstTaken(q', m, n)
  {
    var one := none + 1;
    q' := Taken(q);
    EmptyOne(q, m, none, EvenBelow(none), one);
    EmptiedFirst(q', m, n, one, none);
  }

  lemma AddAndTake(start: Worker, calls: seq<Action>, q: Worker, z: TaskData, after: Worker) returns (more: seq<Action>)
    requires Sized(start) && Sized(q) && q == Calls(start, calls) && after == Taken(Added(q, z))
    ensures more == calls + [Add(0, z)] + [Get(0, 0)] && Calls(start, more) == after
  {
    more := CallsMore(start, calls, Add(0, z));
    more := CallsMore(start, more, Get(0, 0));
  }

  /** For every number of slots but one there are calls after which the task added last is handed over
      second, ahead of all others. */
  lemma OutOfOrder(m: seq<Message>, n: nat, data: TaskData, z: TaskData) returns (calls: seq<Action>)
    requires n == |m| > 0 && Numbered(m)
    ensures calls == Adds(m, n) + [Add(0, data)] + [Get(0, 0)] + [Add(0, z)] + [Get(0, 0)]
    ensures Calls(Start(n), calls).published == m + [Message(n, z)]
    ensures Calls(Start(n), calls).taken == [m[0]] + [Message(n, z)]
  {
    var q;
    calls, q := FillUpTakeOne(m, n, data, 0);
    var after := Taken(Added(q, z));
    AheadOfRest(q, m, n, z, Added(q, z), after);
    calls := AddAndTake(Start(n), calls, q, z, after);
  }

  /** The same as a run of the transition system, with one thread. */
  lemma OutOfOrderRun(m: seq<Message>, n: nat, data: TaskData, z: TaskData) returns (calls: seq<Action>, ns: seq<nat>)
    requires n == |m| > 0 && Numbered(m)
    ensures calls == Adds(m, n) + [Add(0, data)] + [Get(0, 0)] + [Add(0, z)] + [Get(0, 0)] && |ns| == |calls|
    ensures var s := Exec(Init(n, 1, 1), Sequenced(calls, ns));
            s.published == m + [Message(n, z)] && s.taken == [m[0]] + [Message(n, z)]
  {
    calls := OutOfOrder(m, n, data, z);
    ns := HandOverOrder(n, 1, calls);
  }

  /** The state after these calls is first in, first out. */
  predicate InOrderAfter(start: Worker, calls: seq<Action>)
    requires Sized(start)
  {
    Fifo(Calls(start, calls))
  }

  ghost predicate AlwaysInOrder(start: Worker)
    requires Sized(start)
  {
    forall calls: seq<Action> :: InOrderAfter(start, calls)
  }

  /** Every sequence of calls hands over first in, first out, exactly if there is one slot only. */
  lemma OrderedWithOneSlot(taskCount: nat)
    requires taskCount > 0
    ensures AlwaysInOrder(Start(taskCount)) <==> taskCount == 1
  {
    if taskCount > 1 {
      var calls := Disorder(taskCount);
      assert !InOrderAfter(Start(taskCount), calls);
    } else {
      OneSlotEver(taskCount);
    }
  }

  lemma OneSlotEver(taskCount: nat)
    requires taskCount == 1
    ensures AlwaysInOrder(Start(taskCount))
  {
    forall q: Worker | Tidy(q) && q.taskCount == taskCount ensures AddInOrder(q) { OneSlotInOrder(q); }
    forall calls: seq<Action> ensures InOrderAfter(Start(taskCount), calls) { KeptInOrder(calls, taskCount); }
  }

  /** As many messages as there are slots. */
  function Samples(n: nat): (m: seq<Message>)
    ensures |m| == n && Numbered(m)
  {
    seq(n, i requires 0 <= i < n => Message(i, TaskData(0, 0, 0)))
  }

  lemma Disorder(taskCount: nat) returns (calls: seq<Action>)
    requires taskCount > 1
    ensures !Fifo(Calls(Start(taskCount), calls))
  {
    var m, d := Samples(taskCount), TaskData(0, 0, 0);
    calls := OutOfOrder(m, taskCount, d, d);
    StartIsTidy(taskCount);
    OrderOfCalls(Start(taskCount), calls);
    LastIsSecond(Calls(Start(taskCount), calls), m, d);
  }

  lemma {:induction false} KeptInOrder(calls: seq<Action>, taskCount: nat)
    requires taskCount > 0 && forall q: Worker | Tidy(q) && q.taskCount == taskCount :: AddInOrder(q)
    ensures Fifo(Calls(Start(taskCount), calls))
    decreases |calls|
  {
    if calls == [] {
      StartIsTidy(taskCount);
    } else {
      var n := |calls| - 1;
      KeptInOrder(calls[..n], taskCount);
      DenseEver(taskCount, calls[..n]);
      OneCall(Calls(Start(taskCount), calls[..n]), calls[n]);
    }
  }

  /** With one slot a task is filed at the end of the window only if it is empty. */
  lemma OneSlotInOrder(q: Worker)
    requires Tidy(q) && q.taskCount == 1
    ensures AddInOrder(q)
  {
    if EmptySlot(q).Some? {
      var c := q.taskCount;
      Rewind(c, EmptySlot(q).value, q.readFrom);
      PendingNone(q.slots, c, q.readFrom, c);
    }
  }

  lemma Rewind(c: nat, p: int, r: int)
    requires c == 1
    ensures SlotOf(c, 0, p) == SlotOf(c, 0, r)
  {
  }

  lemma LastIsSecond(q: Worker, m: seq<Message>, z: TaskData)
    requires Tidy(q) && |m| > 0 && Numbered(m)
    requires q.published == m + [Message(|m|, z)] && q.taken == [m[0]] + [Message(|m|, z)]
    ensures Fifo(q) <==> |m| == 1
  {
    var p := PendingOf(q);
    if |m| == 1 {
      assert p == [];
      assert q.published == [m[0], Message(1, z)];
    } else {
      assert q.published[1] == m[1] && (q.taken + p)[1] == Message(|m|, z);
    }
  }

  // ---------------------------------------------------------------- tasks that are missed

  function Gets(k: nat): seq<Action> {
    seq(k, _ => Get(0, 0))
  }

  lemma GetsMore(x: seq<Action>, before: nat, k: nat)
    requires k == before + 1
    ensures x + Gets(before) + [Get(0, 0)] == x + Gets(k)
  {
  }

  /** Then take k tasks. */
  lemma {:induction false} TakeSome(m: seq<Message>, n: nat, data: TaskData, k: nat, none: nat)
    returns (calls: seq<Action>, q: Worker)
    requires n == |m| > 0 && Numbered(m) && k <= n && none == 0
    ensures calls == Adds(m, n) + [Add(0, data)] + Gets(k) && q == Calls(Start(n), calls)
    ensures Emptied(q, m, k, EvenBelow(k))
    decreases k
  {
    if k == 0 {
      calls, q := FillUp(m, n, data, none);
      assert calls + Gets(k) == calls;
    } else {
      var before := k - 1;
      calls, q := TakeSome(m, n, data, before, none);
      EmptyOne(q, m, before, EvenBelow(before), k);
      q := Taken(q);
      GetsMore(Adds(m, n) + [Add(0, data)], before, k);
      calls := CallsMore(Start(n), calls, Get(0, 0));
    }
  }

  /** dequeue_task returns nothing although a task is queued. */
  predicate Misses(q: Worker)
    requires Sized(q)
  {
    QueuedSlot(q) == None && PendingOf(q) != []
  }

  /** With the positions between the indices full, a miss takes two neighbouring indices. */
  lemma MissedNear(q: Worker)
    requires Tidy(q) && Dense(q)
    ensures Misses(q) <==> q.writeTo == q.readFrom + 1 < q.readFrom + q.taskCount &&
                           SyncAt(q.slots, q.taskCount, 0, q.readFrom) != Queued &&
                           SyncAt(q.slots, q.taskCount, 0, q.writeTo) == Queued
  {
    MissedAtWriteTo(q);
    TakenNear(q);
  }

  /** After these calls the next dequeue_task misses no task. */
  predicate NoMissAfter(start: Worker, calls: seq<Action>)
    requires Sized(start)
  {
    !Misses(Calls(start, calls))
  }

  ghost predicate NeverMisses(start: Worker)
    requires Sized(start)
  {
    forall calls: seq<Action> :: NoMissAfter(start, calls)
  }

  lemma EvenNeverMisses(taskCount: nat, calls: seq<Action>)
    requires taskCount > 0 && (taskCount % 2 == 0 || taskCount == 1)
    ensures NoMissAfter(Start(taskCount), calls)
  {
    DenseEver(taskCount, calls);
    MissedNear(Calls(Start(taskCount), calls));
  }

  /** All tasks of a full worker with an odd number of slots have been taken. */
  predicate OddEmptied(q: Worker, n: nat) {
    && Sized(q) && q.taskCount == n >= 3 && q.readFrom == n - 1 && q.writeTo == n
    && forall k | 0 <= k < n :: q.slots[k].sync == Empty
  }

  lemma EmptiedAll(q: Worker, m: seq<Message>, n: nat)
    requires Emptied(q, m, n, EvenBelow(n)) && n == |m| >= 3 && n % 2 == 1
    ensures OddEmptied(q, n)
  {
    forall k | 0 <= k < n ensures q.slots[k].sync == Empty { assert SlotHolds(q.slots, m, n, n, k); }
  }

  /** The next task is filed one behind read_from, and missed. */
  lemma MissedNext(q: Worker, n: nat, data: TaskData, q': Worker)
    requires Tidy(q) && Dense(q) && OddEmptied(q, n) && q' == Added(q, data)
    ensures Misses(q')
  {
    AddTidy(q, data);
    AddDense(q, data);
    InFirstRound(n, 0);
    InFirstRound(n, n - 1);
    NextRound(n, 0);
    assert SyncAt(q.slots, n, 0, n) == Empty;
    MissedNear(q');
  }

  /** Fill a worker with an odd number of slots, fail to add once more, take all tasks and add one: the
      next dequeue_task misses it. */
  lemma OddMisses(m: seq<Message>, n: nat, data: TaskData, z: TaskData) returns (calls: seq<Action>, q: Worker)
    requires n == |m| >= 3 && n % 2 == 1 && Numbered(m)
    ensures calls == Adds(m, n) + [Add(0, data)] + Gets(n) + [Add(0, z)]
    ensures q == Calls(Start(n), calls) && Tidy(q) && Misses(q)
  {
    var none := 0;
    calls, q := TakeSome(m, n, data, n, none);
    DenseEver(n, calls);
    EmptiedAll(q, m, n);
    AddTidy(q, z);
    MissedNext(q, n, z, Added(q, z));
    q := Added(q, z);
    calls := CallsMore(Start(n), calls, Add(0, z));
  }

  /** The same as a run of the transition system: the next dequeue_task of worker 0 leaves with nothing
      while a task is queued. */
  lemma MissedRun(m: seq<Message>, n: nat, data: TaskData, z: TaskData) returns (calls: seq<Action>, ns: seq<nat>)
    requires n == |m| >= 3 && n % 2 == 1 && Numbered(m)
    ensures calls == Adds(m, n) + [Add(0, data)] + Gets(n) + [Add(0, z)] && |ns| == |calls|
    ensures var s := Exec(Init(n, 1, 1), Sequenced(calls, ns));
            |s.rings| == 1 && Tidy(View(s)) && Misses(View(s))
  {
    var q;
    calls, q := OddMisses(m, n, data, z);
    ns := HandOverOrder(n, 1, calls);
  }

  /** No dequeue_task misses a queued task, after whatever calls, exactly if the number of slots is even
      or one. */
  lemma MissesOnlyWithOddCount(taskCount: nat)
    requires taskCount > 0
    ensures NeverMisses(Start(taskCount)) <==> taskCount % 2 == 0 || taskCount == 1
  {
    if taskCount % 2 == 0 || taskCount == 1 {
      forall calls: seq<Action> ensures NoMissAfter(Start(taskCount), calls) { EvenNeverMisses(taskCount, calls); }
    } else {
      var calls := SomeMiss(taskCount);
      assert !NoMissAfter(Start(taskCount), calls);
    }
  }

  lemma SomeMiss(taskCount: nat) returns (calls: seq<Action>)
    requires taskCount % 2 == 1 && taskCount >= 3
    ensures !NoMissAfter(Start(taskCount), calls)
  {
    var d, q := TaskData(0, 0, 0), Start(taskCount);
    calls, q := OddMisses(Samples(taskCount), taskCount, d, d);
  }
}
