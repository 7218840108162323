/** kern/multitasking.c: the order in which one worker hands its tasks over when the calls follow one
    another.  The worker is a value here; every sequence of calls on it is an interleaving of the
    transition system in which each call runs alone. */
module TaskFifo {
  import opened Options
  import opened TaskQueue
  import opened TaskScan

  /** The only worker, between two calls. */
  datatype Worker = Worker(
    taskCount: nat, slots: seq<Task>, readFrom: int, writeTo: int, nextId: int,
    published: seq<Message>, taken: seq<Message>)

  predicate Sized(q: Worker) {
    0 < q.taskCount == |q.slots|
  }

  /** Where add_task's scan of the slots ends, and where task_main's does. */
  function EmptySlot(q: Worker): Option<int>
    requires Sized(q)
  {
    First(q.slots, q.taskCount, 0, Empty, q.writeTo, q.readFrom + q.taskCount)
  }

  function QueuedSlot(q: Worker): Option<int>
    requires Sized(q)
  {
    First(q.slots, q.taskCount, 0, Queued, q.readFrom, q.writeTo)
  }

  function Added(q: Worker, data: TaskData): Worker
    requires Sized(q)
  {
    var to := Reached(EmptySlot(q), q.writeTo, q.readFrom + q.taskCount, q.writeTo);
    match EmptySlot(q)
    case None => q.(writeTo := to)
    case Some(i) =>
      q.(slots := q.slots[SlotOf(q.taskCount, 0, i) := Task(Queued, q.nextId, data)], writeTo := to,
         nextId := q.nextId + 1, published := q.published + [Message(q.nextId, data)])
  }

  function Taken(q: Worker): Worker
    requires Sized(q)
  {
    var from := Reached(QueuedSlot(q), q.readFrom, q.writeTo, q.readFrom);
    match QueuedSlot(q)
    case None => q.(readFrom := from)
    case Some(i) =>
      var k := SlotOf(q.taskCount, 0, i);
      q.(slots := q.slots[k := q.slots[k].(sync := Empty)], readFrom := from,
         taken := q.taken + [Message(q.slots[k].id, q.slots[k].data)])
  }

  function Called(q: Worker, call: Action): (q': Worker)
    requires Sized(q)
    ensures Sized(q')
  {
    match call
    case Add(_, data) => Added(q, data)
    case Get(_, _) => Taken(q)
    case Move(_, _) => q
  }

  function Calls(q: Worker, calls: seq<Action>): (q': Worker)
    requires Sized(q)
    ensures Sized(q')
  {
    if calls == [] then q else Called(Calls(q, calls[..|calls| - 1]), calls[|calls| - 1])
  }

  // ---------------------------------------------------------------- positions

  function Queue(slots: seq<Task>, c: nat, p: int): (m: seq<Message>)
    requires 0 < c == |slots|
    ensures m == [] <==> SyncAt(slots, c, 0, p) != Queued
  {
    var task := slots[SlotOf(c, 0, p)];
    if task.sync == Queued then [Message(task.id, task.data)] else []
  }

  /** The queued tasks at the n positions from p on. */
  function Pending(slots: seq<Task>, c: nat, p: int, n: nat): seq<Message>
    requires 0 < c == |slots|
    decreases n
  {
    if n == 0 then [] else Queue(slots, c, p) + Pending(slots, c, p + 1, n - 1)
  }

  lemma {:induction false} WrapDiffers(c: nat, p: int, r: int)
    requires p < r < p + c
    ensures Wrap(p, c) != Wrap(r, c)
    decreases if p < 0 then c - p else p
  {
    if p < 0 && r < 0 { WrapDiffers(c, p + c, r + c); }
    else if p < 0 { WrapDiffers(c, r, p + c); }
    else if p >= c { WrapDiffers(c, p - c, r - c); }
    else if r >= c { assert Wrap(r, c) == r - c; }
  }

  lemma Distinct(c: nat, p: int, r: int)
    requires p < r < p + c
    ensures SlotOf(c, 0, p) != SlotOf(c, 0, r)
  {
    WrapDiffers(c, p, r);
  }

  lemma NextRound(c: nat, p: int)
    requires c > 0
    ensures SlotOf(c, 0, p + c) == SlotOf(c, 0, p)
  {
    assert Wrap(p + c, c) == Wrap(p, c);
  }

  lemma PendingStep(slots: seq<Task>, c: nat, p: int, n: nat, p1: int, n1: nat)
    requires 0 < c == |slots| && p1 == p + 1 && n1 + 1 == n
    ensures Pending(slots, c, p, n) == Queue(slots, c, p) + Pending(slots, c, p1, n1)
  {
  }

  lemma Joined(x: seq<Message>, y: seq<Message>, z: seq<Message>)
    ensures x + (y + z) == x + y + z
  {
  }

  lemma {:induction false} PendingSplit(slots: seq<Task>, c: nat, p: int, a: nat, r: int, b: nat, n: nat)
    requires 0 < c == |slots| && n == a + b && r == p + a
    ensures Pending(slots, c, p, n) == Pending(slots, c, p, a) + Pending(slots, c, r, b)
    decreases a
  {
    if a == 0 {
      assert Pending(slots, c, p, a) == [];
    } else {
      var p1, a1, n1 := p + 1, a - 1, n - 1;
      PendingStep(slots, c, p, n, p1, n1);
      PendingStep(slots, c, p, a, p1, a1);
      PendingSplit(slots, c, p1, a1, r, b, n1);
      Joined(Queue(slots, c, p), Pending(slots, c, p1, a1), Pending(slots, c, r, b));
    }
  }

  lemma {:induction false} PendingNone(slots: seq<Task>, c: nat, p: int, n: nat)
    requires 0 < c == |slots| && forall x: int | p <= x < p + n :: SyncAt(slots, c, 0, x) != Queued
    ensures Pending(slots, c, p, n) == []
    decreases n
  {
    if n > 0 { PendingNone(slots, c, p + 1, n - 1); }
  }

  lemma {:induction false} PendingKept(slots: seq<Task>, c: nat, p: int, n: nat, k: nat, task: Task)
    requires 0 < c == |slots| && k < c && forall x: int | p <= x < p + n :: SlotOf(c, 0, x) != k
    ensures Pending(slots[k := task], c, p, n) == Pending(slots, c, p, n)
    decreases n
  {
    if n > 0 {
      assert SlotOf(c, 0, p) != k;
      PendingKept(slots, c, p + 1, n - 1, k, task);
    }
  }

  lemma {:induction false} PendingRound(slots: seq<Task>, c: nat, p: int, n: nat)
    requires 0 < c == |slots|
    ensures Pending(slots, c, p + c, n) == Pending(slots, c, p, n)
    decreases n
  {
    NextRound(c, p);
    if n > 0 { PendingRound(slots, c, p + 1, n - 1); }
  }

  lemma FrontEmpty(slots: seq<Task>, c: nat, p: int, d: nat, q: int, e: nat)
    requires 0 < c == |slots| && q == p + d && c == d + e
    requires forall x: int | p <= x < q :: SyncAt(slots, c, 0, x) != Queued
    ensures Pending(slots, c, p, c) == Pending(slots, c, q, e)
  {
    PendingSplit(slots, c, p, d, q, e, c);
    PendingNone(slots, c, p, d);
    assert [] + Pending(slots, c, q, e) == Pending(slots, c, q, e);
  }

  lemma BackEmpty(slots: seq<Task>, c: nat, p: int, d: nat, q: int, e: nat, r: int)
    requires 0 < c == |slots| && q == p + d && c == d + e && r == q + e
    requires forall x: int | p <= x < q :: SyncAt(slots, c, 0, x) != Queued
    ensures Pending(slots, c, q, c) == Pending(slots, c, q, e)
  {
    PendingSplit(slots, c, q, e, r, d, c);
    PendingRound(slots, c, p, d);
    PendingNone(slots, c, p, d);
    assert Pending(slots, c, q, e) + [] == Pending(slots, c, q, e);
  }

  /** Passing over positions without a task leaves what is queued as it is. */
  lemma Rotate(slots: seq<Task>, c: nat, p: int, q: int)
    requires 0 < c == |slots| && p <= q <= p + c && forall x: int | p <= x < q :: SyncAt(slots, c, 0, x) != Queued
    ensures Pending(slots, c, q, c) == Pending(slots, c, p, c)
  {
    var d, e, r := q - p, c - (q - p), p + c;
    FrontEmpty(slots, c, p, d, q, e);
    BackEmpty(slots, c, p, d, q, e, r);
  }

  /** Position i, seen from p. */
  lemma PendingAt(slots: seq<Task>, c: nat, p: int, i: int, r: int, a: nat, b: nat)
    requires 0 < c == |slots| && i == p + a && r == i + 1 && c == a + 1 + b
    ensures Pending(slots, c, p, c) == Pending(slots, c, p, a) + (Queue(slots, c, i) + Pending(slots, c, r, b))
  {
    PendingSplit(slots, c, p, a, i, b + 1, c);
  }

  lemma PendingElsewhere(slots: seq<Task>, c: nat, p: int, i: int, r: int, a: nat, b: nat, k: nat, task: Task)
    requires 0 < c == |slots| && i == p + a && r == i + 1 && c == a + 1 + b && k == SlotOf(c, 0, i) < c
    ensures Pending(slots[k := task], c, p, a) == Pending(slots, c, p, a)
    ensures Pending(slots[k := task], c, r, b) == Pending(slots, c, r, b)
  {
    forall x: int | p <= x < i ensures SlotOf(c, 0, x) != k { Distinct(c, x, i); }
    forall x: int | r <= x < r + b ensures SlotOf(c, 0, x) != k { Distinct(c, i, x); }
    PendingKept(slots, c, p, a, k, task);
    PendingKept(slots, c, r, b, k, task);
  }

  lemma SetElsewhere(slots: seq<Task>, c: nat, i: int, k: nat, task: Task, p: int)
    requires 0 < c == |slots| && k == SlotOf(c, 0, i) < c && i < p < i + c
    ensures SyncAt(slots[k := task], c, 0, p) == SyncAt(slots, c, 0, p)
  {
    Distinct(c, i, p);
  }

  function Says(task: Task): Message {
    Message(task.id, task.data)
  }

  function Shown(task: Task): seq<Message> {
    if task.sync == Queued then [Says(task)] else []
  }

  lemma JoinLast(a: seq<Message>, none: seq<Message>, m: Message)
    requires none == []
    ensures a + ([m] + none) == a + (none + none) + [m]
  {
  }

  lemma JoinFirst(none: seq<Message>, m: Message, b: seq<Message>)
    requires none == []
    ensures none + ([m] + b) == [m] + (none + (none + b))
  {
  }

  /** What is queued before and after a slot is set, around its position. */
  lemma PendingSet(slots: seq<Task>, c: nat, p: int, i: int, r: int, a: nat, b: nat, k: nat, task: Task)
    requires 0 < c == |slots| && i == p + a && r == i + 1 && c == a + 1 + b && k == SlotOf(c, 0, i) < c
    ensures Pending(slots, c, p, c) == Pending(slots, c, p, a) + (Shown(slots[k]) + Pending(slots, c, r, b))
    ensures Pending(slots[k := task], c, p, c) == Pending(slots, c, p, a) + (Shown(task) + Pending(slots, c, r, b))
  {
    PendingAt(slots, c, p, i, r, a, b);
    PendingAt(slots[k := task], c, p, i, r, a, b);
    PendingElsewhere(slots, c, p, i, r, a, b, k, task);
  }

  /** A task filed at a position with none behind it joins the others as the last. */
  lemma FiledLast(slots: seq<Task>, c: nat, p: int, i: int, k: nat, task: Task)
    requires 0 < c == |slots| && p <= i < p + c && k == SlotOf(c, 0, i) < c && task.sync == Queued
    requires forall x: int | i <= x < p + c :: SyncAt(slots, c, 0, x) != Queued
    ensures Pending(slots[k := task], c, p, c) == Pending(slots, c, p, c) + [Says(task)]
  {
    var a, b, r := i - p, p + c - i - 1, i + 1;
    PendingSet(slots, c, p, i, r, a, b, k, task);
    PendingNone(slots, c, r, b);
    assert Shown(slots[k]) == [] by { assert SyncAt(slots, c, 0, i) != Queued; }
    assert Shown(task) == [Says(task)];
    JoinLast(Pending(slots, c, p, a), Pending(slots, c, r, b), Says(task));
  }

  /** A task filed at the first position goes ahead of the others. */
  lemma FiledFirst(slots: seq<Task>, c: nat, p: int, k: nat, task: Task)
    requires 0 < c == |slots| && k == SlotOf(c, 0, p) < c && task.sync == Queued && SyncAt(slots, c, 0, p) != Queued
    ensures Pending(slots[k := task], c, p, c) == [Says(task)] + Pending(slots, c, p, c)
  {
    var b, r := c - 1, p + 1;
    PendingSet(slots, c, p, p, r, 0, b, k, task);
  }

  /** The first task of the window leaves the others as they are. */
  lemma FirstLeaves(slots: seq<Task>, c: nat, p: int, i: int, k: nat, task: Task)
    requires 0 < c == |slots| && p <= i < p + c && k == SlotOf(c, 0, i) < c && task.sync == Empty
    requires SyncAt(slots, c, 0, i) == Queued && forall x: int | p <= x < i :: SyncAt(slots, c, 0, x) != Queued
    ensures Pending(slots, c, p, c) == [Says(slots[k])] + Pending(slots[k := task], c, p, c)
  {
    var a, b, r := i - p, p + c - i - 1, i + 1;
    PendingSet(slots, c, p, i, r, a, b, k, task);
    PendingNone(slots, c, p, a);
    assert Shown(slots[k]) == [Says(slots[k])] by { assert SyncAt(slots, c, 0, i) == Queued; }
    assert Shown(task) == [];
    JoinFirst(Pending(slots, c, p, a), Says(slots[k]), Pending(slots, c, r, b));
  }

  lemma NoneUpTo(slots: seq<Task>, c: nat, p: int, i: int, k: nat, after: seq<Task>)
    requires 0 < c == |slots| && k == SlotOf(c, 0, i) < c && after == slots[k := slots[k].(sync := Empty)]
    requires forall x: int | p <= x < i :: SyncAt(slots, c, 0, x) != Queued
    ensures forall x: int | p <= x <= i :: SyncAt(after, c, 0, x) != Queued
  {
    forall x: int | p <= x <= i ensures SyncAt(after, c, 0, x) != Queued {
      if x < i { assert SyncAt(slots, c, 0, x) != Queued; }
    }
  }

  // ---------------------------------------------------------------- between calls

  function PendingOf(q: Worker): seq<Message>
    requires Sized(q)
  {
    Pending(q.slots, q.taskCount, q.readFrom, q.taskCount)
  }

  /** The positions behind write_to hold no task; write_to itself may. */
  predicate EmptyBehind(q: Worker)
    requires Sized(q)
  {
    forall p: int | q.writeTo < p < q.readFrom + q.taskCount :: SyncAt(q.slots, q.taskCount, 0, p) == Empty
  }

  predicate AtRest(slots: seq<Task>) {
    forall k | 0 <= k < |slots| :: slots[k].sync in {Empty, Queued}
  }

  ghost predicate Tidy(q: Worker) {
    && Sized(q) && q.readFrom <= q.writeTo <= q.readFrom + q.taskCount
    && AtRest(q.slots) && EmptyBehind(q)
    && |q.published| == |q.taken| + |PendingOf(q)|
    && forall k | 0 <= k < |q.published| :: q.published[k].id < q.nextId
  }

  /** What has been and what will be handed over is what was published, in that order. */
  predicate Fifo(q: Worker)
    requires Sized(q)
  {
    q.published == q.taken + PendingOf(q)
  }

  lemma FirstIs(slots: seq<Task>, c: nat, sync: Sync, index: int, bound: int)
    requires c > 0
    ensures match First(slots, c, 0, sync, index, bound)
            case None => (forall x: int | index <= x < bound || x == index :: SyncAt(slots, c, 0, x) != sync)
            case Some(i) => (i == index || i < bound) && forall x: int | index <= x < i :: SyncAt(slots, c, 0, x) != sync
  {
    FirstFound(slots, c, 0, sync, index, bound);
  }

  // ---------------------------------------------------------------- one call

  /** The task is filed behind the others: below read_from + task_count, or none is queued. */
  predicate AddInOrder(q: Worker)
    requires Sized(q)
  {
    EmptySlot(q) == None || EmptySlot(q).value < q.readFrom + q.taskCount || PendingOf(q) == []
  }

  /** What enqueue_task does to the queue: the task goes behind the others, or, in the slot of
      read_from at the end of the window, ahead of them. */
  lemma AddedPending(q: Worker, data: TaskData)
    requires Tidy(q)
    ensures var m := [Message(q.nextId, data)];
            PendingOf(Added(q, data)) ==
            match EmptySlot(q)
            case None => PendingOf(q)
            case Some(i) => if i < q.readFrom + q.taskCount then PendingOf(q) + m else m + PendingOf(q)
  {
    var c, task := q.taskCount, Task(Queued, q.nextId, data);
    FirstIs(q.slots, c, Empty, q.writeTo, q.readFrom + c);
    if EmptySlot(q).Some? {
      var i := EmptySlot(q).value;
      var k := SlotOf(c, 0, i);
      if i < q.readFrom + c {
        FiledLast(q.slots, c, q.readFrom, i, k, task);
      } else {
        NextRound(c, q.readFrom);
        FiledFirst(q.slots, c, q.readFrom, k, task);
      }
    }
  }

  lemma AddTidy(q: Worker, data: TaskData)
    requires Tidy(q)
    ensures Tidy(Added(q, data))
  {
    AddedPending(q, data);
    AddedBehind(q, data);
  }

  lemma AddedBehind(q: Worker, data: TaskData)
    requires Tidy(q)
    ensures var q' := Added(q, data); EmptyBehind(q') && q'.readFrom <= q'.writeTo <= q'.readFrom + q'.taskCount
  {
    var c, q' := q.taskCount, Added(q, data);
    FirstIs(q.slots, c, Empty, q.writeTo, q.readFrom + c);
    if EmptySlot(q).Some? {
      var i := EmptySlot(q).value;
      var k := SlotOf(c, 0, i);
      forall p: int | q'.writeTo < p < q.readFrom + c ensures SyncAt(q'.slots, c, 0, p) == Empty {
        assert SyncAt(q.slots, c, 0, p) == Empty;
        SetElsewhere(q.slots, c, i, k, Task(Queued, q.nextId, data), p);
      }
    }
  }

  /** A call of enqueue_task keeps the order of hand-over exactly when it files the task behind the
      others. */
  lemma AddKeepsOrder(q: Worker, data: TaskData)
    requires Tidy(q)
    ensures Fifo(Added(q, data)) <==> Fifo(q) && AddInOrder(q)
  {
    AddedPending(q, data);
    var m, p := Message(q.nextId, data), PendingOf(q);
    AppendSame(q.published, q.taken, p, m);
    if p != [] { PutAhead(q.published, q.taken, p, m); }
  }

  lemma AppendSame<T>(a: seq<T>, b: seq<T>, c: seq<T>, x: T)
    ensures a + [x] == b + (c + [x]) <==> a == b + c
  {
    assert b + (c + [x]) == b + c + [x];
    if a + [x] == b + c + [x] { assert a == (a + [x])[..|a|] && b + c == (b + c + [x])[..|b + c|]; }
  }

  /** A new message ahead of a waiting one is out of order for good. */
  lemma PutAhead(published: seq<Message>, taken: seq<Message>, p: seq<Message>, m: Message)
    requires p != [] && |published| == |taken| + |p| && forall k | 0 <= k < |published| :: published[k].id < m.id
    ensures published + [m] != taken + ([m] + p)
  {
    var n := |taken|;
    assert (published + [m])[n] == published[n] && (taken + ([m] + p))[n] == m;
  }

  /** dequeue_task takes the task that is next in the window, or passes over empty slots. */
  lemma TakenPending(q: Worker)
    requires Tidy(q)
    ensures q.taken + PendingOf(q) == Taken(q).taken + PendingOf(Taken(q))
    ensures |q.taken| + |PendingOf(q)| == |Taken(q).taken| + |PendingOf(Taken(q))|
  {
    var c, r, q' := q.taskCount, q.readFrom, Taken(q);
    FirstIs(q.slots, c, Queued, r, q.writeTo);
    if QueuedSlot(q).Some? {
      var i := QueuedSlot(q).value;
      var k := SlotOf(c, 0, i);
      FirstLeaves(q.slots, c, r, i, k, q.slots[k].(sync := Empty));
      NoneUpTo(q.slots, c, r, i, k, q'.slots);
    }
    Rotate(q'.slots, c, r, q'.readFrom);
  }

  lemma TakenBehind(q: Worker)
    requires Tidy(q)
    ensures var q' := Taken(q);
            EmptyBehind(q') && AtRest(q'.slots) && q'.readFrom <= q'.writeTo <= q'.readFrom + q'.taskCount
  {
    var c, r, q' := q.taskCount, q.readFrom, Taken(q);
    FirstIs(q.slots, c, Queued, r, q.writeTo);
    forall p: int | q'.writeTo < p < q'.readFrom + c ensures SyncAt(q'.slots, c, 0, p) == Empty {
      if p < r + c { assert SyncAt(q.slots, c, 0, p) == Empty; } else { PassedEmpty(q, p); }
    }
  }

  /** The positions that a take adds to the window are those it has passed over. */
  lemma PassedEmpty(q: Worker, p: int)
    requires Tidy(q) && q.readFrom + q.taskCount <= p < Taken(q).readFrom + q.taskCount
    ensures SyncAt(Taken(q).slots, q.taskCount, 0, p) == Empty
  {
    var c, x, q' := q.taskCount, p - q.taskCount, Taken(q);
    FirstIs(q.slots, c, Queued, q.readFrom, q.writeTo);
    NextRound(c, x);
    assert q.slots[SlotOf(c, 0, x)].sync in {Empty, Queued};
    if QueuedSlot(q) == None || x < QueuedSlot(q).value { assert SyncAt(q.slots, c, 0, x) != Queued; }
  }

  lemma TakeTidy(q: Worker)
    requires Tidy(q)
    ensures Tidy(Taken(q)) && (Fifo(Taken(q)) <==> Fifo(q))
  {
    TakenPending(q);
    TakenBehind(q);
  }

  // ---------------------------------------------------------------- a task that is missed

  /** dequeue_task returns nothing although a task is queued exactly when the task is the one at
      write_to: the scan ends before that position, and the positions from read_from on are empty. */
  lemma MissedAtWriteTo(q: Worker)
    requires Tidy(q)
    ensures QueuedSlot(q) == None && PendingOf(q) != [] <==>
            q.readFrom < q.writeTo < q.readFrom + q.taskCount && SyncAt(q.slots, q.taskCount, 0, q.writeTo) == Queued &&
            forall p: int | q.readFrom <= p < q.writeTo :: SyncAt(q.slots, q.taskCount, 0, p) != Queued
  {
    var c, r, w := q.taskCount, q.readFrom, q.writeTo;
    FirstIs(q.slots, c, Queued, r, w);
    if QueuedSlot(q) == None {
      if w == r + c { NextRound(c, r); }
      if SyncAt(q.slots, c, 0, w) != Queued || w == r + c { PendingNone(q.slots, c, r, c); }
      else { PendingAt(q.slots, c, r, w, w + 1, w - r, c - 1 - (w - r)); }
    }
  }

  lemma AtMostOne(q: Worker)
    requires Tidy(q) && q.readFrom == q.writeTo
    ensures |PendingOf(q)| <= 1 && |PendingOf(Taken(q))| == |PendingOf(q)| + |q.taken| - |Taken(q).taken|
    ensures PendingOf(q) != [] ==> QueuedSlot(q) == Some(q.writeTo)
  {
    var c, w := q.taskCount, q.writeTo;
    var r, b := w + 1, c - 1;
    PendingAt(q.slots, c, w, w, r, 0, b);
    PendingNone(q.slots, c, r, b);
    TakenPending(q);
  }

  /** The next call finds it. */
  lemma FoundNext(q: Worker)
    requires Tidy(q) && QueuedSlot(q) == None && PendingOf(q) != []
    ensures QueuedSlot(Taken(q)) == Some(q.writeTo) && Taken(Taken(q)).taken == q.taken + PendingOf(q)
    ensures PendingOf(Taken(Taken(q))) == []
  {
    MissedAtWriteTo(q);
    var q' := Taken(q);
    TakeTidy(q);
    TakenPending(q);
    AtMostOne(q');
    TakenPending(q');
  }

  // ---------------------------------------------------------------- every sequence of calls

  function Start(taskCount: nat): Worker {
    Worker(taskCount, seq(taskCount, _ => Task(Empty, 0, TaskData(0, 0, 0))), 0, 0, 0, [], [])
  }

  lemma StartIsTidy(taskCount: nat)
    requires taskCount > 0
    ensures Tidy(Start(taskCount)) && Fifo(Start(taskCount))
  {
    PendingNone(Start(taskCount).slots, taskCount, 0, taskCount);
  }

  /** Every enqueue_task in the sequence has filed its task behind the others. */
  predicate AllInOrder(q: Worker, calls: seq<Action>)
    requires Sized(q)
  {
    calls == [] ||
    (AllInOrder(q, calls[..|calls| - 1]) &&
     (calls[|calls| - 1].Add? ==> AddInOrder(Calls(q, calls[..|calls| - 1]))))
  }

  /** Tasks are handed over first in, first out, exactly when every enqueue_task has filed its task
      behind the others; once one has not, the order is lost for good. */
  lemma {:induction false} OrderOfCalls(q: Worker, calls: seq<Action>)
    requires Tidy(q) && Fifo(q)
    ensures Tidy(Calls(q, calls))
    ensures Fifo(Calls(q, calls)) <==> AllInOrder(q, calls)
    decreases |calls|
  {
    if calls != [] {
      var n := |calls| - 1;
      OrderOfCalls(q, calls[..n]);
      OneCall(Calls(q, calls[..n]), calls[n]);
    }
  }

  lemma OneCall(q: Worker, call: Action)
    requires Tidy(q)
    ensures Tidy(Called(q, call))
    ensures Fifo(Called(q, call)) <==> Fifo(q) && (call.Add? ==> AddInOrder(q))
  {
    match call
    case Add(_, data) => AddTidy(q, data); AddKeepsOrder(q, data);
    case Get(_, _) => TakeTidy(q);
    case Move(_, _) =>
  }

  /** n takes in a row. */
  function Takes(q: Worker, n: nat): (q': Worker)
    requires Sized(q)
    ensures Sized(q')
    decreases n
  {
    if n == 0 then q else Takes(Taken(q), n - 1)
  }

  lemma TakesTwo(q: Worker, n: nat)
    requires Sized(q) && n == 2
    ensures Takes(q, n) == Taken(Taken(q))
  {
    assert Takes(Taken(Taken(q)), 0) == Taken(Taken(q));
  }

  /** One take hands over one task, and two do if the first one misses it. */
  lemma OneLess(q: Worker, q': Worker)
    requires Tidy(q) && q' == Taken(q) && QueuedSlot(q).Some?
    ensures Tidy(q') && |PendingOf(q')| + 1 == |PendingOf(q)| && q'.taken + PendingOf(q') == q.taken + PendingOf(q)
  {
    TakeTidy(q);
    TakenPending(q);
  }

  /** n takes hand over all that is queued. */
  predicate Drains(q: Worker, n: nat)
    requires Sized(q)
  {
    PendingOf(Takes(q, n)) == [] && Takes(q, n).taken == q.taken + PendingOf(q)
  }

  lemma DrainsMissed(q: Worker, n: nat)
    requires Tidy(q) && QueuedSlot(q) == None && PendingOf(q) != [] && n == 2
    ensures Drains(q, n)
  {
    FoundNext(q);
    TakesTwo(q, n);
  }

  lemma {:induction false} Drain(q: Worker) returns (n: nat)
    requires Tidy(q)
    ensures n <= |PendingOf(q)| + 1 && Drains(q, n)
    decreases |PendingOf(q)|
  {
    if PendingOf(q) == [] {
      n := 0;
    } else if QueuedSlot(q) == None {
      n := 2;
      DrainsMissed(q, n);
    } else {
      var q' := Taken(q);
      OneLess(q, q');
      var m := Drain(q');
      n := m + 1;
    }
  }

  lemma {:induction false} TakesPublish(q: Worker, n: nat)
    requires Sized(q)
    ensures Takes(q, n).published == q.published
    decreases n
  {
    if n > 0 { TakesPublish(Taken(q), n - 1); }
  }

  /** Enough takes hand over all that is queued; they follow the order of publication exactly in the
      first-in-first-out states. */
  lemma DrainInOrder(q: Worker) returns (n: nat)
    requires Tidy(q)
    ensures n <= |PendingOf(q)| + 1 && PendingOf(Takes(q, n)) == []
    ensures Takes(q, n).taken == Takes(q, n).published <==> Fifo(q)
  {
    n := Drain(q);
    TakesPublish(q, n);
  }

  /** A task filed at the end of the window is handed over ahead of those that wait. */
  lemma NewestFirst(q: Worker, data: TaskData)
    requires Tidy(q) && !AddInOrder(q)
    ensures Taken(Added(q, data)).taken == q.taken + [Message(q.nextId, data)]
  {
    var c, r := q.taskCount, q.readFrom;
    FirstIs(q.slots, c, Empty, q.writeTo, r + c);
    NextRound(c, r);
  }

  // ---------------------------------------------------------------- runs in which calls follow one another

  /** No call is under way, and there is one worker. */
  predicate BetweenCalls(s: State) {
    Shape(s) && |s.rings| == 1 && forall t | 0 <= t < |s.threads| :: Resting(s.threads[t].pc)
  }

  function View(s: State): Worker
    requires |s.rings| == 1
  {
    Worker(s.taskCount, s.slots, s.rings[0].readFrom, s.rings[0].writeTo, s.nextId, s.published, s.taken)
  }

  /** A call that runs alone does to the worker what the value says. */
  lemma AddRefines(s: State, t: nat, data: TaskData) returns (n: nat, s': State)
    requires BetweenCalls(s) && t < |s.threads| && Sized(View(s))
    ensures s' == Moves(Next(s, Add(t, data)), t, n)
    ensures BetweenCalls(s') && |s'.threads| == |s.threads| && View(s') == Added(View(s), data)
  {
    var s0 := Next(s, Add(t, data));
    n, s' := EnqueueAlone(s0, t, data, 0);
  }

  lemma TakeRefines(s: State, t: nat, self: nat) returns (n: nat, s': State)
    requires BetweenCalls(s) && t < |s.threads| && Sized(View(s))
    ensures s' == Moves(Next(s, Get(t, self)), t, n)
    ensures BetweenCalls(s') && |s'.threads| == |s.threads| && View(s') == Taken(View(s))
  {
    var s0 := Next(s, Get(t, self));
    assert Visited(s0, self, 0) == 0;
    n, s' := DequeueAlone(s0, t, self, 0, 0);
  }

  function Repeated(t: nat, n: nat): seq<Action> {
    seq(n, _ => Move(t, false))
  }

  /** Each call runs to its end before the next one starts; ns are the steps they take. */
  function Sequenced(calls: seq<Action>, ns: seq<nat>): seq<Action>
    requires |calls| == |ns|
  {
    if calls == [] then []
    else
      var n := |calls| - 1;
      Sequenced(calls[..n], ns[..n]) + [calls[n]] + Repeated(calls[n].thread, ns[n])
  }

  lemma ExecMore(s: State, run: seq<Action>, a: Action)
    ensures Exec(s, run + [a]) == Next(Exec(s, run), a)
  {
    var r := run + [a];
    assert r[..|r| - 1] == run;
  }

  lemma {:induction false} ExecMoves(s: State, run: seq<Action>, t: nat, n: nat)
    ensures Exec(s, run + Repeated(t, n)) == Moves(Exec(s, run), t, n)
    decreases n
  {
    if n == 0 {
      assert run + Repeated(t, n) == run;
    } else {
      ExecMore(s, run, Move(t, false));
      ExecMoves(s, run + [Move(t, false)], t, n - 1);
      assert run + Repeated(t, n) == run + [Move(t, false)] + Repeated(t, n - 1);
    }
  }

  predicate IsCall(s: State, call: Action) {
    !call.Move? && call.thread < |s.threads|
  }

  lemma CallRefines(s: State, call: Action) returns (n: nat, s': State)
    requires BetweenCalls(s) && IsCall(s, call) && Sized(View(s))
    ensures s' == Moves(Next(s, call), call.thread, n)
    ensures BetweenCalls(s') && |s'.threads| == |s.threads| && View(s') == Called(View(s), call)
  {
    match call
    case Add(t, data) => n, s' := AddRefines(s, t, data);
    case Get(t, self) => n, s' := TakeRefines(s, t, self);
  }

  /** Every sequence of calls is a run of the transition system, by whichever threads. */
  lemma {:induction false} CallsRefine(s: State, calls: seq<Action>) returns (ns: seq<nat>)
    requires BetweenCalls(s) && Sized(View(s)) && forall k | 0 <= k < |calls| :: IsCall(s, calls[k])
    ensures |ns| == |calls|
    ensures var s' := Exec(s, Sequenced(calls, ns));
            BetweenCalls(s') && |s'.threads| == |s.threads| && View(s') == Calls(View(s), calls)
    decreases |calls|
  {
    if calls == [] { return []; }
    var n := |calls| - 1;
    var before := CallsRefine(s, calls[..n]);
    var run := Sequenced(calls[..n], before);
    var steps, s' := CallRefines(Exec(s, run), calls[n]);
    ns := before + [steps];
    assert ns[..n] == before;
    ExecMore(s, run, calls[n]);
    ExecMoves(s, run + [calls[n]], calls[n].thread, steps);
  }

  lemma InitBetweenCalls(taskCount: nat, threads: nat)
    requires taskCount > 0
    ensures BetweenCalls(Init(taskCount, 1, threads)) && View(Init(taskCount, 1, threads)) == Start(taskCount)
  {
    assert Times(1, taskCount) == Times(0, taskCount) + taskCount;
  }

  /** In every run of calls that follow one another, the published tasks are the ones handed over
      followed by the queued ones, in this order, exactly when every enqueue_task has filed its task
      behind the others. */
  lemma HandOverOrder(taskCount: nat, threads: nat, calls: seq<Action>) returns (ns: seq<nat>)
    requires taskCount > 0 && forall k | 0 <= k < |calls| :: !calls[k].Move? && calls[k].thread < threads
    ensures |ns| == |calls|
    ensures var s := Exec(Init(taskCount, 1, threads), Sequenced(calls, ns));
            |s.rings| == 1 && View(s) == Calls(Start(taskCount), calls) && Tidy(View(s)) &&
            (Fifo(View(s)) <==> AllInOrder(Start(taskCount), calls))
  {
    InitBetweenCalls(taskCount, threads);
    ns := CallsRefine(Init(taskCount, 1, threads), calls);
    StartIsTidy(taskCount);
    OrderOfCalls(Start(taskCount), calls);
  }

  lemma CallsMore(q: Worker, calls: seq<Action>, call: Action) returns (more: seq<Action>)
    requires Sized(q)
    ensures more == calls + [call] && Calls(q, more) == Called(Calls(q, calls), call)
  {
    more := calls + [call];
    assert more[..|more| - 1] == calls;
  }
}
