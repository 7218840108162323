/** kern/multitasking.c: adding and taking tasks, as a transition system over any number of
    threads and workers.  A step is one atomic operation (or one plain access to a slot the
    thread owns); actions choose which thread moves, so a list of actions is an interleaving. */
module TaskQueue {
  import Bits
  import opened Options

  datatype TaskData = TaskData(code: int, data: int, size: int)

  /** sync_info */
  datatype Sync = Empty | Writing | Queued | Reading

  datatype Task = Task(sync: Sync, id: int, data: TaskData)

  /** A task as the caller sees it. */
  datatype Message = Message(id: int, data: TaskData)

  /** The two always-increasing indices of one worker. */
  datatype Ring = Ring(readFrom: int, writeTo: int)

  /** Where a thread is inside add_task_inner / enqueue_task or the scan of task_main /
      dequeue_task; `worker` and `tried` are the loop variables over the workers. */
  datatype Pc =
    | Idle
    | AddReadFrom(data: TaskData, worker: nat)
    | AddWriteTo(data: TaskData, worker: nat, bound: int)
    | AddTry(data: TaskData, worker: nat, bound: int, index: int)
    | AddAdvance(data: TaskData, worker: nat, bound: int, index: int)
    | AddTakeId(data: TaskData, slot: nat)
    | AddStoreId(data: TaskData, slot: nat, id: int)
    | AddStoreData(data: TaskData, slot: nat, id: int)
    | AddPublish(data: TaskData, slot: nat, id: int)
    | AddDone(added: bool)
    | GetWriteTo(self: nat, tried: nat)
    | GetReadFrom(self: nat, tried: nat, bound: int)
    | GetTry(self: nat, tried: nat, bound: int, index: int)
    | GetAdvance(self: nat, tried: nat, bound: int, index: int)
    | GetId(slot: nat)
    | GetData(slot: nat, id: int)
    | GetRelease(slot: nat, id: int, data: TaskData)
    | GetDone(result: Option<Message>)

  /** `steps` counts the thread's own steps in its current call, failed weak compare-exchanges
      that found the expected value aside. */
  datatype Thread = Thread(pc: Pc, steps: nat)

  /** The slots of worker w are those from w * taskCount.  `published` and `taken` are history:
      what enqueuers were asked to add, and what dequeuers read, in the order of the stores. */
  datatype State = State(
    taskCount: nat, rings: seq<Ring>, slots: seq<Task>, nextId: int, threads: seq<Thread>,
    published: seq<Message>, taken: seq<Message>)

  datatype Action =
    | Add(thread: nat, data: TaskData)
    | Get(thread: nat, self: nat)
    | Move(thread: nat, spurious: bool)

  /** k * n, by repeated addition. */
  function Times(k: nat, n: nat): nat {
    if k == 0 then 0 else Times(k - 1, n) + n
  }

  /** index modulo n, by repeated subtraction. */
  function Wrap(index: int, n: nat): (i: nat)
    requires n > 0
    ensures i < n
    decreases if index < 0 then n - index else index
  {
    if index < 0 then Wrap(index + n, n) else if index < n then index else Wrap(index - n, n)
  }

  lemma {:induction false} WrapIsModulo(index: int, n: nat)
    requires n > 0
    ensures Wrap(index, n) == index % n
    decreases if index < 0 then n - index else index
  {
    if index < 0 {
      WrapIsModulo(index + n, n);
      SameRemainder(index, n);
    } else if index >= n {
      WrapIsModulo(index - n, n);
      SameRemainder(index - n, n);
    }
  }

  lemma SameRemainder(p: int, n: nat)
    requires n > 0
    ensures (p + n) % n == p % n
  {
    var q, k := p + n, (p + n) / n - p / n - 1;
    assert p == n * (p / n) + p % n && q == n * (q / n) + q % n;
    assert n * (q / n - p / n) == n + n * k;
    Bits.MulAtLeast(n, k);
  }

  function SlotOf(taskCount: nat, worker: nat, index: int): (i: nat)
    requires taskCount > 0
    ensures Times(worker, taskCount) <= i < Times(worker, taskCount) + taskCount
  {
    Times(worker, taskCount) + Wrap(index, taskCount)
  }

  lemma {:induction false} TimesMonotone(a: nat, b: nat, n: nat)
    requires a < b
    ensures Times(a, n) + n <= Times(b, n)
  {
    if a + 1 < b { TimesMonotone(a, b - 1, n); }
  }

  function Init(taskCount: nat, workers: nat, threads: nat): State {
    State(taskCount, seq(workers, _ => Ring(0, 0)),
          seq(Times(workers, taskCount), _ => Task(Empty, 0, TaskData(0, 0, 0))), 0,
          seq(threads, _ => Thread(Idle, 0)), [], [])
  }

  predicate Shape(s: State) {
    s.taskCount > 0 && |s.rings| > 0 && |s.slots| == Times(|s.rings|, s.taskCount)
  }

  // ---------------------------------------------------------------- steps

  function WithPc(s: State, t: nat, pc: Pc): State
    requires t < |s.threads|
  {
    s.(threads := s.threads[t := Thread(pc, s.threads[t].steps + 1)])
  }

  function WithSlot(s: State, i: nat, task: Task): State
    requires i < |s.slots|
  {
    s.(slots := s.slots[i := task])
  }

  function WithRing(s: State, w: nat, ring: Ring): State
    requires w < |s.rings|
  {
    s.(rings := s.rings[w := ring])
  }

  /** The worker that a scan starting at `self` visits after `tried` others. */
  function Visited(s: State, self: nat, tried: nat): (w: nat)
    requires Shape(s)
    ensures w < |s.rings|
  {
    (tried + self) % |s.rings|
  }

  /** A thread's references are in range; every reachable state satisfies this. */
  predicate InRange(s: State, pc: Pc) {
    match pc
    case AddReadFrom(_, w) => w < |s.rings|
    case AddWriteTo(_, w, _) => w < |s.rings|
    case AddTry(_, w, _, _) => w < |s.rings|
    case AddAdvance(_, w, _, _) => w < |s.rings|
    case AddTakeId(_, i) => i < |s.slots|
    case AddStoreId(_, i, _) => i < |s.slots|
    case AddStoreData(_, i, _) => i < |s.slots|
    case AddPublish(_, i, _) => i < |s.slots|
    case GetId(i) => i < |s.slots|
    case GetData(i, _) => i < |s.slots|
    case GetRelease(i, _, _) => i < |s.slots|
    case GetWriteTo(_, tried) => tried < |s.rings|
    case GetReadFrom(_, tried, _) => tried < |s.rings|
    case GetTry(_, tried, _, _) => tried < |s.rings|
    case GetAdvance(_, tried, _, _) => tried < |s.rings|
    case _ => true
  }

  lemma SlotInRange(s: State, worker: nat, index: int)
    requires Shape(s) && worker < |s.rings|
    ensures SlotOf(s.taskCount, worker, index) < |s.slots|
  {
    TimesMonotone(worker, |s.rings|, s.taskCount);
  }

  /** enqueue_task on one worker failed: go on with the next, as add_task_inner does. */
  function AddElsewhere(s: State, data: TaskData, worker: nat): Pc {
    if worker + 1 < |s.rings| then AddReadFrom(data, worker + 1) else AddDone(false)
  }

  /** dequeue_task on one worker found nothing: go on with the next, as task_main does. */
  function GetElsewhere(s: State, self: nat, tried: nat): Pc {
    if tried + 1 < |s.rings| then GetWriteTo(self, tried + 1) else GetDone(None)
  }

  function MoveThread(s: State, t: nat, spurious: bool): State
    requires Shape(s) && t < |s.threads| && InRange(s, s.threads[t].pc)
  {
    match s.threads[t].pc
    case Idle => s
    case AddDone(_) => s
    case GetDone(_) => s
    case AddReadFrom(data, w) =>
      WithPc(s, t, AddWriteTo(data, w, s.rings[w].readFrom + s.taskCount))
    case AddWriteTo(data, w, bound) =>
      WithPc(s, t, AddTry(data, w, bound, s.rings[w].writeTo))
    case AddTry(data, w, bound, index) =>
      SlotInRange(s, w, index);
      var i := SlotOf(s.taskCount, w, index);
      if s.slots[i].sync == Empty then
        WithPc(WithSlot(s, i, s.slots[i].(sync := Writing)), t, AddTakeId(data, i))
      else
        WithPc(s, t, AddAdvance(data, w, bound, index))
    case AddAdvance(data, w, bound, index) =>
      var ring := s.rings[w];
      if index >= bound then
        WithPc(s, t, AddElsewhere(s, data, w))
      else if ring.writeTo == index then
        if spurious then s
        else WithPc(WithRing(s, w, ring.(writeTo := index + 1)), t, AddTry(data, w, bound, index))
      else
        WithPc(s, t, AddAdvance(data, w, bound, ring.writeTo))
    case AddTakeId(data, i) =>
      WithPc(s.(nextId := s.nextId + 1), t, AddStoreId(data, i, s.nextId))
    case AddStoreId(data, i, id) =>
      WithPc(WithSlot(s, i, s.slots[i].(id := id)), t, AddStoreData(data, i, id))
    case AddStoreData(data, i, id) =>
      WithPc(WithSlot(s, i, s.slots[i].(data := data)), t, AddPublish(data, i, id))
    case AddPublish(data, i, id) =>
      WithPc(WithSlot(s, i, s.slots[i].(sync := Queued)).(published := s.published + [Message(id, data)]),
             t, AddDone(true))
    case GetWriteTo(self, tried) =>
      WithPc(s, t, GetReadFrom(self, tried, s.rings[Visited(s, self, tried)].writeTo))
    case GetReadFrom(self, tried, bound) =>
      WithPc(s, t, GetTry(self, tried, bound, s.rings[Visited(s, self, tried)].readFrom))
    case GetTry(self, tried, bound, index) =>
      SlotInRange(s, Visited(s, self, tried), index);
      var i := SlotOf(s.taskCount, Visited(s, self, tried), index);
      if s.slots[i].sync == Queued then
        WithPc(WithSlot(s, i, s.slots[i].(sync := Reading)), t, GetId(i))
      else
        WithPc(s, t, GetAdvance(self, tried, bound, index))
    case GetAdvance(self, tried, bound, index) =>
      var w := Visited(s, self, tried);
      var ring := s.rings[w];
      if index >= bound then
        WithPc(s, t, GetElsewhere(s, self, tried))
      else if ring.readFrom == index then
        if spurious then s
        else WithPc(WithRing(s, w, ring.(readFrom := index + 1)), t, GetTry(self, tried, bound, index))
      else
        WithPc(s, t, GetAdvance(self, tried, bound, ring.readFrom))
    case GetId(i) =>
      WithPc(s, t, GetData(i, s.slots[i].id))
    case GetData(i, id) =>
      WithPc(s, t, GetRelease(i, id, s.slots[i].data))
    case GetRelease(i, id, data) =>
      WithPc(WithSlot(s, i, s.slots[i].(sync := Empty)).(taken := s.taken + [Message(id, data)]),
             t, GetDone(Some(Message(id, data))))
  }

  predicate Resting(pc: Pc) {
    pc.Idle? || pc.AddDone? || pc.GetDone?
  }

  /** An action that is not enabled leaves the state as it is. */
  function Next(s: State, a: Action): State {
    if !Shape(s) || a.thread >= |s.threads| || !InRange(s, s.threads[a.thread].pc) then s
    else
      match a
      case Add(t, data) =>
        if Resting(s.threads[t].pc) then s.(threads := s.threads[t := Thread(AddReadFrom(data, 0), 0)]) else s
      case Get(t, self) =>
        if Resting(s.threads[t].pc) then s.(threads := s.threads[t := Thread(GetWriteTo(self, 0), 0)]) else s
      case Move(t, spurious) => MoveThread(s, t, spurious)
  }

  /** The state after an interleaving. */
  function Exec(s: State, run: seq<Action>): State {
    if run == [] then s else Next(Exec(s, run[..|run| - 1]), run[|run| - 1])
  }

  // ---------------------------------------------------------------- the invariant

  /** The slot a thread has to itself. */
  function Owned(pc: Pc): Option<nat> {
    match pc
    case AddTakeId(_, i) => Some(i)
    case AddStoreId(_, i, _) => Some(i)
    case AddStoreData(_, i, _) => Some(i)
    case AddPublish(_, i, _) => Some(i)
    case GetId(i) => Some(i)
    case GetData(i, _) => Some(i)
    case GetRelease(i, _, _) => Some(i)
    case _ => None
  }

  /** The id a thread has drawn but not yet published. */
  function Drawn(pc: Pc): Option<int> {
    match pc
    case AddStoreId(_, _, id) => Some(id)
    case AddStoreData(_, _, id) => Some(id)
    case AddPublish(_, _, id) => Some(id)
    case _ => None
  }

  /** The slot holds message m: published and not yet taken. */
  predicate Holds(task: Task, m: Message) {
    (task.sync == Queued || task.sync == Reading) && task.id == m.id && task.data == m.data
  }

  /** How many of the slots hold m. */
  function Held(slots: seq<Task>, m: Message): nat {
    if slots == [] then 0
    else Held(slots[..|slots| - 1], m) + if Holds(slots[|slots| - 1], m) then 1 else 0
  }

  /** Published tasks are the taken ones and those still held. */
  ghost predicate Conserved(published: seq<Message>, taken: seq<Message>, slots: seq<Task>) {
    forall m: Message :: multiset(published)[m] == multiset(taken)[m] + Held(slots, m)
  }

  /** 0 <= write_to - read_from <= task_count */
  predicate Window(s: State, w: nat)
    requires w < |s.rings|
  {
    0 <= s.rings[w].readFrom <= s.rings[w].writeTo <= s.rings[w].readFrom + s.taskCount
  }

  /** What a thread knows from its stale snapshots and its owned slot. */
  predicate LocalOk(s: State, pc: Pc) {
    Shape(s) && InRange(s, pc) &&
    match pc
    case AddWriteTo(_, w, bound) => bound <= s.rings[w].readFrom + s.taskCount
    case AddTry(_, w, bound, index) => AddSnapshots(s, w, bound, index)
    case AddAdvance(_, w, bound, index) => AddSnapshots(s, w, bound, index)
    case AddTakeId(_, i) => s.slots[i].sync == Writing
    case AddStoreId(_, i, _) => s.slots[i].sync == Writing
    case AddStoreData(_, i, id) => s.slots[i].sync == Writing && s.slots[i].id == id
    case AddPublish(data, i, id) => s.slots[i].sync == Writing && s.slots[i].id == id && s.slots[i].data == data
    case GetReadFrom(self, tried, bound) =>
      var ring := s.rings[Visited(s, self, tried)];
      bound <= ring.writeTo && bound - s.taskCount <= ring.readFrom
    case GetTry(self, tried, bound, index) => GetSnapshots(s, Visited(s, self, tried), bound, index)
    case GetAdvance(self, tried, bound, index) => GetSnapshots(s, Visited(s, self, tried), bound, index)
    case GetId(i) => s.slots[i].sync == Reading
    case GetData(i, id) => s.slots[i].sync == Reading && s.slots[i].id == id
    case GetRelease(i, id, data) => s.slots[i].sync == Reading && s.slots[i].id == id && s.slots[i].data == data
    case _ => true
  }

  predicate AddSnapshots(s: State, w: nat, bound: int, index: int)
    requires w < |s.rings|
  {
    bound <= s.rings[w].readFrom + s.taskCount && 0 <= index <= s.rings[w].writeTo && bound - s.taskCount <= index
  }

  predicate GetSnapshots(s: State, w: nat, bound: int, index: int)
    requires w < |s.rings|
  {
    bound <= s.rings[w].writeTo && 0 <= index <= s.rings[w].readFrom && bound - s.taskCount <= index
  }

  /** An upper bound on the steps of one enqueue_task or dequeue_task call. */
  function CallBound(taskCount: nat): nat {
    4 * taskCount + 10
  }

  /** Twice the distance to the bound, plus one when the shared index is still the local one. */
  function Distance(bound: int, index: int, shared: int): nat {
    (if index < bound then 2 * (bound - index) else 0) + (if shared == index then 1 else 0)
  }

  /** The steps a thread may still take in its call. */
  function Rank(s: State, pc: Pc): nat
    requires Shape(s) && InRange(s, pc)
  {
    var c, n := CallBound(s.taskCount), |s.rings|;
    match pc
    case AddReadFrom(_, w) => Times(n - w - 1, c) + c
    case AddWriteTo(_, w, _) => Times(n - w - 1, c) + c - 1
    case AddTry(_, w, bound, index) => Times(n - w - 1, c) + 2 * Distance(bound, index, s.rings[w].writeTo) + 6
    case AddAdvance(_, w, bound, index) => Times(n - w - 1, c) + 2 * Distance(bound, index, s.rings[w].writeTo) + 5
    case AddTakeId(_, _) => 4
    case AddStoreId(_, _, _) => 3
    case AddStoreData(_, _, _) => 2
    case AddPublish(_, _, _) => 1
    case GetWriteTo(_, tried) => Times(n - tried - 1, c) + c
    case GetReadFrom(_, tried, _) => Times(n - tried - 1, c) + c - 1
    case GetTry(self, tried, bound, index) =>
      Times(n - tried - 1, c) + 2 * Distance(bound, index, s.rings[Visited(s, self, tried)].readFrom) + 6
    case GetAdvance(self, tried, bound, index) =>
      Times(n - tried - 1, c) + 2 * Distance(bound, index, s.rings[Visited(s, self, tried)].readFrom) + 5
    case GetId(_) => 3
    case GetData(_, _) => 2
    case GetRelease(_, _, _) => 1
    case _ => 0
  }

  predicate ThreadOk(s: State, th: Thread) {
    LocalOk(s, th.pc) && th.steps + Rank(s, th.pc) <= Times(|s.rings|, CallBound(s.taskCount))
  }

  predicate Apart(a: Pc, b: Pc) {
    (Owned(a).Some? ==> Owned(a) != Owned(b)) && (Drawn(a).Some? ==> Drawn(a) != Drawn(b))
  }

  predicate FreshId(s: State, id: int) {
    0 <= id < s.nextId && forall k | 0 <= k < |s.published| :: s.published[k].id != id
  }

  predicate DrawnOk(s: State, pc: Pc) {
    Drawn(pc).Some? ==> FreshId(s, Drawn(pc).value)
  }

  predicate IdsDistinct(published: seq<Message>) {
    forall k, l | 0 <= k < l < |published| :: published[k].id != published[l].id
  }

  ghost predicate Inv(s: State) {
    && Shape(s) && s.nextId >= 0
    && (forall w: nat | w < |s.rings| :: Window(s, w))
    && (forall t | 0 <= t < |s.threads| :: ThreadOk(s, s.threads[t]) && DrawnOk(s, s.threads[t].pc))
    && (forall t, u | 0 <= t < |s.threads| && 0 <= u < |s.threads| && t != u ::
          Apart(s.threads[t].pc, s.threads[u].pc))
    && IdsDistinct(s.published)
    && (forall k | 0 <= k < |s.published| :: 0 <= s.published[k].id < s.nextId)
    && Conserved(s.published, s.taken, s.slots)
  }

  // ---------------------------------------------------------------- preservation

  /** A step of another thread: the indices and the id counter grow, slots the thread owns stay. */
  predicate Grown(s: State, s': State) {
    && Shape(s) && Shape(s') && s.taskCount == s'.taskCount && |s.rings| == |s'.rings| && |s.slots| == |s'.slots|
    && s.nextId <= s'.nextId
    && (forall w: nat | w < |s.rings| :: Window(s', w) &&
          s.rings[w].readFrom <= s'.rings[w].readFrom && s.rings[w].writeTo <= s'.rings[w].writeTo)
  }

  lemma LocalKept(s: State, s': State, th: Thread)
    requires Grown(s, s') && ThreadOk(s, th)
    requires Owned(th.pc).Some? ==> Owned(th.pc).value < |s.slots| && s'.slots[Owned(th.pc).value] == s.slots[Owned(th.pc).value]
    ensures ThreadOk(s', th)
  {
    SnapshotsKept(s, s', th.pc);
    RankKept(s, s', th.pc);
  }

  lemma SnapshotsKept(s: State, s': State, pc: Pc)
    requires Grown(s, s') && LocalOk(s, pc)
    requires Owned(pc).Some? ==> Owned(pc).value < |s.slots| && s'.slots[Owned(pc).value] == s.slots[Owned(pc).value]
    ensures LocalOk(s', pc)
  {
    match pc
    case AddWriteTo(_, w, _) => assert Window(s', w);
    case AddTry(_, w, _, _) => assert Window(s', w);
    case AddAdvance(_, w, _, _) => assert Window(s', w);
    case GetReadFrom(self, tried, _) => assert Window(s', Visited(s, self, tried));
    case GetTry(self, tried, _, _) => assert Window(s', Visited(s, self, tried));
    case GetAdvance(self, tried, _, _) => assert Window(s', Visited(s, self, tried));
    case _ =>
  }

  lemma RankKept(s: State, s': State, pc: Pc)
    requires Grown(s, s') && LocalOk(s, pc) && LocalOk(s', pc)
    ensures Rank(s', pc) <= Rank(s, pc)
  {
    match pc
    case AddTry(_, w, _, _) => assert Window(s', w);
    case AddAdvance(_, w, _, _) => assert Window(s', w);
    case GetTry(self, tried, _, _) => assert Window(s', Visited(s, self, tried));
    case GetAdvance(self, tried, _, _) => assert Window(s', Visited(s, self, tried));
    case _ =>
  }

  /** Thread t moved; what has to be shown about the rest of the state. */
  lemma Preserve(s: State, s': State, t: nat, th: Thread)
    requires Inv(s) && Grown(s, s') && t < |s.threads| && s'.threads == s.threads[t := th]
    requires ThreadOk(s', th) && DrawnOk(s', th.pc)
    requires forall u | 0 <= u < |s.threads| && u != t ::
               Apart(s.threads[u].pc, th.pc) && Apart(th.pc, s.threads[u].pc) && DrawnOk(s', s.threads[u].pc)
    requires forall u | 0 <= u < |s.threads| && u != t && Owned(s.threads[u].pc).Some? ::
               var i := Owned(s.threads[u].pc).value;
               i < |s.slots| && s'.slots[i] == s.slots[i]
    requires IdsDistinct(s'.published)
    requires forall k | 0 <= k < |s'.published| :: 0 <= s'.published[k].id < s'.nextId
    requires Conserved(s'.published, s'.taken, s'.slots)
    ensures Inv(s')
  {
    forall u | 0 <= u < |s'.threads| ensures ThreadOk(s', s'.threads[u]) && DrawnOk(s', s'.threads[u].pc) {
      if u != t { LocalKept(s, s', s.threads[u]); }
    }
  }

  /** Only thread t and possibly one ring change. */
  lemma PreserveIndices(s: State, s': State, t: nat, pc: Pc)
    requires Inv(s) && Grown(s, s') && t < |s.threads|
    requires s' == WithPc(s.(rings := s'.rings), t, pc)
    requires ThreadOk(s', s'.threads[t]) && Owned(pc) == None && Drawn(pc) == None
    ensures Inv(s')
  {
    OwnedInRange(s);
    Preserve(s, s', t, s'.threads[t]);
  }

  lemma OwnedInRange(s: State)
    requires Inv(s)
    ensures forall u | 0 <= u < |s.threads| && Owned(s.threads[u].pc).Some? ::
              Owned(s.threads[u].pc).value < |s.slots| &&
              s.slots[Owned(s.threads[u].pc).value].sync in {Writing, Reading}
  {
    forall u | 0 <= u < |s.threads| && Owned(s.threads[u].pc).Some?
      ensures Owned(s.threads[u].pc).value < |s.slots| &&
              s.slots[Owned(s.threads[u].pc).value].sync in {Writing, Reading}
    {
      assert ThreadOk(s, s.threads[u]);
    }
  }

  lemma {:induction false} HeldUpdate(slots: seq<Task>, i: nat, task: Task, m: Message)
    requires i < |slots|
    ensures Held(slots[i := task], m) + (if Holds(slots[i], m) then 1 else 0) ==
            Held(slots, m) + (if Holds(task, m) then 1 else 0)
    decreases |slots|
  {
    var n, slots' := |slots| - 1, slots[i := task];
    if i < n {
      HeldUpdate(slots[..n], i, task, m);
      assert slots'[..n] == slots[..n][i := task] && slots'[n] == slots[n];
    } else {
      assert slots'[..n] == slots[..n];
    }
  }

  lemma ConservedSlot(s: State, i: nat, task: Task)
    requires i < |s.slots| && Conserved(s.published, s.taken, s.slots)
    requires forall m: Message :: Holds(task, m) <==> Holds(s.slots[i], m)
    ensures Conserved(s.published, s.taken, s.slots[i := task])
  {
    forall m: Message ensures Held(s.slots[i := task], m) == Held(s.slots, m) {
      HeldUpdate(s.slots, i, task, m);
    }
  }

  /** The message of a newly filled slot joins the published ones. */
  lemma ConservedPublish(s: State, i: nat, task: Task)
    requires i < |s.slots| && Conserved(s.published, s.taken, s.slots)
    requires s.slots[i].sync == Writing && task.sync == Queued
    ensures Conserved(s.published + [Message(task.id, task.data)], s.taken, s.slots[i := task])
  {
    var m0 := Message(task.id, task.data);
    forall m: Message ensures multiset(s.published + [m0])[m] == multiset(s.taken)[m] + Held(s.slots[i := task], m) {
      HeldUpdate(s.slots, i, task, m);
    }
  }

  /** The message of an emptied slot joins the taken ones. */
  lemma ConservedTake(s: State, i: nat, task: Task)
    requires i < |s.slots| && Conserved(s.published, s.taken, s.slots)
    requires s.slots[i].sync == Reading && task.sync == Empty
    ensures Conserved(s.published, s.taken + [Message(s.slots[i].id, s.slots[i].data)], s.slots[i := task])
  {
    var m0 := Message(s.slots[i].id, s.slots[i].data);
    forall m: Message ensures multiset(s.published)[m] == multiset(s.taken + [m0])[m] + Held(s.slots[i := task], m) {
      HeldUpdate(s.slots, i, task, m);
    }
  }

  /** A thread that had drawn an id publishes a message with it. */
  predicate Publishes(s: State, s': State, before: Pc, after: Pc) {
    |s'.published| == |s.published| + 1 && s'.published[..|s.published|] == s.published &&
    Drawn(before) == Some(s'.published[|s.published|].id) && Drawn(after) == None
  }

  /** Thread t changes the slot that it owns afterwards or owned before, and nothing else shared
      but the id counter and the histories. */
  lemma PreserveSlot(s: State, s': State, t: nat, i: nat, task: Task, pc: Pc)
    requires Inv(s) && Grown(s, s') && t < |s.threads| && i < |s.slots|
    requires s' == WithPc(WithSlot(s, i, task).(published := s'.published, taken := s'.taken), t, pc)
    requires s.slots[i].sync in {Empty, Queued} || Owned(s.threads[t].pc) == Some(i)
    requires Owned(pc) in {None, Some(i)} && Drawn(pc) in {None, Drawn(s.threads[t].pc)}
    requires ThreadOk(s', s'.threads[t])
    requires s'.published == s.published || Publishes(s, s', s.threads[t].pc, pc)
    requires Conserved(s'.published, s'.taken, s'.slots)
    ensures Inv(s')
  {
    OwnedInRange(s);
    assert DrawnOk(s, s.threads[t].pc);
    forall u | 0 <= u < |s.threads| && u != t
      ensures Apart(s.threads[u].pc, pc) && Apart(pc, s.threads[u].pc) && DrawnOk(s', s.threads[u].pc)
      ensures Owned(s.threads[u].pc) != Some(i)
    {
      assert Apart(s.threads[t].pc, s.threads[u].pc) && Apart(s.threads[u].pc, s.threads[t].pc);
      assert DrawnOk(s, s.threads[u].pc);
    }
    Preserve(s, s', t, s'.threads[t]);
  }

  // ---------------------------------------------------------------- every step

  lemma GrownSame(s: State, s': State)
    requires Inv(s) && s'.taskCount == s.taskCount && s'.rings == s.rings && |s'.slots| == |s.slots|
    requires s.nextId <= s'.nextId
    ensures Grown(s, s')
  {
    forall w: nat | w < |s.rings| ensures Window(s', w) { assert Window(s, w); }
  }

  lemma StepStart(s: State, t: nat, pc: Pc)
    requires Inv(s) && t < |s.threads|
    requires (pc.AddReadFrom? && pc.worker == 0) || (pc.GetWriteTo? && pc.tried == 0)
    ensures Inv(s.(threads := s.threads[t := Thread(pc, 0)]))
  {
    var s' := s.(threads := s.threads[t := Thread(pc, 0)]);
    OwnedInRange(s);
    GrownSame(s, s');
    Preserve(s, s', t, Thread(pc, 0));
  }

  /** Steps that change nothing shared: loads, and compare-exchanges that fail. */
  lemma StepQuiet(s: State, t: nat, pc: Pc)
    requires Inv(s) && t < |s.threads|
    requires ThreadOk(s, Thread(pc, s.threads[t].steps + 1)) && Owned(pc) == None && Drawn(pc) == None
    ensures Inv(WithPc(s, t, pc))
  {
    var s' := WithPc(s, t, pc);
    GrownSame(s, s');
    LocalKept(s, s', s'.threads[t].(pc := pc));
    PreserveIndices(s, s', t, pc);
  }

  /** Steps that advance a shared index. */
  lemma StepRing(s: State, t: nat, w: nat, ring: Ring, pc: Pc)
    requires Inv(s) && t < |s.threads| && w < |s.rings|
    requires s.rings[w].readFrom <= ring.readFrom && s.rings[w].writeTo <= ring.writeTo
    requires ring.readFrom <= ring.writeTo <= ring.readFrom + s.taskCount
    requires ThreadOk(WithRing(s, w, ring), Thread(pc, s.threads[t].steps + 1)) && Owned(pc) == None && Drawn(pc) == None
    ensures Inv(WithPc(WithRing(s, w, ring), t, pc))
  {
    var r := WithRing(s, w, ring);
    var s' := WithPc(r, t, pc);
    forall v: nat | v < |s.rings| ensures Window(s', v) && Window(r, v) { assert Window(s, v); }
    LocalKept(r, s', Thread(pc, s.threads[t].steps + 1));
    PreserveIndices(s, s', t, pc);
  }

  /** The loads at the start of enqueue_task and of dequeue_task. */
  lemma StepAddLoad(s: State, t: nat)
    requires Inv(s) && t < |s.threads| && InRange(s, s.threads[t].pc)
    requires s.threads[t].pc.AddReadFrom? || s.threads[t].pc.AddWriteTo?
    ensures Inv(MoveThread(s, t, false)) && MoveThread(s, t, true) == MoveThread(s, t, false)
  {
    assert ThreadOk(s, s.threads[t]);
    var w := s.threads[t].pc.worker;
    assert Window(s, w);
    match s.threads[t].pc
    case AddReadFrom(data, _) => StepQuiet(s, t, AddWriteTo(data, w, s.rings[w].readFrom + s.taskCount));
    case AddWriteTo(data, _, bound) => StepQuiet(s, t, AddTry(data, w, bound, s.rings[w].writeTo));
  }

  lemma StepGetLoad(s: State, t: nat)
    requires Inv(s) && t < |s.threads| && InRange(s, s.threads[t].pc)
    requires s.threads[t].pc.GetWriteTo? || s.threads[t].pc.GetReadFrom?
    ensures Inv(MoveThread(s, t, false)) && MoveThread(s, t, true) == MoveThread(s, t, false)
  {
    assert ThreadOk(s, s.threads[t]);
    var w := Visited(s, s.threads[t].pc.self, s.threads[t].pc.tried);
    assert Window(s, w);
    match s.threads[t].pc
    case GetWriteTo(self, tried) => StepQuiet(s, t, GetReadFrom(self, tried, s.rings[w].writeTo));
    case GetReadFrom(self, tried, bound) => StepQuiet(s, t, GetTry(self, tried, bound, s.rings[w].readFrom));
  }

  /** The inner loop of enqueue_task: give up, reload the index, or advance it. */
  lemma StepAddAdvance(s: State, t: nat, spurious: bool)
    requires Inv(s) && t < |s.threads| && InRange(s, s.threads[t].pc) && s.threads[t].pc.AddAdvance?
    ensures Inv(MoveThread(s, t, spurious))
  {
    assert ThreadOk(s, s.threads[t]);
    var AddAdvance(data, w, bound, index) := s.threads[t].pc;
    assert Window(s, w);
    if index >= bound {
      StepQuiet(s, t, AddElsewhere(s, data, w));
    } else if s.rings[w].writeTo != index {
      StepQuiet(s, t, AddAdvance(data, w, bound, s.rings[w].writeTo));
    } else if !spurious {
      StepRing(s, t, w, s.rings[w].(writeTo := index + 1), AddTry(data, w, bound, index));
    }
  }

  /** The inner loop of dequeue_task. */
  lemma StepGetAdvance(s: State, t: nat, spurious: bool)
    requires Inv(s) && t < |s.threads| && InRange(s, s.threads[t].pc) && s.threads[t].pc.GetAdvance?
    ensures Inv(MoveThread(s, t, spurious))
  {
    assert ThreadOk(s, s.threads[t]);
    var GetAdvance(self, tried, bound, index) := s.threads[t].pc;
    var w := Visited(s, self, tried);
    assert Window(s, w);
    if index >= bound {
      StepQuiet(s, t, GetElsewhere(s, self, tried));
    } else if s.rings[w].readFrom != index {
      StepQuiet(s, t, GetAdvance(self, tried, bound, s.rings[w].readFrom));
    } else if !spurious {
      StepRing(s, t, w, s.rings[w].(readFrom := index + 1), GetTry(self, tried, bound, index));
    }
  }

  /** The compare-exchange on a slot: it takes the slot, or the thread moves on. */
  lemma StepAddTry(s: State, t: nat)
    requires Inv(s) && t < |s.threads| && InRange(s, s.threads[t].pc) && s.threads[t].pc.AddTry?
    ensures Inv(MoveThread(s, t, false)) && MoveThread(s, t, true) == MoveThread(s, t, false)
  {
    assert ThreadOk(s, s.threads[t]);
    var AddTry(data, w, bound, index) := s.threads[t].pc;
    SlotInRange(s, w, index);
    var i := SlotOf(s.taskCount, w, index);
    if s.slots[i].sync == Empty {
      StepSlot(s, t, i, s.slots[i].(sync := Writing), AddTakeId(data, i));
    } else {
      StepQuiet(s, t, AddAdvance(data, w, bound, index));
    }
  }

  lemma StepGetTry(s: State, t: nat)
    requires Inv(s) && t < |s.threads| && InRange(s, s.threads[t].pc) && s.threads[t].pc.GetTry?
    ensures Inv(MoveThread(s, t, false)) && MoveThread(s, t, true) == MoveThread(s, t, false)
  {
    assert ThreadOk(s, s.threads[t]);
    var GetTry(self, tried, bound, index) := s.threads[t].pc;
    SlotInRange(s, Visited(s, self, tried), index);
    var i := SlotOf(s.taskCount, Visited(s, self, tried), index);
    if s.slots[i].sync == Queued {
      StepSlot(s, t, i, s.slots[i].(sync := Reading), GetId(i));
    } else {
      StepQuiet(s, t, GetAdvance(self, tried, bound, index));
    }
  }

  /** Steps on a slot that neither publish nor take a task. */
  lemma StepSlot(s: State, t: nat, i: nat, task: Task, pc: Pc)
    requires Inv(s) && t < |s.threads| && i < |s.slots|
    requires s.slots[i].sync in {Empty, Queued} || Owned(s.threads[t].pc) == Some(i)
    requires Owned(pc) in {None, Some(i)} && Drawn(pc) in {None, Drawn(s.threads[t].pc)}
    requires ThreadOk(WithSlot(s, i, task), Thread(pc, s.threads[t].steps + 1))
    requires forall m: Message :: Holds(task, m) <==> Holds(s.slots[i], m)
    ensures Inv(WithPc(WithSlot(s, i, task), t, pc))
  {
    var r := WithSlot(s, i, task);
    var s' := WithPc(r, t, pc);
    GrownSame(s, r);
    GrownSame(s, s');
    forall w: nat | w < |s.rings| ensures Window(r, w) && Window(s', w) { assert Window(s, w); }
    LocalKept(r, s', Thread(pc, s.threads[t].steps + 1));
    ConservedSlot(s, i, task);
    PreserveSlot(s, s', t, i, task, pc);
  }

  /** Drawing an id makes it differ from every id drawn or published before. */
  lemma StepTakeId(s: State, t: nat)
    requires Inv(s) && t < |s.threads| && s.threads[t].pc.AddTakeId? && InRange(s, s.threads[t].pc)
    ensures Inv(MoveThread(s, t, false)) && MoveThread(s, t, true) == MoveThread(s, t, false)
  {
    assert ThreadOk(s, s.threads[t]);
    var AddTakeId(data, i) := s.threads[t].pc;
    var pc := AddStoreId(data, i, s.nextId);
    var s' := MoveThread(s, t, false);
    OwnedInRange(s);
    GrownSame(s, s');
    forall u | 0 <= u < |s.threads| && u != t
      ensures Apart(s.threads[u].pc, pc) && Apart(pc, s.threads[u].pc) && DrawnOk(s', s.threads[u].pc)
    {
      assert Apart(s.threads[t].pc, s.threads[u].pc) && Apart(s.threads[u].pc, s.threads[t].pc);
      assert DrawnOk(s, s.threads[u].pc);
    }
    Preserve(s, s', t, s'.threads[t]);
  }

  /** The owner's plain accesses to its slot. */
  lemma StepOwner(s: State, t: nat)
    requires Inv(s) && t < |s.threads| && InRange(s, s.threads[t].pc)
    requires var pc := s.threads[t].pc; pc.AddStoreId? || pc.AddStoreData? || pc.GetId? || pc.GetData?
    ensures Inv(MoveThread(s, t, false)) && MoveThread(s, t, true) == MoveThread(s, t, false)
  {
    assert ThreadOk(s, s.threads[t]);
    match s.threads[t].pc
    case AddStoreId(data, i, id) => StepSlot(s, t, i, s.slots[i].(id := id), AddStoreData(data, i, id));
    case AddStoreData(data, i, id) => StepSlot(s, t, i, s.slots[i].(data := data), AddPublish(data, i, id));
    case GetId(i) =>
      assert s == WithSlot(s, i, s.slots[i]);
      StepSlot(s, t, i, s.slots[i], GetData(i, s.slots[i].id));
    case GetData(i, id) =>
      assert s == WithSlot(s, i, s.slots[i]);
      StepSlot(s, t, i, s.slots[i], GetRelease(i, id, s.slots[i].data));
  }

  lemma StepPublish(s: State, t: nat)
    requires Inv(s) && t < |s.threads| && InRange(s, s.threads[t].pc) && s.threads[t].pc.AddPublish?
    ensures Inv(MoveThread(s, t, false)) && MoveThread(s, t, true) == MoveThread(s, t, false)
  {
    assert ThreadOk(s, s.threads[t]) && DrawnOk(s, s.threads[t].pc);
    var AddPublish(data, i, id) := s.threads[t].pc;
    var s', task := MoveThread(s, t, false), s.slots[i].(sync := Queued);
    GrownSame(s, s');
    ConservedPublish(s, i, task);
    OwnedInRange(s);
    forall u | 0 <= u < |s.threads| && u != t
      ensures Apart(s.threads[u].pc, AddDone(true)) && DrawnOk(s', s.threads[u].pc)
      ensures Owned(s.threads[u].pc) != Some(i)
    {
      assert Apart(s.threads[t].pc, s.threads[u].pc) && Apart(s.threads[u].pc, s.threads[t].pc);
      assert DrawnOk(s, s.threads[u].pc);
    }
    Preserve(s, s', t, s'.threads[t]);
  }

  lemma StepRelease(s: State, t: nat)
    requires Inv(s) && t < |s.threads| && InRange(s, s.threads[t].pc) && s.threads[t].pc.GetRelease?
    ensures Inv(MoveThread(s, t, false)) && MoveThread(s, t, true) == MoveThread(s, t, false)
  {
    assert ThreadOk(s, s.threads[t]);
    var GetRelease(i, id, data) := s.threads[t].pc;
    var s', task := MoveThread(s, t, false), s.slots[i].(sync := Empty);
    GrownSame(s, s');
    ConservedTake(s, i, task);
    OwnedInRange(s);
    forall u | 0 <= u < |s.threads| && u != t
      ensures Apart(s.threads[u].pc, s'.threads[t].pc) && DrawnOk(s', s.threads[u].pc)
      ensures Owned(s.threads[u].pc) != Some(i)
    {
      assert Apart(s.threads[t].pc, s.threads[u].pc) && Apart(s.threads[u].pc, s.threads[t].pc);
      assert DrawnOk(s, s.threads[u].pc);
    }
    Preserve(s, s', t, s'.threads[t]);
  }

  lemma InvNext(s: State, a: Action)
    requires Inv(s)
    ensures Inv(Next(s, a))
  {
    if a.thread < |s.threads| && InRange(s, s.threads[a.thread].pc) {
      match a
      case Add(t, data) => if Resting(s.threads[t].pc) { StepStart(s, t, AddReadFrom(data, 0)); }
      case Get(t, self) => if Resting(s.threads[t].pc) { StepStart(s, t, GetWriteTo(self, 0)); }
      case Move(t, spurious) => InvMove(s, t, spurious);
    }
  }

  lemma InvMove(s: State, t: nat, spurious: bool)
    requires Inv(s) && t < |s.threads| && InRange(s, s.threads[t].pc)
    ensures Inv(MoveThread(s, t, spurious))
  {
    match s.threads[t].pc
    case Idle =>
    case AddDone(_) =>
    case GetDone(_) =>
    case AddReadFrom(_, _) => StepAddLoad(s, t);
    case AddWriteTo(_, _, _) => StepAddLoad(s, t);
    case GetWriteTo(_, _) => StepGetLoad(s, t);
    case GetReadFrom(_, _, _) => StepGetLoad(s, t);
    case AddTry(_, _, _, _) => StepAddTry(s, t);
    case GetTry(_, _, _, _) => StepGetTry(s, t);
    case AddAdvance(_, _, _, _) => StepAddAdvance(s, t, spurious);
    case GetAdvance(_, _, _, _) => StepGetAdvance(s, t, spurious);
    case AddTakeId(_, _) => StepTakeId(s, t);
    case AddStoreId(_, _, _) => StepOwner(s, t);
    case AddStoreData(_, _, _) => StepOwner(s, t);
    case GetId(_) => StepOwner(s, t);
    case GetData(_, _) => StepOwner(s, t);
    case AddPublish(_, _, _) => StepPublish(s, t);
    case GetRelease(_, _, _) => StepRelease(s, t);
  }

  lemma {:induction false} HeldNothing(slots: seq<Task>, m: Message)
    requires forall i | 0 <= i < |slots| :: slots[i].sync == Empty
    ensures Held(slots, m) == 0
  {
    if slots != [] { HeldNothing(slots[..|slots| - 1], m); }
  }

  lemma InvInit(taskCount: nat, workers: nat, threads: nat)
    requires taskCount > 0 && workers > 0
    ensures Inv(Init(taskCount, workers, threads))
  {
    var s := Init(taskCount, workers, threads);
    forall m: Message ensures Held(s.slots, m) == 0 { HeldNothing(s.slots, m); }
  }

  lemma {:induction false} InvExec(s: State, run: seq<Action>)
    requires Inv(s)
    ensures Inv(Exec(s, run))
  {
    if run != [] {
      InvExec(s, run[..|run| - 1]);
      InvNext(Exec(s, run[..|run| - 1]), run[|run| - 1]);
    }
  }

  // ---------------------------------------------------------------- theorems over every interleaving

  lemma {:induction false} DistinctOnce(published: seq<Message>, m: Message)
    requires IdsDistinct(published)
    ensures multiset(published)[m] == if m in published then 1 else 0
  {
    if published != [] {
      var n := |published| - 1;
      assert published == published[..n] + [published[n]];
      DistinctOnce(published[..n], m);
    }
  }

  /** Exactly-once hand-over: ids are never reused, and every published task is either taken once
      or held by exactly one slot; what was taken was published, with the same id and data. */
  lemma ExactlyOnce(taskCount: nat, workers: nat, threads: nat, run: seq<Action>, m: Message)
    requires taskCount > 0 && workers > 0
    ensures var s := Exec(Init(taskCount, workers, threads), run);
            IdsDistinct(s.published) &&
            multiset(s.taken)[m] + Held(s.slots, m) == if m in s.published then 1 else 0
  {
    InvInit(taskCount, workers, threads);
    InvExec(Init(taskCount, workers, threads), run);
    DistinctOnce(Exec(Init(taskCount, workers, threads), run).published, m);
  }

  /** Mutual exclusion: in every reachable state a slot being written or read has one thread
      inside it, and threads never share a slot. */
  lemma MutualExclusion(taskCount: nat, workers: nat, threads: nat, run: seq<Action>, t: nat, u: nat)
    requires taskCount > 0 && workers > 0 && t < threads && u < threads && t != u
    ensures var s := Exec(Init(taskCount, workers, threads), run);
            |s.threads| == threads &&
            (Owned(s.threads[t].pc).Some? ==> Owned(s.threads[t].pc) != Owned(s.threads[u].pc)) &&
            (Owned(s.threads[t].pc).Some? ==>
               Owned(s.threads[t].pc).value < |s.slots| &&
               s.slots[Owned(s.threads[t].pc).value].sync in {Writing, Reading})
  {
    InvInit(taskCount, workers, threads);
    InvExec(Init(taskCount, workers, threads), run);
    ThreadCount(Init(taskCount, workers, threads), run);
    OwnedInRange(Exec(Init(taskCount, workers, threads), run));
  }

  lemma {:induction false} ThreadCount(s: State, run: seq<Action>)
    ensures |Exec(s, run).threads| == |s.threads|
    decreases |run|
  {
    if run != [] {
      var n := |run| - 1;
      ThreadCount(s, run[..n]);
      ThreadCountStep(Exec(s, run[..n]), run[n]);
    }
  }

  lemma ThreadCountStep(s: State, a: Action)
    ensures |Next(s, a).threads| == |s.threads|
  {
  }

  /** The order of the slot states. */
  function After(sync: Sync): Sync {
    match sync
    case Empty => Writing
    case Writing => Queued
    case Queued => Reading
    case Reading => Empty
  }

  /** Slot i keeps its contents and state, or thread t advances its state or fills it in. */
  predicate SlotStep(s: State, s': State, t: nat, i: nat)
    requires t < |s.threads| == |s'.threads| && i < |s.slots| == |s'.slots|
  {
    var old', new' := s.slots[i], s'.slots[i];
    && new'.sync in {old'.sync, After(old'.sync)}
    && (new' != old' ==> Some(i) in {Owned(s.threads[t].pc), Owned(s'.threads[t].pc)})
    && (new'.(sync := Empty) != old'.(sync := Empty) ==> old'.sync == Writing)
    && (Owned(s.threads[t].pc) == Some(i) && Owned(s'.threads[t].pc) != Some(i) ==> new'.sync in {Empty, Queued})
  }

  predicate OnlyThread(s: State, s': State, t: nat) {
    t < |s.threads| == |s'.threads| && |s.slots| == |s'.slots| && s'.threads == s.threads[t := s'.threads[t]]
  }

  lemma MoveScan(s: State, t: nat, spurious: bool)
    requires Inv(s) && t < |s.threads| && InRange(s, s.threads[t].pc)
    requires Owned(s.threads[t].pc) == None && !s.threads[t].pc.AddTry? && !s.threads[t].pc.GetTry?
    ensures var s' := MoveThread(s, t, spurious);
            OnlyThread(s, s', t) && s'.slots == s.slots
  {
  }

  lemma MoveTry(s: State, t: nat, spurious: bool, i: nat)
    requires Inv(s) && t < |s.threads| && InRange(s, s.threads[t].pc) && i < |s.slots|
    requires s.threads[t].pc.AddTry? || s.threads[t].pc.GetTry?
    ensures var s' := MoveThread(s, t, spurious);
            OnlyThread(s, s', t) && SlotStep(s, s', t, i)
  {
    match s.threads[t].pc
    case AddTry(_, w, _, index) => SlotInRange(s, w, index);
    case GetTry(self, tried, _, index) => SlotInRange(s, Visited(s, self, tried), index);
  }

  lemma MoveOwner(s: State, t: nat, spurious: bool, i: nat)
    requires Inv(s) && t < |s.threads| && InRange(s, s.threads[t].pc) && i < |s.slots|
    requires Owned(s.threads[t].pc).Some? && LocalOk(s, s.threads[t].pc)
    ensures var s' := MoveThread(s, t, spurious);
            OnlyThread(s, s', t) && SlotStep(s, s', t, i)
  {
  }

  /** No step changes a slot other than by advancing its state, or by its writer filling it in. */
  lemma SlotProtocol(s: State, a: Action, i: nat)
    requires Inv(s) && i < |s.slots| && Next(s, a) != s
    ensures OnlyThread(s, Next(s, a), a.thread) && SlotStep(s, Next(s, a), a.thread, i)
  {
    assert ThreadOk(s, s.threads[a.thread]);
    if a.Move? {
      if Owned(s.threads[a.thread].pc).Some? {
        MoveOwner(s, a.thread, a.spurious, i);
      } else if s.threads[a.thread].pc.AddTry? || s.threads[a.thread].pc.GetTry? {
        MoveTry(s, a.thread, a.spurious, i);
      } else {
        MoveScan(s, a.thread, a.spurious);
      }
    }
  }

  /** Slots being written or read are never orphaned. */
  predicate NoOrphans(s: State) {
    forall i | 0 <= i < |s.slots| && s.slots[i].sync in {Writing, Reading} :: HasOwner(s, i)
  }

  predicate HasOwner(s: State, i: nat) {
    exists t | 0 <= t < |s.threads| :: Owned(s.threads[t].pc) == Some(i)
  }

  lemma NoOrphansKept(s: State, s': State, t: nat)
    requires NoOrphans(s) && OnlyThread(s, s', t)
    requires forall i: nat | i < |s.slots| :: SlotStep(s, s', t, i)
    ensures NoOrphans(s')
  {
    forall i: nat | i < |s'.slots| && s'.slots[i].sync in {Writing, Reading} ensures HasOwner(s', i) {
      assert SlotStep(s, s', t, i);
      if Owned(s'.threads[t].pc) != Some(i) {
        assert HasOwner(s, i);
        var u :| 0 <= u < |s.threads| && Owned(s.threads[u].pc) == Some(i);
        assert Owned(s'.threads[u].pc) == Some(i);
      }
    }
  }

  lemma NoOrphansNext(s: State, a: Action)
    requires Inv(s) && NoOrphans(s)
    ensures NoOrphans(Next(s, a))
  {
    if Next(s, a) != s {
      TimesMonotone(0, |s.rings|, s.taskCount);
      SlotProtocol(s, a, 0);
      var s' := Next(s, a);
      forall i: nat | i < |s.slots| ensures SlotStep(s, s', a.thread, i) { SlotProtocol(s, a, i); }
      NoOrphansKept(s, s', a.thread);
    }
  }

  lemma {:induction false} NoOrphansEver(taskCount: nat, workers: nat, threads: nat, run: seq<Action>)
    requires taskCount > 0 && workers > 0
    ensures NoOrphans(Exec(Init(taskCount, workers, threads), run))
    decreases |run|
  {
    if run != [] {
      NoOrphansEver(taskCount, workers, threads, run[..|run| - 1]);
      InvInit(taskCount, workers, threads);
      InvExec(Init(taskCount, workers, threads), run[..|run| - 1]);
      NoOrphansNext(Exec(Init(taskCount, workers, threads), run[..|run| - 1]), run[|run| - 1]);
    }
  }

  lemma RingsGrow(s: State, a: Action, w: nat)
    requires Inv(s) && w < |s.rings|
    ensures var r := Next(s, a).rings;
            |r| == |s.rings| && s.rings[w].readFrom <= r[w].readFrom && s.rings[w].writeTo <= r[w].writeTo
  {
  }

  /** The indices only grow, and stay within a window of task_count, although every thread acts on
      stale copies of them. */
  lemma RingWindow(taskCount: nat, workers: nat, threads: nat, run: seq<Action>, a: Action, w: nat)
    requires taskCount > 0 && w < workers
    ensures var s := Exec(Init(taskCount, workers, threads), run);
            var s' := Next(s, a);
            |s.rings| == |s'.rings| == workers && s.taskCount == taskCount && Window(s, w) &&
            s.rings[w].readFrom <= s'.rings[w].readFrom && s.rings[w].writeTo <= s'.rings[w].writeTo
  {
    var s0 := Init(taskCount, workers, threads);
    InvInit(taskCount, workers, threads);
    InvExec(s0, run);
    RingCount(s0, run);
    RingsGrow(Exec(s0, run), a, w);
    assert Window(Exec(s0, run), w);
  }

  lemma {:induction false} RingCount(s: State, run: seq<Action>)
    ensures |Exec(s, run).rings| == |s.rings| && Exec(s, run).taskCount == s.taskCount
    decreases |run|
  {
    if run != [] {
      var n := |run| - 1;
      RingCount(s, run[..n]);
      RingCountStep(Exec(s, run[..n]), run[n]);
    }
  }

  lemma RingCountStep(s: State, a: Action)
    ensures |Next(s, a).rings| == |s.rings| && Next(s, a).taskCount == s.taskCount
  {
  }

  /** Bounded completion: whatever the other threads do, a call is over after at most
      workers * (4 * task_count + 10) of its own steps, failed weak compare-exchanges aside. */
  lemma BoundedCompletion(taskCount: nat, workers: nat, threads: nat, run: seq<Action>, t: nat)
    requires taskCount > 0 && workers > 0 && t < threads
    ensures var s := Exec(Init(taskCount, workers, threads), run);
            |s.threads| == threads && s.threads[t].steps <= Times(workers, 4 * taskCount + 10) &&
            (s.threads[t].steps == Times(workers, 4 * taskCount + 10) ==> Resting(s.threads[t].pc))
  {
    var s0 := Init(taskCount, workers, threads);
    InvInit(taskCount, workers, threads);
    InvExec(s0, run);
    ThreadCount(s0, run);
    RingCount(s0, run);
    assert ThreadOk(Exec(s0, run), Exec(s0, run).threads[t]);
  }

  /** Every step of a thread inside a call is counted, unless the weak compare-exchange fails
      spuriously; so a call that keeps moving ends. */
  lemma StepsAreCounted(s: State, t: nat, spurious: bool)
    requires Inv(s) && t < |s.threads| && !Resting(s.threads[t].pc)
    ensures Next(s, Move(t, spurious)).threads[t].steps == s.threads[t].steps + 1 ||
            (spurious && Next(s, Move(t, spurious)) == s && (s.threads[t].pc.AddAdvance? || s.threads[t].pc.GetAdvance?))
    ensures Next(s, Move(t, false)).threads[t].steps == s.threads[t].steps + 1
  {
    assert ThreadOk(s, s.threads[t]);
  }

  // ---------------------------------------------------------------- what was asked for

  predicate Requested(run: seq<Action>, data: TaskData) {
    exists j | 0 <= j < |run| :: run[j].Add? && run[j].data == data
  }

  function Adding(pc: Pc): Option<TaskData> {
    match pc
    case AddReadFrom(data, _) => Some(data)
    case AddWriteTo(data, _, _) => Some(data)
    case AddTry(data, _, _, _) => Some(data)
    case AddAdvance(data, _, _, _) => Some(data)
    case AddTakeId(data, _) => Some(data)
    case AddStoreId(data, _, _) => Some(data)
    case AddStoreData(data, _, _) => Some(data)
    case AddPublish(data, _, _) => Some(data)
    case _ => None
  }

  /** A thread adds what it was adding before, or what its caller has just asked for. */
  lemma AddingStep(s: State, a: Action, t: nat)
    requires t < |Next(s, a).threads| && Adding(Next(s, a).threads[t].pc).Some?
    ensures t < |s.threads|
    ensures Adding(s.threads[t].pc) == Adding(Next(s, a).threads[t].pc) ||
            (a.Add? && a.data == Adding(Next(s, a).threads[t].pc).value)
  {
    if a.Move? { MoveAdds(s, a.thread, a.spurious, t); }
  }

  lemma MoveAdds(s: State, u: nat, spurious: bool, t: nat)
    requires t < |Next(s, Move(u, spurious)).threads|
    ensures t < |s.threads|
    ensures var after := Adding(Next(s, Move(u, spurious)).threads[t].pc);
            after.Some? ==> Adding(s.threads[t].pc) == after
  {
    if Shape(s) && u < |s.threads| && InRange(s, s.threads[u].pc) { MoverAdds(s, u, spurious); }
  }

  lemma MoverAdds(s: State, u: nat, spurious: bool)
    requires Shape(s) && u < |s.threads| && InRange(s, s.threads[u].pc)
    ensures var s' := MoveThread(s, u, spurious);
            |s'.threads| == |s.threads| && (forall t | 0 <= t < |s.threads| && t != u :: s'.threads[t] == s.threads[t])
    ensures var after := Adding(MoveThread(s, u, spurious).threads[u].pc);
            after.Some? ==> Adding(s.threads[u].pc) == after
  {
  }

  /** What a step publishes is what its thread was adding. */
  lemma PublishStep(s: State, a: Action)
    ensures Next(s, a).published == s.published ||
            (a.thread < |s.threads| && exists m: Message ::
               Adding(s.threads[a.thread].pc) == Some(m.data) && Next(s, a).published == s.published + [m])
  {
    if a.thread < |s.threads| && s.threads[a.thread].pc.AddPublish? {
      var pc := s.threads[a.thread].pc;
      assert Adding(pc) == Some(Message(pc.id, pc.data).data);
    }
  }

  ghost predicate AllRequested(s: State, run: seq<Action>) {
    (forall k | 0 <= k < |s.published| :: Requested(run, s.published[k].data)) &&
    (forall t | 0 <= t < |s.threads| && Adding(s.threads[t].pc).Some? :: Requested(run, Adding(s.threads[t].pc).value))
  }

  /** Nothing is published that no caller asked to add. */
  lemma {:induction false} PublishedWasRequested(s: State, run: seq<Action>)
    requires s.published == [] && forall t | 0 <= t < |s.threads| :: Adding(s.threads[t].pc) == None
    ensures AllRequested(Exec(s, run), run)
    decreases |run|
  {
    if run != [] {
      var n := |run| - 1;
      PublishedWasRequested(s, run[..n]);
      RequestedStep(Exec(s, run[..n]), run);
    }
  }

  lemma RequestedStep(s: State, run: seq<Action>)
    requires run != [] && AllRequested(s, run[..|run| - 1])
    ensures AllRequested(Next(s, run[|run| - 1]), run)
  {
    var n := |run| - 1;
    var s' := Next(s, run[n]);
    forall data | Requested(run[..n], data) ensures Requested(run, data) {
      var j :| 0 <= j < n && run[..n][j].Add? && run[..n][j].data == data;
      assert run[j] == run[..n][j];
    }
    forall t | 0 <= t < |s'.threads| && Adding(s'.threads[t].pc).Some?
      ensures Requested(run, Adding(s'.threads[t].pc).value)
    {
      AddingStep(s, run[n], t);
      assert run[n].Add? ==> Requested(run, run[n].data);
    }
    PublishStep(s, run[n]);
  }
}
