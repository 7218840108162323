/** kern/multitasking.c: what a whole run publishes, how long one call lasts, and what
    write_to - read_from says about the number of queued tasks. */
module TaskRuns {
  import opened Options
  import opened TaskQueue
  import opened TaskScan
  import opened TaskFifo

  // ---------------------------------------------------------------- one publication for one request

  function Asks(a: Action, data: TaskData): nat {
    if a.Add? && a.data == data then 1 else 0
  }

  /** How often a run asks for data to be added. */
  function Asked(run: seq<Action>, data: TaskData): nat {
    if run == [] then 0 else Asked(run[..|run| - 1], data) + Asks(run[|run| - 1], data)
  }

  /** How often data was published. */
  function Shared(published: seq<Message>, data: TaskData): nat {
    if published == [] then 0
    else Shared(published[..|published| - 1], data) + if published[|published| - 1].data == data then 1 else 0
  }

  function Works(th: Thread, data: TaskData): nat {
    if Adding(th.pc) == Some(data) then 1 else 0
  }

  /** How many threads are adding data. */
  function Working(threads: seq<Thread>, data: TaskData): nat {
    if threads == [] then 0 else Works(threads[0], data) + Working(threads[1..], data)
  }

  lemma {:induction false} WorkingUpdate(threads: seq<Thread>, t: nat, th: Thread, data: TaskData)
    requires t < |threads|
    ensures Working(threads[t := th], data) + Works(threads[t], data) == Working(threads, data) + Works(th, data)
  {
    if t > 0 {
      assert threads[t := th][1..] == threads[1..][t - 1 := th];
      WorkingUpdate(threads[1..], t - 1, th, data);
    } else {
      assert threads[t := th][1..] == threads[1..];
    }
  }

  lemma SharedMore(published: seq<Message>, m: Message, data: TaskData)
    ensures Shared(published + [m], data) == Shared(published, data) + if m.data == data then 1 else 0
  {
    var more := published + [m];
    assert more[..|more| - 1] == published;
  }

  /** The step ends a call of add_task that returns true. */
  predicate Succeeds(s: State, a: Action) {
    a.thread < |s.threads| == |Next(s, a).threads| &&
    s.threads[a.thread].pc != AddDone(true) && Next(s, a).threads[a.thread].pc == AddDone(true)
  }

  function Given(pc: Pc): Message {
    match pc
    case AddPublish(data, _, id) => Message(id, data)
    case _ => Message(0, TaskData(0, 0, 0))
  }

  /** A call that returns true has published its task once, in its last step; no other step
      publishes anything. */
  lemma SuccessIsPublication(s: State, a: Action)
    ensures Succeeds(s, a) ==>
              s.threads[a.thread].pc.AddPublish? &&
              Next(s, a).published == s.published + [Given(s.threads[a.thread].pc)]
    ensures !Succeeds(s, a) ==> Next(s, a).published == s.published
  {
  }

  lemma OnlyMover(s: State, a: Action)
    requires a.thread < |s.threads|
    ensures var s', t := Next(s, a), a.thread;
            |s'.threads| == |s.threads| && s'.threads == s.threads[t := s'.threads[t]]
  {
  }

  /** A thread starts to add only what it is asked to, and stops when it succeeds. */
  lemma MoverWorks(s: State, a: Action, data: TaskData)
    requires a.thread < |s.threads| == |Next(s, a).threads|
    ensures var after := Works(Next(s, a).threads[a.thread], data);
            after <= Works(s.threads[a.thread], data) + Asks(a, data) && (Succeeds(s, a) ==> after == 0)
  {
  }

  lemma StepShares(s: State, a: Action, data: TaskData)
    ensures var s' := Next(s, a);
            Shared(s'.published, data) + Working(s'.threads, data) <=
            Shared(s.published, data) + Working(s.threads, data) + Asks(a, data)
  {
    if a.thread < |s.threads| {
      var t, s' := a.thread, Next(s, a);
      OnlyMover(s, a);
      MoverWorks(s, a, data);
      SuccessIsPublication(s, a);
      WorkingUpdate(s.threads, t, s'.threads[t], data);
      if Succeeds(s, a) { SharedMore(s.published, Given(s.threads[t].pc), data); }
    }
  }

  lemma {:induction false} RunShares(s: State, run: seq<Action>, data: TaskData)
    requires s.published == [] && Working(s.threads, data) == 0
    ensures var s' := Exec(s, run);
            Shared(s'.published, data) + Working(s'.threads, data) <= Asked(run, data)
    decreases |run|
  {
    if run != [] {
      RunShares(s, run[..|run| - 1], data);
      StepShares(Exec(s, run[..|run| - 1]), run[|run| - 1], data);
    }
  }

  lemma {:induction false} NoneWorking(threads: seq<Thread>, data: TaskData)
    requires forall t | 0 <= t < |threads| :: threads[t].pc == Idle
    ensures Working(threads, data) == 0
  {
    if threads != [] { NoneWorking(threads[1..], data); }
  }

  /** However the threads interleave, data is published, or on its way to be, at most as often as
      add_task was asked to add it. */
  lemma PublishedAtMostAsked(taskCount: nat, workers: nat, threads: nat, run: seq<Action>, data: TaskData)
    ensures var s := Exec(Init(taskCount, workers, threads), run);
            Shared(s.published, data) + Working(s.threads, data) <= Asked(run, data)
  {
    var s0 := Init(taskCount, workers, threads);
    NoneWorking(s0.threads, data);
    RunShares(s0, run, data);
  }

  // ---------------------------------------------------------------- write_to - read_from

  /** 1 for a slot whose task is published and not yet handed over. */
  function Waits(task: Task): nat {
    if task.sync == Queued || task.sync == Reading then 1 else 0
  }

  /** How many of n slots hold such a task. */
  function Waiting(slots: seq<Task>, from: nat, n: nat): nat
    requires from + n <= |slots|
  {
    if n == 0 then 0 else Waiting(slots, from, n - 1) + Waits(slots[from + n - 1])
  }

  lemma {:induction false} WaitingUpdate(slots: seq<Task>, from: nat, n: nat, i: nat, task: Task)
    requires from + n <= |slots| && i < |slots|
    ensures Waiting(slots[i := task], from, n) ==
            Waiting(slots, from, n) + if from <= i < from + n then Waits(task) - Waits(slots[i]) else 0
    decreases n
  {
    if n > 0 { WaitingUpdate(slots, from, n - 1, i, task); }
  }

  /** Slot i is one of worker w's. */
  predicate SlotIsIn(s: State, w: nat, i: nat) {
    Times(w, s.taskCount) <= i < Times(w, s.taskCount) + s.taskCount
  }

  /** The amount queued at worker w. */
  function Amount(s: State, w: nat): nat
    requires Shape(s) && w < |s.rings|
  {
    TimesMonotone(w, |s.rings|, s.taskCount);
    Waiting(s.slots, Times(w, s.taskCount), s.taskCount)
  }

  /** write_to - read_from of worker w. */
  function Backlog(s: State, w: nat): int
    requires w < |s.rings|
  {
    s.rings[w].writeTo - s.rings[w].readFrom
  }

  predicate BacklogIsAmount(s: State, w: nat)
    requires Shape(s) && w < |s.rings|
  {
    Backlog(s, w) == Amount(s, w)
  }

  /** The step publishes a task at worker w or hands one of its tasks over, or its compare-exchange
      moves an index of w. */
  predicate Counts(s: State, a: Action, w: nat) {
    a.Move? && Shape(s) && w < |s.rings| && a.thread < |s.threads| && InRange(s, s.threads[a.thread].pc) &&
    match s.threads[a.thread].pc
    case AddPublish(_, i, _) => SlotIsIn(s, w, i)
    case GetRelease(i, _, _) => SlotIsIn(s, w, i)
    case AddAdvance(_, v, bound, index) => v == w && index < bound && s.rings[w].writeTo == index && !a.spurious
    case GetAdvance(self, tried, bound, index) =>
      Visited(s, self, tried) == w && index < bound && s.rings[w].readFrom == index && !a.spurious
    case _ => false
  }

  /** How far write_to - read_from is from the amount queued. */
  function Drift(s: State, w: nat): int
    requires Shape(s) && w < |s.rings|
  {
    Backlog(s, w) - Amount(s, w)
  }

  /** What a step adds to the difference: moving write_to and handing over a task raise it, moving
      read_from and publishing one lower it. */
  function Change(s: State, a: Action, w: nat): int {
    if !Counts(s, a, w) then 0
    else if s.threads[a.thread].pc.AddAdvance? || s.threads[a.thread].pc.GetRelease? then 1
    else -1
  }

  /** The slot that a step writes, if any. */
  lemma SlotWritten(s: State, a: Action) returns (i: nat, task: Task)
    requires Inv(s) && a.Move? && a.thread < |s.threads| && InRange(s, s.threads[a.thread].pc) && |s.slots| > 0
    ensures i < |s.slots| && Next(s, a).slots == s.slots[i := task]
    ensures var pc := s.threads[a.thread].pc;
            match pc
            case AddPublish(_, k, _) => i == k && Waits(task) == Waits(s.slots[i]) + 1
            case GetRelease(k, _, _) => i == k && Waits(task) == Waits(s.slots[i]) - 1
            case _ => Waits(task) == Waits(s.slots[i])
  {
    assert ThreadOk(s, s.threads[a.thread]);
    i, task := 0, s.slots[0];
    match s.threads[a.thread].pc
    case AddTry(_, w, _, index) =>
      SlotInRange(s, w, index);
      i := SlotOf(s.taskCount, w, index);
      task := Next(s, a).slots[i];
    case GetTry(self, tried, _, index) =>
      SlotInRange(s, Visited(s, self, tried), index);
      i := SlotOf(s.taskCount, Visited(s, self, tried), index);
      task := Next(s, a).slots[i];
    case AddStoreId(_, k, _) => i, task := k, Next(s, a).slots[k];
    case AddStoreData(_, k, _) => i, task := k, Next(s, a).slots[k];
    case AddPublish(_, k, _) => i, task := k, Next(s, a).slots[k];
    case GetRelease(k, _, _) => i, task := k, Next(s, a).slots[k];
    case _ =>
  }

  /** What a step adds to the amount queued at worker w. */
  function Gain(s: State, a: Action, w: nat): int {
    if !Counts(s, a, w) then 0
    else if s.threads[a.thread].pc.AddPublish? then 1
    else if s.threads[a.thread].pc.GetRelease? then -1
    else 0
  }

  lemma AmountStep(s: State, a: Action, w: nat)
    requires Inv(s) && w < |s.rings|
    ensures Shape(Next(s, a)) && w < |Next(s, a).rings| && Amount(Next(s, a), w) == Amount(s, w) + Gain(s, a, w)
  {
    InvNext(s, a);
    RingCountStep(s, a);
    TimesMonotone(w, |s.rings|, s.taskCount);
    if a.Move? && a.thread < |s.threads| && InRange(s, s.threads[a.thread].pc) {
      var i, task := SlotWritten(s, a);
      WaitingUpdate(s.slots, Times(w, s.taskCount), s.taskCount, i, task);
    }
  }

  lemma BacklogChange(s: State, a: Action, w: nat)
    requires Shape(s) && w < |s.rings| == |Next(s, a).rings|
    ensures Backlog(Next(s, a), w) == Backlog(s, w) + Change(s, a, w) + Gain(s, a, w)
  {
  }

  /** How each step changes the difference, for every worker. */
  lemma DriftStep(s: State, a: Action, w: nat)
    requires Inv(s) && w < |s.rings|
    ensures Shape(Next(s, a)) && w < |Next(s, a).rings| && Drift(Next(s, a), w) == Drift(s, w) + Change(s, a, w)
  {
    RingCountStep(s, a);
    AmountStep(s, a, w);
    BacklogChange(s, a, w);
  }

  /** The comment on WorkerState reads the amount queued off write_to - read_from.  A task is
      published or handed over without moving an index and an index is moved only past a slot that
      could not be used, so the two stay equal over exactly those steps that do none of this. */
  lemma BacklogStep(s: State, a: Action, w: nat)
    requires Inv(s) && w < |s.rings| && BacklogIsAmount(s, w)
    ensures Shape(Next(s, a)) && w < |Next(s, a).rings| && (BacklogIsAmount(Next(s, a), w) <==> !Counts(s, a, w))
  {
    DriftStep(s, a, w);
  }

  function Changes(s: State, run: seq<Action>, w: nat): int {
    if run == [] then 0
    else Changes(s, run[..|run| - 1], w) + Change(Exec(s, run[..|run| - 1]), run[|run| - 1], w)
  }

  lemma {:induction false} DriftOfRun(s: State, run: seq<Action>, w: nat)
    requires Inv(s) && w < |s.rings|
    ensures Shape(Exec(s, run)) && w < |Exec(s, run).rings| && Drift(Exec(s, run), w) == Drift(s, w) + Changes(s, run, w)
    decreases |run|
  {
    if run != [] {
      InvExec(s, run[..|run| - 1]);
      DriftOfRun(s, run[..|run| - 1], w);
      DriftStep(Exec(s, run[..|run| - 1]), run[|run| - 1], w);
    }
  }

  /** write_to - read_from is the amount queued at worker w after every step so far. */
  predicate AmountThroughout(s: State, run: seq<Action>, w: nat) {
    var s' := Exec(s, run);
    Shape(s') && w < |s'.rings| && BacklogIsAmount(s', w) && (run != [] ==> AmountThroughout(s, run[..|run| - 1], w))
  }

  predicate NothingCounted(s: State, run: seq<Action>, w: nat) {
    run == [] || (NothingCounted(s, run[..|run| - 1], w) && !Counts(Exec(s, run[..|run| - 1]), run[|run| - 1], w))
  }

  /** A run that starts with write_to - read_from the amount queued at a worker keeps it so throughout
      exactly when it never moves an index of the worker, publishes a task there or hands one over;
      and ends with it exactly when these moves balance. */
  lemma {:induction false} AmountOfRun(s: State, run: seq<Action>, w: nat)
    requires Inv(s) && w < |s.rings| && BacklogIsAmount(s, w)
    ensures AmountThroughout(s, run, w) <==> NothingCounted(s, run, w)
    ensures Shape(Exec(s, run)) && w < |Exec(s, run).rings| && (BacklogIsAmount(Exec(s, run), w) <==> Changes(s, run, w) == 0)
    decreases |run|
  {
    DriftOfRun(s, run, w);
    if run != [] {
      var n := |run| - 1;
      AmountOfRun(s, run[..n], w);
      InvExec(s, run[..n]);
      if AmountThroughout(s, run[..n], w) { BacklogStep(Exec(s, run[..n]), run[n], w); }
    }
  }

  /** One call of add_task is enough: the task is queued and neither index has moved. */
  lemma AmountIsWrong(taskCount: nat, data: TaskData) returns (ns: seq<nat>)
    requires taskCount > 0
    ensures |ns| == 1
    ensures var s := Exec(Init(taskCount, 1, 1), Sequenced([Add(0, data)], ns));
            Shape(s) && |s.rings| == 1 && Backlog(s, 0) == 0 && Amount(s, 0) > 0 && s.published == [Message(0, data)]
  {
    var q := Start(taskCount);
    ghost var calls := CallsMore(q, [], Add(0, data));
    assert calls == [Add(0, data)];
    assert SyncAt(q.slots, taskCount, 0, 0) == Empty;
    ns := HandOverOrder(taskCount, 1, calls);
    OneAdded(Exec(Init(taskCount, 1, 1), Sequenced(calls, ns)), taskCount, data);
  }

  lemma OneAdded(s: State, taskCount: nat, data: TaskData)
    requires taskCount > 0 && |s.rings| == 1 && View(s) == Added(Start(taskCount), data)
    ensures Shape(s) && Amount(s, 0) > 0 && Backlog(s, 0) == 0 && s.published == [Message(0, data)]
  {
    var q := Start(taskCount);
    assert SyncAt(q.slots, taskCount, 0, 0) == Empty;
    assert Times(1, taskCount) == Times(0, taskCount) + taskCount;
    WaitingUpdate(q.slots, 0, taskCount, 0, Task(Queued, 0, data));
  }

  // ---------------------------------------------------------------- one call

  /** The state in which thread t has taken k steps in its call. */
  function WithSteps(s: State, t: nat, k: nat): State
    requires t < |s.threads|
  {
    s.(threads := s.threads[t := s.threads[t].(steps := k)])
  }

  function Top(s: State): nat {
    Times(|s.rings|, CallBound(s.taskCount))
  }

  lemma InvWithSteps(s: State, t: nat, k: nat)
    requires Inv(s) && t < |s.threads| && InRange(s, s.threads[t].pc) && k + Rank(s, s.threads[t].pc) <= Top(s)
    ensures Inv(WithSteps(s, t, k))
  {
    var s' := WithSteps(s, t, k);
    OwnedInRange(s);
    GrownSame(s, s');
    assert ThreadOk(s, s.threads[t]) && DrawnOk(s, s.threads[t].pc);
    Preserve(s, s', t, s'.threads[t]);
  }

  /** The same state but for the steps that the threads have counted. */
  predicate SameButSteps(s: State, s2: State) {
    s2 == s.(threads := s2.threads) && |s2.threads| == |s.threads| &&
    forall u | 0 <= u < |s.threads| :: s2.threads[u].pc == s.threads[u].pc
  }

  /** A thread does the same whatever it has counted. */
  lemma SameMove(s: State, s2: State, u: nat, spurious: bool)
    requires Shape(s) && u < |s.threads| && InRange(s, s.threads[u].pc) && SameButSteps(s, s2)
    ensures SameButSteps(MoveThread(s, u, spurious), MoveThread(s2, u, spurious))
  {
  }

  /** The step is a weak compare-exchange that fails spuriously, or the thread is between calls. */
  predicate Stalls(s: State, t: nat, spurious: bool)
    requires Shape(s) && t < |s.threads| && InRange(s, s.threads[t].pc)
  {
    match s.threads[t].pc
    case AddAdvance(_, w, bound, index) => spurious && index < bound && s.rings[w].writeTo == index
    case GetAdvance(self, tried, bound, index) =>
      spurious && index < bound && s.rings[Visited(s, self, tried)].readFrom == index
    case pc => Resting(pc)
  }

  lemma CountedMove(s: State, u: nat, spurious: bool, t: nat)
    requires Shape(s) && u < |s.threads| && InRange(s, s.threads[u].pc) && t < |s.threads|
    ensures var s' := MoveThread(s, u, spurious);
            |s'.threads| == |s.threads| &&
            s'.threads[t].steps == s.threads[t].steps + if u == t && !Stalls(s, u, spurious) then 1 else 0
  {
  }

  /** What thread t has counted and may still count. */
  function Budget(s: State, t: nat): nat
    requires Shape(s) && t < |s.threads| && InRange(s, s.threads[t].pc)
  {
    Rank(s, s.threads[t].pc) + s.threads[t].steps
  }

  lemma MovedOk(s: State, u: nat, spurious: bool, t: nat)
    requires Inv(s) && u < |s.threads| && InRange(s, s.threads[u].pc) && t < |s.threads|
    ensures var m := MoveThread(s, u, spurious);
            Shape(m) && |m.threads| == |s.threads| && InRange(m, m.threads[t].pc) && Budget(m, t) <= Top(m) == Top(s)
  {
    InvMove(s, u, spurious);
    var m := MoveThread(s, u, spurious);
    ThreadCountStep(s, Move(u, spurious));
    RingCountStep(s, Move(u, spurious));
    assert ThreadOk(m, m.threads[t]);
  }

  lemma RankSame(m: State, m2: State, t: nat)
    requires Shape(m) && SameButSteps(m, m2) && t < |m.threads| && InRange(m, m.threads[t].pc)
    ensures InRange(m2, m2.threads[t].pc) && Rank(m2, m2.threads[t].pc) == Rank(m, m.threads[t].pc)
  {
  }

  lemma MovePays(s: State, u: nat, spurious: bool, t: nat)
    requires Inv(s) && u < |s.threads| && InRange(s, s.threads[u].pc) && t < |s.threads| && InRange(s, s.threads[t].pc)
    ensures var m := MoveThread(s, u, spurious);
            Shape(m) && |m.threads| == |s.threads| && InRange(m, m.threads[t].pc) && Budget(m, t) <= Budget(s, t)
  {
    assert ThreadOk(s, s.threads[t]);
    var k := Top(s) - Rank(s, s.threads[t].pc);
    var s2 := WithSteps(s, t, k);
    InvWithSteps(s, t, k);
    RankSame(s, s2, t);
    MovedOk(s, u, spurious, t);
    MovedOk(s2, u, spurious, t);
    SameMove(s, s2, u, spurious);
    CountedMove(s, u, spurious, t);
    CountedMove(s2, u, spurious, t);
    RankSame(MoveThread(s, u, spurious), MoveThread(s2, u, spurious), t);
  }

  /** While thread t is in a call its own steps use up its bound, and those of others do not raise it. */
  lemma RankPays(s: State, a: Action, t: nat)
    requires Inv(s) && t < |s.threads| && !Resting(s.threads[t].pc) && InRange(s, s.threads[t].pc)
    ensures var s' := Next(s, a);
            Shape(s') && |s'.threads| == |s.threads| && InRange(s', s'.threads[t].pc) && Budget(s', t) <= Budget(s, t)
  {
    if a.Move? && a.thread < |s.threads| && InRange(s, s.threads[a.thread].pc) {
      MovePays(s, a.thread, a.spurious, t);
    }
  }

  /** One call of enqueue_task or of dequeue_task, on the worker with this number in the caller's loop. */
  datatype Visit = Enqueue(worker: nat) | Dequeue(tried: nat)

  predicate Scans(pc: Pc, v: Visit) {
    match pc
    case AddReadFrom(_, w) => v == Enqueue(w)
    case AddWriteTo(_, w, _) => v == Enqueue(w)
    case AddTry(_, w, _, _) => v == Enqueue(w)
    case AddAdvance(_, w, _, _) => v == Enqueue(w)
    case GetWriteTo(_, tried) => v == Dequeue(tried)
    case GetReadFrom(_, tried, _) => v == Dequeue(tried)
    case GetTry(_, tried, _, _) => v == Dequeue(tried)
    case GetAdvance(_, tried, _, _) => v == Dequeue(tried)
    case _ => false
  }

  /** The scan of the call, or its work on the slot that it has found. */
  predicate Within(pc: Pc, v: Visit) {
    Scans(pc, v) || Owned(pc).Some?
  }

  predicate Begins(pc: Pc, v: Visit) {
    Scans(pc, v) && (pc.AddReadFrom? || pc.GetWriteTo?)
  }

  /** The part of the rank that belongs to the calls on the workers to come. */
  function Later(s: State, pc: Pc, v: Visit): nat
    requires Shape(s) && InRange(s, pc)
  {
    if !Scans(pc, v) then 0
    else
      match v
      case Enqueue(w) => Times(|s.rings| - w - 1, CallBound(s.taskCount))
      case Dequeue(tried) => Times(|s.rings| - tried - 1, CallBound(s.taskCount))
  }

  /** What thread t has counted and may still count in this call. */
  function CallBudget(s: State, t: nat, v: Visit): int
    requires Shape(s) && t < |s.threads| && InRange(s, s.threads[t].pc)
  {
    Budget(s, t) - Later(s, s.threads[t].pc, v)
  }

  lemma WithinLater(s: State, pc: Pc, v: Visit)
    requires Shape(s) && InRange(s, pc) && Within(pc, v)
    ensures Rank(s, pc) >= Later(s, pc, v) + 1
    ensures Begins(pc, v) ==> Rank(s, pc) == Later(s, pc, v) + CallBound(s.taskCount)
    ensures pc.AddTry? || pc.GetTry? ==> Rank(s, pc) >= Later(s, pc, v) + 6
  {
  }

  /** The step from the scan to the slot. */
  lemma FindsSlot(s: State, a: Action, t: nat, v: Visit)
    requires Shape(s) && t < |s.threads| == |Next(s, a).threads| && Scans(s.threads[t].pc, v)
    requires Within(Next(s, a).threads[t].pc, v)
    ensures var th, th' := s.threads[t], Next(s, a).threads[t];
            Scans(th'.pc, v) ||
            ((th.pc.AddTry? || th.pc.GetTry?) && (th'.pc.AddTakeId? || th'.pc.GetId?) && th'.steps == th.steps + 1)
  {
  }

  lemma SlotStays(s: State, a: Action, t: nat, v: Visit)
    requires Shape(s) && t < |s.threads| == |Next(s, a).threads| && Owned(s.threads[t].pc).Some?
    ensures !Scans(Next(s, a).threads[t].pc, v)
  {
  }

  lemma CallPays(s: State, a: Action, t: nat, v: Visit)
    requires Inv(s) && t < |s.threads| && InRange(s, s.threads[t].pc) && Within(s.threads[t].pc, v)
    requires t < |Next(s, a).threads| && Within(Next(s, a).threads[t].pc, v)
    ensures var s' := Next(s, a);
            Shape(s') && InRange(s', s'.threads[t].pc) && CallBudget(s', t, v) <= CallBudget(s, t, v)
  {
    var s' := Next(s, a);
    var pc, pc' := s.threads[t].pc, s'.threads[t].pc;
    RankPays(s, a, t);
    RingCountStep(s, a);
    if Scans(pc, v) {
      FindsSlot(s, a, t, v);
      WithinLater(s, pc, v);
    } else {
      SlotStays(s, a, t, v);
    }
    if Scans(pc, v) == Scans(pc', v) { SameLater(s, s', pc, pc', v); }
  }

  lemma SameLater(s: State, s': State, pc: Pc, pc': Pc, v: Visit)
    requires Shape(s) && InRange(s, pc) && Shape(s') && InRange(s', pc') && Scans(pc, v) == Scans(pc', v)
    requires |s'.rings| == |s.rings| && s'.taskCount == s.taskCount
    ensures Later(s', pc', v) == Later(s, pc, v)
  {
  }

  /** In every state up to the end of the run thread t is in the call. */
  predicate StaysWithin(s: State, run: seq<Action>, t: nat, v: Visit) {
    var s' := Exec(s, run);
    t < |s'.threads| && Within(s'.threads[t].pc, v) && (run != [] ==> StaysWithin(s, run[..|run| - 1], t, v))
  }

  lemma {:induction false} RunPays(s: State, run: seq<Action>, t: nat, v: Visit)
    requires Inv(s) && t < |s.threads| && InRange(s, s.threads[t].pc) && StaysWithin(s, run, t, v)
    ensures var s' := Exec(s, run);
            Inv(s') && t < |s'.threads| && InRange(s', s'.threads[t].pc) && CallBudget(s', t, v) <= CallBudget(s, t, v)
    decreases |run|
  {
    InvExec(s, run);
    if run != [] {
      var n := |run| - 1;
      RunPays(s, run[..n], t, v);
      CallPays(Exec(s, run[..n]), run[n], t, v);
    }
  }

  /** One call of enqueue_task or dequeue_task is over after at most 4 * task_count + 10 of its own
      steps, whatever the other threads do: as long as it goes on it has taken fewer. */
  lemma OneCallIsBounded(taskCount: nat, workers: nat, threads: nat, before: seq<Action>, run: seq<Action>, t: nat, v: Visit)
    requires taskCount > 0 && workers > 0 && t < threads
    requires var s := Exec(Init(taskCount, workers, threads), before);
             t < |s.threads| && Begins(s.threads[t].pc, v) && StaysWithin(s, run, t, v)
    ensures var s := Exec(Init(taskCount, workers, threads), before);
            t < |s.threads| == |Exec(s, run).threads| &&
            Exec(s, run).threads[t].steps < s.threads[t].steps + (4 * taskCount + 10)
  {
    var s0 := Init(taskCount, workers, threads);
    var s := Exec(s0, before);
    InvInit(taskCount, workers, threads);
    InvExec(s0, before);
    RingCount(s0, before);
    ThreadCount(s, run);
    OneCallPays(s, run, t, v);
  }

  lemma OneCallPays(s: State, run: seq<Action>, t: nat, v: Visit)
    requires Inv(s) && t < |s.threads| && Begins(s.threads[t].pc, v) && StaysWithin(s, run, t, v)
    ensures t < |Exec(s, run).threads| && Exec(s, run).threads[t].steps < s.threads[t].steps + CallBound(s.taskCount)
  {
    assert ThreadOk(s, s.threads[t]);
    RunPays(s, run, t, v);
    var s' := Exec(s, run);
    WithinLater(s, s.threads[t].pc, v);
    WithinLater(s', s'.threads[t].pc, v);
  }
}
