/** kern/multitasking.c: whole calls of add_task and of the scan in task_main, over all workers. */
module TaskCalls {
  import Bits
  import opened Options
  import opened TaskQueue
  import opened TaskScan

  // ---------------------------------------------------------------- slots by number

  /** The state of the slot of worker w at position p, in the array of all slots. */
  function SyncIn(s: State, w: nat, p: int): Sync
    requires s.taskCount > 0
  {
    var i := w * s.taskCount + p % s.taskCount;
    if 0 <= i < |s.slots| then s.slots[i].sync else Reading
  }

  lemma {:induction false} TimesIs(k: nat, n: nat)
    ensures Times(k, n) == k * n
  {
    if k > 0 {
      TimesIs(k - 1, n);
      assert k * n == (k - 1) * n + n;
    }
  }

  lemma SlotIs(c: nat, w: nat, p: int)
    requires c > 0
    ensures SlotOf(c, w, p) == w * c + p % c
  {
    TimesIs(w, c);
    WrapIsModulo(p, c);
  }

  lemma SyncIs(s: State, w: nat, p: int)
    requires s.taskCount > 0
    ensures SyncIn(s, w, p) == SyncAt(s.slots, s.taskCount, w, p)
  {
    SlotIs(s.taskCount, w, p);
  }

  /** Worker w has a queued task between its indices, or in the slot of read_from. */
  ghost predicate NoneQueued(s: State, w: nat)
    requires s.taskCount > 0 && w < |s.rings|
  {
    forall p: int | s.rings[w].readFrom <= p < s.rings[w].writeTo || p == s.rings[w].readFrom :: SyncIn(s, w, p) != Queued
  }

  /** Worker w has no empty slot from write_to on, up to task_count behind read_from. */
  ghost predicate NoneEmpty(s: State, w: nat)
    requires s.taskCount > 0 && w < |s.rings|
  {
    forall p: int | s.rings[w].writeTo <= p < s.rings[w].readFrom + s.taskCount || p == s.rings[w].writeTo ::
      SyncIn(s, w, p) != Empty
  }

  // ---------------------------------------------------------------- every worker in turn

  /** The k-th worker from `self` on. */
  function Turn(n: nat, self: nat, k: nat): (w: nat)
    requires n > 0
    ensures w < n
  {
    (self + k) % n
  }

  lemma Remainder(a: nat, n: nat)
    requires n > 0
    ensures a == n * (a / n) + a % n
  {
  }

  /** Two turns within a round are different workers. */
  lemma TurnsDiffer(n: nat, self: nat, j: nat, k: nat)
    requires j < k < n
    ensures Turn(n, self, j) != Turn(n, self, k)
  {
    var a, b := self + j, self + k;
    var d := b / n - a / n;
    assert a == n * (a / n) + a % n && b == n * (b / n) + b % n;
    assert n * (b / n) - n * (a / n) == n * d;
    Bits.MulAtLeast(n, d);
  }

  /** Every worker has its turn in a round. */
  lemma TurnOf(n: nat, self: nat, w: nat) returns (k: nat)
    requires w < n
    ensures k < n && Turn(n, self, k) == w
  {
    var r := self % n;
    k := if w >= r then w - r else w + n - r;
    var q := self / n;
    assert self == n * q + r;
    if w >= r {
      Bits.QuotientUnique(self + k, n, q, w);
    } else {
      assert n * (q + 1) == n * q + n;
      Bits.QuotientUnique(self + k, n, q + 1, w);
    }
  }

  // ---------------------------------------------------------------- task_main's scan

  /** The scan is about to try its k-th worker: no slot has changed, nor has a ring still to be tried. */
  ghost predicate Untried(s0: State, s: State, t: nat, self: nat, k: nat) {
    && Shape(s0) && s == s0.(rings := s.rings, threads := s.threads) && |s.rings| == |s0.rings|
    && t < |s.threads| && k < |s.rings| && s.threads[t].pc == GetWriteTo(self, k)
    && forall j: nat | k <= j < |s0.rings| :: SameRing(s0, s, Turn(|s0.rings|, self, j))
  }

  predicate SameRing(s0: State, s: State, w: nat) {
    w < |s.rings| && w < |s0.rings| && s.rings[w] == s0.rings[w]
  }

  ghost predicate NoneBefore(s: State, self: nat, k: nat)
    requires s.taskCount > 0 && |s.rings| > 0
  {
    forall j: nat | j < k :: NoneQueued(s, Turn(|s.rings|, self, j))
  }

  lemma QueuedScan(s: State, w: nat)
    requires Shape(s) && w < |s.rings|
    ensures var found := First(s.slots, s.taskCount, w, Queued, s.rings[w].readFrom, s.rings[w].writeTo);
            (found == None <==> NoneQueued(s, w)) &&
            (found.Some? ==> FirstQueued(s, w, found.value))
  {
    var from, to := s.rings[w].readFrom, s.rings[w].writeTo;
    FirstFound(s.slots, s.taskCount, w, Queued, from, to);
    var found := First(s.slots, s.taskCount, w, Queued, from, to);
    forall p: int ensures SyncIn(s, w, p) == SyncAt(s.slots, s.taskCount, w, p) { SyncIs(s, w, p); }
    if found.Some? {
      assert SyncIn(s, w, found.value) == Queued;
    }
  }

  /** Position p is the first of worker w's, from read_from on, with a queued task. */
  ghost predicate FirstQueued(s: State, w: nat, p: int)
    requires s.taskCount > 0 && w < |s.rings|
  {
    && (s.rings[w].readFrom <= p < s.rings[w].writeTo || p == s.rings[w].readFrom)
    && SyncIn(s, w, p) == Queued
    && forall x: int | s.rings[w].readFrom <= x < p :: SyncIn(s, w, x) != Queued
  }

  /** What a whole scan that runs alone has done: it has taken the first queued task of the first worker,
      from the own one on, that has one, or there was none at any worker. */
  ghost predicate ScanResult(s: State, s': State, t: nat, self: nat)
    requires Shape(s) && t < |s'.threads|
  {
    var n := |s.rings|;
    match s'.threads[t].pc
    case GetDone(None) =>
      s'.slots == s.slots && s'.taken == s.taken && s'.published == s.published &&
      forall w: nat | w < n :: NoneQueued(s, w)
    case GetDone(Some(m)) =>
      exists k: nat, p: int ::
        k < n && NoneBefore(s, self, k) && FirstQueued(s, Turn(n, self, k), p) &&
        TakenAt(s, s', Turn(n, self, k) * s.taskCount + p % s.taskCount, m)
    case _ => false
  }

  /** The task of slot i is handed over, and its slot emptied. */
  predicate TakenAt(s: State, s': State, i: int, m: Message) {
    0 <= i < |s.slots| && m == Message(s.slots[i].id, s.slots[i].data) &&
    s'.slots == s.slots[i := s.slots[i].(sync := Empty)] && s'.taken == s.taken + [m] && s'.published == s.published
  }

  lemma NoneAtAll(s: State, self: nat)
    requires Shape(s) && NoneBefore(s, self, |s.rings|)
    ensures forall w: nat | w < |s.rings| :: NoneQueued(s, w)
  {
    forall w: nat | w < |s.rings| ensures NoneQueued(s, w) {
      var k := TurnOf(|s.rings|, self, w);
    }
  }

  lemma ScanHits(s0: State, s: State, s': State, t: nat, self: nat, k: nat, w: nat, p: int, from: int)
    requires Untried(s0, s, t, self, k) && NoneBefore(s0, self, k) && w == Turn(|s0.rings|, self, k)
    requires FirstQueued(s0, w, p) && TakenAlone(s, s', t, self, k, w, Some(p), from)
    ensures t < |s'.threads| && ScanResult(s0, s', t, self)
  {
    SlotIs(s0.taskCount, w, p);
  }

  lemma ScanGoesOn(s0: State, s: State, s': State, t: nat, self: nat, k: nat, next: nat, w: nat, from: int)
    requires Untried(s0, s, t, self, k) && w == Turn(|s0.rings|, self, k) && next == k + 1 < |s0.rings|
    requires TakenAlone(s, s', t, self, k, w, None, from)
    ensures Untried(s0, s', t, self, next)
  {
    var count := |s0.rings|;
    forall j: nat | next <= j < count ensures SameRing(s0, s', Turn(count, self, j)) {
      TurnsDiffer(count, self, k, j);
      assert SameRing(s0, s, Turn(count, self, j));
    }
  }

  lemma {:induction false} ScanFrom(s0: State, s: State, t: nat, self: nat, k: nat) returns (n: nat, s': State)
    requires Untried(s0, s, t, self, k) && NoneBefore(s0, self, k)
    ensures s' == Moves(s, t, n) && t < |s'.threads| && ScanResult(s0, s', t, self)
    decreases |s0.rings| - k
  {
    var count := |s0.rings|;
    var w := Turn(count, self, k);
    assert SameRing(s0, s, w);
    QueuedScan(s0, w);
    n, s' := DequeueAlone(s, t, self, k, w);
    var found := First(s0.slots, s0.taskCount, w, Queued, s0.rings[w].readFrom, s0.rings[w].writeTo);
    var index, bound := s0.rings[w].readFrom, s0.rings[w].writeTo;
    if found.Some? {
      ScanHits(s0, s, s', t, self, k, w, found.value, Reached(found, index, bound, index));
    } else if k + 1 < count {
      var s1, next := s', k + 1;
      ScanGoesOn(s0, s, s1, t, self, k, next, w, Reached(found, index, bound, index));
      var m, total;
      m, s' := ScanFrom(s0, s1, t, self, next);
      total := n + m;
      MovesMore(s, t, n, s1, m, s', total);
      n := total;
    } else {
      NoneAtAll(s0, self);
    }
  }

  /** The scan of task_main, when no other thread moves. */
  lemma ScanAlone(s: State, t: nat, self: nat) returns (n: nat, s': State)
    requires Shape(s) && t < |s.threads| && Resting(s.threads[t].pc)
    ensures s' == Moves(Next(s, Get(t, self)), t, n) && t < |s'.threads| && ScanResult(s, s', t, self)
  {
    n, s' := ScanFrom(s, Next(s, Get(t, self)), t, self, 0);
  }

  // ---------------------------------------------------------------- add_task

  /** Position p is the first of worker w's, from write_to on, with an empty slot. */
  ghost predicate FirstEmpty(s: State, w: nat, p: int)
    requires s.taskCount > 0 && w < |s.rings|
  {
    && (s.rings[w].writeTo <= p < s.rings[w].readFrom + s.taskCount || p == s.rings[w].writeTo)
    && SyncIn(s, w, p) == Empty
    && forall x: int | s.rings[w].writeTo <= x < p :: SyncIn(s, w, x) != Empty
  }

  lemma EmptyScan(s: State, w: nat)
    requires Shape(s) && w < |s.rings|
    ensures var found := First(s.slots, s.taskCount, w, Empty, s.rings[w].writeTo, s.rings[w].readFrom + s.taskCount);
            (found == None <==> NoneEmpty(s, w)) &&
            (found.Some? ==> FirstEmpty(s, w, found.value))
  {
    var from, to := s.rings[w].writeTo, s.rings[w].readFrom + s.taskCount;
    FirstFound(s.slots, s.taskCount, w, Empty, from, to);
    var found := First(s.slots, s.taskCount, w, Empty, from, to);
    forall p: int ensures SyncIn(s, w, p) == SyncAt(s.slots, s.taskCount, w, p) { SyncIs(s, w, p); }
    if found.Some? {
      assert SyncIn(s, w, found.value) == Empty;
    }
  }

  /** What a whole add_task that runs alone has done: the task is in the first empty slot of the first
      worker that has one, with a fresh id, or there was none at any worker. */
  ghost predicate AddResult(s: State, s': State, t: nat, data: TaskData)
    requires Shape(s) && t < |s'.threads|
  {
    match s'.threads[t].pc
    case AddDone(false) =>
      s'.slots == s.slots && s'.taken == s.taken && s'.published == s.published &&
      forall w: nat | w < |s.rings| :: NoneEmpty(s, w)
    case AddDone(true) =>
      exists w: nat, p: int ::
        w < |s.rings| && NoEmptyBefore(s, w) && FirstEmpty(s, w, p) &&
        FiledAt(s, s', w * s.taskCount + p % s.taskCount, data)
    case _ => false
  }

  ghost predicate NoEmptyBefore(s: State, w: nat)
    requires s.taskCount > 0 && w <= |s.rings|
  {
    forall v: nat | v < w :: NoneEmpty(s, v)
  }

  predicate FiledAt(s: State, s': State, i: int, data: TaskData) {
    0 <= i < |s.slots| && s'.slots == s.slots[i := Task(Queued, s.nextId, data)] && s'.taken == s.taken &&
    s'.published == s.published + [Message(s.nextId, data)] && s'.nextId == s.nextId + 1
  }

  /** The call is about to try worker w: no slot has changed, nor has a ring still to be tried. */
  ghost predicate Unadded(s0: State, s: State, t: nat, data: TaskData, w: nat) {
    && Shape(s0) && s == s0.(rings := s.rings, threads := s.threads) && |s.rings| == |s0.rings|
    && t < |s.threads| && w < |s.rings| && s.threads[t].pc == AddReadFrom(data, w)
    && forall v: nat | w <= v < |s0.rings| :: SameRing(s0, s, v)
  }

  lemma {:induction false} AddFrom(s0: State, s: State, t: nat, data: TaskData, w: nat) returns (n: nat, s': State)
    requires Unadded(s0, s, t, data, w) && NoEmptyBefore(s0, w)
    ensures s' == Moves(s, t, n) && t < |s'.threads| && AddResult(s0, s', t, data)
    decreases |s0.rings| - w
  {
    assert SameRing(s0, s, w);
    EmptyScan(s0, w);
    n, s' := EnqueueAlone(s, t, data, w);
    var found := First(s0.slots, s0.taskCount, w, Empty, s0.rings[w].writeTo, s0.rings[w].readFrom + s0.taskCount);
    if found.Some? {
      SlotIs(s0.taskCount, w, found.value);
    } else if w + 1 < |s0.rings| {
      forall v: nat | w + 1 <= v < |s0.rings| ensures SameRing(s0, s', v) { assert SameRing(s0, s, v); }
      var m, total;
      var s1 := s';
      m, s' := AddFrom(s0, s1, t, data, w + 1);
      total := n + m;
      MovesMore(s, t, n, s1, m, s', total);
      n := total;
    }
  }

  /** add_task, when no other thread moves. */
  lemma AddAlone(s: State, t: nat, data: TaskData) returns (n: nat, s': State)
    requires Shape(s) && t < |s.threads| && Resting(s.threads[t].pc)
    ensures s' == Moves(Next(s, Add(t, data)), t, n) && t < |s'.threads| && AddResult(s, s', t, data)
  {
    n, s' := AddFrom(s, Next(s, Add(t, data)), t, data, 0);
  }

  // ---------------------------------------------------------------- every interleaving

  /** What a call scans the workers for. */
  datatype Scan = ForEmpty | ForQueued(self: nat)

  /** The worker that the call tries after j others. */
  function Nth(c: Scan, n: nat, j: nat): (w: nat)
    requires n > 0
  {
    match c
    case ForEmpty => j
    case ForQueued(self) => Turn(n, self, j)
  }

  /** The step is a look at a slot of worker w that is not in the state wanted. */
  predicate Look(s: State, a: Action, t: nat, w: nat) {
    a.Move? && a.thread == t < |s.threads| && s.taskCount > 0 && |s.rings| > 0 &&
    match s.threads[t].pc
    case AddTry(_, v, _, index) => v == w && SyncIn(s, w, index) != Empty
    case GetTry(self, tried, _, index) => (self + tried) % |s.rings| == w && SyncIn(s, w, index) != Queued
    case _ => false
  }

  predicate LookedAt(s: State, run: seq<Action>, t: nat, w: nat) {
    exists k | 0 <= k < |run| :: Look(Exec(s, run[..k]), run[k], t, w)
  }

  /** The thread is in this call, or at its end. */
  predicate InCall(pc: Pc, c: Scan) {
    match pc
    case Idle => false
    case AddReadFrom(_, _) => c == ForEmpty
    case AddWriteTo(_, _, _) => c == ForEmpty
    case AddTry(_, _, _, _) => c == ForEmpty
    case AddAdvance(_, _, _, _) => c == ForEmpty
    case GetWriteTo(self, _) => c == ForQueued(self)
    case GetReadFrom(self, _, _) => c == ForQueued(self)
    case GetTry(self, _, _, _) => c == ForQueued(self)
    case GetAdvance(self, _, _, _) => c == ForQueued(self)
    case GetDone(_) => c.ForQueued?
    case AddDone(_) => c.ForEmpty?
    case _ => if Drawn(pc).Some? || pc.AddTakeId? then c.ForEmpty? else c.ForQueued?
  }

  /** How many workers a call at pc has looked at in vain. */
  function Tried(pc: Pc, n: nat): nat {
    match pc
    case AddReadFrom(_, w) => w
    case AddWriteTo(_, w, _) => w
    case AddTry(_, w, _, _) => w
    case AddAdvance(_, w, _, _) => w + 1
    case AddDone(added) => if added then 0 else n
    case GetWriteTo(_, k) => k
    case GetReadFrom(_, k, _) => k
    case GetTry(_, k, _, _) => k
    case GetAdvance(_, k, _, _) => k + 1
    case GetDone(result) => if result == None then n else 0
    case _ => 0
  }

  /** A step of the call leaves no worker out. */
  lemma OneMoreTried(s: State, a: Action, t: nat, c: Scan)
    requires Shape(s) && t < |s.threads| && InRange(s, s.threads[t].pc) && InCall(s.threads[t].pc, c)
    requires a.thread == t ==> a.Move?
    ensures t < |Next(s, a).threads| && InCall(Next(s, a).threads[t].pc, c)
    ensures var n, m, m' := |s.rings|, Tried(s.threads[t].pc, |s.rings|), Tried(Next(s, a).threads[t].pc, |s.rings|);
            m' <= m || (m' == m + 1 && Look(s, a, t, Nth(c, n, m)))
  {
    var pc := s.threads[t].pc;
    if a.thread == t {
      match pc
      case AddTry(_, w, _, index) => SyncIs(s, w, index); SlotInRange(s, w, index);
      case GetTry(self, tried, _, index) =>
        SyncIs(s, Visited(s, self, tried), index);
        SlotInRange(s, Visited(s, self, tried), index);
      case _ =>
    } else {
      OthersStay(s, a, t);
    }
  }

  lemma OthersStay(s: State, a: Action, t: nat)
    requires t < |s.threads| && a.thread != t
    ensures t < |Next(s, a).threads| && Next(s, a).threads[t] == s.threads[t]
  {
  }

  lemma LookedBefore(s: State, run: seq<Action>, before: seq<Action>, t: nat, w: nat)
    requires before <= run && LookedAt(s, before, t, w)
    ensures LookedAt(s, run, t, w)
  {
    var k :| 0 <= k < |before| && Look(Exec(s, before[..k]), before[k], t, w);
    assert before[..k] == run[..k] && before[k] == run[k];
  }

  lemma LookedLast(s: State, run: seq<Action>, before: seq<Action>, a: Action, t: nat, w: nat)
    requires run == before + [a] && Look(Exec(s, before), a, t, w)
    ensures LookedAt(s, run, t, w)
  {
    var n := |before|;
    assert run[..n] == before && run[n] == a;
  }

  ghost predicate AllLooked(s: State, run: seq<Action>, t: nat, c: Scan, m: nat)
    requires |s.rings| > 0
  {
    forall j: nat | j < m :: LookedAt(s, run, t, Nth(c, |s.rings|, j))
  }

  lemma LooksMore(s: State, run: seq<Action>, before: seq<Action>, t: nat, c: Scan, m: nat, m': nat)
    requires |s.rings| > 0 && before <= run && AllLooked(s, before, t, c, m)
    requires m' <= m || (m' == m + 1 && LookedAt(s, run, t, Nth(c, |s.rings|, m)))
    ensures AllLooked(s, run, t, c, m')
  {
    forall j: nat | j < m' ensures LookedAt(s, run, t, Nth(c, |s.rings|, j)) {
      if j < m { LookedBefore(s, run, before, t, Nth(c, |s.rings|, j)); }
    }
  }

  /** The caller does not start anew. */
  predicate OneCall(run: seq<Action>, t: nat) {
    forall k | 0 <= k < |run| :: run[k].thread == t ==> run[k].Move?
  }

  lemma StepLooks(s: State, run: seq<Action>, before: seq<Action>, a: Action, r: State, r': State, t: nat, c: Scan)
    requires run == before + [a] && r == Exec(s, before) && r' == Next(r, a)
    requires Inv(r) && |s.rings| == |r.rings| && t < |r.threads| && InCall(r.threads[t].pc, c)
    requires (a.thread == t ==> a.Move?) && AllLooked(s, before, t, c, Tried(r.threads[t].pc, |s.rings|))
    ensures t < |r'.threads| && InCall(r'.threads[t].pc, c) && AllLooked(s, run, t, c, Tried(r'.threads[t].pc, |s.rings|))
  {
    assert ThreadOk(r, r.threads[t]);
    OneMoreTried(r, a, t, c);
    var m, m' := Tried(r.threads[t].pc, |s.rings|), Tried(r'.threads[t].pc, |s.rings|);
    if m' > m { LookedLast(s, run, before, a, t, Nth(c, |s.rings|, m)); }
    LooksMore(s, run, before, t, c, m, m');
  }

  lemma {:induction false} RunLooks(s: State, run: seq<Action>, t: nat, c: Scan)
    requires Inv(s) && t < |s.threads| && InCall(s.threads[t].pc, c) && Tried(s.threads[t].pc, |s.rings|) == 0
    requires OneCall(run, t)
    ensures var s' := Exec(s, run);
            t < |s'.threads| && InCall(s'.threads[t].pc, c) && AllLooked(s, run, t, c, Tried(s'.threads[t].pc, |s.rings|))
    decreases |run|
  {
    if run != [] {
      var n := |run| - 1;
      var before, a := run[..n], run[n];
      RunLooks(s, before, t, c);
      InvExec(s, before);
      RingCount(s, before);
      assert run == before + [a];
      StepLooks(s, run, before, a, Exec(s, before), Exec(s, run), t, c);
    }
  }

  /** In every interleaving, a call that ends without a task has looked at a slot of every worker, at a
      time when no task was queued in it; and one that could not add a task, at a time when the slot
      was not empty. */
  lemma EveryWorkerLookedAt(taskCount: nat, workers: nat, threads: nat, before: seq<Action>, run: seq<Action>, t: nat, w: nat)
    requires taskCount > 0 && w < workers && t < threads && OneCall(run, t)
    requires var s := Exec(Init(taskCount, workers, threads), before);
             t < |s.threads| && match s.threads[t].pc
                                case AddReadFrom(_, v) => v == 0
                                case GetWriteTo(_, tried) => tried == 0
                                case _ => false
    ensures var s := Exec(Init(taskCount, workers, threads), before);
            t < |Exec(s, run).threads| &&
            (Exec(s, run).threads[t].pc in {AddDone(false), GetDone(None)} ==> LookedAt(s, run, t, w))
  {
    var s0 := Init(taskCount, workers, threads);
    var s := Exec(s0, before);
    InvInit(taskCount, workers, threads);
    InvExec(s0, before);
    RingCount(s0, before);
    var c := if s.threads[t].pc.AddReadFrom? then ForEmpty else ForQueued(s.threads[t].pc.self);
    RunLooks(s, run, t, c);
    if Exec(s, run).threads[t].pc in {AddDone(false), GetDone(None)} { NthIsEvery(s, run, t, c, w); }
  }

  lemma NthIsEvery(s: State, run: seq<Action>, t: nat, c: Scan, w: nat)
    requires w < |s.rings| && AllLooked(s, run, t, c, |s.rings|)
    ensures LookedAt(s, run, t, w)
  {
    match c
    case ForEmpty => assert Nth(c, |s.rings|, w) == w;
    case ForQueued(self) =>
      var k := TurnOf(|s.rings|, self, w);
      assert Nth(c, |s.rings|, k) == w;
  }
}
