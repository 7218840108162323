/** kern/multitasking.c: what enqueue_task and dequeue_task do when no other thread moves. */
module TaskScan {
  import opened Options
  import opened TaskQueue

  /** One step of thread t, in which a compare-exchange does not fail spuriously. */
  function Moved(s: State, t: nat): State {
    Next(s, Move(t, false))
  }

  /** Thread t alone takes n steps. */
  function Moves(s: State, t: nat, n: nat): State
    decreases n
  {
    if n == 0 then s else Moves(Moved(s, t), t, n - 1)
  }

  lemma {:induction false} MovesMore(s: State, t: nat, m: nat, s1: State, n: nat, s2: State, total: nat)
    requires s1 == Moves(s, t, m) && s2 == Moves(s1, t, n) && total == m + n
    ensures s2 == Moves(s, t, total)
    decreases m
  {
    if m > 0 { MovesMore(Moved(s, t), t, m - 1, s1, n, s2, total - 1); }
  }

  lemma MovesThree(s: State, t: nat)
    ensures Moves(s, t, 1) == Moved(s, t)
    ensures Moves(s, t, 2) == Moved(Moved(s, t), t)
    ensures Moves(s, t, 3) == Moved(Moved(Moved(s, t), t), t)
  {
    var s1 := Moved(s, t);
    var s2 := Moved(s1, t);
    var s3 := Moved(s2, t);
    assert Moves(s3, t, 0) == s3 && Moves(s2, t, 1) == s3 && Moves(s1, t, 2) == s3;
    assert Moves(s2, t, 0) == s2 && Moves(s1, t, 1) == s2;
  }

  function SyncAt(slots: seq<Task>, taskCount: nat, w: nat, index: int): Sync
    requires taskCount > 0
  {
    var i := SlotOf(taskCount, w, index);
    if i < |slots| then slots[i].sync else Reading
  }

  /** The first index from `index` on, below `bound`, whose slot is in the given state; the slot at
      `index` itself is looked at in any case. */
  function First(slots: seq<Task>, taskCount: nat, w: nat, sync: Sync, index: int, bound: int)
    : (found: Option<int>)
    requires taskCount > 0
    ensures found.Some? ==> index <= found.value && SyncAt(slots, taskCount, w, found.value) == sync
    decreases bound - index
  {
    if SyncAt(slots, taskCount, w, index) == sync then Some(index)
    else if index + 1 < bound then First(slots, taskCount, w, sync, index + 1, bound)
    else None
  }

  /** The scan looks at the slot at `index` next, and the shared index is `shared`: before the first
      look the two are the same, afterwards the shared one is ahead, as a successful
      compare-exchange leaves the local index alone. */
  predicate AtLook(index: int, bound: int, shared: int) {
    shared == index || (shared == index + 1 && index < bound)
  }

  /** A slot that is found is the first one; otherwise none of those looked at is in the given state. */
  lemma {:induction false} FirstFound(slots: seq<Task>, c: nat, w: nat, sync: Sync, index: int, bound: int)
    requires c > 0
    ensures match First(slots, c, w, sync, index, bound)
            case None => (forall x: int | index <= x < bound || x == index :: SyncAt(slots, c, w, x) != sync)
            case Some(i) => (i == index || i < bound) && forall x: int | index <= x < i :: SyncAt(slots, c, w, x) != sync
    decreases bound - index
  {
    if SyncAt(slots, c, w, index) != sync && index + 1 < bound { FirstFound(slots, c, w, sync, index + 1, bound); }
  }

  /** The shared index once the scan is over: it stays if the first look is a hit, is one ahead of
      any later hit, and reaches the bound if there is none. */
  function Reached(found: Option<int>, index: int, bound: int, shared: int): int {
    match found
    case Some(i) => if i == index then shared else i + 1
    case None => if shared < bound then bound else shared
  }

  /** A miss changes neither what the scan finds nor where it leaves the shared index. */
  lemma FirstLater(slots: seq<Task>, taskCount: nat, w: nat, sync: Sync, index: int, bound: int, shared: int)
    requires taskCount > 0 && SyncAt(slots, taskCount, w, index) != sync
    requires index <= shared <= index + 1 && shared < bound
    ensures var found := First(slots, taskCount, w, sync, index, bound);
            found == First(slots, taskCount, w, sync, shared, bound) &&
            Reached(found, index, bound, shared) == Reached(found, shared, bound, shared + 1)
  {
  }

  /** Thread t is at pc, and the other threads are where they were. */
  predicate OnlyMoved(s: State, s': State, t: nat, pc: Pc) {
    t < |s.threads| && s'.threads == s.threads[t := Thread(pc, if t < |s'.threads| then s'.threads[t].steps else 0)]
  }

  /** Between two looks only the rings and the position of thread t change. */
  predicate Between(s: State, s': State, t: nat, pc: Pc) {
    s' == s.(rings := s'.rings, threads := s'.threads) && OnlyMoved(s, s', t, pc)
  }

  // ---------------------------------------------------------------- enqueue_task

  function WroteTo(s: State, w: nat, to: int): seq<Ring>
    requires w < |s.rings|
  {
    s.rings[w := s.rings[w].(writeTo := to)]
  }

  /** Where the scan for an empty slot ends; write_to is then `to`. */
  predicate AddScanned(s: State, s': State, t: nat, data: TaskData, w: nat, found: Option<int>, to: int)
    requires s.taskCount > 0 && w < |s.rings|
  {
    match found
    case None =>
      s' == s.(rings := WroteTo(s, w, to), threads := s'.threads) && OnlyMoved(s, s', t, AddElsewhere(s, data, w))
    case Some(i) =>
      var k := SlotOf(s.taskCount, w, i);
      k < |s.slots| && OnlyMoved(s, s', t, AddTakeId(data, k)) &&
      s' == s.(rings := WroteTo(s, w, to), threads := s'.threads, slots := s.slots[k := s.slots[k].(sync := Writing)])
  }

  /** The slot is not empty and the scan goes on: look again, or at the next slot. */
  lemma AddMiss(s: State, t: nat, data: TaskData, w: nat, bound: int, index: int) returns (n: nat, s': State)
    requires Shape(s) && w < |s.rings| && t < |s.threads| && s.threads[t].pc == AddTry(data, w, bound, index)
    requires SyncAt(s.slots, s.taskCount, w, index) != Empty && index < bound
    requires s.rings[w].writeTo == index || (s.rings[w].writeTo == index + 1 && index + 1 < bound)
    ensures s' == Moves(s, t, n)
    ensures s'.rings == s.rings[w := s.rings[w].(writeTo := s.rings[w].writeTo + 1)]
    ensures Between(s, s', t, AddTry(data, w, bound, s.rings[w].writeTo))
  {
    SlotInRange(s, w, index);
    MovesThree(s, t);
    var s1 := Moved(s, t);
    var s2 := Moved(s1, t);
    if s.rings[w].writeTo == index { return 2, s2; }
    return 3, Moved(s2, t);
  }

  /** The last look: the slot is empty, or there is no further slot to look at. */
  lemma AddLast(s: State, t: nat, data: TaskData, w: nat, bound: int, index: int) returns (n: nat, s': State)
    requires Shape(s) && w < |s.rings| && t < |s.threads| && s.threads[t].pc == AddTry(data, w, bound, index)
    requires AtLook(index, bound, s.rings[w].writeTo)
    requires SyncAt(s.slots, s.taskCount, w, index) == Empty || s.rings[w].writeTo >= bound
    ensures s' == Moves(s, t, n)
    ensures var found := First(s.slots, s.taskCount, w, Empty, index, bound);
            AddScanned(s, s', t, data, w, found, Reached(found, index, bound, s.rings[w].writeTo))
  {
    SlotInRange(s, w, index);
    MovesThree(s, t);
    var s1 := Moved(s, t);
    if SyncAt(s.slots, s.taskCount, w, index) == Empty { return 1, s1; }
    var s2 := Moved(s1, t);
    if index >= bound { return 2, s2; }
    return 3, Moved(s2, t);
  }

  lemma AddScannedThen(s: State, s1: State, s2: State, t: nat, data: TaskData, w: nat, found: Option<int>, to: int, pc: Pc,
                       shared: int)
    requires s.taskCount > 0 && w < |s.rings| && Between(s, s1, t, pc) && s1.rings == WroteTo(s, w, shared)
    requires AddScanned(s1, s2, t, data, w, found, to)
    ensures AddScanned(s, s2, t, data, w, found, to)
  {
    assert WroteTo(s1, w, to) == WroteTo(s, w, to);
  }

  lemma {:induction false} AddScan(s: State, t: nat, data: TaskData, w: nat, bound: int, index: int) returns (n: nat, s': State)
    requires Shape(s) && w < |s.rings| && t < |s.threads| && s.threads[t].pc == AddTry(data, w, bound, index)
    requires AtLook(index, bound, s.rings[w].writeTo)
    ensures s' == Moves(s, t, n)
    ensures var found := First(s.slots, s.taskCount, w, Empty, index, bound);
            AddScanned(s, s', t, data, w, found, Reached(found, index, bound, s.rings[w].writeTo))
    decreases bound - s.rings[w].writeTo
  {
    var shared := s.rings[w].writeTo;
    if SyncAt(s.slots, s.taskCount, w, index) == Empty || shared >= bound {
      n, s' := AddLast(s, t, data, w, bound, index);
    } else {
      var m, s1 := AddMiss(s, t, data, w, bound, index);
      var k;
      k, s' := AddScan(s1, t, data, w, bound, shared);
      n := m + k;
      FirstLater(s.slots, s.taskCount, w, Empty, index, bound, shared);
      var found := First(s1.slots, s1.taskCount, w, Empty, shared, bound);
      AddScannedThen(s, s1, s', t, data, w, found, Reached(found, shared, bound, shared + 1), AddTry(data, w, bound, shared),
                     shared + 1);
      MovesMore(s, t, m, s1, k, s', n);
    }
  }

  /** The slot is filled in and published, with a fresh id. */
  lemma FillAlone(s: State, t: nat, data: TaskData, i: nat) returns (n: nat, s': State)
    requires Shape(s) && t < |s.threads| && i < |s.slots| && s.threads[t].pc == AddTakeId(data, i)
    ensures s' == Moves(s, t, n)
    ensures OnlyMoved(s, s', t, AddDone(true))
    ensures s' == s.(slots := s.slots[i := Task(Queued, s.nextId, data)], nextId := s.nextId + 1,
                     threads := s'.threads, published := s.published + [Message(s.nextId, data)])
  {
    var s1 := Moved(s, t);
    var s2 := Moved(s1, t);
    assert s2.slots == s.slots[i := s.slots[i].(id := s.nextId)];
    var s3 := Moved(s2, t);
    assert s3.slots == s.slots[i := s.slots[i].(id := s.nextId).(data := data)];
    s' := Moved(s3, t);
    assert s'.slots == s.slots[i := Task(Queued, s.nextId, data)];
    MovesThree(s1, t);
    assert Moves(s, t, 4) == Moves(s1, t, 3);
    n := 4;
  }

  /** The two loads at the start of enqueue_task. */
  lemma AddLoads(s: State, t: nat, data: TaskData, w: nat) returns (n: nat, s': State)
    requires Shape(s) && w < |s.rings| && t < |s.threads| && s.threads[t].pc == AddReadFrom(data, w)
    ensures s' == Moves(s, t, n)
    ensures s'.rings == s.rings
    ensures Between(s, s', t, AddTry(data, w, s.rings[w].readFrom + s.taskCount, s.rings[w].writeTo))
  {
    MovesThree(s, t);
    n, s' := 2, Moved(Moved(s, t), t);
  }

  /** What enqueue_task has done to worker w. */
  predicate AddedAlone(s: State, s': State, t: nat, data: TaskData, w: nat, found: Option<int>, to: int)
    requires s.taskCount > 0 && w < |s.rings|
  {
    match found
    case None =>
      s' == s.(rings := WroteTo(s, w, to), threads := s'.threads) && OnlyMoved(s, s', t, AddElsewhere(s, data, w))
    case Some(i) =>
      var k := SlotOf(s.taskCount, w, i);
      k < |s.slots| && OnlyMoved(s, s', t, AddDone(true)) &&
      s' == s.(rings := WroteTo(s, w, to), threads := s'.threads,
               slots := s.slots[k := Task(Queued, s.nextId, data)], nextId := s.nextId + 1,
               published := s.published + [Message(s.nextId, data)])
  }

  lemma FillScanned(s: State, s1: State, t: nat, data: TaskData, w: nat, i: int, to: int) returns (n: nat, s': State)
    requires Shape(s) && w < |s.rings| && AddScanned(s, s1, t, data, w, Some(i), to)
    ensures s' == Moves(s1, t, n) && AddedAlone(s, s', t, data, w, Some(i), to)
  {
    var k := SlotOf(s.taskCount, w, i);
    n, s' := FillAlone(s1, t, data, k);
    assert s'.slots == s.slots[k := Task(Queued, s.nextId, data)];
    assert s'.threads == s.threads[t := s'.threads[t]];
  }

  /** Alone, enqueue_task puts the task into the first empty slot from write_to on, up to task_count
      behind read_from, and fails only if there is none; write_to moves behind the slots that were
      passed over. */
  lemma EnqueueAlone(s: State, t: nat, data: TaskData, w: nat) returns (n: nat, s': State)
    requires Shape(s) && w < |s.rings| && t < |s.threads| && s.threads[t].pc == AddReadFrom(data, w)
    ensures s' == Moves(s, t, n)
    ensures var index, bound := s.rings[w].writeTo, s.rings[w].readFrom + s.taskCount;
            var found := First(s.slots, s.taskCount, w, Empty, index, bound);
            AddedAlone(s, s', t, data, w, found, Reached(found, index, bound, index))
  {
    var bound, index := s.rings[w].readFrom + s.taskCount, s.rings[w].writeTo;
    var found := First(s.slots, s.taskCount, w, Empty, index, bound);
    var to := Reached(found, index, bound, index);
    var n1, s1 := AddLoads(s, t, data, w);
    var n2, s2 := AddScan(s1, t, data, w, bound, index);
    n := n1 + n2;
    MovesMore(s, t, n1, s1, n2, s2, n);
    assert s.rings == WroteTo(s, w, index);
    AddScannedThen(s, s1, s2, t, data, w, found, to, AddTry(data, w, bound, index), index);
    if found == None { return n, s2; }
    var n3;
    n3, s' := FillScanned(s, s2, t, data, w, found.value, to);
    var total := n + n3;
    MovesMore(s, t, n, s2, n3, s', total);
    n := total;
  }

  // ---------------------------------------------------------------- dequeue_task

  function ReadFrom(s: State, w: nat, from: int): seq<Ring>
    requires w < |s.rings|
  {
    s.rings[w := s.rings[w].(readFrom := from)]
  }

  /** Where the scan for a queued task ends; read_from is then `from`. */
  predicate GetScanned(s: State, s': State, t: nat, self: nat, tried: nat, w: nat, found: Option<int>, from: int)
    requires s.taskCount > 0 && w < |s.rings|
  {
    match found
    case None =>
      s' == s.(rings := ReadFrom(s, w, from), threads := s'.threads) && OnlyMoved(s, s', t, GetElsewhere(s, self, tried))
    case Some(i) =>
      var k := SlotOf(s.taskCount, w, i);
      k < |s.slots| && OnlyMoved(s, s', t, GetId(k)) &&
      s' == s.(rings := ReadFrom(s, w, from), threads := s'.threads, slots := s.slots[k := s.slots[k].(sync := Reading)])
  }

  lemma GetTried(s: State, t: nat, self: nat, tried: nat, bound: int, index: int, w: nat)
    requires Shape(s) && t < |s.threads| && s.threads[t].pc == GetTry(self, tried, bound, index)
    requires tried < |s.rings| && w == Visited(s, self, tried)
    ensures SlotOf(s.taskCount, w, index) < |s.slots|
    ensures var i := SlotOf(s.taskCount, w, index);
            Moved(s, t) ==
            if s.slots[i].sync == Queued then WithPc(WithSlot(s, i, s.slots[i].(sync := Reading)), t, GetId(i))
            else WithPc(s, t, GetAdvance(self, tried, bound, index))
  {
    SlotInRange(s, w, index);
  }

  lemma GetAdvanced(s: State, t: nat, self: nat, tried: nat, bound: int, index: int, w: nat)
    requires Shape(s) && t < |s.threads| && s.threads[t].pc == GetAdvance(self, tried, bound, index)
    requires tried < |s.rings| && w == Visited(s, self, tried)
    ensures var ring := s.rings[w];
            Moved(s, t) ==
            if index >= bound then WithPc(s, t, GetElsewhere(s, self, tried))
            else if ring.readFrom == index then
              WithPc(WithRing(s, w, ring.(readFrom := index + 1)), t, GetTry(self, tried, bound, index))
            else WithPc(s, t, GetAdvance(self, tried, bound, ring.readFrom))
  {
  }

  /** The slot is not queued and the scan goes on: look again, or at the next slot. */
  lemma GetMiss(s: State, t: nat, self: nat, tried: nat, bound: int, index: int, w: nat) returns (n: nat, s': State)
    requires Shape(s) && t < |s.threads| && s.threads[t].pc == GetTry(self, tried, bound, index) && index < bound
    requires tried < |s.rings| && w == Visited(s, self, tried)
    requires SyncAt(s.slots, s.taskCount, w, index) != Queued
    requires s.rings[w].readFrom == index || (s.rings[w].readFrom == index + 1 && index + 1 < bound)
    ensures s' == Moves(s, t, n)
    ensures s'.rings == s.rings[w := s.rings[w].(readFrom := s.rings[w].readFrom + 1)]
    ensures Between(s, s', t, GetTry(self, tried, bound, s.rings[w].readFrom))
  {
    GetTried(s, t, self, tried, bound, index, w);
    MovesThree(s, t);
    var s1 := Moved(s, t);
    GetAdvanced(s1, t, self, tried, bound, index, w);
    var s2 := Moved(s1, t);
    if s.rings[w].readFrom == index { return 2, s2; }
    GetAdvanced(s2, t, self, tried, bound, index + 1, w);
    return 3, Moved(s2, t);
  }

  /** The last look: the slot is queued, or there is no further slot to look at. */
  lemma GetLast(s: State, t: nat, self: nat, tried: nat, bound: int, index: int, w: nat) returns (n: nat, s': State)
    requires Shape(s) && t < |s.threads| && s.threads[t].pc == GetTry(self, tried, bound, index)
    requires tried < |s.rings| && w == Visited(s, self, tried)
    requires AtLook(index, bound, s.rings[w].readFrom)
    requires SyncAt(s.slots, s.taskCount, w, index) == Queued || s.rings[w].readFrom >= bound
    ensures s' == Moves(s, t, n)
    ensures var found := First(s.slots, s.taskCount, w, Queued, index, bound);
            GetScanned(s, s', t, self, tried, w, found, Reached(found, index, bound, s.rings[w].readFrom))
  {
    GetTried(s, t, self, tried, bound, index, w);
    MovesThree(s, t);
    var s1 := Moved(s, t);
    if SyncAt(s.slots, s.taskCount, w, index) == Queued { return 1, s1; }
    GetAdvanced(s1, t, self, tried, bound, index, w);
    var s2 := Moved(s1, t);
    if index >= bound { return 2, s2; }
    GetAdvanced(s2, t, self, tried, bound, index + 1, w);
    return 3, Moved(s2, t);
  }

  lemma GetScannedThen(s: State, s1: State, s2: State, t: nat, self: nat, tried: nat, w: nat, found: Option<int>,
                       from: int, pc: Pc, shared: int)
    requires s.taskCount > 0 && w < |s.rings| && Between(s, s1, t, pc) && s1.rings == ReadFrom(s, w, shared)
    requires GetScanned(s1, s2, t, self, tried, w, found, from)
    ensures GetScanned(s, s2, t, self, tried, w, found, from)
  {
    assert ReadFrom(s1, w, from) == ReadFrom(s, w, from);
  }

  lemma {:induction false} GetScan(s: State, t: nat, self: nat, tried: nat, bound: int, index: int, w: nat)
    returns (n: nat, s': State)
    requires Shape(s) && t < |s.threads| && s.threads[t].pc == GetTry(self, tried, bound, index)
    requires tried < |s.rings| && w == Visited(s, self, tried) && AtLook(index, bound, s.rings[w].readFrom)
    ensures s' == Moves(s, t, n)
    ensures var found := First(s.slots, s.taskCount, w, Queued, index, bound);
            GetScanned(s, s', t, self, tried, w, found, Reached(found, index, bound, s.rings[w].readFrom))
    decreases bound - s.rings[w].readFrom
  {
    var shared := s.rings[w].readFrom;
    if SyncAt(s.slots, s.taskCount, w, index) == Queued || shared >= bound {
      n, s' := GetLast(s, t, self, tried, bound, index, w);
    } else {
      var m, s1 := GetMiss(s, t, self, tried, bound, index, w);
      var k;
      k, s' := GetScan(s1, t, self, tried, bound, shared, w);
      n := m + k;
      FirstLater(s.slots, s.taskCount, w, Queued, index, bound, shared);
      var found := First(s1.slots, s1.taskCount, w, Queued, shared, bound);
      GetScannedThen(s, s1, s', t, self, tried, w, found, Reached(found, shared, bound, shared + 1), GetTry(self, tried, bound, shared),
                     shared + 1);
      MovesMore(s, t, m, s1, k, s', n);
    }
  }

  /** The task is copied out and the slot emptied. */
  lemma TakeAlone(s: State, t: nat, i: nat, m: Message) returns (n: nat, s': State)
    requires Shape(s) && t < |s.threads| && i < |s.slots| && s.threads[t].pc == GetId(i)
    requires m == Message(s.slots[i].id, s.slots[i].data)
    ensures s' == Moves(s, t, n)
    ensures OnlyMoved(s, s', t, GetDone(Some(m)))
    ensures s' == s.(slots := s.slots[i := s.slots[i].(sync := Empty)], threads := s'.threads, taken := s.taken + [m])
  {
    MovesThree(s, t);
    n, s' := 3, Moved(Moved(Moved(s, t), t), t);
  }

  /** The two loads at the start of dequeue_task. */
  lemma GetLoads(s: State, t: nat, self: nat, tried: nat, w: nat) returns (n: nat, s': State)
    requires Shape(s) && t < |s.threads| && s.threads[t].pc == GetWriteTo(self, tried)
    requires tried < |s.rings| && w == Visited(s, self, tried)
    ensures s' == Moves(s, t, n)
    ensures s'.rings == s.rings
    ensures Between(s, s', t, GetTry(self, tried, s.rings[w].writeTo, s.rings[w].readFrom))
  {
    MovesThree(s, t);
    n, s' := 2, Moved(Moved(s, t), t);
  }

  /** What dequeue_task has done to worker w. */
  predicate TakenAlone(s: State, s': State, t: nat, self: nat, tried: nat, w: nat, found: Option<int>, from: int)
    requires s.taskCount > 0 && w < |s.rings|
  {
    match found
    case None =>
      s' == s.(rings := ReadFrom(s, w, from), threads := s'.threads) && OnlyMoved(s, s', t, GetElsewhere(s, self, tried))
    case Some(i) =>
      var k := SlotOf(s.taskCount, w, i);
      k < |s.slots| &&
      var m := Message(s.slots[k].id, s.slots[k].data);
      OnlyMoved(s, s', t, GetDone(Some(m))) &&
      s' == s.(rings := ReadFrom(s, w, from), threads := s'.threads,
               slots := s.slots[k := s.slots[k].(sync := Empty)], taken := s.taken + [m])
  }

  /** Alone, dequeue_task takes the first queued task from read_from on, below write_to, and finds
      nothing only if there is none; read_from moves behind the slots that were passed over. */
  lemma DequeueAlone(s: State, t: nat, self: nat, tried: nat, w: nat) returns (n: nat, s': State)
    requires Shape(s) && t < |s.threads| && s.threads[t].pc == GetWriteTo(self, tried)
    requires tried < |s.rings| && w == Visited(s, self, tried)
    ensures s' == Moves(s, t, n)
    ensures var index, bound := s.rings[w].readFrom, s.rings[w].writeTo;
            var found := First(s.slots, s.taskCount, w, Queued, index, bound);
            TakenAlone(s, s', t, self, tried, w, found, Reached(found, index, bound, index))
  {
    var bound, index := s.rings[w].writeTo, s.rings[w].readFrom;
    var found := First(s.slots, s.taskCount, w, Queued, index, bound);
    var n1, s1 := GetLoads(s, t, self, tried, w);
    var n2, s2 := GetScan(s1, t, self, tried, bound, index, w);
    n := n1 + n2;
    MovesMore(s, t, n1, s1, n2, s2, n);
    assert GetScanned(s, s2, t, self, tried, w, found, Reached(found, index, bound, index));
    if found == None { return n, s2; }
    var k := SlotOf(s.taskCount, w, found.value);
    var n3;
    n3, s' := TakeAlone(s2, t, k, Message(s.slots[k].id, s.slots[k].data));
    var total := n + n3;
    MovesMore(s, t, n, s2, n3, s', total);
    n := total;
  }
}
