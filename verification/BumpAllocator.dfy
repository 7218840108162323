/** lib/basics.h: the lock-free bump allocator, as a transition system over any number of callers.
    Every action is one atomic operation of one caller, so a sequence of actions is an
    interleaving. */
module BumpAllocator {
  import opened Bits
  import opened Blocks

  /** A successful call: its caller, the block, relative to the base, and the alignment asked for. */
  datatype Grant = Grant(caller: nat, block: Block, align: nat)

  /** Where a caller stands; `seen` is its last view of the index. */
  datatype Caller = Idle | Trying(bytes: nat, align: nat, seen: nat) | Null | Granted(block: Block)

  datatype State = State(capacity: nat, index: nat, callers: seq<Caller>, grants: seq<Grant>)

  /** A call starts with the load of the index; each attempt ends in a compare-exchange, which may
      fail spuriously. */
  datatype Action = Load(t: nat, bytes: nat, align: nat) | Attempt(t: nat, spurious: bool)

  function Step(s: State, a: Action): State {
    if a.t >= |s.callers| then s
    else
      match a
      case Load(t, bytes, align) =>
        if align == 0 || s.callers[t].Trying? then s
        else s.(callers := s.callers[t := Trying(bytes, align, s.index)])
      case Attempt(t, spurious) =>
        if s.callers[t].Trying? && s.callers[t].align > 0 then Try(s, t, s.callers[t], spurious) else s
  }

  function Try(s: State, t: nat, c: Caller, spurious: bool): State
    requires t < |s.callers| && c.Trying? && c.align > 0
  {
    var b := Block(RoundUp(c.seen, c.align), c.bytes);
    if Stop(b) > s.capacity then
      s.(callers := s.callers[t := Null])
    else if s.index == c.seen && !spurious then
      State(s.capacity, Stop(b), s.callers[t := Granted(b)], s.grants + [Grant(t, b, c.align)])
    else
      s.(callers := s.callers[t := c.(seen := s.index)])
  }

  function Run(s: State, actions: seq<Action>): State
    decreases |actions|
  {
    if actions == [] then s else Run(Step(s, actions[0]), actions[1..])
  }

  ghost predicate Init(s: State) {
    s.index == 0 && s.grants == [] && forall t | 0 <= t < |s.callers| :: s.callers[t] == Idle
  }

  function Total(grants: seq<Grant>): nat {
    if grants == [] then 0 else Total(grants[..|grants| - 1]) + grants[|grants| - 1].block.bytes
  }

  predicate InOrder(g: Grant, h: Grant) {
    Stop(g.block) <= h.block.begin
  }

  predicate WellPlaced(g: Grant, index: nat) {
    Stop(g.block) <= index && g.align > 0 && g.block.begin % g.align == 0
  }

  predicate CallerOk(c: Caller, s: State) {
    (c.Trying? ==> c.seen <= s.index && c.align > 0) &&
    (c.Granted? ==> exists i | 0 <= i < |s.grants| :: s.grants[i].block == c.block)
  }

  /** A caller that is still trying has seen all of its own grants. */
  predicate SeenBy(t: nat, c: Caller, g: Grant) {
    c.Trying? && g.caller == t ==> Stop(g.block) <= c.seen
  }

  /** The index is the end of the last grant. */
  predicate IndexIsLast(s: State) {
    s.index == if s.grants == [] then 0 else Stop(s.grants[|s.grants| - 1].block)
  }

  ghost predicate Inv(s: State) {
    && s.index <= s.capacity && IndexIsLast(s)
    && (forall t, i | 0 <= t < |s.callers| && 0 <= i < |s.grants| :: SeenBy(t, s.callers[t], s.grants[i]))
    && (forall i | 0 <= i < |s.grants| :: WellPlaced(s.grants[i], s.index))
    && (forall i, j | 0 <= i < j < |s.grants| :: InOrder(s.grants[i], s.grants[j]))
    && (forall t | 0 <= t < |s.callers| :: CallerOk(s.callers[t], s))
    && Total(s.grants) <= s.index
  }

  /** One step keeps the invariant, never moves the index back and never takes a grant away. */
  lemma StepKeeps(s: State, a: Action)
    requires Inv(s)
    ensures Inv(Step(s, a)) && Step(s, a).index >= s.index && s.grants <= Step(s, a).grants
  {
    var s' := Step(s, a);
    if a.t < |s.callers| && a.Attempt? && s.callers[a.t].Trying? {
      var c := s.callers[a.t];
      assert CallerOk(c, s);
      RoundUpLeast(c.seen, c.align);
      if s'.grants != s.grants {
        var g := s'.grants[|s.grants|];
        assert s'.grants[..|s'.grants| - 1] == s.grants && WellPlaced(g, s'.index);
        forall i | 0 <= i < |s.grants| ensures WellPlaced(s'.grants[i], s'.index) && InOrder(s.grants[i], g) {
          assert WellPlaced(s.grants[i], s.index);
        }
      }
    }
    SeenKept(s, a);
    forall t | 0 <= t < |s'.callers| ensures CallerOk(s'.callers[t], s') {
      assert CallerOk(s.callers[t], s);
      if s'.callers[t] == s.callers[t] && s.callers[t].Granted? {
        var i :| 0 <= i < |s.grants| && s.grants[i].block == s.callers[t].block;
        assert s'.grants[i] == s.grants[i];
      }
    }
  }

  lemma SeenKept(s: State, a: Action)
    requires Inv(s)
    ensures var s' := Step(s, a);
            forall t, i | 0 <= t < |s'.callers| && 0 <= i < |s'.grants| :: SeenBy(t, s'.callers[t], s'.grants[i])
  {
    var s' := Step(s, a);
    forall t, i | 0 <= t < |s'.callers| && 0 <= i < |s'.grants| ensures SeenBy(t, s'.callers[t], s'.grants[i]) {
      if i < |s.grants| {
        assert s'.grants[i] == s.grants[i] && SeenBy(t, s.callers[t], s.grants[i]);
        assert WellPlaced(s.grants[i], s.index);
      }
    }
  }

  lemma {:induction false} RunKeeps(s: State, actions: seq<Action>)
    requires Inv(s)
    ensures Inv(Run(s, actions)) && Run(s, actions).index >= s.index && s.grants <= Run(s, actions).grants
    ensures Run(s, actions).capacity == s.capacity
    decreases |actions|
  {
    if actions != [] {
      StepKeeps(s, actions[0]);
      RunKeeps(Step(s, actions[0]), actions[1..]);
    }
  }

  // ---------------------------------------------------------------- what was asked for

  /** What an attempt does: with room behind the index at the first multiple of the alignment, and the
      index still as it was seen, the caller gets exactly the bytes it asked for there, and the index
      goes to their end. */
  lemma AttemptGrants(s: State, t: nat, bytes: nat, align: nat, seen: nat, spurious: bool) returns (begin: nat)
    requires t < |s.callers| && s.callers[t] == Trying(bytes, align, seen) && align > 0
    ensures seen <= begin < seen + align && begin % align == 0
    ensures var s' := Step(s, Attempt(t, spurious));
            if begin + bytes <= s.capacity && s.index == seen && !spurious then
              s'.index == begin + bytes && s'.callers[t] == Granted(Block(begin, bytes)) &&
              s'.grants == s.grants + [Grant(t, Block(begin, bytes), align)]
            else
              s'.index == s.index && s'.grants == s.grants &&
              s'.callers[t] == if begin + bytes > s.capacity then Null else Trying(bytes, align, s.index)
  {
    begin := RoundUp(seen, align);
    RoundUpLeast(seen, align);
  }

  predicate IsRequest(a: Action, t: nat, bytes: nat, align: nat) {
    a == Load(t, bytes, align)
  }

  /** How often caller t asks for so many bytes at this alignment. */
  function Asked(actions: seq<Action>, t: nat, bytes: nat, align: nat): nat {
    if actions == [] then 0
    else (if IsRequest(actions[0], t, bytes, align) then 1 else 0) + Asked(actions[1..], t, bytes, align)
  }

  predicate Answers(g: Grant, t: nat, bytes: nat, align: nat) {
    g.caller == t && g.block.bytes == bytes && g.align == align
  }

  /** How often it got them. */
  function Answered(grants: seq<Grant>, t: nat, bytes: nat, align: nat): nat {
    if grants == [] then 0
    else
      Answered(grants[..|grants| - 1], t, bytes, align) +
      if Answers(grants[|grants| - 1], t, bytes, align) then 1 else 0
  }

  /** 1 if it is asking for them. */
  function Asking(s: State, t: nat, bytes: nat, align: nat): nat {
    if t < |s.callers| && s.callers[t].Trying? && s.callers[t].bytes == bytes && s.callers[t].align == align then 1 else 0
  }

  lemma StepAnswers(s: State, a: Action, t: nat, bytes: nat, align: nat)
    ensures var s' := Step(s, a);
            Answered(s'.grants, t, bytes, align) + Asking(s', t, bytes, align) <=
            Answered(s.grants, t, bytes, align) + Asking(s, t, bytes, align) +
            if IsRequest(a, t, bytes, align) then 1 else 0
  {
    var s' := Step(s, a);
    if s'.grants != s.grants {
      assert s'.grants[..|s'.grants| - 1] == s.grants;
    }
  }

  lemma {:induction false} RunAnswers(s: State, actions: seq<Action>, t: nat, bytes: nat, align: nat)
    ensures var r := Run(s, actions);
            Answered(r.grants, t, bytes, align) + Asking(r, t, bytes, align) <=
            Answered(s.grants, t, bytes, align) + Asking(s, t, bytes, align) + Asked(actions, t, bytes, align)
    decreases |actions|
  {
    if actions != [] {
      StepAnswers(s, actions[0], t, bytes, align);
      RunAnswers(Step(s, actions[0]), actions[1..], t, bytes, align);
    }
  }

  lemma {:induction false} AnsweredOnce(grants: seq<Grant>, i: nat)
    requires i < |grants|
    ensures Answered(grants, grants[i].caller, grants[i].block.bytes, grants[i].align) >= 1
    decreases |grants|
  {
    if i < |grants| - 1 {
      assert grants[..|grants| - 1][i] == grants[i];
      AnsweredOnce(grants[..|grants| - 1], i);
    }
  }

  lemma {:induction false} AskedSomewhere(actions: seq<Action>, t: nat, bytes: nat, align: nat)
    requires Asked(actions, t, bytes, align) >= 1
    ensures exists j | 0 <= j < |actions| :: actions[j] == Load(t, bytes, align)
    decreases |actions|
  {
    if IsRequest(actions[0], t, bytes, align) {
      assert actions[0] == Load(t, bytes, align);
    } else {
      AskedSomewhere(actions[1..], t, bytes, align);
      var j :| 0 <= j < |actions| - 1 && actions[1..][j] == Load(t, bytes, align);
      assert actions[j + 1] == Load(t, bytes, align);
    }
  }

  /** A caller gets blocks of some size and alignment at most as often as it asks for them, and every
      block answers a request of its caller for that size and that alignment. */
  lemma GrantsAnswer(s: State, actions: seq<Action>, i: nat)
    requires Init(s) && i < |Run(s, actions).grants|
    ensures var g := Run(s, actions).grants[i];
            Answered(Run(s, actions).grants, g.caller, g.block.bytes, g.align) <= Asked(actions, g.caller, g.block.bytes, g.align)
    ensures var g := Run(s, actions).grants[i];
            exists j | 0 <= j < |actions| :: actions[j] == Load(g.caller, g.block.bytes, g.align)
  {
    var grants := Run(s, actions).grants;
    var g := grants[i];
    RunAnswers(s, actions, g.caller, g.block.bytes, g.align);
    AnsweredOnce(grants, i);
    AskedSomewhere(actions, g.caller, g.block.bytes, g.align);
  }

  /** In every interleaving of any number of callers, every block handed out has the size and the
      alignment that its caller asked for, all are in bounds and pairwise disjoint, and together they
      are no larger than the space used. */
  lemma GrantsDisjoint(s: State, actions: seq<Action>)
    requires Init(s)
    ensures var r := Run(s, actions);
            forall i | 0 <= i < |r.grants| ::
              var g := r.grants[i];
              g.align > 0 && g.block.begin % g.align == 0 && g.block.begin + g.block.bytes <= s.capacity &&
              exists j | 0 <= j < |actions| :: actions[j] == Load(g.caller, g.block.bytes, g.align)
    ensures var r := Run(s, actions);
            forall i, j | 0 <= i < j < |r.grants| ::
              r.grants[i].block.begin + r.grants[i].block.bytes <= r.grants[j].block.begin
    ensures Total(Run(s, actions).grants) <= Run(s, actions).index <= s.capacity
  {
    RunKeeps(s, actions);
    var r := Run(s, actions);
    forall i | 0 <= i < |r.grants|
      ensures var g := r.grants[i];
              g.align > 0 && g.block.begin % g.align == 0 && g.block.begin + g.block.bytes <= s.capacity &&
              exists j | 0 <= j < |actions| :: actions[j] == Load(g.caller, g.block.bytes, g.align)
    {
      assert WellPlaced(r.grants[i], r.index);
      GrantsAnswer(s, actions, i);
    }
    forall i, j | 0 <= i < j < |r.grants|
      ensures r.grants[i].block.begin + r.grants[i].block.bytes <= r.grants[j].block.begin
    {
      assert InOrder(r.grants[i], r.grants[j]);
    }
  }

  /** A null result is never due to a stale view: the request does not fit behind the index now, nor
      at any later time. */
  lemma NullMeansFull(s: State, t: nat, spurious: bool, later: seq<Action>)
    requires Inv(s) && t < |s.callers| && s.callers[t].Trying? && Step(s, Attempt(t, spurious)).callers[t] == Null
    ensures RoundUp(Run(s, later).index, s.callers[t].align) + s.callers[t].bytes > s.capacity
  {
    var c := s.callers[t];
    assert CallerOk(c, s);
    RunKeeps(s, later);
    RoundUpMonotone(c.seen, Run(s, later).index, c.align);
  }

  /** An attempt that neither ends the call nor fails spuriously lost to another caller: the last
      block handed out is that caller's, and it ends behind what this caller had seen. */
  lemma RetryMeansProgress(s: State, t: nat)
    requires Inv(s) && t < |s.callers| && s.callers[t].Trying? && Step(s, Attempt(t, false)).callers[t].Trying?
    ensures s.grants != [] && s.grants[|s.grants| - 1].caller != t
    ensures Stop(s.grants[|s.grants| - 1].block) == s.index > s.callers[t].seen
    ensures Step(s, Attempt(t, false)).callers[t].seen == s.index
  {
    assert CallerOk(s.callers[t], s);
    if s.grants != [] { assert SeenBy(t, s.callers[t], s.grants[|s.grants| - 1]); }
  }
}
