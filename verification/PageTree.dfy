/** The four-level tree of page tables, as a value: which physical page a virtual page leads to,
    when the tables form a tree, and how single writes change what the tree translates. */
module PageTree {
  import opened Bits
  import opened Options
  import opened PageEncoding

  /** The memory of the pages in use as page tables, by page number. */
  type Tables = map<nat, seq<u64>>

  /** The table and the position that point to a table. */
  datatype Slot = Slot(table: nat, index: nat)

  /** The tables under one root; `level` and `parent` record what the entries imply. */
  datatype Tree = Tree(root: nat, tables: Tables, level: map<nat, nat>, parent: map<nat, Slot>)

  // ---------------------------------------------------------------- walking

  /** The virtual page number without its lowest l indices. */
  function Shift(vp: nat, l: nat): nat {
    if l == 0 then vp else Shift(vp, l - 1) / 512
  }

  /** The index of virtual page vp into a table of level l. */
  function Index(vp: nat, l: nat): (i: nat)
    requires l >= 1
    ensures i < 512
  {
    Shift(vp, l - 1) % 512
  }

  function At(tables: Tables, t: nat, i: nat): u64 {
    if t in tables && i < |tables[t]| then tables[t][i] else 0
  }

  /** The table of level l on the way to vp. */
  function PathTo(tables: Tables, root: nat, vp: nat, l: nat): Option<nat>
    requires 1 <= l <= 4
    decreases 4 - l
  {
    if l == 4 then Some(root)
    else
      match PathTo(tables, root, vp, l + 1)
      case None => None
      case Some(t) =>
        var e := At(tables, t, Index(vp, l + 1));
        if e == 0 || IsHuge(e) then None else Some(Frame(e))
  }

  /** A 2MB page covers vp. */
  predicate HugeAt(tables: Tables, root: nat, vp: nat) {
    match PathTo(tables, root, vp, 2)
    case None => false
    case Some(t) => IsHuge(At(tables, t, Index(vp, 2)))
  }

  /** The physical page that virtual page vp is mapped to, by a 4KB or a 2MB leaf. */
  function Lookup(tables: Tables, root: nat, vp: nat): Option<nat> {
    if HugeAt(tables, root, vp) then
      Some(Frame(At(tables, PathTo(tables, root, vp, 2).value, Index(vp, 2))) + Index(vp, 1))
    else
      match PathTo(tables, root, vp, 1)
      case None => None
      case Some(t) =>
        var e := At(tables, t, Index(vp, 1));
        if e == 0 then None else Some(Frame(e))
  }

  // ---------------------------------------------------------------- tree shape

  predicate TableOk(tr: Tree, t: nat) {
    t in tr.tables ==>
      t < FRAMES && |tr.tables[t]| == 512 && t in tr.level && 1 <= tr.level[t] <= 4 && (tr.level[t] == 4 <==> t == tr.root)
  }

  /** A non-empty entry points to a leaf in range, or to a table one level down that belongs to it. */
  predicate EntryOk(tr: Tree, t: nat, i: nat) {
    t in tr.tables && t in tr.level && At(tr.tables, t, i) != 0 ==>
      var e := At(tr.tables, t, i);
      && Frame(e) < FRAMES
      && (tr.level[t] >= 3 ==> !IsHuge(e))
      && (tr.level[t] >= 2 && IsHuge(e) ==> Frame(e) + 512 <= FRAMES)
      && (tr.level[t] >= 2 && !IsHuge(e) ==> PointsTo(tr, t, i, Frame(e)))
  }

  predicate PointsTo(tr: Tree, t: nat, i: nat, c: nat)
    requires t in tr.level
  {
    c in tr.tables && c in tr.level && tr.level[c] + 1 == tr.level[t] && c in tr.parent && tr.parent[c] == Slot(t, i)
  }

  /** Every table but the root is pointed to by the entry recorded as its parent. */
  predicate ParentOk(tr: Tree, c: nat) {
    c in tr.tables && c in tr.level && c != tr.root ==>
      c in tr.parent && PointedBy(tr, c, tr.parent[c])
  }

  predicate PointedBy(tr: Tree, c: nat, s: Slot)
    requires c in tr.level
  {
    s.table in tr.tables && s.table in tr.level && tr.level[s.table] == tr.level[c] + 1 && s.index < 512 &&
    var e := At(tr.tables, s.table, s.index);
    e != 0 && !IsHuge(e) && Frame(e) == c
  }

  ghost predicate WellFormed(tr: Tree) {
    && tr.root in tr.tables
    && (forall t: nat :: TableOk(tr, t))
    && (forall t: nat, i: nat :: EntryOk(tr, t, i))
    && (forall c: nat :: ParentOk(tr, c))
  }

  // ---------------------------------------------------------------- paths

  lemma {:induction false} PathLevel(tr: Tree, vp: nat, l: nat)
    requires WellFormed(tr) && 1 <= l <= 4 && PathTo(tr.tables, tr.root, vp, l).Some?
    ensures var t := PathTo(tr.tables, tr.root, vp, l).value; t in tr.tables && t in tr.level && tr.level[t] == l
    decreases 4 - l
  {
    assert TableOk(tr, tr.root);
    if l < 4 {
      PathLevel(tr, vp, l + 1);
      var t := PathTo(tr.tables, tr.root, vp, l + 1).value;
      assert EntryOk(tr, t, Index(vp, l + 1));
      assert TableOk(tr, PathTo(tr.tables, tr.root, vp, l).value);
    }
  }

  /** Virtual pages that reach the same table agree on the indices used so far. */
  lemma {:induction false} PathUnique(tr: Tree, vp: nat, vq: nat, l: nat)
    requires WellFormed(tr) && 1 <= l <= 4 && vp < VIRTUAL_PAGES && vq < VIRTUAL_PAGES
    requires PathTo(tr.tables, tr.root, vp, l).Some?
    requires PathTo(tr.tables, tr.root, vp, l) == PathTo(tr.tables, tr.root, vq, l)
    ensures Shift(vp, l) == Shift(vq, l)
    decreases 4 - l
  {
    if l == 4 {
      ShiftAll(vp);
      ShiftAll(vq);
    } else {
      PathLevel(tr, vp, l + 1);
      PathLevel(tr, vq, l + 1);
      var t, u := PathTo(tr.tables, tr.root, vp, l + 1).value, PathTo(tr.tables, tr.root, vq, l + 1).value;
      assert EntryOk(tr, t, Index(vp, l + 1)) && EntryOk(tr, u, Index(vq, l + 1));
      assert t == u && Index(vp, l + 1) == Index(vq, l + 1);
      PathUnique(tr, vp, vq, l + 1);
      ShiftStep(vp, l);
      ShiftStep(vq, l);
    }
  }

  lemma ShiftStep(vp: nat, l: nat)
    ensures Shift(vp, l) == 512 * Shift(vp, l + 1) + Index(vp, l + 1)
  {
  }

  lemma ShiftAll(vp: nat)
    requires vp < VIRTUAL_PAGES
    ensures Shift(vp, 4) == 0
  {
    assert Shift(vp, 1) == vp / 512;
    assert Shift(vp, 2) == Shift(vp, 1) / 512;
    assert Shift(vp, 3) == Shift(vp, 2) / 512;
    assert Shift(vp, 1) < 0x800_0000 && Shift(vp, 2) < 0x4_0000 && Shift(vp, 3) < 0x200;
  }

  /** vp's walk reads entry i of table t of level l. */
  predicate Passes(tr: Tree, vp: nat, t: nat, i: nat) {
    t in tr.level && 1 <= tr.level[t] <= 4 &&
    PathTo(tr.tables, tr.root, vp, tr.level[t]) == Some(t) && Index(vp, tr.level[t]) == i
  }

  /** The tables of `after` are those of tr, except perhaps entry i of table t, and new ones. */
  ghost predicate ChangedAt(tr: Tree, after: Tables, t: nat, i: nat) {
    forall u: nat, j: nat :: u in tr.tables && (u != t || j != i) ==> At(after, u, j) == At(tr.tables, u, j)
  }

  lemma {:induction false} PathKept(tr: Tree, after: Tables, t: nat, i: nat, vp: nat, l: nat)
    requires WellFormed(tr) && ChangedAt(tr, after, t, i) && 1 <= l <= 4 && t in tr.level
    requires !Passes(tr, vp, t, i) || l >= tr.level[t]
    ensures PathTo(after, tr.root, vp, l) == PathTo(tr.tables, tr.root, vp, l)
    decreases 4 - l
  {
    if l < 4 {
      PathKept(tr, after, t, i, vp, l + 1);
      if PathTo(tr.tables, tr.root, vp, l + 1).Some? { PathLevel(tr, vp, l + 1); }
    }
  }

  /** Walks that do not pass the changed entry are not affected. */
  lemma LookupKept(tr: Tree, after: Tables, t: nat, i: nat, vp: nat)
    requires WellFormed(tr) && ChangedAt(tr, after, t, i) && t in tr.level && !Passes(tr, vp, t, i)
    ensures Lookup(after, tr.root, vp) == Lookup(tr.tables, tr.root, vp)
    ensures HugeAt(after, tr.root, vp) == HugeAt(tr.tables, tr.root, vp)
  {
    PathKept(tr, after, t, i, vp, 2);
    PathKept(tr, after, t, i, vp, 1);
    if PathTo(tr.tables, tr.root, vp, 2).Some? { PathLevel(tr, vp, 2); }
    if PathTo(tr.tables, tr.root, vp, 1).Some? { PathLevel(tr, vp, 1); }
  }

  // ---------------------------------------------------------------- writing one entry

  function WithEntry(tables: Tables, t: nat, i: nat, e: u64): Tables
    requires t in tables && i < |tables[t]|
  {
    var row: seq<u64> := tables[t][i := e];
    tables[t := row]
  }

  /** An empty table is allocated at page n and linked into an empty entry. */
  function WithTable(tr: Tree, t: nat, i: nat, n: nat, e: u64): Tree
    requires t in tr.tables && i < |tr.tables[t]| && t in tr.level && tr.level[t] >= 1
  {
    var zeroed: seq<u64> := seq(512, _ => 0);
    Tree(tr.root, WithEntry(tr.tables, t, i, e)[n := zeroed],
         tr.level[n := tr.level[t] - 1], tr.parent[n := Slot(t, i)])
  }

  predicate EmptyEntry(tr: Tree, t: nat, i: nat) {
    t in tr.tables && i < 512 && |tr.tables[t]| == 512 && At(tr.tables, t, i) == 0 && t in tr.level
  }

  lemma NotHugeZero()
    ensures !IsHuge(0)
  {
  }

  lemma AddedTableIsTree(tr: Tree, t: nat, i: nat, n: nat, e: u64)
    requires WellFormed(tr) && EmptyEntry(tr, t, i) && tr.level[t] >= 2
    requires n !in tr.tables && n < FRAMES && e != 0 && !IsHuge(e) && Frame(e) == n
    ensures WellFormed(WithTable(tr, t, i, n, e))
  {
    var tr' := WithTable(tr, t, i, n, e);
    assert TableOk(tr, t) && TableOk(tr, tr.root);
    forall u: nat ensures TableOk(tr', u) { assert TableOk(tr, u); }
    forall u: nat, j: nat ensures EntryOk(tr', u, j) { assert EntryOk(tr, u, j); }
    forall c: nat ensures ParentOk(tr', c) {
      assert ParentOk(tr, c);
      if c in tr.tables && c != tr.root { assert TableOk(tr, c); }
    }
  }

  lemma AddedTableChanges(tr: Tree, t: nat, i: nat, n: nat, e: u64)
    requires WellFormed(tr) && EmptyEntry(tr, t, i) && n !in tr.tables && tr.level[t] >= 1
    ensures ChangedAt(tr, WithTable(tr, t, i, n, e).tables, t, i)
  {
  }

  /** A new empty table changes no translation. */
  lemma AddedTableLookup(tr: Tree, t: nat, i: nat, n: nat, e: u64, vp: nat)
    requires WellFormed(tr) && EmptyEntry(tr, t, i) && tr.level[t] >= 2
    requires n !in tr.tables && n < FRAMES && e != 0 && !IsHuge(e) && Frame(e) == n
    ensures var after := WithTable(tr, t, i, n, e).tables;
            Lookup(after, tr.root, vp) == Lookup(tr.tables, tr.root, vp) &&
            HugeAt(after, tr.root, vp) == HugeAt(tr.tables, tr.root, vp) &&
            (forall l: nat | tr.level[t] <= l <= 4 :: PathTo(after, tr.root, vp, l) == PathTo(tr.tables, tr.root, vp, l))
  {
    var after := WithTable(tr, t, i, n, e).tables;
    AddedTableChanges(tr, t, i, n, e);
    assert TableOk(tr, t);
    forall l: nat | tr.level[t] <= l <= 4 ensures PathTo(after, tr.root, vp, l) == PathTo(tr.tables, tr.root, vp, l) {
      PathKept(tr, after, t, i, vp, l);
    }
    if !Passes(tr, vp, t, i) {
      LookupKept(tr, after, t, i, vp);
    } else {
      NotHugeZero();
      var l := tr.level[t] - 1;
      assert PathTo(after, tr.root, vp, l) == Some(n) && PathTo(tr.tables, tr.root, vp, l) == None;
      assert forall j: nat :: At(after, n, j) == 0;
      if l >= 2 {
        assert PathTo(after, tr.root, vp, l - 1) == None && PathTo(tr.tables, tr.root, vp, l - 1) == None;
      }
      if l == 3 {
        assert PathTo(after, tr.root, vp, 1) == None && PathTo(tr.tables, tr.root, vp, 1) == None;
      }
    }
  }

  /** The kinds of leaf: a 4KB entry in a level-1 table, a 2MB entry in a level-2 table. */
  predicate LeafEntry(tr: Tree, t: nat, e: u64) {
    t in tr.level && e != 0 && Frame(e) < FRAMES &&
    (tr.level[t] == 1 || (tr.level[t] == 2 && IsHuge(e) && Frame(e) + 512 <= FRAMES))
  }

  lemma LeafIsTree(tr: Tree, t: nat, i: nat, e: u64)
    requires WellFormed(tr) && EmptyEntry(tr, t, i) && LeafEntry(tr, t, e)
    ensures WellFormed(tr.(tables := WithEntry(tr.tables, t, i, e)))
  {
    var tr' := tr.(tables := WithEntry(tr.tables, t, i, e));
    forall u: nat ensures TableOk(tr', u) { assert TableOk(tr, u); }
    forall u: nat, j: nat ensures EntryOk(tr', u, j) { assert EntryOk(tr, u, j); }
    forall c: nat ensures ParentOk(tr', c) { assert ParentOk(tr, c); }
  }

  /** A leaf written into an empty entry translates the walks through it, and no others. */
  lemma LeafLookup(tr: Tree, t: nat, i: nat, e: u64, vp: nat)
    requires WellFormed(tr) && EmptyEntry(tr, t, i) && LeafEntry(tr, t, e)
    ensures var after := WithEntry(tr.tables, t, i, e);
            if Passes(tr, vp, t, i) then
              Lookup(tr.tables, tr.root, vp) == None && !HugeAt(tr.tables, tr.root, vp) &&
              HugeAt(after, tr.root, vp) == (tr.level[t] == 2) &&
              Lookup(after, tr.root, vp) == Some(Frame(e) + if tr.level[t] == 2 then Index(vp, 1) else 0)
            else
              Lookup(after, tr.root, vp) == Lookup(tr.tables, tr.root, vp) &&
              HugeAt(after, tr.root, vp) == HugeAt(tr.tables, tr.root, vp)
  {
    var after := WithEntry(tr.tables, t, i, e);
    NotHugeZero();
    if Passes(tr, vp, t, i) {
      PathKept(tr, after, t, i, vp, 2);
      if tr.level[t] == 1 {
        PathKept(tr, after, t, i, vp, 1);
      } else {
        assert PathTo(tr.tables, tr.root, vp, 1) == None;
      }
    } else {
      LookupKept(tr, after, t, i, vp);
    }
  }

  /** Both sets of tables translate every virtual page alike. */
  ghost predicate SameView(before: Tables, after: Tables, root: nat) {
    forall vp: nat :: TranslatesAlike(before, after, root, vp)
  }

  predicate TranslatesAlike(before: Tables, after: Tables, root: nat, vp: nat) {
    Lookup(after, root, vp) == Lookup(before, root, vp) && HugeAt(after, root, vp) == HugeAt(before, root, vp)
  }

  /** Walks reach the same tables down to level l. */
  ghost predicate SamePaths(before: Tables, after: Tables, root: nat, l: nat)
    requires 1 <= l
  {
    forall vp: nat, m: nat | l <= m <= 4 :: PathTo(after, root, vp, m) == PathTo(before, root, vp, m)
  }

  lemma AddedTableView(tr: Tree, t: nat, i: nat, n: nat, e: u64)
    requires WellFormed(tr) && EmptyEntry(tr, t, i) && tr.level[t] >= 2
    requires n !in tr.tables && n < FRAMES && e != 0 && !IsHuge(e) && Frame(e) == n
    ensures SameView(tr.tables, WithTable(tr, t, i, n, e).tables, tr.root)
    ensures SamePaths(tr.tables, WithTable(tr, t, i, n, e).tables, tr.root, tr.level[t])
  {
    var after := WithTable(tr, t, i, n, e).tables;
    forall vp: nat ensures TranslatesAlike(tr.tables, after, tr.root, vp) {
      AddedTableLookup(tr, t, i, n, e, vp);
    }
    forall vp: nat, m: nat | tr.level[t] <= m <= 4
      ensures PathTo(after, tr.root, vp, m) == PathTo(tr.tables, tr.root, vp, m)
    {
      AddedTableLookup(tr, t, i, n, e, vp);
    }
  }

  // ---------------------------------------------------------------- what is written

  /** Entries have only been filled in, never overwritten, and the new ones carry the flags. */
  ghost predicate Filled(before: Tables, after: Tables, flags: set<nat>) {
    forall t: nat, i: nat :: FilledAt(before, after, flags, t, i)
  }

  predicate FilledAt(before: Tables, after: Tables, flags: set<nat>, t: nat, i: nat) {
    At(after, t, i) == At(before, t, i) || (At(before, t, i) == 0 && FlagBits(At(after, t, i)) in flags)
  }

  lemma FilledNothing(tables: Tables, flags: set<nat>)
    ensures Filled(tables, tables, flags)
  {
  }

  lemma FilledEntry(before: Tables, t: nat, i: nat, e: u64, flags: set<nat>)
    requires t in before && i < |before[t]| && before[t][i] == 0 && FlagBits(e) in flags
    ensures Filled(before, WithEntry(before, t, i, e), flags)
  {
  }

  lemma FilledTable(before: Tables, after: Tables, page: nat, zeroed: seq<u64>, flags: set<nat>)
    requires Filled(before, after, flags) && page !in before && page !in after
    requires forall i | 0 <= i < |zeroed| :: zeroed[i] == 0
    ensures Filled(before, after[page := zeroed], flags)
  {
    var with := after[page := zeroed];
    forall t: nat, i: nat ensures FilledAt(before, with, flags, t, i) {
      assert FilledAt(before, after, flags, t, i);
    }
  }

  lemma FilledMore(before: Tables, after: Tables, flags: set<nat>, more: set<nat>)
    requires Filled(before, after, flags) && flags <= more
    ensures Filled(before, after, more)
  {
    forall t: nat, i: nat ensures FilledAt(before, after, more, t, i) {
      assert FilledAt(before, after, flags, t, i);
    }
  }

  lemma FilledTransitive(a: Tables, b: Tables, c: Tables, flags: set<nat>)
    requires Filled(a, b, flags) && Filled(b, c, flags)
    ensures Filled(a, c, flags)
  {
    forall t: nat, i: nat ensures FilledAt(a, c, flags, t, i) {
      assert FilledAt(a, b, flags, t, i) && FilledAt(b, c, flags, t, i);
    }
  }

  // ---------------------------------------------------------------- ranges

  /** The n virtual pages from v are mapped to the physical pages from k; nothing else changed. */
  ghost predicate MapsRange(before: Tables, after: Tables, root: nat, v: nat, n: nat, k: nat) {
    forall vp: nat | vp < VIRTUAL_PAGES :: MapsAt(before, after, root, v, n, k, vp)
  }

  predicate MapsAt(before: Tables, after: Tables, root: nat, v: nat, n: nat, k: nat, vp: nat) {
    if v <= vp < v + n then
      Lookup(before, root, vp) == None && Lookup(after, root, vp) == Some(k + vp - v)
    else
      TranslatesAlike(before, after, root, vp)
  }

  lemma PassesOnly(tr: Tree, t: nat, i: nat, vp: nat, vq: nat)
    requires WellFormed(tr) && t in tr.level && vp < VIRTUAL_PAGES && vq < VIRTUAL_PAGES
    requires Passes(tr, vp, t, i)
    ensures Passes(tr, vq, t, i) <==> Shift(vp, tr.level[t] - 1) == Shift(vq, tr.level[t] - 1)
  {
    var l := tr.level[t];
    ShiftStep(vp, l - 1);
    ShiftStep(vq, l - 1);
    if Passes(tr, vq, t, i) { PathUnique(tr, vp, vq, l); }
    if Shift(vp, l - 1) == Shift(vq, l - 1) { SamePath(tr, vp, vq, l); }
  }

  lemma {:induction false} SamePath(tr: Tree, vp: nat, vq: nat, l: nat)
    requires 1 <= l <= 4 && Shift(vp, l) == Shift(vq, l)
    ensures PathTo(tr.tables, tr.root, vp, l) == PathTo(tr.tables, tr.root, vq, l)
    decreases 4 - l
  {
    if l < 4 {
      assert Shift(vp, l + 1) == Shift(vq, l + 1);
      SamePath(tr, vp, vq, l + 1);
    }
  }

  /** A 4KB leaf maps exactly the one virtual page whose walk reaches it. */
  lemma SmallLeafMaps(tr: Tree, t: nat, i: nat, e: u64, vp: nat)
    requires WellFormed(tr) && EmptyEntry(tr, t, i) && LeafEntry(tr, t, e) && tr.level[t] == 1
    requires vp < VIRTUAL_PAGES && Passes(tr, vp, t, i)
    ensures MapsRange(tr.tables, WithEntry(tr.tables, t, i, e), tr.root, vp, 1, Frame(e))
  {
    forall vq: nat | vq < VIRTUAL_PAGES
      ensures MapsAt(tr.tables, WithEntry(tr.tables, t, i, e), tr.root, vp, 1, Frame(e), vq)
    {
      PassesOnly(tr, t, i, vp, vq);
      LeafLookup(tr, t, i, e, vq);
    }
  }

  /** A 2MB leaf maps exactly the 512 virtual pages whose walks reach it. */
  lemma HugeLeafMaps(tr: Tree, t: nat, i: nat, e: u64, vp: nat)
    requires WellFormed(tr) && EmptyEntry(tr, t, i) && LeafEntry(tr, t, e) && tr.level[t] == 2
    requires vp < VIRTUAL_PAGES && vp % 512 == 0 && Passes(tr, vp, t, i)
    ensures MapsRange(tr.tables, WithEntry(tr.tables, t, i, e), tr.root, vp, 512, Frame(e))
  {
    forall vq: nat | vq < VIRTUAL_PAGES
      ensures MapsAt(tr.tables, WithEntry(tr.tables, t, i, e), tr.root, vp, 512, Frame(e), vq)
    {
      PassesOnly(tr, t, i, vp, vq);
      LeafLookup(tr, t, i, e, vq);
      assert Shift(vq, 1) == vq / 512 && Shift(vp, 1) == vp / 512;
      assert Index(vq, 1) == vq % 512;
    }
  }

  /** Views compose: a range mapped after a step that changed no translation. */
  lemma MapsAfterView(a: Tables, b: Tables, c: Tables, root: nat, v: nat, n: nat, k: nat)
    requires SameView(a, b, root) && MapsRange(b, c, root, v, n, k)
    ensures MapsRange(a, c, root, v, n, k)
  {
    forall vp: nat | vp < VIRTUAL_PAGES ensures MapsAt(a, c, root, v, n, k, vp) {
      assert TranslatesAlike(a, b, root, vp) && MapsAt(b, c, root, v, n, k, vp);
    }
  }

  lemma MapsThenView(a: Tables, b: Tables, c: Tables, root: nat, v: nat, n: nat, k: nat)
    requires MapsRange(a, b, root, v, n, k) && SameView(b, c, root)
    ensures MapsRange(a, c, root, v, n, k)
  {
    forall vp: nat | vp < VIRTUAL_PAGES ensures MapsAt(a, c, root, v, n, k, vp) {
      assert MapsAt(a, b, root, v, n, k, vp) && TranslatesAlike(b, c, root, vp);
    }
  }

  /** Two adjacent ranges, mapped one after the other, are one range. */
  lemma MapsAdjacent(a: Tables, b: Tables, c: Tables, root: nat, v: nat, n: nat, k: nat, v2: nat, m: nat, k2: nat, total: nat)
    requires MapsRange(a, b, root, v, n, k) && MapsRange(b, c, root, v2, m, k2)
    requires v2 == v + n && k2 == k + n && total == n + m
    ensures MapsRange(a, c, root, v, total, k)
  {
    forall vp: nat | vp < VIRTUAL_PAGES ensures MapsAt(a, c, root, v, total, k, vp) {
      assert MapsAt(a, b, root, v, n, k, vp) && MapsAt(b, c, root, v2, m, k2, vp);
    }
  }

  /** Two sets of tables translate every virtual page alike, whatever their shapes. */
  ghost predicate Alike(a: Tables, rootA: nat, b: Tables, rootB: nat) {
    forall vp: nat | vp < VIRTUAL_PAGES :: AlikeAt(a, rootA, b, rootB, vp)
  }

  predicate AlikeAt(a: Tables, rootA: nat, b: Tables, rootB: nat, vp: nat) {
    Lookup(a, rootA, vp) == Lookup(b, rootB, vp)
  }

  /** They still do after the same range has been mapped in both. */
  lemma MappedAlike(beforeA: Tables, afterA: Tables, rootA: nat, beforeB: Tables, afterB: Tables, rootB: nat,
                    v: nat, n: nat, k: nat)
    requires MapsRange(beforeA, afterA, rootA, v, n, k) && MapsRange(beforeB, afterB, rootB, v, n, k)
    requires Alike(beforeA, rootA, beforeB, rootB)
    ensures Alike(afterA, rootA, afterB, rootB)
  {
    forall vp: nat | vp < VIRTUAL_PAGES ensures AlikeAt(afterA, rootA, afterB, rootB, vp) {
      assert MapsAt(beforeA, afterA, rootA, v, n, k, vp) && MapsAt(beforeB, afterB, rootB, v, n, k, vp);
      assert AlikeAt(beforeA, rootA, beforeB, rootB, vp);
    }
  }

  /** A range that could be mapped in one is unmapped in the other. */
  lemma UnmappedAlike(beforeA: Tables, afterA: Tables, rootA: nat, beforeB: Tables, rootB: nat, v: nat, n: nat, k: nat, vp: nat)
    requires MapsRange(beforeA, afterA, rootA, v, n, k) && Alike(beforeA, rootA, beforeB, rootB)
    requires v <= vp < v + n && vp < VIRTUAL_PAGES
    ensures Lookup(beforeB, rootB, vp) == None
  {
    assert MapsAt(beforeA, afterA, rootA, v, n, k, vp) && AlikeAt(beforeA, rootA, beforeB, rootB, vp);
  }

  lemma ViewTransitive(a: Tables, b: Tables, c: Tables, root: nat)
    requires SameView(a, b, root) && SameView(b, c, root)
    ensures SameView(a, c, root)
  {
    forall vp: nat ensures TranslatesAlike(a, c, root, vp) {
      assert TranslatesAlike(a, b, root, vp) && TranslatesAlike(b, c, root, vp);
    }
  }

  lemma MapsNothing(a: Tables, root: nat, v: nat, k: nat)
    ensures MapsRange(a, a, root, v, 0, k)
  {
  }

  /** A region of n pages from virtual page v and physical page k starts with a 2MB page. */
  predicate HugeFits(v: nat, k: nat, n: nat) {
    v % 512 == 0 && k % 512 == 0 && n >= 512
  }

  /** The number of pages that map_region maps at once. */
  function ChunkSize(vp: nat, k: nat, left: nat): nat {
    if HugeFits(vp, k, left) then 512 else 1
  }

  /** Mapping n pages from v to those from k uses a 2MB page at b, if it gets there. */
  predicate IsBlock(v: nat, n: nat, k: nat, b: nat) {
    v <= b < v + n && HugeFits(b, k + (b - v), v + n - b)
  }

  /** In words of the page numbers: both are aligned to 2MB, and the whole 2MB belong to the range. */
  lemma BlockIs(v: nat, n: nat, k: nat, b: nat)
    ensures IsBlock(v, n, k, b) <==> v <= b && b % 512 == 0 && (k + b - v) % 512 == 0 && b + 512 <= v + n
  {
  }

  /** A 2MB page covers a page of the range only where the range calls for a 2MB page too, or behind a
      page that is already mapped: elsewhere the walk would take it for a table. */
  ghost predicate Safe(tables: Tables, root: nat, v: nat, n: nat, k: nat) {
    forall vp: nat | v <= vp < v + n && HugeAt(tables, root, vp) :: IsBlock(v, n, k, vp) || MappedBefore(tables, root, v, vp)
  }

  ghost predicate MappedBefore(tables: Tables, root: nat, v: nat, end: nat) {
    exists vp: nat | v <= vp < end :: Lookup(tables, root, vp) != None
  }

  /** While only unmapped pages have been met, the next one is not covered by a 2MB page unless one is
      called for. */
  lemma SafeNext(before: Tables, tables: Tables, root: nat, v: nat, done: nat, n: nat, k: nat, next: nat)
    requires Safe(before, root, v, n, k) && MapsRange(before, tables, root, v, done, k)
    requires done < n && v + n <= VIRTUAL_PAGES && next == v + done
    ensures !HugeAt(tables, root, next) || HugeFits(next, k + done, n - done)
  {
    assert MapsAt(before, tables, root, v, done, k, next);
    forall vp: nat | v <= vp < next ensures Lookup(before, root, vp) == None {
      assert MapsAt(before, tables, root, v, done, k, vp);
    }
    assert !MappedBefore(before, root, v, next);
  }

  // ---------------------------------------------------------------- where tables are added

  /** A table of the last level stands on the way to vp. */
  predicate HasTable(tables: Tables, root: nat, vp: nat) {
    PathTo(tables, root, vp, 1).Some?
  }

  /** A table of the last level or a 2MB page stands on the way to vp. */
  predicate Occupied(tables: Tables, root: nat, vp: nat) {
    HasTable(tables, root, vp) || HugeAt(tables, root, vp)
  }

  /** The table of the last level for vp serves one of the n pages from v too. */
  ghost predicate Serves(v: nat, n: nat, vp: nat) {
    exists x: nat :: v <= x < v + n && Shift(x, 1) == Shift(vp, 1)
  }

  /** New tables of the last level serve the n pages from v. */
  ghost predicate NewTables(before: Tables, after: Tables, root: nat, v: nat, n: nat) {
    forall vp: nat | vp < VIRTUAL_PAGES :: NewTableAt(before, after, root, v, n, vp)
  }

  ghost predicate NewTableAt(before: Tables, after: Tables, root: nat, v: nat, n: nat, vp: nat) {
    HasTable(after, root, vp) ==> HasTable(before, root, vp) || Serves(v, n, vp)
  }

  lemma NewTablesNone(tables: Tables, root: nat, v: nat, n: nat)
    ensures NewTables(tables, tables, root, v, n)
  {
    forall vp: nat ensures NewTableAt(tables, tables, root, v, n, vp) {}
  }

  lemma NewTablesMore(a: Tables, b: Tables, c: Tables, root: nat, v: nat, n: nat, w: nat, m: nat, total: nat)
    requires NewTables(a, b, root, v, n) && NewTables(b, c, root, w, m) && v <= w && w + m <= v + total && n <= total
    ensures NewTables(a, c, root, v, total)
  {
    forall vp: nat | vp < VIRTUAL_PAGES ensures NewTableAt(a, c, root, v, total, vp) {
      assert NewTableAt(a, b, root, v, n, vp) && NewTableAt(b, c, root, w, m, vp);
      if Serves(v, n, vp) {
        var x: nat :| v <= x < v + n && Shift(x, 1) == Shift(vp, 1);
        assert Serves(v, total, vp);
      } else if Serves(w, m, vp) {
        var x: nat :| w <= x < w + m && Shift(x, 1) == Shift(vp, 1);
        assert Serves(v, total, vp);
      }
    }
  }

  /** The pages in front of a 2MB boundary are served by other tables. */
  lemma OccupiedBefore(before: Tables, after: Tables, root: nat, v: nat, n: nat, k: nat, vp: nat)
    requires NewTables(before, after, root, v, n) && MapsRange(before, after, root, v, n, k)
    requires vp == v + n && vp % 512 == 0 && vp < VIRTUAL_PAGES && Occupied(after, root, vp)
    ensures Occupied(before, root, vp)
  {
    assert NewTableAt(before, after, root, v, n, vp) && MapsAt(before, after, root, v, n, k, vp);
    forall x: nat | v <= x < v + n ensures Shift(x, 1) != Shift(vp, 1) {
      assert Shift(x, 1) == x / 512 && Shift(vp, 1) == vp / 512;
    }
  }

  lemma StaysOccupied(before: Tables, after: Tables, root: nat, vp: nat)
    requires NewTables(before, after, root, vp, 0) && SameView(before, after, root) && vp < VIRTUAL_PAGES
    requires Occupied(after, root, vp)
    ensures Occupied(before, root, vp)
  {
    assert NewTableAt(before, after, root, vp, 0, vp) && TranslatesAlike(before, after, root, vp);
  }

  /** Entry i of table t, of level l, is the only one that a table may have been linked into. */
  ghost predicate OneChild(before: Tables, after: Tables, root: nat, t: nat, i: nat, l: nat) {
    forall vp: nat :: ChildAt(before, after, root, t, i, l, vp)
  }

  predicate ChildAt(before: Tables, after: Tables, root: nat, t: nat, i: nat, l: nat, vp: nat) {
    HasTable(after, root, vp) ==>
      HasTable(before, root, vp) || (l == 2 && PathTo(before, root, vp, 2) == Some(t) && Index(vp, 2) == i)
  }

  lemma AddedTableIsChild(tr: Tree, t: nat, i: nat, n: nat, e: u64)
    requires WellFormed(tr) && EmptyEntry(tr, t, i) && tr.level[t] >= 2
    requires n !in tr.tables && n < FRAMES && e != 0 && !IsHuge(e) && Frame(e) == n
    ensures OneChild(tr.tables, WithTable(tr, t, i, n, e).tables, tr.root, t, i, tr.level[t])
  {
    var after := WithTable(tr, t, i, n, e).tables;
    AddedTableChanges(tr, t, i, n, e);
    assert TableOk(tr, t);
    forall vp: nat ensures ChildAt(tr.tables, after, tr.root, t, i, tr.level[t], vp) {
      if !Passes(tr, vp, t, i) {
        PathKept(tr, after, t, i, vp, 1);
      } else if tr.level[t] > 2 {
        PathKept(tr, after, t, i, vp, tr.level[t]);
        var l := tr.level[t] - 1;
        assert PathTo(after, tr.root, vp, l) == Some(n);
        assert forall j: nat :: At(after, n, j) == 0;
        assert PathTo(after, tr.root, vp, l - 1) == None;
      }
    }
  }

  /** Above the last two levels no table of the last level comes in. */
  lemma HigherChild(before: Tables, after: Tables, root: nat, t: nat, i: nat, l: nat, v: nat)
    requires OneChild(before, after, root, t, i, l) && l > 2
    ensures NewTables(before, after, root, v, 0)
  {
    forall vp: nat ensures NewTableAt(before, after, root, v, 0, vp) {
      assert ChildAt(before, after, root, t, i, l, vp);
    }
  }

  lemma HigherChildren(a: Tables, b: Tables, c: Tables, root: nat, t: nat, i: nat, l: nat, t': nat, i': nat, l': nat, v: nat)
    requires OneChild(a, b, root, t, i, l) && OneChild(b, c, root, t', i', l') && l > 2 && l' > 2
    ensures NewTables(a, c, root, v, 0)
  {
    HigherChild(a, b, root, t, i, l, v);
    HigherChild(b, c, root, t', i', l', v);
    NewTablesMore(a, b, c, root, v, 0, v, 0, 0);
  }

  lemma LowestChild(tr: Tree, after: Tables, t: nat, i: nat, v: nat)
    requires WellFormed(tr) && OneChild(tr.tables, after, tr.root, t, i, 2) && v < VIRTUAL_PAGES
    requires PathTo(tr.tables, tr.root, v, 2) == Some(t) && Index(v, 2) == i
    ensures NewTables(tr.tables, after, tr.root, v, 1)
  {
    forall vp: nat | vp < VIRTUAL_PAGES ensures NewTableAt(tr.tables, after, tr.root, v, 1, vp) {
      assert ChildAt(tr.tables, after, tr.root, t, i, 2, vp);
      if HasTable(after, tr.root, vp) && !HasTable(tr.tables, tr.root, vp) {
        PathUnique(tr, v, vp, 2);
        ShiftStep(v, 1);
        ShiftStep(vp, 1);
        assert v <= v < v + 1 && Shift(v, 1) == Shift(vp, 1);
      }
    }
  }

  /** A leaf adds no table. */
  lemma LeafAddsNoTable(tr: Tree, t: nat, i: nat, e: u64, v: nat)
    requires WellFormed(tr) && EmptyEntry(tr, t, i) && LeafEntry(tr, t, e)
    ensures NewTables(tr.tables, WithEntry(tr.tables, t, i, e), tr.root, v, 0)
  {
    var after := WithEntry(tr.tables, t, i, e);
    forall vp: nat ensures NewTableAt(tr.tables, after, tr.root, v, 0, vp) {
      if !Passes(tr, vp, t, i) || tr.level[t] == 1 {
        PathKept(tr, after, t, i, vp, 1);
      } else {
        PathKept(tr, after, t, i, vp, 2);
        assert PathTo(after, tr.root, vp, 1) == None;
      }
    }
  }

  /** Mapping n pages from v to those from k cannot go on at vp: it is mapped, or a table or a page stands
      where a 2MB page should go. */
  predicate InTheWay(tables: Tables, root: nat, v: nat, n: nat, k: nat, vp: nat) {
    Lookup(tables, root, vp) != None || (IsBlock(v, n, k, vp) && Occupied(tables, root, vp))
  }

  /** What is in the way behind the pages that are mapped was so before. */
  lemma InTheWayBefore(before: Tables, after: Tables, root: nat, v: nat, n: nat, k: nat, done: nat,
                       next: nat, left: nat, frame: nat)
    requires NewTables(before, after, root, v, done) && MapsRange(before, after, root, v, done, k)
    requires next == v + done && left == n - done && frame == k + done && next < VIRTUAL_PAGES && done <= n
    requires InTheWay(after, root, next, left, frame, next)
    ensures InTheWay(before, root, v, n, k, next)
  {
    assert MapsAt(before, after, root, v, done, k, next);
    if IsBlock(next, left, frame, next) && Occupied(after, root, next) {
      OccupiedBefore(before, after, root, v, done, k, next);
    }
  }

  // ---------------------------------------------------------------- where 2MB pages are added

  /** The page lies in a block of the region. */
  ghost predicate InBlock(v: nat, n: nat, k: nat, vp: nat) {
    exists b: nat :: IsBlock(v, n, k, b) && b <= vp < b + 512
  }

  /** New 2MB pages are blocks of the region. */
  ghost predicate NewHuge(before: Tables, after: Tables, root: nat, v: nat, n: nat, k: nat) {
    forall vp: nat | vp < VIRTUAL_PAGES :: NewHugeAt(before, after, root, v, n, k, vp)
  }

  ghost predicate NewHugeAt(before: Tables, after: Tables, root: nat, v: nat, n: nat, k: nat, vp: nat) {
    HugeAt(after, root, vp) ==> HugeAt(before, root, vp) || InBlock(v, n, k, vp)
  }

  lemma NewHugeNone(before: Tables, after: Tables, root: nat, v: nat, n: nat, k: nat)
    requires SameView(before, after, root)
    ensures NewHuge(before, after, root, v, n, k)
  {
    forall vp: nat ensures NewHugeAt(before, after, root, v, n, k, vp) {
      assert TranslatesAlike(before, after, root, vp);
    }
  }

  /** A page mapped by a 4KB leaf. */
  lemma NewHugeSmall(before: Tables, after: Tables, root: nat, vp: nat, n: nat, k: nat)
    requires MapsRange(before, after, root, vp, 1, k) && !HugeAt(after, root, vp)
    ensures NewHuge(before, after, root, vp, n, k)
  {
    forall vq: nat | vq < VIRTUAL_PAGES ensures NewHugeAt(before, after, root, vp, n, k, vq) {
      assert MapsAt(before, after, root, vp, 1, k, vq);
    }
  }

  /** A 2MB page at the start of a region that calls for one. */
  lemma NewHugeBlock(before: Tables, after: Tables, root: nat, b: nat, n: nat, k: nat)
    requires MapsRange(before, after, root, b, 512, k) && HugeFits(b, k, n)
    ensures NewHuge(before, after, root, b, n, k)
  {
    assert IsBlock(b, n, k, b);
    forall vq: nat | vq < VIRTUAL_PAGES ensures NewHugeAt(before, after, root, b, n, k, vq) {
      assert MapsAt(before, after, root, b, 512, k, vq);
    }
  }

  /** One more chunk of a region. */
  lemma NewHugeMore(a: Tables, b: Tables, c: Tables, root: nat, v: nat, n: nat, k: nat, next: nat, left: nat, frame: nat)
    requires NewHuge(a, b, root, v, n, k) && NewHuge(b, c, root, next, left, frame)
    requires v <= next && frame == k + (next - v) && left == v + n - next
    ensures NewHuge(a, c, root, v, n, k)
  {
    forall vp: nat | vp < VIRTUAL_PAGES ensures NewHugeAt(a, c, root, v, n, k, vp) {
      assert NewHugeAt(a, b, root, v, n, k, vp) && NewHugeAt(b, c, root, next, left, frame, vp);
      if InBlock(next, left, frame, vp) {
        var x: nat :| IsBlock(next, left, frame, x) && x <= vp < x + 512;
        assert IsBlock(v, n, k, x);
      }
    }
  }

  /** The blocks of the region among its first `done` pages are 2MB pages. */
  ghost predicate BlocksHuge(tables: Tables, root: nat, v: nat, n: nat, k: nat, done: nat) {
    forall b: nat | IsBlock(v, n, k, b) && b < v + done :: HugeAt(tables, root, b)
  }

  lemma BlocksMore(b: Tables, c: Tables, root: nat, v: nat, n: nat, k: nat, done: nat,
                   next: nat, left: nat, frame: nat, diff: nat, more: nat)
    requires Rest(v, n, k, done, next, left, frame) && more == done + diff && v + n <= VIRTUAL_PAGES
    requires BlocksHuge(b, root, v, n, k, done) && MapsRange(b, c, root, next, diff, frame)
    requires diff == ChunkSize(next, frame, left) && (HugeFits(next, frame, left) ==> HugeAt(c, root, next))
    ensures BlocksHuge(c, root, v, n, k, more)
  {
    forall x: nat | IsBlock(v, n, k, x) && x < v + more ensures HugeAt(c, root, x) {
      if x < next {
        assert MapsAt(b, c, root, next, diff, frame, x);
      } else {
        ChunkStart(v, n, k, done, next, left, frame, x);
      }
    }
  }

  /** A block inside a chunk is where the chunk starts. */
  lemma ChunkStart(v: nat, n: nat, k: nat, done: nat, next: nat, left: nat, frame: nat, x: nat)
    requires Rest(v, n, k, done, next, left, frame) && IsBlock(v, n, k, x)
    requires next <= x < next + ChunkSize(next, frame, left)
    ensures x == next && HugeFits(next, frame, left)
  {
  }

  /** What is left to map of n pages from v to those from k once `done` of them are mapped. */
  predicate Rest(v: nat, n: nat, k: nat, done: nat, next: nat, left: nat, frame: nat) {
    done < n && next == v + done && left == n - done && frame == k + done && next < VIRTUAL_PAGES
  }

  lemma ChunkMapped(a: Tables, b: Tables, c: Tables, root: nat, v: nat, n: nat, k: nat, done: nat,
                    next: nat, left: nat, frame: nat, diff: nat, more: nat)
    requires Rest(v, n, k, done, next, left, frame) && diff <= left && more == done + diff
    requires MapsRange(a, b, root, v, done, k) && MapsRange(b, c, root, next, diff, frame)
    requires NewHuge(a, b, root, v, n, k) && NewHuge(b, c, root, next, left, frame)
    requires NewTables(a, b, root, v, done) && NewTables(b, c, root, next, diff)
    requires BlocksHuge(b, root, v, n, k, done) && v + n <= VIRTUAL_PAGES
    requires diff == ChunkSize(next, frame, left) && (HugeFits(next, frame, left) ==> HugeAt(c, root, next))
    ensures MapsRange(a, c, root, v, more, k) && NewHuge(a, c, root, v, n, k) && NewTables(a, c, root, v, more)
    ensures BlocksHuge(c, root, v, n, k, more)
  {
    BlocksMore(b, c, root, v, n, k, done, next, left, frame, diff, more);
    MapsAdjacent(a, b, c, root, v, done, k, next, diff, frame, more);
    NewHugeMore(a, b, c, root, v, n, k, next, left, frame);
    NewTablesMore(a, b, c, root, v, done, next, diff, more);
  }

  lemma ChunkFailed(a: Tables, b: Tables, c: Tables, root: nat, v: nat, n: nat, k: nat, done: nat,
                    next: nat, left: nat, frame: nat, diff: nat)
    requires Rest(v, n, k, done, next, left, frame) && diff <= left
    requires MapsRange(a, b, root, v, done, k) && SameView(b, c, root)
    requires NewHuge(a, b, root, v, n, k) && NewHuge(b, c, root, next, left, frame)
    requires NewTables(a, b, root, v, done) && NewTables(b, c, root, next, diff)
    requires BlocksHuge(b, root, v, n, k, done) && v + n <= VIRTUAL_PAGES
    ensures MapsRange(a, c, root, v, done, k) && NewHuge(a, c, root, v, n, k) && NewTables(a, c, root, v, n)
    ensures BlocksHuge(c, root, v, n, k, done)
    ensures InTheWay(b, root, next, left, frame, next) ==> InTheWay(a, root, v, n, k, next)
  {
    MapsThenView(a, b, c, root, v, done, k);
    forall x: nat | IsBlock(v, n, k, x) && x < v + done ensures HugeAt(c, root, x) {
      assert TranslatesAlike(b, c, root, x);
    }
    NewHugeMore(a, b, c, root, v, n, k, next, left, frame);
    NewTablesMore(a, b, c, root, v, done, next, diff, n);
    if InTheWay(b, root, next, left, frame, next) { InTheWayBefore(a, b, root, v, n, k, done, next, left, frame); }
  }

  /** If the region does not start with a 2MB page, its first page is not covered by one afterwards. */
  lemma FirstNotHuge(before: Tables, after: Tables, root: nat, v: nat, n: nat, k: nat)
    requires Safe(before, root, v, n, k) && NewHuge(before, after, root, v, n, k) && v < VIRTUAL_PAGES
    requires n > 0 && !HugeFits(v, k, n)
    ensures !HugeAt(after, root, v)
  {
    assert NewHugeAt(before, after, root, v, n, k, v);
    assert !MappedBefore(before, root, v, v);
  }

  /** All 512 pages of a block are covered by the same 2MB page, and mapped by it. */
  lemma HugeCovers(tables: Tables, root: nat, b: nat, vp: nat)
    requires b % 512 == 0 && b <= vp < b + 512
    ensures HugeAt(tables, root, vp) == HugeAt(tables, root, b)
    ensures HugeAt(tables, root, b) ==> Lookup(tables, root, b) != None
  {
    assert Shift(vp, 1) == Shift(b, 1);
    ShiftSame(vp, b, 2);
    ShiftSame(vp, b, 3);
    assert PathTo(tables, root, vp, 4) == PathTo(tables, root, b, 4);
    assert PathTo(tables, root, vp, 3) == PathTo(tables, root, b, 3);
    assert PathTo(tables, root, vp, 2) == PathTo(tables, root, b, 2);
  }

  lemma ShiftSame(vp: nat, vq: nat, l: nat)
    requires l >= 1 && Shift(vp, 1) == Shift(vq, 1)
    ensures Shift(vp, l) == Shift(vq, l)
  {
    if l > 1 { ShiftSame(vp, vq, l - 1); }
  }

  /** What is mapped lies in the kernel window. */
  lemma LookupInRange(tr: Tree, vp: nat)
    requires WellFormed(tr) && Lookup(tr.tables, tr.root, vp).Some?
    ensures Lookup(tr.tables, tr.root, vp).value < FRAMES
  {
    if HugeAt(tr.tables, tr.root, vp) {
      PathLevel(tr, vp, 2);
      NotHugeZero();
      assert EntryOk(tr, PathTo(tr.tables, tr.root, vp, 2).value, Index(vp, 2));
    } else {
      PathLevel(tr, vp, 1);
      assert EntryOk(tr, PathTo(tr.tables, tr.root, vp, 1).value, Index(vp, 1));
    }
  }

  // ---------------------------------------------------------------- subtrees

  /** Table c is t, or lies below it. */
  predicate Under(tr: Tree, c: nat, t: nat)
    decreases if c in tr.level && tr.level[c] < 4 then 4 - tr.level[c] else 0
  {
    c == t || (HasParent(tr, c) && Under(tr, tr.parent[c].table, t))
  }

  predicate HasParent(tr: Tree, c: nat) {
    c in tr.level && tr.level[c] < 4 && c in tr.parent && tr.parent[c].table in tr.level &&
    tr.level[tr.parent[c].table] == tr.level[c] + 1
  }

  /** The entry of t through which the walk down to c goes. */
  function Branch(tr: Tree, c: nat, t: nat): nat
    requires Under(tr, c, t) && c != t
    decreases if c in tr.level && tr.level[c] < 4 then 4 - tr.level[c] else 0
  {
    if tr.parent[c].table == t then tr.parent[c].index else Branch(tr, tr.parent[c].table, t)
  }

  function Subtree(tr: Tree, t: nat): set<nat> {
    set c | c in tr.tables && Under(tr, c, t)
  }

  lemma {:induction false} UnderLevel(tr: Tree, c: nat, t: nat)
    requires Under(tr, c, t) && c != t && t in tr.level
    ensures c in tr.level && tr.level[c] < tr.level[t]
    decreases if c in tr.level && tr.level[c] < 4 then 4 - tr.level[c] else 0
  {
    if tr.parent[c].table != t { UnderLevel(tr, tr.parent[c].table, t); }
  }

  /** What lies below t goes through a table-valued entry of t. */
  lemma {:induction false} BranchChild(tr: Tree, c: nat, t: nat)
    requires WellFormed(tr) && c in tr.tables && Under(tr, c, t) && c != t && t in tr.level
    ensures var i := Branch(tr, c, t);
            i < 512 && At(tr.tables, t, i) != 0 && !IsHuge(At(tr.tables, t, i)) &&
            Under(tr, c, Frame(At(tr.tables, t, i)))
    decreases if c in tr.level && tr.level[c] < 4 then 4 - tr.level[c] else 0
  {
    assert ParentOk(tr, c) && TableOk(tr, c);
    if tr.parent[c].table != t { BranchChild(tr, tr.parent[c].table, t); }
  }

  /** What lies below the table that entry i of t points to lies below t, in branch i. */
  lemma {:induction false} ChildBranch(tr: Tree, c: nat, t: nat, i: nat)
    requires WellFormed(tr) && t in tr.tables && i < 512 && c in tr.tables
    requires At(tr.tables, t, i) != 0 && t in tr.level && tr.level[t] >= 2 && !IsHuge(At(tr.tables, t, i))
    requires Under(tr, c, Frame(At(tr.tables, t, i)))
    ensures c != t && Under(tr, c, t) && Branch(tr, c, t) == i
    decreases if c in tr.level && tr.level[c] < 4 then 4 - tr.level[c] else 0
  {
    var c0 := Frame(At(tr.tables, t, i));
    assert EntryOk(tr, t, i) && TableOk(tr, t);
    if c != c0 {
      UnderLevel(tr, c, c0);
      assert ParentOk(tr, c) && TableOk(tr, c);
      ChildBranch(tr, tr.parent[c].table, t, i);
    }
  }

  /** Every table lies below the root. */
  lemma {:induction false} AllUnderRoot(tr: Tree, c: nat)
    requires WellFormed(tr) && c in tr.tables
    ensures Under(tr, c, tr.root)
    decreases if c in tr.level && tr.level[c] < 4 then 4 - tr.level[c] else 0
  {
    assert TableOk(tr, c) && ParentOk(tr, c);
    if c != tr.root { AllUnderRoot(tr, tr.parent[c].table); }
  }

  /** The tables below t in the branches before i. */
  function BranchesBefore(tr: Tree, t: nat, i: nat): set<nat> {
    set c | c in tr.tables && Under(tr, c, t) && c != t && Branch(tr, c, t) < i
  }

  lemma BranchStep(tr: Tree, t: nat, i: nat)
    requires WellFormed(tr) && t in tr.tables && t in tr.level && tr.level[t] >= 2 && i < 512
    ensures var e := At(tr.tables, t, i);
            BranchesBefore(tr, t, i + 1) ==
            BranchesBefore(tr, t, i) + if e != 0 && !IsHuge(e) then Subtree(tr, Frame(e)) else {}
    ensures var e := At(tr.tables, t, i);
            e != 0 && !IsHuge(e) ==> BranchesBefore(tr, t, i) !! Subtree(tr, Frame(e))
  {
    var e := At(tr.tables, t, i);
    forall c | c in tr.tables && Under(tr, c, t) && c != t && Branch(tr, c, t) == i
      ensures e != 0 && !IsHuge(e) && c in Subtree(tr, Frame(e))
    {
      BranchChild(tr, c, t);
    }
    if e != 0 && !IsHuge(e) {
      forall c | c in Subtree(tr, Frame(e)) ensures c != t && Under(tr, c, t) && Branch(tr, c, t) == i {
        ChildBranch(tr, c, t, i);
      }
    }
  }

  lemma AllBranches(tr: Tree, t: nat)
    requires WellFormed(tr) && t in tr.tables && t in tr.level
    ensures tr.level[t] >= 2 ==> Subtree(tr, t) == BranchesBefore(tr, t, 512) + {t}
    ensures tr.level[t] == 1 ==> Subtree(tr, t) == {t}
    ensures BranchesBefore(tr, t, 0) == {}
  {
    forall c | c in Subtree(tr, t) && c != t ensures tr.level[t] >= 2 && c in BranchesBefore(tr, t, 512) {
      UnderLevel(tr, c, t);
      assert TableOk(tr, c);
      BranchChild(tr, c, t);
    }
  }
}
