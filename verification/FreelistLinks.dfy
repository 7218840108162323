/** kern/memory.c, the freelists: doubly linked through the headers at the start of free
    pages.  `Linked` says which sequence of pages a list spells; the lemmas are the pointer
    surgery of pop, remove and add on that sequence. */
module FreelistLinks {

  /** The null block pointer. */
  const NIL: int := -1

  /** The FreeBlock headers of all pages. */
  datatype Headers = Headers(next: seq<int>, prev: seq<int>, cls: seq<int>) {
    predicate Sized(n: nat) {
      |next| == n && |prev| == n && |cls| == n
    }

    predicate SameAt(other: Headers, page: nat)
      requires page < |next| && Sized(|next|) && other.Sized(|next|)
    {
      next[page] == other.next[page] && prev[page] == other.prev[page] && cls[page] == other.cls[page]
    }
  }

  function Entry(l: seq<nat>, i: int): int {
    if 0 <= i < |l| then l[i] else NIL
  }

  predicate LinkedAt(h: Headers, n: nat, c: nat, l: seq<nat>, i: nat)
    requires h.Sized(n) && i < |l|
  {
    l[i] < n && h.cls[l[i]] == c && h.prev[l[i]] == Entry(l, i - 1) && h.next[l[i]] == Entry(l, i + 1)
  }

  predicate Distinct(l: seq<nat>) {
    forall i, j | 0 <= i < j < |l| :: l[i] != l[j]
  }

  /** The class-c list starting at `head` is l. */
  predicate ListLinked(h: Headers, n: nat, head: int, c: nat, l: seq<nat>)
    requires h.Sized(n)
  {
    head == Entry(l, 0) && Distinct(l) && forall i: nat | i < |l| :: LinkedAt(h, n, c, l, i)
  }

  /** Following the next pointers from `head` gives l; the headers may be wrong otherwise. */
  predicate Chained(next: seq<int>, head: int, l: seq<nat>) {
    head == Entry(l, 0) && forall i: nat | i < |l| :: ChainedAt(next, l, i)
  }

  predicate ChainedAt(next: seq<int>, l: seq<nat>, i: nat)
    requires i < |l|
  {
    l[i] < |next| && next[l[i]] == Entry(l, i + 1)
  }

  predicate ClassIs(cls: seq<int>, l: seq<nat>, c: nat) {
    forall i | 0 <= i < |l| :: l[i] < |cls| && cls[l[i]] == c
  }

  lemma LinkedIsChained(h: Headers, n: nat, head: int, c: nat, l: seq<nat>)
    requires h.Sized(n) && ListLinked(h, n, head, c, l)
    ensures Chained(h.next, head, l) && ClassIs(h.cls, l, c)
  {
    forall i: nat | i < |l| ensures ChainedAt(h.next, l, i) && l[i] < |h.cls| && h.cls[l[i]] == c {
      assert LinkedAt(h, n, c, l, i);
    }
  }

  lemma PopLinks(h: Headers, n: nat, c: nat, l: seq<nat>)
    requires h.Sized(n) && l != [] && ListLinked(h, n, l[0], c, l)
    ensures l[0] < n && h.cls[l[0]] == c && h.prev[l[0]] == NIL && h.next[l[0]] == Entry(l, 1) < n
    ensures var head := Entry(l, 1);
            ListLinked(if head == NIL then h else h.(prev := h.prev[head := NIL]), n, head, c, l[1..])
  {
    assert LinkedAt(h, n, c, l, 0);
    var rest, head := l[1..], Entry(l, 1);
    if head != NIL { assert LinkedAt(h, n, c, l, 1); }
    var h' := if head == NIL then h else h.(prev := h.prev[head := NIL]);
    forall i: nat | i < |rest| ensures LinkedAt(h', n, c, rest, i) {
      assert LinkedAt(h, n, c, l, i + 1);
    }
  }

  function Unlinked(h: Headers, n: nat, before: int, after: int): (r: Headers)
    requires h.Sized(n) && -1 <= before < n && -1 <= after < n
    ensures r.Sized(n)
  {
    var h1 := if after != NIL then h.(prev := h.prev[after := before]) else h;
    if before != NIL then h1.(next := h1.next[before := after]) else h1
  }

  lemma RemoveLinks(h: Headers, n: nat, c: nat, l: seq<nat>, i: nat)
    requires h.Sized(n) && i < |l| && ListLinked(h, n, l[0], c, l)
    ensures l[i] < n && h.cls[l[i]] == c
    ensures var before, after := h.prev[l[i]], h.next[l[i]];
            -1 <= before < n && -1 <= after < n && (before == NIL <==> i == 0) &&
            ListLinked(Unlinked(h, n, before, after), n, if before == NIL then after else l[0], c, l[..i] + l[i + 1..])
    ensures forall p: nat :: p in l[..i] + l[i + 1..] <==> p in l && p != l[i]
  {
    assert LinkedAt(h, n, c, l, i);
    var before, after := h.prev[l[i]], h.next[l[i]];
    if i > 0 { assert LinkedAt(h, n, c, l, i - 1); }
    if i + 1 < |l| { assert LinkedAt(h, n, c, l, i + 1); }
    var h', l' := Unlinked(h, n, before, after), l[..i] + l[i + 1..];
    forall j: nat | j < |l'| ensures LinkedAt(h', n, c, l', j) {
      assert LinkedAt(h, n, c, l, if j < i then j else j + 1);
    }
  }

  lemma AddLinks(h: Headers, n: nat, head: int, c: nat, l: seq<nat>, page: nat)
    requires h.Sized(n) && ListLinked(h, n, head, c, l) && page < n && page !in l
    ensures -1 <= head < n
    ensures ListLinked(Pushed(h, n, head, c, page), n, page, c, [page] + l)
  {
    if l != [] { assert LinkedAt(h, n, c, l, 0); }
    var h', l' := Pushed(h, n, head, c, page), [page] + l;
    forall j: nat | j < |l'| ensures LinkedAt(h', n, c, l', j) {
      if j > 0 { assert LinkedAt(h, n, c, l, j - 1); }
    }
  }

  function Pushed(h: Headers, n: nat, head: int, c: nat, page: nat): (r: Headers)
    requires h.Sized(n) && -1 <= head < n && page < n
    ensures r.Sized(n)
  {
    var prev := h.prev[page := NIL];
    Headers(h.next[page := head], if head != NIL then prev[head := page] else prev, h.cls[page := c])
  }

  /** Lists none of whose headers changed. */
  lemma OtherLinks(h: Headers, h': Headers, n: nat, head: int, c: nat, l: seq<nat>)
    requires h.Sized(n) && h'.Sized(n) && ListLinked(h, n, head, c, l)
    requires forall i: nat | i < |l| :: l[i] < n ==> h.SameAt(h', l[i])
    ensures ListLinked(h', n, head, c, l)
  {
    forall i: nat | i < |l| ensures LinkedAt(h', n, c, l, i) {
      assert LinkedAt(h, n, c, l, i);
    }
  }

  /** A listed page records its class, so lists of different classes share no page. */
  lemma ListedClass(h: Headers, n: nat, head: int, c: nat, l: seq<nat>, page: nat)
    requires h.Sized(n) && ListLinked(h, n, head, c, l) && page in l
    ensures page < n && h.cls[page] == c
  {
    var i: nat :| i < |l| && l[i] == page;
    assert LinkedAt(h, n, c, l, i);
  }

  /** Every class's list is linked from its head. */
  predicate AllLinked(h: Headers, n: nat, heads: seq<int>, lists: seq<seq<nat>>)
    requires h.Sized(n) && |heads| == |lists|
  {
    forall c: nat | c < |lists| :: ClassLinked(h, n, heads, lists, c)
  }

  predicate ClassLinked(h: Headers, n: nat, heads: seq<int>, lists: seq<seq<nat>>, c: nat)
    requires h.Sized(n) && c < |heads| == |lists|
  {
    ListLinked(h, n, heads[c], c, lists[c])
  }

  predicate InOtherList(lists: seq<seq<nat>>, c: nat, page: nat) {
    exists d: nat | d < |lists| && d != c :: page in lists[d]
  }

  /** Surgery on the list of class c that leaves the other lists' headers alone. */
  lemma Relink(h: Headers, h': Headers, n: nat, heads: seq<int>, lists: seq<seq<nat>>, c: nat, head: int, l: seq<nat>)
    requires h.Sized(n) && h'.Sized(n) && c < |heads| == |lists| && AllLinked(h, n, heads, lists)
    requires ListLinked(h', n, head, c, l)
    requires forall p: nat | p < n && InOtherList(lists, c, p) :: h.SameAt(h', p)
    ensures AllLinked(h', n, heads[c := head], lists[c := l])
  {
    var heads', lists' := heads[c := head], lists[c := l];
    forall d: nat | d < |lists| ensures ClassLinked(h', n, heads', lists', d) {
      assert ClassLinked(h, n, heads, lists, d);
      if d != c { OtherLinks(h, h', n, heads[d], d, lists[d]); }
    }
  }

  lemma NotInOtherList(h: Headers, n: nat, heads: seq<int>, lists: seq<seq<nat>>, c: nat, page: nat)
    requires h.Sized(n) && c < |heads| == |lists| && AllLinked(h, n, heads, lists) && page in lists[c]
    ensures !InOtherList(lists, c, page)
  {
    assert ClassLinked(h, n, heads, lists, c);
    ListedClass(h, n, heads[c], c, lists[c], page);
    forall d: nat | d < |lists| && d != c ensures page !in lists[d] {
      assert ClassLinked(h, n, heads, lists, d);
      if page in lists[d] { ListedClass(h, n, heads[d], d, lists[d], page); }
    }
  }
}
