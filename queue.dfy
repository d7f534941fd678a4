/** The intrusive circular doubly-linked queue of ngx_queue.h.

    Every ngx_queue_t is a node with two links, prev and next. A node is an
    integer address and NULL is -1; the links of all nodes together form a
    link heap (Links). A queue is a sentinel node h whose links close a ring
    with its element nodes; Ring(L, h, s) ties the links in L to the element
    sequence s read from h.next back to h.

    Each macro is modelled twice: as a pure transition on a link heap that
    performs the macro's stores in the macro's order (so aliasing behaves as
    in C), and as a method of QueueHeap that performs the same stores on its
    fields and is proved against that transition. */
module Queue {

  type Node = int

  const NULL: Node := -1

  /** The prev and next fields of every node. */
  datatype Links = Links(prev: map<Node, Node>, next: map<Node, Node>)

  /** Node x is a real address whose two fields exist. */
  ghost predicate Linked(L: Links, x: Node)
  {
    x != NULL && x in L.prev && x in L.next
  }

  ghost predicate Distinct(s: seq<Node>)
  {
    forall i, j :: 0 <= i < j < |s| ==> s[i] != s[j]
  }

  /** The first node after the sentinel: the first element, or h itself. */
  function First(h: Node, s: seq<Node>): Node
  {
    if s == [] then h else s[0]
  }

  /** The node before the sentinel: the last element, or h itself. */
  function Final(h: Node, s: seq<Node>): Node
  {
    if s == [] then h else s[|s| - 1]
  }

  /** The ring invariant: h is a sentinel whose ring holds exactly the
      elements s, in order, each linked forward to its successor and back to
      its predecessor, with h closing the ring at both ends. */
  ghost predicate Ring(L: Links, h: Node, s: seq<Node>)
  {
    && Linked(L, h)
    && h !in s
    && Distinct(s)
    && (forall i :: 0 <= i < |s| ==> Linked(L, s[i]))
    && L.next[h] == First(h, s)
    && L.prev[h] == Final(h, s)
    && (forall i {:trigger L.next[s[i]]} :: 0 <= i < |s| ==> L.next[s[i]] == if i + 1 < |s| then s[i + 1] else h)
    && (forall i {:trigger L.prev[s[i]]} :: 0 <= i < |s| ==> L.prev[s[i]] == if i == 0 then h else s[i - 1])
  }

  /** The rings of h and n share no node. */
  ghost predicate Disjoint(h: Node, s: seq<Node>, n: Node, t: seq<Node>)
  {
    h != n && h !in t && n !in s && (forall x :: x in s ==> x !in t)
  }

  // ---------------------------------------------------------------------
  // Single stores: (x)->next = y and (x)->prev = y.

  function SetNext(L: Links, x: Node, y: Node): Links
  {
    L.(next := L.next[x := y])
  }

  function SetPrev(L: Links, x: Node, y: Node): Links
  {
    L.(prev := L.prev[x := y])
  }

  // ---------------------------------------------------------------------
  // The macros, store by store.

  /** ngx_queue_init(q) */
  function InitLinks(L: Links, q: Node): Links
  {
    SetNext(SetPrev(L, q, q), q, q)
  }

  /** ngx_queue_empty(h) */
  function Empty(L: Links, h: Node): bool
    requires h in L.prev
  {
    h == L.prev[h]
  }

  /** ngx_queue_insert_head(h, x), also ngx_queue_insert_after(h, x) */
  function InsertHeadLinks(L: Links, h: Node, x: Node): Links
    requires h in L.next
  {
    var L1 := SetNext(L, x, L.next[h]);
    var L2 := SetPrev(L1, L1.next[x], x);
    var L3 := SetPrev(L2, x, h);
    SetNext(L3, h, x)
  }

  /** ngx_queue_insert_tail(h, x) */
  function InsertTailLinks(L: Links, h: Node, x: Node): Links
    requires h in L.prev
  {
    var L1 := SetPrev(L, x, L.prev[h]);
    var L2 := SetNext(L1, L1.prev[x], x);
    var L3 := SetNext(L2, x, h);
    SetPrev(L3, h, x)
  }

  /** ngx_queue_head(h) */
  function Head(L: Links, h: Node): Node
    requires h in L.next
  {
    L.next[h]
  }

  /** ngx_queue_last(h) */
  function Last(L: Links, h: Node): Node
    requires h in L.prev
  {
    L.prev[h]
  }

  /** ngx_queue_sentinel(h) */
  function Sentinel(h: Node): Node
  {
    h
  }

  /** ngx_queue_next(q) */
  function Next(L: Links, q: Node): Node
    requires q in L.next
  {
    L.next[q]
  }

  /** ngx_queue_prev(q) */
  function Prev(L: Links, q: Node): Node
    requires q in L.prev
  {
    L.prev[q]
  }

  /** ngx_queue_remove(x); with debug (NGX_DEBUG) the node's own links are
      then cleared to NULL. */
  function RemoveLinks(L: Links, x: Node, debug: bool): Links
    requires Linked(L, x)
  {
    var L1 := SetPrev(L, L.next[x], L.prev[x]);
    var L2 := SetNext(L1, L1.prev[x], L1.next[x]);
    if debug then SetNext(SetPrev(L2, x, NULL), x, NULL) else L2
  }

  /** ngx_queue_split(h, q, n) */
  function SplitLinks(L: Links, h: Node, q: Node, n: Node): Links
    requires Linked(L, h) && Linked(L, q)
  {
    var L1 := SetPrev(L, n, L.prev[h]);
    var L2 := SetNext(L1, L1.prev[n], n);
    var L3 := SetNext(L2, n, q);
    var L4 := SetPrev(L3, h, L3.prev[q]);
    var L5 := SetNext(L4, L4.prev[h], h);
    SetPrev(L5, q, n)
  }

  /** ngx_queue_add(h, n) */
  function AddLinks(L: Links, h: Node, n: Node): Links
    requires Linked(L, h) && Linked(L, n)
  {
    var L1 := SetNext(L, L.prev[h], L.next[n]);
    var L2 := SetPrev(L1, L1.next[n], L1.prev[h]);
    var L3 := SetPrev(L2, h, L2.prev[n]);
    SetNext(L3, L3.prev[h], h)
  }

  // ---------------------------------------------------------------------
  // Walking the ring.

  /** The node reached from x after k steps along next (NULL once a node
      without fields is met). */
  function WalkNext(L: Links, x: Node, k: nat): Node
  {
    if k == 0 then x
    else
      var y := WalkNext(L, x, k - 1);
      if y in L.next then L.next[y] else NULL
  }

  /** The node reached from x after k steps along prev. */
  function WalkPrev(L: Links, x: Node, k: nat): Node
  {
    if k == 0 then x
    else
      var y := WalkPrev(L, x, k - 1);
      if y in L.prev then L.prev[y] else NULL
  }

  /** Walking next from the sentinel visits the elements in order. */
  lemma {:induction false} WalkNextAt(L: Links, h: Node, s: seq<Node>, i: nat)
    requires Ring(L, h, s)
    requires i <= |s|
    ensures WalkNext(L, h, i) == ([h] + s)[i]
  {
    if i > 0 {
      WalkNextAt(L, h, s, i - 1);
    }
  }

  /** Walking prev from the sentinel visits the elements in reverse. */
  lemma {:induction false} WalkPrevAt(L: Links, h: Node, s: seq<Node>, i: nat)
    requires Ring(L, h, s)
    requires i <= |s|
    ensures WalkPrev(L, h, i) == if i == 0 then h else s[|s| - i]
  {
    if i > 0 {
      WalkPrevAt(L, h, s, i - 1);
    }
  }

  /** The ring closes: after exactly |s| + 1 steps either way the walk is
      back at the sentinel, and not earlier. */
  lemma RingWalk(L: Links, h: Node, s: seq<Node>)
    requires Ring(L, h, s)
    ensures WalkNext(L, h, |s| + 1) == h
    ensures WalkPrev(L, h, |s| + 1) == h
    ensures forall i :: 1 <= i <= |s| ==> WalkNext(L, h, i) == s[i - 1] != h
    ensures forall i :: 1 <= i <= |s| ==> WalkPrev(L, h, i) == s[|s| - i] != h
  {
    WalkNextAt(L, h, s, |s|);
    WalkPrevAt(L, h, s, |s|);
    assert WalkNext(L, h, |s| + 1) == L.next[Final(h, s)];
    assert WalkPrev(L, h, |s| + 1) == L.prev[First(h, s)];
    forall i | 1 <= i <= |s|
      ensures WalkNext(L, h, i) == s[i - 1] && WalkPrev(L, h, i) == s[|s| - i]
    {
      WalkNextAt(L, h, s, i);
      WalkPrevAt(L, h, s, i);
    }
  }

  /** The links determine the contents: a sentinel has one sequence. */
  lemma RingUnique(L: Links, h: Node, s: seq<Node>, t: seq<Node>)
    requires Ring(L, h, s) && Ring(L, h, t)
    ensures s == t
  {
    if |s| < |t| {
      RingWalk(L, h, s);
      WalkNextAt(L, h, t, |s| + 1);
      assert false;
    } else if |t| < |s| {
      RingWalk(L, h, t);
      WalkNextAt(L, h, s, |t| + 1);
      assert false;
    } else {
      forall i | 0 <= i < |s| ensures s[i] == t[i] {
        WalkNextAt(L, h, s, i + 1);
        WalkNextAt(L, h, t, i + 1);
      }
    }
  }

  /** In a ring every node's neighbours point back at it. */
  lemma RingConsistent(L: Links, h: Node, s: seq<Node>)
    requires Ring(L, h, s)
    ensures forall x :: x == h || x in s ==>
      && L.next[x] in L.prev && L.prev[L.next[x]] == x
      && L.prev[x] in L.next && L.next[L.prev[x]] == x
  {
    forall x | x in s
      ensures L.next[x] in L.prev && L.prev[L.next[x]] == x
      ensures L.prev[x] in L.next && L.next[L.prev[x]] == x
    {
      var i :| 0 <= i < |s| && s[i] == x;
      if i + 1 < |s| {
        assert L.prev[s[i + 1]] == x;
      }
      if i > 0 {
        assert L.next[s[i - 1]] == x;
      }
    }
    if s != [] {
      assert L.prev[s[0]] == h;
      assert L.next[s[|s| - 1]] == h;
    }
  }

  /** A ring is left intact by any change that keeps its nodes' links. */
  lemma RingFrame(L: Links, L': Links, h: Node, s: seq<Node>)
    requires Ring(L, h, s)
    requires Linked(L', h) && L'.prev[h] == L.prev[h] && L'.next[h] == L.next[h]
    requires forall x :: x in s ==> Linked(L', x) && L'.prev[x] == L.prev[x] && L'.next[x] == L.next[x]
    ensures Ring(L', h, s)
  {
    forall i | 0 <= i < |s|
      ensures Linked(L', s[i]) && L'.prev[s[i]] == L.prev[s[i]] && L'.next[s[i]] == L.next[s[i]]
    {
      assert s[i] in s;
    }
  }

  // ---------------------------------------------------------------------
  // What each macro does to the ring.

  /** init makes q an empty queue. */
  lemma InitEmpty(L: Links, q: Node)
    requires q != NULL
    ensures Ring(InitLinks(L, q), q, [])
    ensures Empty(InitLinks(L, q), q)
    ensures InitLinks(L, q).prev[q] == q && InitLinks(L, q).next[q] == q
  {
  }

  /** empty(h) holds exactly when the ring holds no element; under the ring
      invariant h.prev == h and h.next == h agree. */
  lemma EmptyIff(L: Links, h: Node, s: seq<Node>)
    requires Ring(L, h, s)
    ensures Empty(L, h) <==> s == []
    ensures Empty(L, h) <==> L.next[h] == h
  {
    if s != [] {
      assert s[|s| - 1] in s && s[0] in s;
    }
  }

  /** head, last, next and prev navigate the ring; sentinel is h. */
  lemma Navigation(L: Links, h: Node, s: seq<Node>, i: nat)
    requires Ring(L, h, s)
    requires i < |s|
    ensures Head(L, h) == s[0] && Last(L, h) == s[|s| - 1]
    ensures Next(L, s[i]) == if i + 1 < |s| then s[i + 1] else Sentinel(h)
    ensures Prev(L, s[i]) == if i == 0 then Sentinel(h) else s[i - 1]
  {
  }

  /** Inserting x at position k of a sequence without x. */
  lemma SeqInsert(s: seq<Node>, k: nat, x: Node)
    requires k <= |s| && Distinct(s) && x !in s
    ensures var t := s[..k] + [x] + s[k..];
      && |t| == |s| + 1 && t[k] == x
      && (forall i :: 0 <= i < k ==> t[i] == s[i])
      && (forall i :: k < i < |t| ==> t[i] == s[i - 1])
      && Distinct(t)
      && (forall y :: y in t <==> y == x || y in s)
  {
    var t := s[..k] + [x] + s[k..];
    assert forall i :: 0 <= i < k ==> t[i] == s[i];
    assert forall i :: k < i < |t| ==> t[i] == s[i - 1];
    forall i, j | 0 <= i < j < |t| ensures t[i] != t[j] {
      if j == k {
        assert t[i] in s;
      } else if i == k {
        assert t[j] in s;
      }
    }
    assert s == s[..k] + s[k..];
  }

  /** After insert_after at position k, an element before k keeps its
      links, except that the node just before x now points at x. */
  lemma InsertAfterNetBefore(L: Links, h: Node, s: seq<Node>, k: nat, x: Node, N: Links, i: nat)
    requires Ring(L, h, s) && k <= |s|
    requires x != NULL && x != h && x !in s
    requires var q := if k == 0 then h else s[k - 1];
      var a := if k < |s| then s[k] else h;
      N == Links(L.prev[a := x][x := q], L.next[x := a][q := x])
    requires i < k
    ensures Linked(N, s[i])
    ensures N.next[s[i]] == if i + 1 < k then s[i + 1] else x
    ensures N.prev[s[i]] == if i == 0 then h else s[i - 1]
  {
    var q := if k == 0 then h else s[k - 1];
    var a := if k < |s| then s[k] else h;
    assert s[i] != x;
    if i + 1 < k {
      assert s[i] != q by {
        assert i != k - 1;
      }
      assert N.next[s[i]] == L.next[s[i]];
    }
    assert s[i] != a by {
      if k < |s| {
        assert i != k;
      }
    }
    assert N.prev[s[i]] == L.prev[s[i]];
  }

  /** After insert_after at position k, an element from k on keeps its
      links, except that the node just after x now points back at x. */
  lemma InsertAfterNetBehind(L: Links, h: Node, s: seq<Node>, k: nat, x: Node, N: Links, j: nat)
    requires Ring(L, h, s) && k <= |s|
    requires x != NULL && x != h && x !in s
    requires var q := if k == 0 then h else s[k - 1];
      var a := if k < |s| then s[k] else h;
      N == Links(L.prev[a := x][x := q], L.next[x := a][q := x])
    requires k <= j < |s|
    ensures Linked(N, s[j])
    ensures N.next[s[j]] == if j + 1 < |s| then s[j + 1] else h
    ensures N.prev[s[j]] == if j == k then x else s[j - 1]
  {
    var q := if k == 0 then h else s[k - 1];
    var a := if k < |s| then s[k] else h;
    assert s[j] != x;
    assert s[j] != q by {
      if k > 0 {
        assert j != k - 1;
      }
    }
    assert N.next[s[j]] == L.next[s[j]];
    if j != k {
      assert s[j] != a by {
        assert j != k;
      }
      assert N.prev[s[j]] == L.prev[s[j]];
    }
  }

  /** The ring after insert_after, described by its net stores. */
  lemma InsertAfterNet(L: Links, h: Node, s: seq<Node>, k: nat, x: Node, t: seq<Node>, N: Links)
    requires Ring(L, h, s) && k <= |s|
    requires x != NULL && x != h && x !in s
    requires |t| == |s| + 1 && t[k] == x && Distinct(t) && h !in t
    requires forall i :: 0 <= i < k ==> t[i] == s[i]
    requires forall i :: k < i < |t| ==> t[i] == s[i - 1]
    requires var q := if k == 0 then h else s[k - 1];
      var a := if k < |s| then s[k] else h;
      N == Links(L.prev[a := x][x := q], L.next[x := a][q := x])
    ensures Ring(N, h, t)
  {
    forall i | 0 <= i < |t|
      ensures Linked(N, t[i])
      ensures N.next[t[i]] == if i + 1 < |t| then t[i + 1] else h
      ensures N.prev[t[i]] == if i == 0 then h else t[i - 1]
    {
      InsertAfterNetAt(L, h, s, k, x, t, N, i);
    }
  }

  /** The links of the i-th element of the new contents t. */
  lemma InsertAfterNetAt(L: Links, h: Node, s: seq<Node>, k: nat, x: Node, t: seq<Node>, N: Links, i: nat)
    requires Ring(L, h, s) && k <= |s|
    requires x != NULL && x != h && x !in s
    requires |t| == |s| + 1 && t[k] == x
    requires forall i :: 0 <= i < k ==> t[i] == s[i]
    requires forall i :: k < i < |t| ==> t[i] == s[i - 1]
    requires var q := if k == 0 then h else s[k - 1];
      var a := if k < |s| then s[k] else h;
      N == Links(L.prev[a := x][x := q], L.next[x := a][q := x])
    requires i < |t|
    ensures Linked(N, t[i])
    ensures N.next[t[i]] == if i + 1 < |t| then t[i + 1] else h
    ensures N.prev[t[i]] == if i == 0 then h else t[i - 1]
  {
    if i < k {
      InsertAfterNetAtBefore(L, h, s, k, x, t, N, i);
    } else if i > k {
      InsertAfterNetAtBehind(L, h, s, k, x, t, N, i);
    }
  }

  lemma InsertAfterNetAtBefore(L: Links, h: Node, s: seq<Node>, k: nat, x: Node, t: seq<Node>, N: Links, i: nat)
    requires Ring(L, h, s) && k <= |s|
    requires x != NULL && x != h && x !in s
    requires |t| == |s| + 1 && t[k] == x
    requires forall i :: 0 <= i < k ==> t[i] == s[i]
    requires forall i :: k < i < |t| ==> t[i] == s[i - 1]
    requires var q := if k == 0 then h else s[k - 1];
      var a := if k < |s| then s[k] else h;
      N == Links(L.prev[a := x][x := q], L.next[x := a][q := x])
    requires i < k
    ensures Linked(N, t[i])
    ensures N.next[t[i]] == if i + 1 < |t| then t[i + 1] else h
    ensures N.prev[t[i]] == if i == 0 then h else t[i - 1]
  {
    InsertAfterNetBefore(L, h, s, k, x, N, i);
    assert t[i] == s[i];
    if i + 1 < k {
      assert t[i + 1] == s[i + 1];
    }
    if i > 0 {
      assert t[i - 1] == s[i - 1];
    }
  }

  lemma InsertAfterNetAtBehind(L: Links, h: Node, s: seq<Node>, k: nat, x: Node, t: seq<Node>, N: Links, i: nat)
    requires Ring(L, h, s) && k <= |s|
    requires x != NULL && x != h && x !in s
    requires |t| == |s| + 1 && t[k] == x
    requires forall i :: 0 <= i < k ==> t[i] == s[i]
    requires forall i :: k < i < |t| ==> t[i] == s[i - 1]
    requires var q := if k == 0 then h else s[k - 1];
      var a := if k < |s| then s[k] else h;
      N == Links(L.prev[a := x][x := q], L.next[x := a][q := x])
    requires k < i < |t|
    ensures Linked(N, t[i])
    ensures N.next[t[i]] == if i + 1 < |t| then t[i + 1] else h
    ensures N.prev[t[i]] == if i == 0 then h else t[i - 1]
  {
    InsertAfterNetBehind(L, h, s, k, x, N, i - 1);
    assert t[i] == s[i - 1];
    if i + 1 < |t| {
      assert t[i + 1] == s[i];
    }
    if i - 1 > k {
      assert t[i - 1] == s[i - 2];
    }
  }


  /** insert_after(q, x) stores only into q, x and q's old successor. */
  lemma InsertAfterFrame(L: Links, q: Node, x: Node)
    requires q in L.next && x != q && L.next[q] != x
    ensures var L' := InsertHeadLinks(L, q, x);
      && L'.next[q] == x && L'.prev[x] == q
      && L'.next[x] == L.next[q] && L'.prev[L.next[q]] == x
      && L'.next.Keys == L.next.Keys + {x} && L'.prev.Keys == L.prev.Keys + {L.next[q], x}
      && (forall y :: y in L.next && y != q && y != x ==> L'.next[y] == L.next[y])
      && (forall y :: y in L.prev && y != L.next[q] && y != x ==> L'.prev[y] == L.prev[y])
  {
    var a := L.next[q];
    assert InsertHeadLinks(L, q, x) == Links(L.prev[a := x][x := q], L.next[x := a][q := x]);
  }

  /** insert_after(q, x), q the k-th node of the ring [h] + s, puts x right
      behind q: the contents become s[..k] + [x] + s[k..]. */
  lemma InsertAfterRing(L: Links, h: Node, s: seq<Node>, k: nat, x: Node)
    requires Ring(L, h, s)
    requires k <= |s|
    requires x != NULL && x != h && x !in s
    ensures Ring(InsertHeadLinks(L, ([h] + s)[k], x), h, s[..k] + [x] + s[k..])
  {
    var q := if k == 0 then h else s[k - 1];
    assert ([h] + s)[k] == q;
    var a := if k < |s| then s[k] else h;
    assert L.next[q] == a;
    var N := Links(L.prev[a := x][x := q], L.next[x := a][q := x]);
    assert InsertHeadLinks(L, q, x) == N;
    var t := s[..k] + [x] + s[k..];
    SeqInsert(s, k, x);
    InsertAfterNet(L, h, s, k, x, t, N);
  }

  /** insert_head(h, x) turns the contents s into [x] + s. */
  lemma InsertHeadRing(L: Links, h: Node, s: seq<Node>, x: Node)
    requires Ring(L, h, s)
    requires x != NULL && x != h && x !in s
    ensures var L' := InsertHeadLinks(L, h, x);
      && Ring(L', h, [x] + s)
      && L'.next[h] == x && L'.prev[x] == h && L'.prev[First(h, s)] == x
      && (forall y :: y in L.next && y != h && y != x ==> L'.next[y] == L.next[y])
      && (forall y :: y in L.prev && y != First(h, s) && y != x ==> L'.prev[y] == L.prev[y])
  {
    InsertAfterRing(L, h, s, 0, x);
    assert s[..0] + [x] + s[0..] == [x] + s;
    InsertAfterFrame(L, h, x);
  }

  /** insert_tail(h, x) stores only into h, x and h's old last node. */
  lemma InsertTailFrame(L: Links, h: Node, x: Node)
    requires h in L.prev && x != h && L.prev[h] != x
    ensures var L' := InsertTailLinks(L, h, x);
      && L'.prev[h] == x && L'.next[x] == h
      && L'.next[L.prev[h]] == x && L'.prev[x] == L.prev[h]
      && (forall y :: y in L.next && y != L.prev[h] && y != x ==> L'.next[y] == L.next[y])
      && (forall y :: y in L.prev && y != h && y != x ==> L'.prev[y] == L.prev[y])
  {
    var z := L.prev[h];
    assert InsertTailLinks(L, h, x) == Links(L.prev[x := z][h := x], L.next[z := x][x := h]);
  }

  /** insert_tail(h, x) turns the contents s into s + [x]. */
  lemma InsertTailRing(L: Links, h: Node, s: seq<Node>, x: Node)
    requires Ring(L, h, s)
    requires x != NULL && x != h && x !in s
    ensures var L' := InsertTailLinks(L, h, x);
      && Ring(L', h, s + [x])
      && L'.prev[h] == x && L'.next[x] == h && L'.next[Final(h, s)] == x
      && (forall y :: y in L.next && y != Final(h, s) && y != x ==> L'.next[y] == L.next[y])
      && (forall y :: y in L.prev && y != h && y != x ==> L'.prev[y] == L.prev[y])
  {
    var z := Final(h, s);
    assert z == ([h] + s)[|s|] && L.next[z] == h;
    var N := Links(L.prev[h := x][x := z], L.next[x := h][z := x]);
    assert InsertTailLinks(L, h, x) == N;
    SeqInsert(s, |s|, x);
    assert s[..|s|] + [x] + s[|s|..] == s + [x];
    InsertAfterNet(L, h, s, |s|, x, s + [x], N);
    InsertTailFrame(L, h, x);
  }

  /** Deleting position k of a sequence. */
  lemma SeqDelete(s: seq<Node>, k: nat)
    requires k < |s| && Distinct(s)
    ensures var t := s[..k] + s[k + 1..];
      && |t| == |s| - 1
      && (forall i :: 0 <= i < k ==> t[i] == s[i])
      && (forall i :: k <= i < |t| ==> t[i] == s[i + 1])
      && Distinct(t)
      && (forall y :: y in t <==> y in s && y != s[k])
  {
    var t := s[..k] + s[k + 1..];
    assert forall i :: 0 <= i < k ==> t[i] == s[i];
    assert forall i :: k <= i < |t| ==> t[i] == s[i + 1];
    forall i, j | 0 <= i < j < |t| ensures t[i] != t[j] {
      if j < k {
      } else if i >= k {
        assert t[i] == s[i + 1] && t[j] == s[j + 1];
      } else {
        assert t[i] == s[i] && t[j] == s[j + 1];
      }
    }
    forall y ensures y in t <==> y in s && y != s[k] {
      if y in s && y != s[k] {
        var i :| 0 <= i < |s| && s[i] == y;
        if i < k {
          assert t[i] == y;
        } else {
          assert t[i - 1] == y;
        }
      }
    }
  }

  /** The links of the i-th remaining element after a release-build remove. */
  lemma RemoveNetAt(L: Links, h: Node, s: seq<Node>, k: nat, t: seq<Node>, N: Links, i: nat)
    requires Ring(L, h, s) && k < |s|
    requires |t| == |s| - 1 && i < |t|
    requires forall i :: 0 <= i < k ==> t[i] == s[i]
    requires forall i :: k <= i < |t| ==> t[i] == s[i + 1]
    requires var p := if k == 0 then h else s[k - 1];
      var n := if k + 1 < |s| then s[k + 1] else h;
      N == Links(L.prev[n := p], L.next[p := n])
    ensures Linked(N, t[i])
    ensures N.next[t[i]] == if i + 1 < |t| then t[i + 1] else h
    ensures N.prev[t[i]] == if i == 0 then h else t[i - 1]
  {
    var p := if k == 0 then h else s[k - 1];
    var n := if k + 1 < |s| then s[k + 1] else h;
    var j := if i < k then i else i + 1;
    assert t[i] == s[j];
    if j == k - 1 {
      assert s[j] == p;
    } else {
      assert s[j] != p by {
        if k > 0 {
          assert j != k - 1;
        }
      }
      assert N.next[s[j]] == L.next[s[j]];
    }
    if j == k + 1 {
      assert s[j] == n;
    } else {
      assert s[j] != n by {
        if k + 1 < |s| {
          assert j != k + 1;
        }
      }
      assert N.prev[s[j]] == L.prev[s[j]];
    }
  }

  /** The ring after a release-build remove, described by its net stores. */
  lemma RemoveNet(L: Links, h: Node, s: seq<Node>, k: nat, t: seq<Node>, N: Links)
    requires Ring(L, h, s) && k < |s|
    requires |t| == |s| - 1 && Distinct(t) && h !in t && s[k] !in t
    requires forall i :: 0 <= i < k ==> t[i] == s[i]
    requires forall i :: k <= i < |t| ==> t[i] == s[i + 1]
    requires var p := if k == 0 then h else s[k - 1];
      var n := if k + 1 < |s| then s[k + 1] else h;
      N == Links(L.prev[n := p], L.next[p := n])
    ensures Ring(N, h, t)
  {
    forall i | 0 <= i < |t|
      ensures Linked(N, t[i])
      ensures N.next[t[i]] == if i + 1 < |t| then t[i + 1] else h
      ensures N.prev[t[i]] == if i == 0 then h else t[i - 1]
    {
      RemoveNetAt(L, h, s, k, t, N, i);
    }
  }

  /** remove(x), x the k-th element, deletes x at its position and links its
      neighbours to each other; in the debug build x's links become NULL,
      otherwise they are left as they were. */
  lemma RemoveRing(L: Links, h: Node, s: seq<Node>, k: nat, debug: bool)
    requires Ring(L, h, s)
    requires k < |s|
    ensures var x := s[k];
      var p := if k == 0 then h else s[k - 1];
      var n := if k + 1 < |s| then s[k + 1] else h;
      var L' := RemoveLinks(L, x, debug);
      && Ring(L', h, s[..k] + s[k + 1..])
      && L'.next[p] == n && L'.prev[n] == p
      && (if debug then L'.prev[x] == NULL && L'.next[x] == NULL
          else L'.prev[x] == p && L'.next[x] == n)
  {
    var x := s[k];
    var p := if k == 0 then h else s[k - 1];
    var n := if k + 1 < |s| then s[k + 1] else h;
    assert n != x by {
      if k + 1 < |s| {
        assert s[k + 1] != s[k];
      }
    }
    assert p != x by {
      if k > 0 {
        assert s[k - 1] != s[k];
      }
    }
    var N := Links(L.prev[n := p], L.next[p := n]);
    var t := s[..k] + s[k + 1..];
    SeqDelete(s, k);
    RemoveNet(L, h, s, k, t, N);
    assert RemoveLinks(L, x, false) == N;
    var D := Links(N.prev[x := NULL], N.next[x := NULL]);
    assert RemoveLinks(L, x, true) == D;
    if debug {
      RingUntouched(N, h, t, x, NULL, NULL);
    }
  }

  /** Storing into the links of a node outside a ring leaves the ring intact. */
  lemma RingUntouched(L: Links, h: Node, s: seq<Node>, x: Node, p: Node, n: Node)
    requires Ring(L, h, s) && x != h && x !in s
    ensures Ring(Links(L.prev[x := p], L.next[x := n]), h, s)
  {
    var L' := Links(L.prev[x := p], L.next[x := n]);
    forall i | 0 <= i < |s|
      ensures Linked(L', s[i]) && L'.prev[s[i]] == L.prev[s[i]] && L'.next[s[i]] == L.next[s[i]]
    {
      assert s[i] != x;
    }
  }

  /** remove(x) stores only into x and its two neighbours: every other
      node keeps its links. */
  lemma RemoveFrame(L: Links, x: Node, debug: bool)
    requires Linked(L, x) && L.next[x] != x && L.prev[x] != x
    ensures var L' := RemoveLinks(L, x, debug);
      && L'.next[L.prev[x]] == L.next[x] && L'.prev[L.next[x]] == L.prev[x]
      && (forall y :: y in L.next && y != L.prev[x] && y != x ==> L'.next[y] == L.next[y])
      && (forall y :: y in L.prev && y != L.next[x] && y != x ==> L'.prev[y] == L.prev[y])
  {
    var p, n := L.prev[x], L.next[x];
    var N := Links(L.prev[n := p], L.next[p := n]);
    assert RemoveLinks(L, x, false) == N;
    assert RemoveLinks(L, x, true) == Links(N.prev[x := NULL], N.next[x := NULL]);
  }

  /** Cutting a distinct sequence at k gives two distinct, disjoint parts. */
  lemma SeqCut(s: seq<Node>, k: nat)
    requires k <= |s| && Distinct(s)
    ensures Distinct(s[..k]) && Distinct(s[k..])
    ensures forall y :: y in s[..k] ==> y !in s[k..]
    ensures forall y :: y in s <==> y in s[..k] || y in s[k..]
    ensures s[..k] + s[k..] == s
  {
    var a, b := s[..k], s[k..];
    forall i, j | 0 <= i < j < |b| ensures b[i] != b[j] {
      assert b[i] == s[k + i] && b[j] == s[k + j];
    }
    forall y | y in a ensures y !in b {
      var i :| 0 <= i < k && a[i] == y;
      forall j | 0 <= j < |b| ensures b[j] != y {
        assert b[j] == s[k + j];
      }
    }
    assert a + b == s;
  }

  /** The net stores of split(h, s[k], n). */
  ghost function SplitNet(L: Links, h: Node, s: seq<Node>, k: nat, n: Node): Links
    requires Ring(L, h, s) && k < |s|
  {
    var q := s[k];
    var z := s[|s| - 1];
    var p := if k == 0 then h else s[k - 1];
    Links(L.prev[n := z][h := p][q := n], L.next[z := n][n := q][p := h])
  }

  /** The links of the i-th element left in h's ring after split. */
  lemma SplitPrefixAt(L: Links, h: Node, s: seq<Node>, k: nat, n: Node, i: nat)
    requires Ring(L, h, s) && k < |s|
    requires n != NULL && n != h && n !in s
    requires i < k
    ensures var N := SplitNet(L, h, s, k, n); var a := s[..k];
      && Linked(N, a[i])
      && N.next[a[i]] == (if i + 1 < |a| then a[i + 1] else h)
      && N.prev[a[i]] == (if i == 0 then h else a[i - 1])
  {
    var N := SplitNet(L, h, s, k, n);
    var z, q, p := s[|s| - 1], s[k], if k == 0 then h else s[k - 1];
    assert N.next == L.next[z := n][n := q][p := h];
    assert N.prev == L.prev[n := z][h := p][q := n];
    assert s[..k][i] == s[i] && s[i] != n && s[i] != h;
    assert s[i] != z by {
      assert i != |s| - 1;
    }
    assert s[i] != q by {
      assert i != k;
    }
    if i + 1 < k {
      assert s[i] != p by {
        assert i != k - 1;
      }
      assert N.next[s[i]] == L.next[s[i]] == s[i + 1];
    }
    assert N.prev[s[i]] == L.prev[s[i]];
  }

  /** After split, h holds the elements before position k. */
  lemma SplitPrefix(L: Links, h: Node, s: seq<Node>, k: nat, n: Node)
    requires Ring(L, h, s) && k < |s|
    requires n != NULL && n != h && n !in s
    ensures Ring(SplitNet(L, h, s, k, n), h, s[..k])
  {
    var N := SplitNet(L, h, s, k, n);
    var a := s[..k];
    assert Distinct(a) && h !in a by {
      SeqCut(s, k);
    }
    forall i | 0 <= i < |a|
      ensures Linked(N, a[i])
      ensures N.next[a[i]] == if i + 1 < |a| then a[i + 1] else h
      ensures N.prev[a[i]] == if i == 0 then h else a[i - 1]
    {
      SplitPrefixAt(L, h, s, k, n, i);
    }
    var z, p := s[|s| - 1], if k == 0 then h else s[k - 1];
    assert N.prev[h] == p;
    if k > 0 {
      assert h != z && h != p;
      assert N.next[h] == L.next[h] == s[0];
    }
  }

  /** The links of the i-th element of n's ring after split. */
  lemma SplitSuffixAt(L: Links, h: Node, s: seq<Node>, k: nat, n: Node, i: nat)
    requires Ring(L, h, s) && k < |s|
    requires n != NULL && n != h && n !in s
    requires i < |s| - k
    ensures var N := SplitNet(L, h, s, k, n); var b := s[k..];
      && Linked(N, b[i])
      && N.next[b[i]] == (if i + 1 < |b| then b[i + 1] else n)
      && N.prev[b[i]] == (if i == 0 then n else b[i - 1])
  {
    var N := SplitNet(L, h, s, k, n);
    var z, q, p := s[|s| - 1], s[k], if k == 0 then h else s[k - 1];
    assert N.next == L.next[z := n][n := q][p := h];
    assert N.prev == L.prev[n := z][h := p][q := n];
    var j := k + i;
    assert s[k..][i] == s[j] && s[j] != n && s[j] != h;
    assert s[j] != p by {
      if k > 0 {
        assert j != k - 1;
      }
    }
    if j + 1 < |s| {
      assert s[j] != z by {
        assert j != |s| - 1;
      }
      assert N.next[s[j]] == L.next[s[j]] == s[j + 1];
    }
    if i > 0 {
      assert s[j] != q by {
        assert j != k;
      }
      assert N.prev[s[j]] == L.prev[s[j]] == s[j - 1];
    }
  }

  /** After split, n is the sentinel of the elements from position k on. */
  lemma SplitSuffix(L: Links, h: Node, s: seq<Node>, k: nat, n: Node)
    requires Ring(L, h, s) && k < |s|
    requires n != NULL && n != h && n !in s
    ensures Ring(SplitNet(L, h, s, k, n), n, s[k..])
  {
    var N := SplitNet(L, h, s, k, n);
    var b := s[k..];
    assert Distinct(b) && n !in b by {
      SeqCut(s, k);
    }
    forall i | 0 <= i < |b|
      ensures Linked(N, b[i])
      ensures N.next[b[i]] == if i + 1 < |b| then b[i + 1] else n
      ensures N.prev[b[i]] == if i == 0 then n else b[i - 1]
    {
      SplitSuffixAt(L, h, s, k, n, i);
    }
    assert N.next[n] == s[k] && N.prev[n] == s[|s| - 1];
  }

  /** split(h, q, n), q the k-th element, leaves h holding the elements
      before q and makes n the sentinel of a ring of q and the rest; if q
      was the first element h is left empty. */
  lemma SplitRings(L: Links, h: Node, s: seq<Node>, k: nat, n: Node)
    requires Ring(L, h, s)
    requires k < |s|
    requires n != NULL && n != h && n !in s
    ensures var L' := SplitLinks(L, h, s[k], n);
      && Ring(L', h, s[..k])
      && Ring(L', n, s[k..])
      && (k == 0 ==> Empty(L', h))
      && (forall y :: y in L.next && y != h && y != n && y != s[|s| - 1] && y != Final(h, s[..k]) ==>
            L'.next[y] == L.next[y])
      && (forall y :: y in L.prev && y != h && y != n && y != s[k] ==> L'.prev[y] == L.prev[y])
  {
    SplitIsNet(L, h, s, k, n);
    SplitPrefix(L, h, s, k, n);
    SplitSuffix(L, h, s, k, n);
    SplitFrame(L, h, s, k, n);
    if k == 0 {
      assert SplitLinks(L, h, s[k], n).prev[h] == h;
    }
  }

  /** The six stores of split amount to its net stores. */
  lemma SplitIsNet(L: Links, h: Node, s: seq<Node>, k: nat, n: Node)
    requires Ring(L, h, s)
    requires k < |s|
    requires n != NULL && n != h && n !in s
    ensures SplitLinks(L, h, s[k], n) == SplitNet(L, h, s, k, n)
  {
    assert s[k] != n && s[|s| - 1] != n;
  }

  /** split changes next only at h, n, the old last node and q's
      predecessor, and prev only at h, n and q. */
  lemma SplitFrame(L: Links, h: Node, s: seq<Node>, k: nat, n: Node)
    requires Ring(L, h, s)
    requires k < |s|
    requires n != NULL && n != h && n !in s
    ensures var L' := SplitLinks(L, h, s[k], n);
      && (forall y :: y in L.next && y != h && y != n && y != s[|s| - 1] && y != Final(h, s[..k]) ==>
            L'.next[y] == L.next[y])
      && (forall y :: y in L.prev && y != h && y != n && y != s[k] ==> L'.prev[y] == L.prev[y])
  {
    SplitIsNet(L, h, s, k, n);
    assert Final(h, s[..k]) == if k == 0 then h else s[k - 1];
  }

  /** Appending a sequence with no common element keeps it distinct. */
  lemma SeqAppend(s: seq<Node>, t: seq<Node>)
    requires Distinct(s) && Distinct(t)
    requires forall y :: y in s ==> y !in t
    ensures Distinct(s + t)
  {
    var u := s + t;
    forall i, j | 0 <= i < j < |u| ensures u[i] != u[j] {
      if i < |s| && j >= |s| {
        assert u[i] in s && u[j] == t[j - |s|] && t[j - |s|] in t;
      } else if i >= |s| {
        assert u[i] == t[i - |s|] && u[j] == t[j - |s|];
      }
    }
  }

  /** add(h, n) with n empty only closes h's ring again. */
  lemma AddEmpty(L: Links, h: Node, s: seq<Node>, n: Node)
    requires Ring(L, h, s) && Ring(L, n, [])
    requires h != n && n !in s
    ensures AddLinks(L, h, n) == Links(L.prev[n := Final(h, s)][h := Final(h, s)], L.next[Final(h, s) := h])
    ensures Ring(AddLinks(L, h, n), h, s)
  {
    var z := Final(h, s);
    var N := Links(L.prev[n := z][h := z], L.next[z := h]);
    assert AddLinks(L, h, n) == N;
    forall i | 0 <= i < |s|
      ensures Linked(N, s[i]) && N.prev[s[i]] == L.prev[s[i]] && N.next[s[i]] == L.next[s[i]]
    {
      assert s[i] != n && s[i] != h;
      if i + 1 < |s| {
        assert s[i] != z;
      }
    }
    if s != [] {
      assert s[0] != z || |s| == 1;
    }
  }

  /** add(h, n) with n non-empty links h's last element to n's first and
      n's last element back to h. */
  lemma AddNonEmpty(L: Links, h: Node, s: seq<Node>, n: Node, t: seq<Node>)
    requires Ring(L, h, s) && Ring(L, n, t) && t != []
    requires Disjoint(h, s, n, t)
    ensures AddLinks(L, h, n) == Links(L.prev[t[0] := Final(h, s)][h := t[|t| - 1]], L.next[Final(h, s) := t[0]][t[|t| - 1] := h])
    ensures Ring(AddLinks(L, h, n), h, s + t)
  {
    var z := Final(h, s);
    var f := t[0];
    var e := t[|t| - 1];
    assert f in t && e in t;
    var N := Links(L.prev[f := z][h := e], L.next[z := f][e := h]);
    assert AddLinks(L, h, n) == N;
    var u := s + t;
    SeqAppend(s, t);
    forall i | 0 <= i < |u|
      ensures Linked(N, u[i])
      ensures N.next[u[i]] == if i + 1 < |u| then u[i + 1] else h
      ensures N.prev[u[i]] == if i == 0 then h else u[i - 1]
    {
      if i < |s| {
        assert u[i] == s[i] && s[i] in s && s[i] !in t;
        assert L.next[s[i]] == if i + 1 < |s| then s[i + 1] else h;
        assert L.prev[s[i]] == if i == 0 then h else s[i - 1];
      } else {
        var j := i - |s|;
        assert u[i] == t[j] && t[j] in t && t[j] !in s;
        assert L.next[t[j]] == if j + 1 < |t| then t[j + 1] else n;
        assert L.prev[t[j]] == if j == 0 then n else t[j - 1];
        if j > 0 {
          assert t[j] != f;
        }
        if j + 1 < |t| {
          assert t[j] != e;
        }
      }
    }
  }

  /** add(h, n) appends the elements of n's ring to h's; n itself is not
      reinitialised. */
  lemma AddRings(L: Links, h: Node, s: seq<Node>, n: Node, t: seq<Node>)
    requires Ring(L, h, s) && Ring(L, n, t)
    requires Disjoint(h, s, n, t)
    ensures Ring(AddLinks(L, h, n), h, s + t)
    ensures t != [] ==> AddLinks(L, h, n).prev[n] == L.prev[n] && AddLinks(L, h, n).next[n] == L.next[n]
    ensures t == [] ==> AddLinks(L, h, n).prev[n] == Final(h, s) && AddLinks(L, h, n).next[n] == n
    ensures forall y :: y in L.next && y != Final(h, s) && y != Final(n, t) ==>
      AddLinks(L, h, n).next[y] == L.next[y]
    ensures forall y :: y in L.prev && y != h && y != First(n, t) ==>
      AddLinks(L, h, n).prev[y] == L.prev[y]
  {
    if t == [] {
      AddEmpty(L, h, s, n);
      assert s + t == s;
    } else {
      AddNonEmpty(L, h, s, n, t);
    }
  }

  /** split followed by add restores the original queue. */
  lemma SplitThenAdd(L: Links, h: Node, s: seq<Node>, k: nat, n: Node)
    requires Ring(L, h, s)
    requires k < |s|
    requires n != NULL && n != h && n !in s
    ensures Ring(AddLinks(SplitLinks(L, h, s[k], n), h, n), h, s)
  {
    SplitRings(L, h, s, k, n);
    var L' := SplitLinks(L, h, s[k], n);
    SeqCut(s, k);
    assert Disjoint(h, s[..k], n, s[k..]);
    AddRings(L', h, s[..k], n, s[k..]);
  }

  // ---------------------------------------------------------------------
  // The link heap as mutable state: each method performs the macro's stores
  // one at a time.

  class QueueHeap {
    var prev: map<Node, Node>
    var next: map<Node, Node>

    function View(): Links
      reads this
    {
      Links(prev, next)
    }

    constructor ()
      ensures prev == map[] && next == map[]
    {
      prev := map[];
      next := map[];
    }

    method Init(q: Node)
      requires q != NULL
      modifies this
      ensures View() == InitLinks(old(View()), q)
      ensures Ring(View(), q, [])
    {
      prev := prev[q := q];
      next := next[q := q];
      InitEmpty(old(View()), q);
    }

    method IsEmpty(h: Node, ghost s: seq<Node>) returns (e: bool)
      requires Ring(View(), h, s)
      ensures e <==> s == []
    {
      e := h == prev[h];
      EmptyIff(View(), h, s);
    }

    /** On an empty queue head is the sentinel itself. */
    method GetHead(h: Node, ghost s: seq<Node>) returns (x: Node)
      requires Ring(View(), h, s)
      ensures x == First(h, s)
      ensures x == h <==> s == []
    {
      x := next[h];
    }

    /** On an empty queue last is the sentinel itself. */
    method GetLast(h: Node, ghost s: seq<Node>) returns (x: Node)
      requires Ring(View(), h, s)
      ensures x == Final(h, s)
      ensures x == h <==> s == []
    {
      x := prev[h];
    }

    method InsertAfter(q: Node, x: Node, ghost h: Node, ghost s: seq<Node>, ghost k: nat)
      requires Ring(View(), h, s) && k <= |s| && q == ([h] + s)[k]
      requires x != NULL && x != h && x !in s
      modifies this
      ensures View() == InsertHeadLinks(old(View()), q, x)
      ensures Ring(View(), h, s[..k] + [x] + s[k..])
    {
      next := next[x := next[q]];
      prev := prev[next[x] := x];
      prev := prev[x := q];
      next := next[q := x];
      InsertAfterRing(old(View()), h, s, k, x);
    }

    method InsertHead(h: Node, x: Node, ghost s: seq<Node>)
      requires Ring(View(), h, s)
      requires x != NULL && x != h && x !in s
      modifies this
      ensures View() == InsertHeadLinks(old(View()), h, x)
      ensures Ring(View(), h, [x] + s)
    {
      InsertAfter(h, x, h, s, 0);
      assert s[..0] + [x] + s[0..] == [x] + s;
    }

    method InsertTail(h: Node, x: Node, ghost s: seq<Node>)
      requires Ring(View(), h, s)
      requires x != NULL && x != h && x !in s
      modifies this
      ensures View() == InsertTailLinks(old(View()), h, x)
      ensures Ring(View(), h, s + [x])
    {
      prev := prev[x := prev[h]];
      next := next[prev[x] := x];
      next := next[x := h];
      prev := prev[h := x];
      InsertTailRing(old(View()), h, s, x);
    }

    method Remove(x: Node, debug: bool, ghost h: Node, ghost s: seq<Node>, ghost k: nat)
      requires Ring(View(), h, s) && k < |s| && x == s[k]
      modifies this
      ensures View() == RemoveLinks(old(View()), x, debug)
      ensures Ring(View(), h, s[..k] + s[k + 1..])
    {
      prev := prev[next[x] := prev[x]];
      next := next[prev[x] := next[x]];
      if debug {
        prev := prev[x := NULL];
        next := next[x := NULL];
      }
      RemoveRing(old(View()), h, s, k, debug);
    }

    method Split(h: Node, q: Node, n: Node, ghost s: seq<Node>, ghost k: nat)
      requires Ring(View(), h, s) && k < |s| && q == s[k]
      requires n != NULL && n != h && n !in s
      modifies this
      ensures View() == SplitLinks(old(View()), h, q, n)
      ensures Ring(View(), h, s[..k]) && Ring(View(), n, s[k..])
    {
      prev := prev[n := prev[h]];
      next := next[prev[n] := n];
      next := next[n := q];
      prev := prev[h := prev[q]];
      next := next[prev[h] := h];
      prev := prev[q := n];
      SplitRings(old(View()), h, s, k, n);
    }

    method Add(h: Node, n: Node, ghost s: seq<Node>, ghost t: seq<Node>)
      requires Ring(View(), h, s) && Ring(View(), n, t)
      requires Disjoint(h, s, n, t)
      modifies this
      ensures View() == AddLinks(old(View()), h, n)
      ensures Ring(View(), h, s + t)
    {
      next := next[prev[h] := next[n]];
      prev := prev[next[n] := prev[h]];
      prev := prev[h := prev[n]];
      next := next[prev[h] := h];
      AddRings(old(View()), h, s, n, t);
    }
  }
}
