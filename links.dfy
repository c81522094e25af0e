/** The intrusive doubly linked lists of OS_LRU-K.c on an arena: a node is a
    slot number, and `P` and `N` give each slot's previous and next node,
    -1 standing for NULL. A list head records its front (MRU) node, its rear
    (LRU) node and its size. */
module Links {
  import opened Seqs

  /** A list head (struct List). */
  datatype List = List(front: int, rear: int, size: nat)

  const Empty := List(-1, -1, 0)

  /** The links `P`, `N` and the head `l` spell out the slots `ls`, front to rear. */
  ghost predicate Chain(P: seq<int>, N: seq<int>, l: List, ls: seq<nat>) {
    && l.size == |ls|
    && Distinct(ls)
    && (forall i :: 0 <= i < |ls| ==> ls[i] < |P| && ls[i] < |N|)
    && l.front == (if ls == [] then -1 else ls[0])
    && l.rear == (if ls == [] then -1 else ls[|ls| - 1])
    && (ls != [] ==> P[ls[0]] == -1 && N[ls[|ls| - 1]] == -1)
    && (forall i :: 0 < i < |ls| ==> P[ls[i]] == ls[i - 1] && N[ls[i - 1]] == ls[i])
  }

  /** The links after list_unlink takes node `n` out: the neighbours point at
      each other and `n`'s own links are cleared. */
  function UnlinkPrev(P: seq<int>, N: seq<int>, n: nat): (r: seq<int>)
    requires n < |P| && n < |N|
  {
    var p, q := P[n], N[n];
    (if 0 <= q < |P| then P[q := p] else P)[n := -1]
  }

  function UnlinkNext(P: seq<int>, N: seq<int>, n: nat): (r: seq<int>)
    requires n < |P| && n < |N|
  {
    var p, q := P[n], N[n];
    (if 0 <= p < |N| then N[p := q] else N)[n := -1]
  }

  /** The head after list_unlink takes node `n` out of a list that holds it. */
  function UnlinkHead(P: seq<int>, N: seq<int>, l: List, n: nat): (r: List)
    requires n < |P| && n < |N|
  {
    List(if l.front == n then N[n] else l.front,
         if l.rear == n then P[n] else l.rear,
         if l.size > 0 then l.size - 1 else 0)
  }

  /** A node's neighbours are in its list, or -1. */
  lemma Neighbours(P: seq<int>, N: seq<int>, l: List, ls: seq<nat>, i: nat)
    requires Chain(P, N, l, ls) && i < |ls|
    ensures P[ls[i]] == if i == 0 then -1 else ls[i - 1]
    ensures N[ls[i]] == if i == |ls| - 1 then -1 else ls[i + 1]
    ensures -1 <= P[ls[i]] < |P| && P[ls[i]] < |N| && -1 <= N[ls[i]] < |P| && N[ls[i]] < |N|
  {
    if i > 0 {
      assert P[ls[i]] == ls[i - 1] && ls[i - 1] < |P| && ls[i - 1] < |N|;
    }
    if i < |ls| - 1 {
      assert N[ls[i]] == ls[i + 1] && ls[i + 1] < |P| && ls[i + 1] < |N|;
    }
  }

  /** Unlinking position `i` leaves a chain of the other nodes in their order,
      and changes no link outside the list. */
  lemma ChainUnlink(P: seq<int>, N: seq<int>, l: List, ls: seq<nat>, i: nat)
    requires Chain(P, N, l, ls) && i < |ls|
    ensures var n := ls[i];
      && Chain(UnlinkPrev(P, N, n), UnlinkNext(P, N, n), UnlinkHead(P, N, l, n), Without(ls, n))
      && |UnlinkPrev(P, N, n)| == |P| && |UnlinkNext(P, N, n)| == |N|
      && (forall s :: 0 <= s < |P| && s !in ls ==> UnlinkPrev(P, N, n)[s] == P[s])
      && (forall s :: 0 <= s < |N| && s !in ls ==> UnlinkNext(P, N, n)[s] == N[s])
  {
    WithoutAt(ls, i);
    UnlinkChain(P, N, l, ls, i);
    UnlinkOutside(P, N, l, ls, i);
  }

  /** The nodes other than position `i` form a chain after the unlink. */
  lemma UnlinkChain(P: seq<int>, N: seq<int>, l: List, ls: seq<nat>, i: nat)
    requires Chain(P, N, l, ls) && i < |ls|
    ensures var n := ls[i];
      Chain(UnlinkPrev(P, N, n), UnlinkNext(P, N, n), UnlinkHead(P, N, l, n), ls[..i] + ls[i + 1..])
  {
    var n := ls[i];
    CutDistinct(ls, i);
    UnlinkEnds(P, N, l, ls, i);
    var t := ls[..i] + ls[i + 1..];
    var P1, N1 := UnlinkPrev(P, N, n), UnlinkNext(P, N, n);
    forall j | 0 <= j < |t| ensures t[j] < |P1| && t[j] < |N1| {
      assert t[j] == ls[if j < i then j else j + 1];
    }
    forall j | 0 < j < |t|
      ensures P1[t[j]] == t[j - 1] && N1[t[j - 1]] == t[j]
    {
      UnlinkStep(P, N, l, ls, i, j);
    }
  }

  /** Unlinking a node of a list changes no link outside that list. */
  lemma UnlinkOutside(P: seq<int>, N: seq<int>, l: List, ls: seq<nat>, i: nat)
    requires Chain(P, N, l, ls) && i < |ls|
    ensures var n := ls[i];
      && |UnlinkPrev(P, N, n)| == |P| && |UnlinkNext(P, N, n)| == |N|
      && (forall s :: 0 <= s < |P| && s !in ls ==> UnlinkPrev(P, N, n)[s] == P[s])
      && (forall s :: 0 <= s < |N| && s !in ls ==> UnlinkNext(P, N, n)[s] == N[s])
  {
    Neighbours(P, N, l, ls, i);
    if i > 0 {
      assert P[ls[i]] in ls;
    }
    if i < |ls| - 1 {
      assert N[ls[i]] in ls;
    }
  }

  /** The ends of the list after unlinking position `i`. */
  lemma UnlinkEnds(P: seq<int>, N: seq<int>, l: List, ls: seq<nat>, i: nat)
    requires Chain(P, N, l, ls) && i < |ls|
    ensures var n := ls[i]; var t := ls[..i] + ls[i + 1..];
      var P1, N1, h := UnlinkPrev(P, N, n), UnlinkNext(P, N, n), UnlinkHead(P, N, l, n);
      && h.size == |t|
      && h.front == (if t == [] then -1 else t[0])
      && h.rear == (if t == [] then -1 else t[|t| - 1])
      && (t != [] ==> P1[t[0]] == -1 && N1[t[|t| - 1]] == -1)
  {
    var n := ls[i];
    Neighbours(P, N, l, ls, i);
    var t := ls[..i] + ls[i + 1..];
    var p, q := P[n], N[n];
    if t != [] {
      if i == 0 {
        assert t[0] == q;
      } else {
        assert t[0] == ls[0] && ls[0] != q;
      }
      if i == |ls| - 1 {
        assert t[|t| - 1] == p;
      } else {
        assert t[|t| - 1] == ls[|ls| - 1] && ls[|ls| - 1] != p;
      }
    }
  }

  /** One link of the list after unlinking position `i`. */
  lemma UnlinkStep(P: seq<int>, N: seq<int>, l: List, ls: seq<nat>, i: nat, j: nat)
    requires Chain(P, N, l, ls) && i < |ls| && 0 < j < |ls| - 1
    ensures var n := ls[i]; var t := ls[..i] + ls[i + 1..];
      UnlinkPrev(P, N, n)[t[j]] == t[j - 1] && UnlinkNext(P, N, n)[t[j - 1]] == t[j]
  {
    var n := ls[i];
    Neighbours(P, N, l, ls, i);
    var t := ls[..i] + ls[i + 1..];
    var p, q := P[n], N[n];
    if j < i {
      assert t[j] == ls[j] && t[j - 1] == ls[j - 1];
      assert ls[j] != q && ls[j - 1] != p && ls[j] != n && ls[j - 1] != n;
    } else if j == i {
      assert t[j] == ls[i + 1] && t[j - 1] == ls[i - 1];
    } else {
      assert t[j] == ls[j + 1] && t[j - 1] == ls[j];
      assert ls[j + 1] != q && ls[j] != p && ls[j + 1] != n && ls[j] != n;
    }
  }

  /** list_push_front: the links after node `n` becomes the front. */
  function PushPrev(P: seq<int>, l: List, n: nat): (r: seq<int>)
    requires n < |P|
  {
    if 0 <= l.front < |P| then P[n := -1][l.front := n] else P[n := -1]
  }

  function PushNext(N: seq<int>, l: List, n: nat): (r: seq<int>)
    requires n < |N|
  {
    N[n := l.front]
  }

  function PushHead(l: List, n: nat): (r: List) {
    List(n, if l.rear == -1 then n else l.rear, l.size + 1)
  }

  /** Pushing a node that is not in the list makes it the front of the chain,
      and changes no link outside the list and the node. */
  lemma ChainPush(P: seq<int>, N: seq<int>, l: List, ls: seq<nat>, n: nat)
    requires Chain(P, N, l, ls) && n !in ls && n < |P| && n < |N|
    ensures Chain(PushPrev(P, l, n), PushNext(N, l, n), PushHead(l, n), [n] + ls)
    ensures |PushPrev(P, l, n)| == |P| && |PushNext(N, l, n)| == |N|
    ensures forall s :: 0 <= s < |P| && s != n && s !in ls ==> PushPrev(P, l, n)[s] == P[s]
    ensures forall s :: 0 <= s < |N| && s != n && s !in ls ==> PushNext(N, l, n)[s] == N[s]
  {
    ConsDistinct(n, ls);
    var t := [n] + ls;
    var P1, N1 := PushPrev(P, l, n), PushNext(N, l, n);
    if ls != [] {
      assert ls[|ls| - 1] != n;
    }
    forall j | 0 < j < |t|
      ensures P1[t[j]] == t[j - 1] && N1[t[j - 1]] == t[j]
    {
      if j > 1 {
        assert t[j] == ls[j - 1] && t[j - 1] == ls[j - 2];
        assert ls[j - 1] != n && ls[j - 2] != n && ls[j - 1] != ls[0];
      }
    }
  }

  /** A chain stays a chain when the links of its own nodes are unchanged. */
  lemma ChainFrame(P: seq<int>, N: seq<int>, P2: seq<int>, N2: seq<int>, l: List, ls: seq<nat>)
    requires Chain(P, N, l, ls) && |P2| == |P| && |N2| == |N|
    requires forall i :: 0 <= i < |ls| ==> P2[ls[i]] == P[ls[i]] && N2[ls[i]] == N[ls[i]]
    ensures Chain(P2, N2, l, ls)
  {
    if ls != [] {
      assert P2[ls[0]] == P[ls[0]];
      assert N2[ls[|ls| - 1]] == N[ls[|ls| - 1]];
    }
    forall j | 0 < j < |ls|
      ensures P2[ls[j]] == ls[j - 1] && N2[ls[j - 1]] == ls[j]
    {
      assert N2[ls[j - 1]] == N[ls[j - 1]];
    }
  }
}
