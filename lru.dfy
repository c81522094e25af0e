/** With K = 1 every admitted node reaches hot at once, so cold stays empty
    and the intended engine of module Policy is plain LRU: hot, read as
    pages, is the recency list of a least-recently-used cache with one entry
    per frame. This module gives that plain LRU on its own terms and proves
    the intended engine follows it. The C code as written does not: its
    promotion can leave a node as both front and rear of hot (module
    AsWritten). */
module Lru {
  import opened Seqs
  import Policy

  /** One reference to page `p` in a plain LRU cache of `cap` pages, most
      recent first: a hit moves the page to the front; a miss puts it in
      front and, once the cache is full, drops the least recent page. */
  function LruStep(lru: seq<int>, cap: nat, p: int): (r: seq<int>)
    requires cap >= 1 && |lru| <= cap && Distinct(lru)
    ensures Distinct(r) && 1 <= |r| <= cap && r[0] == p
    ensures forall q :: q in r ==> q == p || q in lru
    ensures p in lru ==> |r| == |lru| && forall q :: q in lru ==> q in r
    ensures p !in lru && |lru| < cap ==> r == [p] + lru
    ensures p !in lru && |lru| == cap ==> |r| == cap && lru[cap - 1] !in r
  {
    if p in lru then
      WithoutDistinct(lru, p);
      var r := [p] + Without(lru, p);
      ConsDistinct(p, Without(lru, p));
      r
    else if |lru| < cap then
      ConsDistinct(p, lru);
      [p] + lru
    else
      PrefixDistinct(lru, |lru| - 1);
      assert lru[cap - 1] !in lru[..cap - 1];
      ConsDistinct(p, lru[..|lru| - 1]);
      [p] + lru[..|lru| - 1]
  }

  /** The plain LRU cache after a reference string, and its miss count. */
  function LruRun(lru: seq<int>, cap: nat, refs: seq<nat>): (r: (seq<int>, nat))
    requires cap >= 1 && |lru| <= cap && Distinct(lru)
    ensures Distinct(r.0) && |r.0| <= cap
    ensures r.1 <= |refs|
    decreases |refs|
  {
    if refs == [] then (lru, 0)
    else
      var next := LruStep(lru, cap, refs[0]);
      var rest := LruRun(next, cap, refs[1..]);
      (rest.0, rest.1 + if refs[0] in lru then 0 else 1)
  }

  /** Every slot of `ls` is below `bound`. */
  predicate Within(ls: seq<nat>, bound: nat) {
    forall i :: 0 <= i < |ls| ==> ls[i] < bound
  }

  /** The pages held by the slots `ls`, in list order. */
  function Pages(frame: seq<int>, ls: seq<nat>): (r: seq<int>)
    requires Within(ls, |frame|)
    ensures |r| == |ls| && forall i :: 0 <= i < |ls| ==> r[i] == frame[ls[i]]
  {
    seq(|ls|, i requires 0 <= i < |ls| => frame[ls[i]])
  }

  /** With K = 1 nothing is ever cold. */
  lemma ColdEmpty(m: Policy.State)
    requires Policy.Inv(m) && m.k == 1
    ensures m.cold == []
  {
    FrontIn(m.cold);
  }

  /** The hot pages of a state with K = 1, and the facts about them. */
  lemma HotPages(m: Policy.State)
    requires Policy.Inv(m) && m.k == 1
    ensures Within(m.hot, |m.frame|)
    ensures Distinct(Pages(m.frame, m.hot)) && |m.hot| == m.used
    ensures forall page: nat :: page < |m.hash| ==> (page in Pages(m.frame, m.hot) <==> Policy.Resident(m, page))
  {
    ColdEmpty(m);
    var ps := Pages(m.frame, m.hot);
    forall a, b | 0 <= a < b < |ps| ensures ps[a] != ps[b] {
      assert m.hash[m.frame[m.hot[a]]] == m.hot[a];
      assert m.hash[m.frame[m.hot[b]]] == m.hot[b];
    }
    forall page: nat | page < |m.hash| ensures page in ps <==> Policy.Resident(m, page) {
      if Policy.Resident(m, page) {
        var s :| 0 <= s < m.used && s < |m.frame| && m.frame[s] == page;
        assert s in m.hot;
        var i :| 0 <= i < |m.hot| && m.hot[i] == s;
        assert ps[i] == page;
      }
      if page in ps {
        var i :| 0 <= i < |ps| && ps[i] == page;
        assert m.frame[m.hot[i]] == page;
      }
    }
  }

  /** Pages of slots whose frames did not change stay the same. */
  lemma PagesUnchanged(frame: seq<int>, ls: seq<nat>, v: nat, p: int)
    requires Within(ls, |frame|) && v < |frame| && v !in ls
    ensures Pages(frame[v := p], ls) == Pages(frame, ls)
  {
  }

  /** Taking a slot out of the list takes its page out of the pages. */
  lemma PagesWithout(frame: seq<int>, ls: seq<nat>, i: nat)
    requires Within(ls, |frame|) && Distinct(ls) && Distinct(Pages(frame, ls)) && i < |ls|
    ensures Within(Without(ls, ls[i]), |frame|)
    ensures Pages(frame, Without(ls, ls[i])) == Without(Pages(frame, ls), frame[ls[i]])
  {
    var ps := Pages(frame, ls);
    WithoutAt(ls, i);
    WithoutAt(ps, i);
    var t := ls[..i] + ls[i + 1..];
    var qs := ps[..i] + ps[i + 1..];
    assert |t| == |qs| == |ls| - 1;
    forall j | 0 <= j < |t| ensures t[j] < |frame| && qs[j] == frame[t[j]] {
      if j < i {
        assert t[j] == ls[j] && qs[j] == ps[j];
      } else {
        assert t[j] == ls[j + 1] && qs[j] == ps[j + 1];
      }
    }
    assert Within(t, |frame|);
    assert Pages(frame, t) == qs;
  }

  /** The lists and frames after a hit with K = 1: the node moves to the
      front of hot and no frame changes. */
  lemma HitLists(m: Policy.State, page: nat)
    requires Policy.Inv(m) && m.k == 1 && |m.frame| >= 1 && page < |m.hash| && m.hash[page] != -1
    ensures var s := m.hash[page]; var r := Policy.Reference(m, page);
      && 0 <= s < |m.frame| && m.frame[s] == page && s in m.hot
      && r.cold == [] && r.hot == [s as nat] + Without(m.hot, s as nat) && r.frame == m.frame
  {
    ColdEmpty(m);
    var s := m.hash[page] as nat;
    assert s in m.cold || s in m.hot;
    assert m.refcnt[s := m.refcnt[s]] == m.refcnt;
    assert Policy.Reference(m, page) == Policy.Hit(m, s) == Policy.Promote(m, s);
  }

  /** A hit with K = 1: the page moves to the front of hot. */
  lemma HitIsLruHit(m: Policy.State, page: nat)
    requires Policy.Inv(m) && m.k == 1 && |m.frame| >= 1 && page < |m.hash| && m.hash[page] != -1
    ensures var r := Policy.Reference(m, page);
      && r.cold == [] && Within(r.hot, |r.frame|)
      && Pages(r.frame, r.hot) == [page] + Without(Pages(m.frame, m.hot), page)
  {
    HotPages(m);
    HitLists(m, page);
    var s := m.hash[page] as nat;
    var i :| 0 <= i < |m.hot| && m.hot[i] == s;
    PagesWithout(m.frame, m.hot, i);
    PagesPush(m.frame, Without(m.hot, s), s, page);
    assert m.frame[s := page] == m.frame;
  }

  /** Pushing a slot in front puts its new page in front of the pages. */
  lemma PagesPush(frame: seq<int>, ls: seq<nat>, v: nat, page: int)
    requires Within(ls, |frame|) && v < |frame| && v !in ls
    ensures Within([v] + ls, |frame|)
    ensures Pages(frame[v := page], [v] + ls) == [page] + Pages(frame, ls)
  {
    PagesUnchanged(frame, ls, v, page);
    assert Pages(frame[v := page], [v] + ls) == [page] + Pages(frame[v := page], ls);
  }

  /** The pages of a prefix are the prefix of the pages. */
  lemma PagesPrefix(frame: seq<int>, ls: seq<nat>, n: nat)
    requires Within(ls, |frame|) && n <= |ls|
    ensures Within(ls[..n], |frame|)
    ensures Pages(frame, ls[..n]) == Pages(frame, ls)[..n]
  {
  }

  /** The lists and frames after a miss with a free frame and K = 1. */
  lemma FillLists(m: Policy.State, page: nat)
    requires Policy.Inv(m) && m.k == 1 && |m.frame| >= 1 && page < |m.hash| && m.hash[page] == -1
    requires !Policy.Full(m)
    ensures var r := Policy.Reference(m, page);
      && m.used < |m.frame| && m.used !in m.hot
      && r.cold == [] && r.hot == [m.used] + m.hot && r.frame == m.frame[m.used := page]
  {
    ColdEmpty(m);
    var slot := m.used;
    assert slot !in m.hot;
    WithoutAbsent(m.hot, slot);
    Policy.MissShape(m, page);
  }

  /** A miss with a free frame and K = 1: the page goes to the front of hot. */
  lemma FillIsLruMiss(m: Policy.State, page: nat)
    requires Policy.Inv(m) && m.k == 1 && |m.frame| >= 1 && page < |m.hash| && m.hash[page] == -1
    requires !Policy.Full(m)
    ensures var r := Policy.Reference(m, page);
      && r.cold == [] && Within(r.hot, |r.frame|)
      && Pages(r.frame, r.hot) == [page] + Pages(m.frame, m.hot)
  {
    HotPages(m);
    FillLists(m, page);
    PagesPush(m.frame, m.hot, m.used, page);
  }

  /** The lists and frames after a miss in a full cache with K = 1: the rear
      of hot gives up its slot to the page, which heads hot. */
  lemma EvictLists(m: Policy.State, page: nat)
    requires Policy.Inv(m) && m.k == 1 && |m.frame| >= 1 && page < |m.hash| && m.hash[page] == -1
    requires Policy.Full(m)
    ensures var r := Policy.Reference(m, page); var n := |m.hot|;
      && n >= 1 && m.hot[n - 1] < |m.frame| && m.hot[n - 1] !in m.hot[..n - 1]
      && r.cold == [] && r.hot == [m.hot[n - 1]] + m.hot[..n - 1]
      && r.frame == m.frame[m.hot[n - 1] := page]
  {
    ColdEmpty(m);
    var m1 := m.(faults := m.faults + 1);
    assert Policy.Inv(m1);
    Policy.EvictionChoosesColdFirst(m1);
    var e := Policy.EvictOne(m1);
    var v := e.slot as nat;
    var n := |m.hot|;
    var front := m.hot[..n - 1];
    assert v == m.hot[n - 1] && e.state.hot == front && e.state.cold == [];
    PrefixDistinct(m.hot, n - 1);
    assert v !in front;
    WithoutAbsent(front, v);
    var r := Policy.Reference(m, page);
    assert r == Policy.Admit(e.state, page, v);
    assert r.frame == m.frame[v := -1][v := page];
  }

  /** A miss in a full cache with K = 1: the least recent page gives up its
      slot, and the page goes to the front of hot. */
  lemma EvictIsLruMiss(m: Policy.State, page: nat)
    requires Policy.Inv(m) && m.k == 1 && |m.frame| >= 1 && page < |m.hash| && m.hash[page] == -1
    requires Policy.Full(m)
    ensures var r := Policy.Reference(m, page); var n := |m.hot|;
      && n >= 1
      && r.cold == [] && Within(r.hot, |r.frame|)
      && Pages(r.frame, r.hot) == [page] + Pages(m.frame, m.hot)[..n - 1]
  {
    HotPages(m);
    EvictLists(m, page);
    var n := |m.hot|;
    PagesPrefix(m.frame, m.hot, n - 1);
    PagesPush(m.frame, m.hot[..n - 1], m.hot[n - 1], page);
  }

  /** With K = 1 one reference does to hot, read as pages, what plain LRU
      does to its list, and faults exactly when plain LRU misses. */
  lemma KOneIsLru(m: Policy.State, page: nat)
    requires Policy.Inv(m) && m.k == 1 && |m.frame| >= 1 && page < |m.hash|
    ensures Within(m.hot, |m.frame|)
    ensures Distinct(Pages(m.frame, m.hot)) && |m.hot| <= |m.frame|
    ensures var r := Policy.Reference(m, page);
      && r.cold == [] && Within(r.hot, |r.frame|)
      && Pages(r.frame, r.hot) == LruStep(Pages(m.frame, m.hot), |m.frame|, page)
      && r.faults == m.faults + (if page in Pages(m.frame, m.hot) then 0 else 1)
  {
    HotPages(m);
    Policy.ResidentIndexed(m, page);
    Policy.ReferenceCounters(m, page);
    if m.hash[page] != -1 {
      HitIsLruHit(m, page);
    } else if Policy.Full(m) {
      EvictIsLruMiss(m, page);
    } else {
      FillIsLruMiss(m, page);
    }
  }

  /** Over a whole reference string of pages in range, the engine with K = 1
      ends with the pages and the fault count of plain LRU. */
  lemma {:induction false} KOneRunIsLru(m: Policy.State, refs: seq<nat>)
    requires Policy.Inv(m) && m.k == 1 && |m.frame| >= 1
    requires forall i :: 0 <= i < |refs| ==> refs[i] < |m.hash|
    ensures Within(m.hot, |m.frame|)
    ensures Distinct(Pages(m.frame, m.hot)) && |m.hot| <= |m.frame|
    ensures var r := Policy.Run(m, refs); var l := LruRun(Pages(m.frame, m.hot), |m.frame|, refs);
      && Within(r.hot, |r.frame|)
      && Pages(r.frame, r.hot) == l.0
      && r.faults == m.faults + l.1
    decreases |refs|
  {
    HotPages(m);
    if refs != [] {
      KOneIsLru(m, refs[0]);
      var m1 := Policy.Reference(m, refs[0]);
      Policy.ReferencePreservesInv(m, refs[0]);
      KOneRunIsLru(m1, refs[1..]);
    }
  }
}
