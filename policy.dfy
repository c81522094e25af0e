/** The LRU-K replacement policy of OS_LRU-K.c on values: the whole cache
    between two references, and what one reference does to it.

    A node lives in exactly one frame slot while its page is resident, so the
    slot number serves as the node's handle: the page index maps a page to a
    slot, and the cold and hot recency lists are sequences of slots, most
    recently used first. The class in cache.dfy keeps the same state in arrays
    and doubly linked lists and is proved to follow these functions step for
    step. */
module Policy {
  import opened Seqs

  datatype State = State(
    k: nat,            // the LRU-K threshold, at least 1
    frame: seq<int>,   // slot -> resident page, or -1 for an empty frame
    hash: seq<int>,    // page -> slot of its node, or -1 (no node)
    refcnt: seq<nat>,  // slot -> references seen by its node, capped at k
    cold: seq<nat>,    // nodes with fewer than k references, MRU first
    hot: seq<nat>,     // nodes with k references, MRU first
    used: nat,         // resident pages
    nextFree: nat,     // next slot handed out while the frames fill up
    faults: nat)       // page faults so far

  /** A victim chosen by EvictOne, and the state once it is gone; slot -1
      means that there was nothing to evict. */
  datatype Eviction = Eviction(state: State, slot: int)

  /** The structural invariant that the engine keeps between references. */
  ghost predicate Inv(m: State) {
    && Shape(m)
    && ListsInv(m.k, m.refcnt, m.cold, m.hot, m.used)
    && Counted(m.cold, m.hot, m.used)
    && Indexed(m.frame, m.hash, m.used)
  }

  /** The counters: K at least 1, one reference count per frame, no more
      resident pages than frames, and the next free slot right after the
      occupied ones. */
  ghost predicate Shape(m: State) {
    m.k >= 1 && |m.refcnt| == |m.frame| && m.used <= |m.frame| && m.nextFree == m.used
  }

  /** Both lists hold slots below `bound` without repeats, no slot is in both,
      and the reference count decides the list: below k is cold, k is hot. */
  ghost predicate ListsInv(k: nat, refcnt: seq<nat>, cold: seq<nat>, hot: seq<nat>, bound: nat) {
    && bound <= |refcnt|
    && Distinct(cold) && Distinct(hot) && Disjoint(cold, hot)
    && (forall i :: 0 <= i < |cold| ==> cold[i] < bound && 1 <= refcnt[cold[i]] < k)
    && (forall i :: 0 <= i < |hot| ==> hot[i] < bound && refcnt[hot[i]] == k)
  }

  /** Every occupied slot is in one of the lists, and the lists hold as many
      nodes as there are resident pages. */
  ghost predicate Counted(cold: seq<nat>, hot: seq<nat>, used: nat) {
    && |cold| + |hot| == used
    && (forall s :: 0 <= s < used ==> s in cold || s in hot)
  }

  /** The page index and the frames agree: the occupied slots are the first
      `used`, each holds a page that the index maps back to it, the other
      frames are -1, and every index entry names an occupied slot holding
      that page. */
  ghost predicate Indexed(frame: seq<int>, hash: seq<int>, used: nat) {
    && used <= |frame|
    && (forall s :: 0 <= s < used ==> 0 <= frame[s] < |hash| && hash[frame[s]] == s)
    && (forall s :: used <= s < |frame| ==> frame[s] == -1)
    && (forall p :: 0 <= p < |hash| ==> hash[p] == -1 || (0 <= hash[p] < used && frame[hash[p]] == p))
  }

  /** A page is resident when some occupied frame holds it. */
  ghost predicate Resident(m: State, page: nat) {
    exists s :: 0 <= s < m.used && s < |m.frame| && m.frame[s] == page
  }

  /** cache_create: K clamped to at least 1, nothing resident, every frame -1,
      and an index that accepts the pages 0 .. maxPageIdInclusive. */
  function Create(frames: nat, k: nat, maxPageIdInclusive: nat): (r: State)
    ensures Inv(r)
    ensures r.k >= 1 && (k >= 1 ==> r.k == k)
    ensures |r.frame| == frames && forall s :: 0 <= s < frames ==> r.frame[s] == -1
    ensures |r.hash| == maxPageIdInclusive + 1 && forall p :: 0 <= p <= maxPageIdInclusive ==> !Resident(r, p)
    ensures r.used == 0 && r.faults == 0 && r.cold == [] && r.hot == []
  {
    State(if k == 0 then 1 else k, seq(frames, _ => -1), seq(maxPageIdInclusive + 1, _ => -1),
          seq(frames, _ => 0), [], [], 0, 0, 0)
  }

  /** cache_full */
  predicate Full(m: State) {
    m.used >= |m.frame|
  }

  /** promote_on_hit as its comment intends: take node `s` out of whichever
      list holds it and put it at the front of hot once it has K references,
      otherwise at the front of cold. */
  function Promote(m: State, s: nat): (r: State)
    requires s < |m.refcnt|
    ensures r == m.(cold := r.cold, hot := r.hot)
    ensures m.refcnt[s] >= m.k ==> |r.hot| >= 1 && r.hot[0] == s && s !in r.cold
    ensures m.refcnt[s] < m.k ==> |r.cold| >= 1 && r.cold[0] == s && r.hot == m.hot
  {
    if m.refcnt[s] >= m.k then m.(cold := Without(m.cold, s), hot := [s] + Without(m.hot, s))
    else m.(cold := [s] + Without(m.cold, s))
  }

  /** The part of cache_evict_one after the victim has left its list: its page
      leaves the index and its frame is cleared. */
  function Clear(m: State, v: nat): (r: State)
    requires v < |m.frame|
    ensures r == m.(hash := r.hash, frame := r.frame)
    ensures r.frame == m.frame[v := -1] && |r.hash| == |m.hash|
    ensures 0 <= m.frame[v] < |m.hash| ==> r.hash[m.frame[v]] == -1
    ensures forall p :: 0 <= p < |m.hash| && p != m.frame[v] ==> r.hash[p] == m.hash[p]
  {
    var page := m.frame[v];
    m.(hash := if 0 <= page < |m.hash| then m.hash[page := -1] else m.hash, frame := m.frame[v := -1])
  }

  /** cache_evict_one: the victim is the rear of the cold list, or the rear of
      the hot list when cold is empty. */
  function EvictOne(m: State): (r: Eviction)
    requires Inv(m)
    ensures r.slot == -1 <==> m.cold == [] && m.hot == []
    ensures r.slot != -1 ==> 0 <= r.slot < m.used
    ensures |r.state.frame| == |m.frame| && |r.state.hash| == |m.hash| && r.state.refcnt == m.refcnt
  {
    if |m.cold| != 0 then
      var v := m.cold[|m.cold| - 1];
      Eviction(Clear(m.(cold := m.cold[..|m.cold| - 1]), v), v)
    else if |m.hot| != 0 then
      var v := m.hot[|m.hot| - 1];
      Eviction(Clear(m.(hot := m.hot[..|m.hot| - 1]), v), v)
    else
      Eviction(m, -1)
  }

  /** The admission of a missed page at a free slot (OS_LRU-K.c:189-197): a
      node with one reference, entered in the index and the frame, at the
      front of cold, and moved on to hot at once when K is 1. */
  function Admit(m: State, page: nat, slot: nat): (r: State)
    requires slot < |m.frame| && |m.refcnt| == |m.frame| && page < |m.hash|
    ensures |r.frame| == |m.frame| && |r.hash| == |m.hash| && |r.refcnt| == |m.refcnt|
    ensures r.hash[page] == slot && r.frame[slot] == page && r.refcnt[slot] == 1
  {
    var n := m.(refcnt := m.refcnt[slot := 1], hash := m.hash[page := slot],
                frame := m.frame[slot := page], cold := [slot] + m.cold);
    if n.refcnt[slot] >= n.k then Promote(n, slot) else n
  }

  /** A hit on the node in slot `s`: one more reference unless it already has
      K, then promote. */
  function Hit(m: State, s: nat): (r: State)
    requires s < |m.refcnt|
    ensures r.frame == m.frame && r.hash == m.hash && r.used == m.used && r.faults == m.faults
    ensures |r.refcnt| == |m.refcnt| && forall t :: 0 <= t < |m.refcnt| && t != s ==> r.refcnt[t] == m.refcnt[t]
    ensures r.refcnt[s] == if m.refcnt[s] < m.k then m.refcnt[s] + 1 else m.refcnt[s]
  {
    var c := m.refcnt[s];
    Promote(m.(refcnt := m.refcnt[s := if c < m.k then c + 1 else c]), s)
  }

  /** A miss: one more fault, then the next free slot while the cache fills,
      or the slot of an evicted victim once it is full. */
  function Miss(m: State, page: nat): (r: State)
    requires Inv(m) && |m.frame| >= 1 && page < |m.hash|
    ensures |r.frame| == |m.frame| && |r.hash| == |m.hash| && |r.refcnt| == |m.refcnt|
    ensures r.faults == m.faults + 1
  {
    var m1 := m.(faults := m.faults + 1);
    if Full(m1) then
      var e := EvictOne(m1);
      Admit(e.state, page, e.slot as nat)
    else
      Admit(m1.(used := m1.used + 1, nextFree := m1.nextFree + 1), page, m1.nextFree)
  }

  /** The state change of cache_reference_and_print: a page outside the index
      is skipped, otherwise it is a hit or a miss. */
  function Reference(m: State, page: nat): (r: State)
    requires Inv(m) && |m.frame| >= 1
    ensures |r.frame| == |m.frame| && |r.hash| == |m.hash|
    ensures page >= |m.hash| ==> r == m
    ensures page < |m.hash| && m.hash[page] != -1 ==> r.faults == m.faults && r.frame == m.frame
    ensures page < |m.hash| && m.hash[page] == -1 ==> r.faults == m.faults + 1
  {
    if page >= |m.hash| then m
    else if m.hash[page] != -1 then Hit(m, m.hash[page] as nat)
    else Miss(m, page)
  }

  /** The driver loop of main_2 over a reference string. */
  function Run(m: State, refs: seq<nat>): (r: State)
    requires Inv(m) && |m.frame| >= 1
    ensures Inv(r) && |r.frame| == |m.frame| && |r.hash| == |m.hash| && r.k == m.k
    decreases |refs|
  {
    if refs == [] then m
    else
      ReferencePreservesInv(m, refs[0]);
      Run(Reference(m, refs[0]), refs[1..])
  }

  // ---------------------------------------------------------------------------
  // Promotion

  /** After promotion the node heads hot when it has K references and heads
      cold otherwise, it is in exactly one list, the other nodes stay in their
      lists in their relative order, and no list gains or loses a node. */
  lemma PromotePlacement(m: State, s: nat)
    requires s < |m.refcnt|
    requires Distinct(m.cold) && Distinct(m.hot) && Disjoint(m.cold, m.hot)
    requires s in m.cold || s in m.hot
    requires m.refcnt[s] < m.k ==> s in m.cold
    ensures var r := Promote(m, s);
      && (m.refcnt[s] >= m.k ==> r.hot[0] == s && s !in r.cold)
      && (m.refcnt[s] < m.k ==> r.cold[0] == s && s !in r.hot)
      && Without(r.cold, s) == Without(m.cold, s) && Without(r.hot, s) == Without(m.hot, s)
      && Distinct(r.cold) && Distinct(r.hot) && Disjoint(r.cold, r.hot)
      && |r.cold| + |r.hot| == |m.cold| + |m.hot|
      && (forall x :: x != s ==> (x in r.cold <==> x in m.cold) && (x in r.hot <==> x in m.hot))
      && r == m.(cold := r.cold, hot := r.hot)
  {
    var r := Promote(m, s);
    WithoutDistinct(m.cold, s);
    WithoutDistinct(m.hot, s);
    WithoutTwice(m.cold, s);
    WithoutTwice(m.hot, s);
    DisjointMember(m.cold, m.hot, s);
    if m.refcnt[s] >= m.k {
      ConsDistinct(s, Without(m.hot, s));
      ConsWithout(s, Without(m.hot, s));
    } else {
      ConsDistinct(s, Without(m.cold, s));
      ConsWithout(s, Without(m.cold, s));
      WithoutAbsent(m.hot, s);
    }
    forall i | 0 <= i < |r.hot| ensures r.hot[i] !in r.cold {
      if r.hot[i] != s {
        assert r.hot[i] in m.hot;
        DisjointMember(m.cold, m.hot, r.hot[i]);
      }
    }
  }

  /** Promotion of a node that already heads the list it belongs in changes
      nothing. */
  lemma PromoteIdempotent(m: State, s: nat)
    requires s < |m.refcnt| && Distinct(m.cold) && Distinct(m.hot) && Disjoint(m.cold, m.hot)
    requires if m.refcnt[s] >= m.k then m.hot != [] && m.hot[0] == s else m.cold != [] && m.cold[0] == s
    ensures Promote(m, s) == m
  {
    if m.refcnt[s] >= m.k {
      WithoutFront(m.hot);
      assert [s] + m.hot[1..] == m.hot;
      DisjointMember(m.cold, m.hot, s);
      WithoutAbsent(m.cold, s);
    } else {
      WithoutFront(m.cold);
      assert [s] + m.cold[1..] == m.cold;
    }
  }

  /** Promoting twice in a row is promoting once. */
  lemma PromoteTwice(m: State, s: nat)
    requires s < |m.refcnt|
    requires Distinct(m.cold) && Distinct(m.hot) && Disjoint(m.cold, m.hot)
    requires s in m.cold || s in m.hot
    requires m.refcnt[s] < m.k ==> s in m.cold
    ensures Promote(Promote(m, s), s) == Promote(m, s)
  {
    PromotePlacement(m, s);
    PromoteIdempotent(Promote(m, s), s);
  }

  /** The lists just before a promotion of `s`: as ListsInv demands, except
      that the count of `s` may have outgrown its list. */
  ghost predicate PromoteReady(k: nat, refcnt: seq<nat>, cold: seq<nat>, hot: seq<nat>, bound: nat, s: nat) {
    && bound <= |refcnt| && s < bound
    && Distinct(cold) && Distinct(hot) && Disjoint(cold, hot)
    && (forall i :: 0 <= i < |cold| ==> cold[i] < bound && (cold[i] != s ==> 1 <= refcnt[cold[i]] < k))
    && (forall i :: 0 <= i < |hot| ==> hot[i] < bound && (hot[i] != s ==> refcnt[hot[i]] == k))
    && (s in cold || s in hot)
    && 1 <= refcnt[s] <= k
    && (refcnt[s] < k ==> s in cold)
  }

  /** Promotion puts the node where its count says and so restores the list
      invariant, without changing which slots the lists hold. */
  lemma PromoteRestores(m: State, s: nat)
    requires PromoteReady(m.k, m.refcnt, m.cold, m.hot, m.used, s) && Counted(m.cold, m.hot, m.used)
    ensures var r := Promote(m, s);
      && ListsInv(r.k, r.refcnt, r.cold, r.hot, r.used) && Counted(r.cold, r.hot, r.used)
      && r == m.(cold := r.cold, hot := r.hot)
  {
    PromotePlacement(m, s);
    var r := Promote(m, s);
    forall i | 0 <= i < |r.cold| ensures r.cold[i] < r.used && 1 <= r.refcnt[r.cold[i]] < r.k {
      if r.cold[i] != s {
        assert r.cold[i] in m.cold;
      }
    }
    forall i | 0 <= i < |r.hot| ensures r.hot[i] < r.used && r.refcnt[r.hot[i]] == r.k {
      if r.hot[i] != s {
        assert r.hot[i] in m.hot;
      }
    }
    forall x | 0 <= x < r.used ensures x in r.cold || x in r.hot {
      if x != s {
        assert x in m.cold || x in m.hot;
      }
    }
  }

  // ---------------------------------------------------------------------------
  // Eviction

  /** The victim is the rear of cold whenever cold is non-empty, and then a
      node with fewer than K references; only an empty cold list sends the
      choice to the rear of hot. The victim leaves its list, its page leaves
      the index, its frame becomes -1, and nothing else changes. */
  lemma EvictionChoosesColdFirst(m: State)
    requires Inv(m) && m.used >= 1
    ensures var e := EvictOne(m); var v := e.slot; var r := e.state;
      && 0 <= v < m.used
      && (m.cold != [] ==> v == m.cold[|m.cold| - 1] && m.refcnt[v] < m.k
                           && r.cold == m.cold[..|m.cold| - 1] && r.hot == m.hot)
      && (m.cold == [] ==> v == m.hot[|m.hot| - 1] && r.hot == m.hot[..|m.hot| - 1] && r.cold == [])
      && 0 <= m.frame[v] < |m.hash|
      && r.frame == m.frame[v := -1]
      && r.hash == m.hash[m.frame[v] := -1]
      && r.used == m.used && r.nextFree == m.nextFree && r.faults == m.faults
      && r.refcnt == m.refcnt && r.k == m.k
  {
    var v := EvictOne(m).slot;
    if m.cold != [] {
      assert m.cold[|m.cold| - 1] in m.cold;
      assert m.refcnt[v] < m.k;
    } else {
      assert m.hot[|m.hot| - 1] in m.hot;
    }
  }

  // ---------------------------------------------------------------------------
  // Preservation of the invariant

  /** The state just before an admission at `slot`: the invariant holds for
      every occupied slot but `slot`, which is in no list, holds no page and is
      named by no index entry. */
  ghost predicate Vacant(m: State, slot: nat) {
    && Shape(m) && slot < m.used
    && ListsInv(m.k, m.refcnt, m.cold, m.hot, m.used)
    && slot !in m.cold && slot !in m.hot
    && |m.cold| + |m.hot| + 1 == m.used
    && (forall s :: 0 <= s < m.used && s != slot ==> s in m.cold || s in m.hot)
    && IndexedExcept(m.frame, m.hash, m.used, slot)
  }

  /** Indexed, but with `slot` empty and unnamed. */
  ghost predicate IndexedExcept(frame: seq<int>, hash: seq<int>, used: nat, slot: nat) {
    && slot < used <= |frame|
    && (forall s :: 0 <= s < used && s != slot ==> 0 <= frame[s] < |hash| && hash[frame[s]] == s)
    && frame[slot] == -1
    && (forall s :: used <= s < |frame| ==> frame[s] == -1)
    && (forall p :: 0 <= p < |hash| ==> hash[p] == -1 || (0 <= hash[p] < used && hash[p] != slot && frame[hash[p]] == p))
  }

  /** Entering a missed page at a vacant slot makes index and frames agree. */
  lemma IndexAdmit(frame: seq<int>, hash: seq<int>, used: nat, slot: nat, page: nat)
    requires IndexedExcept(frame, hash, used, slot) && page < |hash| && hash[page] == -1
    ensures Indexed(frame[slot := page], hash[page := slot], used)
  {
    forall s | 0 <= s < used && s != slot ensures frame[s] != page {
    }
  }

  /** Clearing an occupied slot leaves it vacant in the index. */
  lemma IndexClear(frame: seq<int>, hash: seq<int>, used: nat, v: nat)
    requires Indexed(frame, hash, used) && v < used
    ensures IndexedExcept(frame[v := -1], hash[frame[v] := -1], used, v)
  {
    var f := frame[v := -1];
    var h := hash[frame[v] := -1];
    forall s | 0 <= s < used && s != v ensures 0 <= f[s] < |h| && h[f[s]] == s {
      assert frame[s] != frame[v];
    }
    forall p | 0 <= p < |h| ensures h[p] == -1 || (0 <= h[p] < used && h[p] != v && f[h[p]] == p) {
      if p != frame[v] && hash[p] != -1 {
        assert hash[p] != v;
      }
    }
  }

  lemma AdmitPreservesInv(m: State, page: nat, slot: nat)
    requires Vacant(m, slot) && page < |m.hash| && m.hash[page] == -1
    ensures Inv(Admit(m, page, slot))
  {
    var n := m.(refcnt := m.refcnt[slot := 1], hash := m.hash[page := slot],
                frame := m.frame[slot := page], cold := [slot] + m.cold);
    IndexAdmit(m.frame, m.hash, m.used, slot, page);
    ConsDistinct(slot, m.cold);
    assert Disjoint(n.cold, n.hot);
    assert Counted(n.cold, n.hot, n.used) by {
      assert slot in n.cold;
      forall s | 0 <= s < n.used && s != slot ensures s in n.cold || s in n.hot {
        assert s in m.cold || s in m.hot;
      }
    }
    assert n.cold[0] == slot;
    forall i | 0 <= i < |n.hot| ensures n.hot[i] < n.used && n.hot[i] != slot && n.refcnt[n.hot[i]] == n.k {
      assert n.hot[i] in m.hot;
    }
    forall i | 0 <= i < |n.cold| ensures n.cold[i] < n.used && (n.cold[i] != slot ==> 1 <= n.refcnt[n.cold[i]] < n.k) {
      if i > 0 {
        assert n.cold[i] == m.cold[i - 1];
      }
    }
    if n.refcnt[slot] >= n.k {
      PromoteRestores(n, slot);
    }
  }

  /** Evicting from a full cache leaves the victim's slot vacant. */
  lemma EvictLeavesVacant(m: State)
    requires Inv(m) && Full(m) && |m.frame| >= 1
    ensures var e := EvictOne(m); e.slot >= 0 && Vacant(e.state, e.slot as nat)
  {
    if m.cold != [] {
      EvictColdVacant(m);
    } else {
      EvictHotVacant(m);
    }
  }

  /** EvictLeavesVacant when the victim is the rear of cold. */
  lemma EvictColdVacant(m: State)
    requires Inv(m) && Full(m) && |m.frame| >= 1 && m.cold != []
    ensures var e := EvictOne(m); e.slot >= 0 && Vacant(e.state, e.slot as nat)
  {
    EvictionChoosesColdFirst(m);
    var e := EvictOne(m);
    var v := e.slot as nat;
    var r := e.state;
    IndexClear(m.frame, m.hash, m.used, v);
    DisjointMember(m.cold, m.hot, v);
    WithoutLast(m.cold);
    PrefixDistinct(m.cold, |m.cold| - 1);
    assert v !in r.cold by { WithoutDistinct(m.cold, v); }
    forall s | 0 <= s < r.used && s != v ensures s in r.cold || s in r.hot {
      if s in m.cold {
        InButLast(m.cold, s);
      }
    }
    DisjointSub(m.cold, r.cold, r.hot);
  }

  /** EvictLeavesVacant when cold is empty and the victim is the rear of hot. */
  lemma EvictHotVacant(m: State)
    requires Inv(m) && Full(m) && |m.frame| >= 1 && m.cold == []
    ensures var e := EvictOne(m); e.slot >= 0 && Vacant(e.state, e.slot as nat)
  {
    EvictionChoosesColdFirst(m);
    var e := EvictOne(m);
    var v := e.slot as nat;
    var r := e.state;
    IndexClear(m.frame, m.hash, m.used, v);
    WithoutLast(m.hot);
    PrefixDistinct(m.hot, |m.hot| - 1);
    assert v !in r.hot by { WithoutDistinct(m.hot, v); }
    forall s | 0 <= s < r.used && s != v ensures s in r.cold || s in r.hot {
      assert s in m.hot;
      InButLast(m.hot, s);
    }
    forall i | 0 <= i < |r.hot| ensures r.hot[i] < r.used && r.refcnt[r.hot[i]] == r.k {
      assert r.hot[i] == m.hot[i];
    }
    assert ListsInv(r.k, r.refcnt, r.cold, r.hot, r.used);
    assert IndexedExcept(r.frame, r.hash, r.used, v);
    assert Shape(r) && v < r.used && |r.cold| + |r.hot| + 1 == r.used;
  }

  /** While the cache fills, the next free slot is vacant. */
  lemma FreshSlotVacant(m: State)
    requires Inv(m) && !Full(m)
    ensures Vacant(m.(used := m.used + 1, nextFree := m.nextFree + 1), m.nextFree)
  {
    var n := m.(used := m.used + 1, nextFree := m.nextFree + 1);
    assert m.used !in m.cold && m.used !in m.hot;
  }

  /** Counting a fault touches nothing the invariant speaks about. */
  lemma FaultKeepsInv(m: State)
    requires Inv(m)
    ensures Inv(m.(faults := m.faults + 1))
  {
  }

  /** A miss counts the fault first; the count changes neither the invariant
      nor whether the cache is full. */
  lemma MissAfterFault(m: State, page: nat)
    requires Inv(m) && |m.frame| >= 1 && page < |m.hash|
    ensures var m1 := m.(faults := m.faults + 1);
      && Inv(m1) && Full(m1) == Full(m)
      && (Full(m) ==> Miss(m, page) == Admit(EvictOne(m1).state, page, EvictOne(m1).slot as nat))
      && (!Full(m) ==> Miss(m, page) == Admit(m1.(used := m1.used + 1, nextFree := m1.nextFree + 1), page, m1.nextFree))
  {
    FaultKeepsInv(m);
  }

  /** An occupied slot is in exactly one list, and it is cold exactly while
      its count is below K. */
  lemma ListOfSlot(m: State, s: nat)
    requires Inv(m) && s < m.used
    ensures s in m.cold || s in m.hot
    ensures s in m.cold <==> s !in m.hot
    ensures m.refcnt[s] < m.k <==> s in m.cold
  {
    DisjointMember(m.cold, m.hot, s);
    if s in m.hot {
      var i :| 0 <= i < |m.hot| && m.hot[i] == s;
    } else {
      var i :| 0 <= i < |m.cold| && m.cold[i] == s;
    }
  }

  /** A hit leaves the lists ready for promotion of the node. */
  lemma HitReady(m: State, s: nat)
    requires Inv(m) && s < m.used
    ensures var c := m.refcnt[s]; var n := m.(refcnt := m.refcnt[s := if c < m.k then c + 1 else c]);
      PromoteReady(n.k, n.refcnt, n.cold, n.hot, n.used, s)
  {
    assert s in m.cold || s in m.hot;
    DisjointMember(m.cold, m.hot, s);
    if s in m.hot {
      var i :| 0 <= i < |m.hot| && m.hot[i] == s;
    } else {
      var i :| 0 <= i < |m.cold| && m.cold[i] == s;
    }
  }

  lemma HitPreservesInv(m: State, s: nat)
    requires Inv(m) && s < m.used
    ensures Inv(Hit(m, s))
  {
    var c := m.refcnt[s];
    var n := m.(refcnt := m.refcnt[s := if c < m.k then c + 1 else c]);
    HitReady(m, s);
    PromoteRestores(n, s);
  }

  lemma MissPreservesInv(m: State, page: nat)
    requires Inv(m) && |m.frame| >= 1 && page < |m.hash| && m.hash[page] == -1
    ensures Inv(Miss(m, page))
  {
    if Full(m) {
      FullMissPreservesInv(m, page);
    } else {
      FillMissPreservesInv(m, page);
    }
  }

  lemma FullMissPreservesInv(m: State, page: nat)
    requires Inv(m) && |m.frame| >= 1 && page < |m.hash| && m.hash[page] == -1 && Full(m)
    ensures Inv(Miss(m, page))
  {
    MissAfterFault(m, page);
    EvictAdmitPreservesInv(m.(faults := m.faults + 1), page);
  }

  lemma EvictAdmitPreservesInv(m: State, page: nat)
    requires Inv(m) && |m.frame| >= 1 && page < |m.hash| && m.hash[page] == -1 && Full(m)
    ensures var e := EvictOne(m); e.slot >= 0 && Inv(Admit(e.state, page, e.slot as nat))
  {
    EvictLeavesVacant(m);
    var e := EvictOne(m);
    AdmitPreservesInv(e.state, page, e.slot as nat);
  }

  lemma FillMissPreservesInv(m: State, page: nat)
    requires Inv(m) && |m.frame| >= 1 && page < |m.hash| && m.hash[page] == -1 && !Full(m)
    ensures Inv(Miss(m, page))
  {
    var m1 := m.(faults := m.faults + 1);
    MissAfterFault(m, page);
    FreshSlotVacant(m1);
    var r := Admit(m1.(used := m1.used + 1, nextFree := m1.nextFree + 1), page, m1.nextFree);
    AdmitPreservesInv(m1.(used := m1.used + 1, nextFree := m1.nextFree + 1), page, m1.nextFree);
    assert Inv(r) && Miss(m, page) == r;
  }

  /** Every reference keeps the invariant, and the configuration with it. */
  lemma ReferencePreservesInv(m: State, page: nat)
    requires Inv(m) && |m.frame| >= 1
    ensures var r := Reference(m, page);
      Inv(r) && |r.frame| == |m.frame| && |r.hash| == |m.hash| && r.k == m.k
  {
    if page < |m.hash| {
      if m.hash[page] != -1 {
        HitPreservesInv(m, m.hash[page] as nat);
      } else {
        MissPreservesInv(m, page);
      }
    }
  }

  // ---------------------------------------------------------------------------
  // What one reference does

  /** The index answers exactly the residency question. */
  lemma ResidentIndexed(m: State, page: nat)
    requires Inv(m) && page < |m.hash|
    ensures Resident(m, page) <==> m.hash[page] != -1
  {
    if m.hash[page] != -1 {
      assert m.frame[m.hash[page]] == page;
    }
    if Resident(m, page) {
      var s :| 0 <= s < m.used && s < |m.frame| && m.frame[s] == page;
      assert m.hash[m.frame[s]] == s;
    }
  }

  /** The counters: a skipped page changes nothing at all; a miss counts one
      fault and takes one more frame unless the cache is full, in which case
      one page goes and one comes; a hit counts nothing and takes no frame. */
  lemma ReferenceCounters(m: State, page: nat)
    requires Inv(m) && |m.frame| >= 1
    ensures var r := Reference(m, page);
      && (page >= |m.hash| ==> r == m)
      && var miss := page < |m.hash| && !Resident(m, page);
      && r.faults == (if miss then m.faults + 1 else m.faults)
      && r.used == (if miss && !Full(m) then m.used + 1 else m.used)
      && r.used <= |r.frame|
  {
    ReferencePreservesInv(m, page);
    if page < |m.hash| {
      ResidentIndexed(m, page);
      if m.hash[page] != -1 {
        PromotePlacement(m.(refcnt := m.refcnt[m.hash[page] := if m.refcnt[m.hash[page]] < m.k then m.refcnt[m.hash[page]] + 1 else m.refcnt[m.hash[page]]]), m.hash[page] as nat)
          by { HitReady(m, m.hash[page] as nat); }
      } else if Full(m) {
        MissShape(m, page);
      } else {
        MissShape(m, page);
      }
    }
  }

  /** The lists a full cache keeps once its victim has left them: cold
      without its rear, or hot without its rear when cold is empty. */
  function ColdAfterEviction(m: State): seq<nat> {
    if m.cold != [] then m.cold[..|m.cold| - 1] else m.cold
  }

  function HotAfterEviction(m: State): seq<nat> {
    if m.cold != [] || m.hot == [] then m.hot else m.hot[..|m.hot| - 1]
  }

  /** A miss counts one fault and admits the page at a slot within the
      frames: the victim's slot when the cache is full, keeping `used`, and
      the next free slot otherwise, with `used` one larger. The slot then
      holds the page with one reference and is pushed onto the front of hot
      when K is 1 and of cold otherwise; every other node keeps its list and
      its place in it, once a full cache's victim has left. */
  lemma MissShape(m: State, page: nat)
    requires Inv(m) && |m.frame| >= 1 && page < |m.hash| && m.hash[page] == -1
    ensures var r := Miss(m, page); var slot := if Full(m) then EvictOne(m).slot else m.nextFree;
      && 0 <= slot < |m.frame|
      && r.faults == m.faults + 1
      && r.used == (if Full(m) then m.used else m.used + 1)
      && r.hash[page] == slot && r.frame[slot] == page && r.refcnt[slot] == 1
      && (Full(m) ==> r.hash[m.frame[slot]] == -1 && r.frame == m.frame[slot := page])
      && r.k == m.k && r.nextFree == (if Full(m) then m.nextFree else m.nextFree + 1)
      && var cold := if Full(m) then ColdAfterEviction(m) else m.cold;
      && var hot := if Full(m) then HotAfterEviction(m) else m.hot;
      && (m.k == 1 ==> r.cold == cold && r.hot == [slot] + hot)
      && (m.k > 1 ==> r.cold == [slot] + cold && r.hot == hot)
      && (m.k == 1 ==> r.hot != [] && r.hot[0] == slot)
      && (m.k > 1 ==> r.cold != [] && r.cold[0] == slot)
  {
    if Full(m) {
      FullMissShape(m, page);
    } else {
      FillMissShape(m, page);
    }
  }

  /** A miss on a full cache: the page takes the victim's slot. */
  lemma FullMissShape(m: State, page: nat)
    requires Inv(m) && |m.frame| >= 1 && page < |m.hash| && m.hash[page] == -1 && Full(m)
    ensures var r := Miss(m, page); var e := EvictOne(m);
      && 0 <= e.slot < |m.frame|
      && r.faults == m.faults + 1 && r.used == m.used
      && r.hash[page] == e.slot && r.frame[e.slot] == page && r.refcnt[e.slot] == 1
      && r.hash[m.frame[e.slot]] == -1 && r.frame == m.frame[e.slot := page]
      && r.k == m.k && r.nextFree == m.nextFree
      && (m.cold != [] ==> e.slot == m.cold[|m.cold| - 1])
      && (m.cold == [] ==> m.hot != [] && e.slot == m.hot[|m.hot| - 1])
      && (m.k == 1 ==> r.cold == ColdAfterEviction(m) && r.hot == [e.slot] + HotAfterEviction(m))
      && (m.k > 1 ==> r.cold == [e.slot] + ColdAfterEviction(m) && r.hot == HotAfterEviction(m))
      && (m.k == 1 ==> r.hot != [] && r.hot[0] == e.slot)
      && (m.k > 1 ==> r.cold != [] && r.cold[0] == e.slot)
  {
    var m1 := m.(faults := m.faults + 1);
    MissAfterFault(m, page);
    EvictAdmitShape(m1, page);
    assert EvictOne(m).slot == EvictOne(m1).slot;
  }

  /** A miss while a frame is free: the page takes the next free slot. */
  lemma FillMissShape(m: State, page: nat)
    requires Inv(m) && |m.frame| >= 1 && page < |m.hash| && m.hash[page] == -1 && !Full(m)
    ensures var r := Miss(m, page); var slot := m.nextFree;
      && slot < |m.frame|
      && r.faults == m.faults + 1 && r.used == m.used + 1
      && r.hash[page] == slot && r.frame[slot] == page && r.refcnt[slot] == 1
      && r.hash == m.hash[page := slot] && r.frame == m.frame[slot := page]
      && r.k == m.k && r.nextFree == m.nextFree + 1
      && (m.k == 1 ==> r.cold == m.cold && r.hot == [slot] + m.hot)
      && (m.k > 1 ==> r.cold == [slot] + m.cold && r.hot == m.hot)
      && (m.k == 1 ==> r.hot != [] && r.hot[0] == slot)
      && (m.k > 1 ==> r.cold != [] && r.cold[0] == slot)
  {
    var m1 := m.(faults := m.faults + 1);
    MissAfterFault(m, page);
    FreshSlotVacant(m1);
    AdmitShape(m1.(used := m1.used + 1, nextFree := m1.nextFree + 1), page, m1.nextFree);
  }

  lemma EvictAdmitShape(m: State, page: nat)
    requires Inv(m) && |m.frame| >= 1 && page < |m.hash| && m.hash[page] == -1 && Full(m)
    ensures var e := EvictOne(m); var r := Admit(e.state, page, e.slot as nat); var slot := e.slot;
      && 0 <= slot < |m.frame|
      && r.faults == m.faults && r.used == m.used
      && r.hash[page] == slot && r.frame[slot] == page && r.refcnt[slot] == 1
      && r.hash[m.frame[slot]] == -1 && r.frame == m.frame[slot := page]
      && r.k == m.k && r.nextFree == m.nextFree
      && (m.cold != [] ==> slot == m.cold[|m.cold| - 1])
      && (m.cold == [] ==> m.hot != [] && slot == m.hot[|m.hot| - 1])
      && (m.k == 1 ==> r.cold == ColdAfterEviction(m) && r.hot == [slot] + HotAfterEviction(m))
      && (m.k > 1 ==> r.cold == [slot] + ColdAfterEviction(m) && r.hot == HotAfterEviction(m))
      && (m.k == 1 ==> r.hot != [] && r.hot[0] == slot)
      && (m.k > 1 ==> r.cold != [] && r.cold[0] == slot)
  {
    EvictionChoosesColdFirst(m);
    EvictLeavesVacant(m);
    var e := EvictOne(m);
    AdmitShape(e.state, page, e.slot as nat);
    assert m.frame[e.slot] != page;
  }

  /** Admission at a vacant slot writes that slot's index entry, frame and
      count, and pushes the slot onto the front of cold, or of hot when K is
      1, with the other nodes kept in their lists and order. */
  lemma AdmitShape(m: State, page: nat, slot: nat)
    requires Vacant(m, slot) && page < |m.hash| && m.hash[page] == -1
    ensures var r := Admit(m, page, slot);
      && r.faults == m.faults && r.used == m.used
      && r.hash == m.hash[page := slot] && r.frame == m.frame[slot := page] && r.refcnt == m.refcnt[slot := 1]
      && r.k == m.k && r.nextFree == m.nextFree
      && (m.k == 1 ==> r.cold == m.cold && r.hot == [slot] + m.hot)
      && (m.k > 1 ==> r.cold == [slot] + m.cold && r.hot == m.hot)
      && (m.k == 1 ==> r.hot != [] && r.hot[0] == slot)
      && (m.k > 1 ==> r.cold != [] && r.cold[0] == slot)
  {
    var n := m.(refcnt := m.refcnt[slot := 1], hash := m.hash[page := slot],
                frame := m.frame[slot := page], cold := [slot] + m.cold);
    if n.refcnt[slot] >= n.k {
      ConsDistinct(slot, m.cold);
      forall i | 0 <= i < |n.hot| ensures n.hot[i] !in n.cold {
        assert n.hot[i] in m.hot;
      }
      PromotePlacement(n, slot);
      ConsWithout(slot, m.cold);
      WithoutAbsent(m.cold, slot);
      WithoutAbsent(m.hot, slot);
    }
  }

  /** After a reference to a page in range the page is resident: the index
      names its node, whose frame holds the page. A hit keeps the page in its
      slot and every frame as it was, and adds a reference only below K; a
      miss admits the page with one reference. Either way the node then heads
      hot if it has K references, and heads cold otherwise. */
  lemma ReferenceMakesResident(m: State, page: nat)
    requires Inv(m) && |m.frame| >= 1 && page < |m.hash|
    ensures var r := Reference(m, page); var s := r.hash[page];
      && 0 <= s < r.used && r.frame[s] == page && Resident(r, page)
      && (Resident(m, page) ==> s == m.hash[page] && r.frame == m.frame && r.hash == m.hash
                                && r.refcnt[s] == (if m.refcnt[s] < m.k then m.refcnt[s] + 1 else m.k))
      && (!Resident(m, page) ==> r.refcnt[s] == 1)
      && 1 <= r.refcnt[s] <= r.k
      && (r.refcnt[s] == r.k ==> r.hot != [] && r.hot[0] == s)
      && (r.refcnt[s] < r.k ==> r.cold != [] && r.cold[0] == s)
  {
    ResidentIndexed(m, page);
    if m.hash[page] != -1 {
      HitResident(m, page);
    } else {
      MissResident(m, page);
    }
  }

  /** ReferenceMakesResident for a hit. */
  lemma HitResident(m: State, page: nat)
    requires Inv(m) && |m.frame| >= 1 && page < |m.hash| && m.hash[page] != -1
    ensures var r := Reference(m, page); var s := m.hash[page];
      && r.hash[page] == s && 0 <= s < r.used && r.frame[s] == page && Resident(r, page)
      && r.frame == m.frame && r.hash == m.hash
      && r.refcnt[s] == (if m.refcnt[s] < m.k then m.refcnt[s] + 1 else m.k)
      && 1 <= r.refcnt[s] <= r.k
      && (r.refcnt[s] == r.k ==> r.hot != [] && r.hot[0] == s)
      && (r.refcnt[s] < r.k ==> r.cold != [] && r.cold[0] == s)
  {
    ReferencePreservesInv(m, page);
    var s := m.hash[page] as nat;
    HitReady(m, s);
    var c := m.refcnt[s];
    var n := m.(refcnt := m.refcnt[s := if c < m.k then c + 1 else c]);
    PromotePlacement(n, s);
    ResidentIndexed(Reference(m, page), page);
  }

  /** ReferenceMakesResident for a miss. */
  lemma MissResident(m: State, page: nat)
    requires Inv(m) && |m.frame| >= 1 && page < |m.hash| && m.hash[page] == -1
    ensures var r := Reference(m, page); var s := r.hash[page];
      && 0 <= s < r.used && r.frame[s] == page && Resident(r, page)
      && r.refcnt[s] == 1 && 1 <= r.k
      && (r.refcnt[s] == r.k ==> r.hot != [] && r.hot[0] == s)
      && (r.refcnt[s] < r.k ==> r.cold != [] && r.cold[0] == s)
  {
    ReferencePreservesInv(m, page);
    MissShape(m, page);
    ResidentIndexed(Reference(m, page), page);
  }

  // ---------------------------------------------------------------------------
  // Reference strings

  /** The reference string that names `page` `n` times. */
  function Repeat(page: nat, n: nat): (r: seq<nat>)
    ensures |r| == n && forall i :: 0 <= i < n ==> r[i] == page
  {
    if n == 0 then [] else [page] + Repeat(page, n - 1)
  }

  /** Referencing one page over and over faults at most once: on the first
      reference if the page was not resident, never after. */
  lemma {:induction false} RepeatedPageFaultsOnce(m: State, page: nat, n: nat)
    requires Inv(m) && |m.frame| >= 1 && page < |m.hash|
    ensures Run(m, Repeat(page, n)).faults == m.faults + (if n > 0 && !Resident(m, page) then 1 else 0)
    decreases n
  {
    if n > 0 {
      var refs := Repeat(page, n);
      var r := Reference(m, page);
      ReferenceCounters(m, page);
      ReferenceMakesResident(m, page);
      ReferencePreservesInv(m, page);
      assert refs[1..] == Repeat(page, n - 1);
      RepeatedPageFaultsOnce(r, page, n - 1);
    }
  }

  /** Run takes the references one at a time. */
  lemma RunStep(m: State, refs: seq<nat>)
    requires Inv(m) && |m.frame| >= 1 && refs != []
    ensures Inv(Reference(m, refs[0])) && |Reference(m, refs[0]).frame| == |m.frame|
    ensures Run(m, refs) == Run(Reference(m, refs[0]), refs[1..])
  {
    ReferencePreservesInv(m, refs[0]);
  }

  /** A run never loses a fault and counts at most one per reference. */
  lemma {:induction false} RunFaultsBounded(m: State, refs: seq<nat>)
    requires Inv(m) && |m.frame| >= 1
    ensures m.faults <= Run(m, refs).faults <= m.faults + |refs|
    decreases |refs|
  {
    if refs != [] {
      ReferenceCounters(m, refs[0]);
      ReferencePreservesInv(m, refs[0]);
      RunFaultsBounded(Reference(m, refs[0]), refs[1..]);
    }
  }
}
