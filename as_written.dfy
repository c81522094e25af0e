/** The list bookkeeping of OS_LRU-K.c exactly as written, on the same slot
    arena as the rest of the model but as plain values, with total accessors
    (a read outside an array gives -1, a write outside it is dropped).

    The difference from module Policy is in promote_on_hit: it unlinks the
    node from cold and then from hot once the node has K references, whatever
    list holds it, and list_unlink decrements the size of the list it is
    given even when the node is not in it. cache_evict_one then trusts
    cold.size. For a hot node the unlink from cold also clears its links
    before the unlink from hot reads them, so hot's front or rear can be left
    NULL and then reset to the node itself. The lemmas at the end evaluate
    both models on reference strings where the C code evicts a hot page while
    a cold page is resident, and where with K = 1 it evicts the most recent
    page. */
module AsWritten {
  import opened Links
  import opened Seqs
  import Policy

  datatype CState = CState(
    k: nat,
    frame: seq<int>,
    hash: seq<int>,
    refcnt: seq<int>,
    prev: seq<int>,
    next: seq<int>,
    cold: List,
    hot: List,
    used: nat,
    nextFree: nat,
    faults: nat)

  function At(s: seq<int>, i: int): (r: int) {
    if 0 <= i < |s| then s[i] else -1
  }

  function Put(s: seq<int>, i: int, v: int): (r: seq<int>) {
    if 0 <= i < |s| then s[i := v] else s
  }

  /** list_unlink (OS_LRU-K.c:41-49), statement by statement; -1 is NULL. */
  function Unlink(c: CState, l: List, n: int): (r: (CState, List)) {
    if n == -1 then (c, l)
    else
      var c1 := if At(c.prev, n) != -1 then c.(next := Put(c.next, At(c.prev, n), At(c.next, n))) else c;
      var c2 := if At(c1.next, n) != -1 then c1.(prev := Put(c1.prev, At(c1.next, n), At(c1.prev, n))) else c1;
      var front := if l.front == n then At(c2.next, n) else l.front;
      var rear := if l.rear == n then At(c2.prev, n) else l.rear;
      var c3 := c2.(prev := Put(c2.prev, n, -1), next := Put(c2.next, n, -1));
      (c3, List(front, rear, if l.size > 0 then l.size - 1 else 0))
  }

  /** list_push_front (OS_LRU-K.c:51-58). */
  function PushFront(c: CState, l: List, n: int): (r: (CState, List)) {
    var c1 := c.(prev := Put(c.prev, n, -1), next := Put(c.next, n, l.front));
    var c2 := if l.front != -1 then c1.(prev := Put(c1.prev, l.front, n)) else c1;
    (c2, List(n, if l.rear == -1 then n else l.rear, l.size + 1))
  }

  /** list_pop_rear (OS_LRU-K.c:60-65): the new state, the new head, the node. */
  function PopRear(c: CState, l: List): (r: (CState, List, int)) {
    if l.rear == -1 then (c, l, -1)
    else
      var (c1, l1) := Unlink(c, l, l.rear);
      (c1, l1, l.rear)
  }

  /** cache_evict_one (OS_LRU-K.c:130-143): the choice is made on the sizes. */
  function Evict(c: CState): (r: (CState, int)) {
    var (c1, victim) :=
      if c.cold.size != 0 then
        var (c0, l, v) := PopRear(c, c.cold); (c0.(cold := l), v)
      else if c.hot.size != 0 then
        var (c0, l, v) := PopRear(c, c.hot); (c0.(hot := l), v)
      else (c, -1);
    if victim == -1 then (c1, -1)
    else
      var page := At(c1.frame, victim);
      (c1.(hash := Put(c1.hash, page, -1), frame := Put(c1.frame, victim, -1)), victim)
  }

  /** promote_on_hit (OS_LRU-K.c:146-155) as written. */
  function Promote(c: CState, n: int): (r: CState) {
    if At(c.refcnt, n) >= c.k then
      var (c1, cold) := Unlink(c, c.cold, n);
      var (c2, hot) := Unlink(c1.(cold := cold), c1.hot, n);
      var (c3, hot2) := PushFront(c2.(hot := hot), hot, n);
      c3.(hot := hot2)
    else
      var (c1, cold) := Unlink(c, c.cold, n);
      var (c2, cold2) := PushFront(c1.(cold := cold), cold, n);
      c2.(cold := cold2)
  }

  /** The slot a miss admits its page at (OS_LRU-K.c:180-187), and the state
      it leaves. */
  function MissSlot(c: CState): (r: (CState, int)) {
    if c.used >= |c.frame| then Evict(c)
    else (c.(used := c.used + 1, nextFree := c.nextFree + 1), c.nextFree)
  }

  /** The state change of cache_reference_and_print (OS_LRU-K.c:167-209). */
  function Reference(c: CState, page: nat): (r: CState) {
    if page >= |c.hash| then c
    else if c.hash[page] == -1 then
      var (c1, slot) := MissSlot(c.(faults := c.faults + 1));
      var c2 := c1.(refcnt := Put(c1.refcnt, slot, 1), hash := Put(c1.hash, page, slot),
                    frame := Put(c1.frame, slot, page));
      var (c3, cold) := PushFront(c2, c2.cold, slot);
      var c4 := c3.(cold := cold);
      if 1 >= c4.k then Promote(c4, slot) else c4
    else
      var n := c.hash[page];
      var r := At(c.refcnt, n);
      Promote(c.(refcnt := if r < c.k then Put(c.refcnt, n, r + 1) else c.refcnt), n)
  }

  function Run(c: CState, refs: seq<nat>): (r: CState)
    decreases |refs|
  {
    if refs == [] then c else Run(Reference(c, refs[0]), refs[1..])
  }

  /** cache_create (OS_LRU-K.c:98-113). */
  function Create(frames: nat, k: nat, maxPageIdInclusive: nat): (r: CState) {
    CState(if k == 0 then 1 else k, seq(frames, _ => -1), seq(maxPageIdInclusive + 1, _ => -1),
           seq(frames, _ => 0), seq(frames, _ => -1), seq(frames, _ => -1),
           Empty, Empty, 0, 0, 0)
  }

  // ---------------------------------------------------------------------------
  // Where the C helpers agree with the verified list operations

  /** list_unlink writes the same links and head as `Links.UnlinkPrev`,
      `Links.UnlinkNext` and `Links.UnlinkHead`, whatever list it is given. */
  lemma UnlinkIsLinksUnlink(c: CState, l: List, n: nat)
    requires n < |c.prev| && n < |c.next|
    ensures Unlink(c, l, n)
      == (c.(prev := UnlinkPrev(c.prev, c.next, n), next := UnlinkNext(c.prev, c.next, n)),
          UnlinkHead(c.prev, c.next, l, n))
  {
    var p, q := c.prev[n], c.next[n];
    var c1 := if p != -1 then c.(next := Put(c.next, p, q)) else c;
    assert At(c1.next, n) == q && At(c1.prev, n) == p by {
      if p == n { assert c1.next == c.next; }
    }
    var c2 := if q != -1 then c1.(prev := Put(c1.prev, q, p)) else c1;
    assert At(c2.next, n) == q;
    if q == n {
      assert At(c2.prev, n) == p;
    } else {
      assert At(c2.prev, n) == p;
    }
  }

  /** list_push_front writes the same links and head as `Links.PushPrev`,
      `Links.PushNext` and `Links.PushHead`. */
  lemma PushFrontIsLinksPush(c: CState, l: List, n: nat)
    requires n < |c.prev| && n < |c.next|
    ensures PushFront(c, l, n)
      == (c.(prev := PushPrev(c.prev, l, n), next := PushNext(c.next, l, n)), PushHead(l, n))
  {
  }

  /** Unlinking a node from the list that holds it leaves a chain of the
      other nodes, with the size one smaller. */
  lemma UnlinkInList(c: CState, l: List, ls: seq<nat>, i: nat)
    requires Chain(c.prev, c.next, l, ls) && i < |ls|
    ensures var r := Unlink(c, l, ls[i]);
      && Chain(r.0.prev, r.0.next, r.1, Without(ls, ls[i]))
      && r.1.size == l.size - 1
      && |r.0.prev| == |c.prev| && |r.0.next| == |c.next| && r.0.hot == c.hot
  {
    UnlinkIsLinksUnlink(c, l, ls[i]);
    ChainUnlink(c.prev, c.next, l, ls, i);
    WithoutAt(ls, i);
  }

  /** Unlinking a node from a non-empty list that does not hold it keeps the
      list's front and rear, but takes its size below the number of nodes it
      still holds. This is the size drift of promote_on_hit. */
  lemma UnlinkElsewhere(c: CState, l: List, ls: seq<nat>, n: nat)
    requires Chain(c.prev, c.next, l, ls) && ls != [] && n !in ls
    ensures var r := Unlink(c, l, n).1;
      r.front == l.front && r.rear == l.rear && r.size == |ls| - 1
  {
    assert ls[0] in ls && ls[|ls| - 1] in ls;
  }

  /** list_pop_rear on a well-formed list returns NULL when it is empty, and
      otherwise its rear node, leaving a chain of the others. */
  lemma PopRearInList(c: CState, l: List, ls: seq<nat>)
    requires Chain(c.prev, c.next, l, ls)
    ensures ls == [] ==> PopRear(c, l) == (c, l, -1)
    ensures ls != [] ==> var r := PopRear(c, l);
      r.2 == ls[|ls| - 1] && Chain(r.0.prev, r.0.next, r.1, ls[..|ls| - 1])
  {
    if ls != [] {
      UnlinkInList(c, l, ls, |ls| - 1);
      WithoutLast(ls);
    }
  }

  /** While both sizes are exact, cache_evict_one takes the rear of cold, or
      the rear of hot when cold is empty, as `Policy.EvictOne` does, and clears
      that slot's frame. */
  lemma EvictWithExactSizes(c: CState, cs: seq<nat>, hs: seq<nat>)
    requires Chain(c.prev, c.next, c.cold, cs) && Chain(c.prev, c.next, c.hot, hs)
    ensures var (r, v) := Evict(c);
      && v == (if cs != [] then cs[|cs| - 1] else if hs != [] then hs[|hs| - 1] else -1)
      && (v != -1 ==> At(r.frame, v) == -1)
  {
    PopRearInList(c, c.cold, cs);
    PopRearInList(c, c.hot, hs);
  }

  /** cache_create: the same counters, frames, index and counts as
      `Policy.Create`, and heads that spell out its two empty lists. */
  lemma CreateIsPolicyCreate(frames: nat, k: nat, maxPageIdInclusive: nat)
    ensures var c, m := Create(frames, k, maxPageIdInclusive), Policy.Create(frames, k, maxPageIdInclusive);
      && c.k == m.k && c.frame == m.frame && c.hash == m.hash && c.refcnt == m.refcnt
      && c.used == m.used && c.nextFree == m.nextFree && c.faults == m.faults
      && Chain(c.prev, c.next, c.cold, m.cold) && Chain(c.prev, c.next, c.hot, m.hot)
  {
  }

  /** promote_on_hit on a cold node below K references moves it to the front
      of cold, as the intended promotion does, and leaves hot's head alone. */
  lemma PromoteColdBelowK(c: CState, cs: seq<nat>, i: nat)
    requires Chain(c.prev, c.next, c.cold, cs) && i < |cs|
    requires At(c.refcnt, cs[i]) < c.k
    ensures var r := Promote(c, cs[i]);
      Chain(r.prev, r.next, r.cold, [cs[i]] + Without(cs, cs[i])) && r.hot == c.hot
  {
    var n := cs[i];
    var (c1, cold) := Unlink(c, c.cold, n);
    var (c2, cold2) := PushFront(c1.(cold := cold), cold, n);
    assert Promote(c, n) == c2.(cold := cold2);
    ColdUnlinkPush(c, cs, i);
  }

  /** The two steps of promote_on_hit's cold branch on a node of cold. */
  lemma ColdUnlinkPush(c: CState, cs: seq<nat>, i: nat)
    requires Chain(c.prev, c.next, c.cold, cs) && i < |cs|
    ensures var (c1, cold) := Unlink(c, c.cold, cs[i]);
      var (c2, cold2) := PushFront(c1.(cold := cold), cold, cs[i]);
      Chain(c2.prev, c2.next, cold2, [cs[i]] + Without(cs, cs[i])) && c2.hot == c.hot
  {
    var n := cs[i];
    UnlinkInList(c, c.cold, cs, i);
    var (c1, cold) := Unlink(c, c.cold, n);
    WithoutDistinct(cs, n);
    PushFrontIsLinksPush(c1.(cold := cold), cold, n);
    ChainPush(c1.prev, c1.next, cold, Without(cs, n), n);
  }

  /** promote_on_hit with K references on the rear of a hot list of two or
      more nodes that cold does not hold: the unlink from cold already takes
      the node out of hot's chain and clears its links, so the unlink from hot
      sets hot's rear to NULL, and the push makes the node hot's front and
      its rear, with the old front still linked behind it. This is the head
      drift: whatever K is, the next pop of hot's rear takes the page just
      referenced. */
  lemma HeadDriftAtRear(c: CState, cs: seq<nat>, hs: seq<nat>)
    requires Chain(c.prev, c.next, c.cold, cs) && Chain(c.prev, c.next, c.hot, hs)
    requires |hs| >= 2 && hs[|hs| - 1] !in cs && At(c.refcnt, hs[|hs| - 1]) >= c.k
    ensures var n := hs[|hs| - 1]; var r := Promote(c, n);
      r.hot.front == n && r.hot.rear == n && r.hot.size == |hs| && At(r.next, n) == hs[0]
  {
    var n := hs[|hs| - 1];
    Neighbours(c.prev, c.next, c.hot, hs, |hs| - 1);
    assert hs[0] != n by { assert hs[0] == hs[..|hs| - 1][0]; }
    assert c.cold.front != n && c.cold.rear != n by {
      if cs != [] { assert cs[0] in cs && cs[|cs| - 1] in cs; }
    }
    UnlinkIsLinksUnlink(c, c.cold, n);
    var (c1, cold) := Unlink(c, c.cold, n);
    assert c1.prev[n] == -1 && c1.next[n] == -1 && c1.hot == c.hot;
    UnlinkIsLinksUnlink(c1.(cold := cold), c1.hot, n);
    var (c2, hot) := Unlink(c1.(cold := cold), c1.hot, n);
    assert hot == List(hs[0], -1, |hs| - 1);
    PushFrontIsLinksPush(c2.(hot := hot), hot, n);
  }

  /** The states of the C code along the reference string 1 2 1 1 3, with
      two frames and K = 2. */
  function Drift(i: nat): (r: CState) {
    match i
    case 0 => CState(2, [-1, -1], [-1, -1, -1, -1], [0, 0], [-1, -1], [-1, -1], Empty, Empty, 0, 0, 0)
    case 1 => CState(2, [1, -1], [-1, 0, -1, -1], [1, 0], [-1, -1], [-1, -1], List(0, 0, 1), Empty, 1, 1, 1)
    case 2 => CState(2, [1, 2], [-1, 0, 1, -1], [1, 1], [1, -1], [-1, 0], List(1, 0, 2), Empty, 2, 2, 2)
    case 3 => CState(2, [1, 2], [-1, 0, 1, -1], [2, 1], [-1, -1], [-1, -1], List(1, 1, 1), List(0, 0, 1), 2, 2, 2)
    case _ => CState(2, [1, 2], [-1, 0, 1, -1], [2, 1], [-1, -1], [-1, -1], List(1, 1, 0), List(0, 0, 1), 2, 2, 2)
  }

  lemma DriftStart()
    ensures Create(2, 2, 3) == Drift(0)
  {
  }

  lemma DriftFirstMiss()
    ensures Reference(Drift(0), 1) == Drift(1)
  {
  }

  lemma DriftSecondMiss()
    ensures Reference(Drift(1), 2) == Drift(2)
  {
  }

  /** Page 1 reaches K references and moves from cold to hot. */
  lemma DriftFirstHit()
    ensures Reference(Drift(2), 1) == Drift(3)
  {
  }

  /** Page 1 is hot, is unlinked from cold all the same, and cold's size
      drops to 0 with page 2 still in it. */
  lemma DriftSecondHit()
    ensures Reference(Drift(3), 1) == Drift(4)
  {
  }

  /** cache_evict_one trusts the size and pops the rear of hot. */
  lemma DriftEvict()
    ensures Reference(Drift(4), 3).frame == [3, 2]
    ensures Run(Drift(4), [3]).frame == [3, 2]
  {
    assert [3][1..] == [];
  }

  /** Two frames, K = 2, references 1 2 1 1 3. The second hit on page 1 finds
      it already hot and unlinks it from cold all the same, which takes cold's
      size to 0 while page 2 is still cold. Page 3 then evicts page 1, the
      only hot page, and the frames end as [3, 2]. The intended engine evicts
      page 2, the rear of cold, and ends with [1, 3]. */
  lemma SizeDriftEvictsHotPage()
    ensures var c := Run(Create(2, 2, 3), [1, 2, 1, 1]);
      c.cold.size == 0 && c.cold.front != -1 && At(c.frame, c.cold.front) == 2
    ensures Run(Create(2, 2, 3), [1, 2, 1, 1, 3]).frame == [3, 2]
    ensures Policy.Run(Policy.Create(2, 2, 3), [1, 2, 1, 1, 3]).frame == [1, 3]
  {
    DriftStart();
    DriftFrom0();
    DriftEvict();
    IntendedEvictsColdPage();
  }

  // The C run from each state on.
  lemma DriftFrom0()
    ensures Run(Drift(0), [1, 2, 1, 1]) == Drift(4)
    ensures Run(Drift(0), [1, 2, 1, 1, 3]) == Run(Drift(4), [3])
  {
    DriftFirstMiss();
    assert [1, 2, 1, 1][1..] == [2, 1, 1];
    assert [1, 2, 1, 1, 3][1..] == [2, 1, 1, 3];
    DriftFrom1();
  }

  lemma DriftFrom1()
    ensures Run(Drift(1), [2, 1, 1]) == Drift(4)
    ensures Run(Drift(1), [2, 1, 1, 3]) == Run(Drift(4), [3])
  {
    DriftSecondMiss();
    assert [2, 1, 1][1..] == [1, 1];
    assert [2, 1, 1, 3][1..] == [1, 1, 3];
    DriftFrom2();
  }

  lemma DriftFrom2()
    ensures Run(Drift(2), [1, 1]) == Drift(4)
    ensures Run(Drift(2), [1, 1, 3]) == Run(Drift(4), [3])
  {
    DriftFirstHit();
    assert [1, 1][1..] == [1];
    assert [1, 1, 3][1..] == [1, 3];
    DriftFrom3();
  }

  lemma DriftFrom3()
    ensures Run(Drift(3), [1]) == Drift(4)
    ensures Run(Drift(3), [1, 3]) == Run(Drift(4), [3])
  {
    DriftSecondHit();
    assert [1][1..] == [];
    assert [1, 3][1..] == [3];
  }

  // The intended engine along the same string.
  const Intended0 := Policy.State(2, [-1, -1], [-1, -1, -1, -1], [0, 0], [], [], 0, 0, 0)
  const Intended1 := Policy.State(2, [1, -1], [-1, 0, -1, -1], [1, 0], [0], [], 1, 1, 1)
  const Intended2 := Policy.State(2, [1, 2], [-1, 0, 1, -1], [1, 1], [1, 0], [], 2, 2, 2)
  const Intended3 := Policy.State(2, [1, 2], [-1, 0, 1, -1], [2, 1], [1], [0], 2, 2, 2)
  const Intended5 := Policy.State(2, [1, 3], [-1, 0, -1, 1], [2, 1], [1], [0], 2, 2, 3)

  lemma IntendedStart()
    ensures Policy.Create(2, 2, 3) == Intended0
  {
  }

  lemma IntendedMiss1()
    requires Policy.Inv(Intended0)
    ensures Policy.Reference(Intended0, 1) == Intended1
  {
  }

  lemma IntendedMiss2()
    requires Policy.Inv(Intended1)
    ensures Policy.Reference(Intended1, 2) == Intended2
  {
  }

  /** Page 1 reaches K = 2 references and moves to hot. */
  lemma IntendedHit1()
    requires Policy.Inv(Intended2)
    ensures Policy.Reference(Intended2, 1) == Intended3
  {
  }

  /** Page 1 is hot already and stays at its front. */
  lemma IntendedHit2()
    requires Policy.Inv(Intended3)
    ensures Policy.Reference(Intended3, 1) == Intended3
  {
  }

  /** Page 3 evicts page 2, the rear of cold. */
  lemma IntendedEvict()
    requires Policy.Inv(Intended3)
    ensures Policy.Reference(Intended3, 3) == Intended5
  {
  }

  /** The intended engine on the same string: page 3 takes the frame of
      page 2. */
  lemma IntendedEvictsColdPage()
    ensures Policy.Run(Policy.Create(2, 2, 3), [1, 2, 1, 1, 3]).frame == [1, 3]
  {
    IntendedStart();
    IntendedFrom0();
  }

  // The intended run from each state on.
  lemma IntendedFrom0()
    requires Policy.Inv(Intended0)
    ensures Policy.Run(Intended0, [1, 2, 1, 1, 3]) == Intended5
  {
    IntendedMiss1();
    Policy.RunStep(Intended0, [1, 2, 1, 1, 3]);
    assert [1, 2, 1, 1, 3][1..] == [2, 1, 1, 3];
    IntendedFrom1();
  }

  lemma IntendedFrom1()
    requires Policy.Inv(Intended1)
    ensures Policy.Run(Intended1, [2, 1, 1, 3]) == Intended5
  {
    IntendedMiss2();
    Policy.RunStep(Intended1, [2, 1, 1, 3]);
    assert [2, 1, 1, 3][1..] == [1, 1, 3];
    IntendedFrom2();
  }

  lemma IntendedFrom2()
    requires Policy.Inv(Intended2)
    ensures Policy.Run(Intended2, [1, 1, 3]) == Intended5
  {
    IntendedHit1();
    Policy.RunStep(Intended2, [1, 1, 3]);
    assert [1, 1, 3][1..] == [1, 3];
    IntendedFrom3();
  }

  lemma IntendedFrom3()
    requires Policy.Inv(Intended3)
    ensures Policy.Run(Intended3, [1, 3]) == Intended5
  {
    IntendedHit2();
    Policy.RunStep(Intended3, [1, 3]);
    assert [1, 3][1..] == [3];
    IntendedFrom4();
  }

  lemma IntendedFrom4()
    requires Policy.Inv(Intended3)
    ensures Policy.Run(Intended3, [3]) == Intended5
  {
    IntendedEvict();
    Policy.RunStep(Intended3, [3]);
    assert [3][1..] == [];
  }

  // ---------------------------------------------------------------------------
  // Head drift: with K = 1 every admission and every hit goes through the
  // branch of promote_on_hit that unlinks from cold and then from hot.

  /** References 1 2 1 3 with two frames and K = 1. */
  const LruRefs: seq<nat> := [1, 2, 1, 3]

  /** The states of the C code along `LruRefs`. */
  function HeadDrift(i: nat): (r: CState) {
    match i
    case 0 => CState(1, [-1, -1], [-1, -1, -1, -1], [0, 0], [-1, -1], [-1, -1], Empty, Empty, 0, 0, 0)
    case 1 => CState(1, [1, -1], [-1, 0, -1, -1], [1, 0], [-1, -1], [-1, -1], Empty, List(0, 0, 1), 1, 1, 1)
    case 2 => CState(1, [1, 2], [-1, 0, 1, -1], [1, 1], [1, -1], [-1, 0], Empty, List(1, 0, 1), 2, 2, 2)
    case 3 => CState(1, [1, 2], [-1, 0, 1, -1], [1, 1], [-1, 0], [1, -1], Empty, List(0, 0, 1), 2, 2, 2)
    case _ => CState(1, [3, 2], [-1, -1, 1, 0], [1, 1], [-1, 0], [1, -1], Empty, List(0, 0, 1), 2, 2, 3)
  }

  lemma HeadDriftMiss1()
    ensures Reference(HeadDrift(0), 1) == HeadDrift(1)
  {
  }

  lemma HeadDriftMiss2()
    ensures Reference(HeadDrift(1), 2) == HeadDrift(2)
  {
  }

  /** The hit on page 1 finds it at the rear of hot. Unlinking it from cold
      already takes it out of the chain, so unlinking it from hot sets hot's
      rear to NULL, and the push makes it the rear again as well as the
      front. */
  lemma HeadDriftHit()
    ensures Reference(HeadDrift(2), 1) == HeadDrift(3)
  {
  }

  /** cache_evict_one pops the rear of hot, which is page 1. */
  lemma HeadDriftEvict()
    ensures Reference(HeadDrift(3), 3) == HeadDrift(4)
  {
  }

  lemma {:induction false} HeadDriftFrom(i: nat, j: nat)
    requires i <= j <= 4
    ensures Run(HeadDrift(i), LruRefs[i..j]) == HeadDrift(j)
    ensures j == 4 ==> Run(HeadDrift(i), LruRefs[i..]) == HeadDrift(4)
    decreases j - i
  {
    if i < j {
      if i == 0 {
        HeadDriftMiss1();
      } else if i == 1 {
        HeadDriftMiss2();
      } else if i == 2 {
        HeadDriftHit();
      } else {
        HeadDriftEvict();
      }
      assert LruRefs[i..j][1..] == LruRefs[i + 1..j];
      assert LruRefs[i..][1..] == LruRefs[i + 1..];
      HeadDriftFrom(i + 1, j);
    }
  }

  // The intended engine along `LruRefs`.
  const KOne0 := Policy.State(1, [-1, -1], [-1, -1, -1, -1], [0, 0], [], [], 0, 0, 0)
  const KOne1 := Policy.State(1, [1, -1], [-1, 0, -1, -1], [1, 0], [], [0], 1, 1, 1)
  const KOne2 := Policy.State(1, [1, 2], [-1, 0, 1, -1], [1, 1], [], [1, 0], 2, 2, 2)
  const KOne3 := Policy.State(1, [1, 2], [-1, 0, 1, -1], [1, 1], [], [0, 1], 2, 2, 2)
  const KOne4 := Policy.State(1, [1, 3], [-1, 0, -1, 1], [1, 1], [], [1, 0], 2, 2, 3)

  lemma HeadIntendedMiss1()
    requires Policy.Inv(KOne0)
    ensures Policy.Reference(KOne0, 1) == KOne1
  {
  }

  lemma HeadIntendedMiss2()
    requires Policy.Inv(KOne1)
    ensures Policy.Reference(KOne1, 2) == KOne2
  {
  }

  /** Page 1 moves from the rear to the front of hot. */
  lemma HeadIntendedHit()
    requires Policy.Inv(KOne2)
    ensures Policy.Reference(KOne2, 1) == KOne3
  {
  }

  /** Page 3 evicts page 2, the rear of hot. */
  lemma HeadIntendedEvict()
    requires Policy.Inv(KOne3)
    ensures Policy.Reference(KOne3, 3) == KOne4
  {
  }

  lemma HeadIntendedFrom0()
    requires Policy.Inv(KOne0)
    ensures Policy.Run(KOne0, [1, 2, 1, 3]) == KOne4
  {
    HeadIntendedMiss1();
    Policy.RunStep(KOne0, [1, 2, 1, 3]);
    assert [1, 2, 1, 3][1..] == [2, 1, 3];
    HeadIntendedFrom1();
  }

  lemma HeadIntendedFrom1()
    requires Policy.Inv(KOne1)
    ensures Policy.Run(KOne1, [2, 1, 3]) == KOne4
  {
    HeadIntendedMiss2();
    Policy.RunStep(KOne1, [2, 1, 3]);
    assert [2, 1, 3][1..] == [1, 3];
    HeadIntendedFrom2();
  }

  lemma HeadIntendedFrom2()
    requires Policy.Inv(KOne2)
    ensures Policy.Run(KOne2, [1, 3]) == KOne4
  {
    HeadIntendedHit();
    Policy.RunStep(KOne2, [1, 3]);
    assert [1, 3][1..] == [3];
    HeadIntendedFrom3();
  }

  lemma HeadIntendedFrom3()
    requires Policy.Inv(KOne3)
    ensures Policy.Run(KOne3, [3]) == KOne4
  {
    HeadIntendedEvict();
    Policy.RunStep(KOne3, [3]);
    assert [3][1..] == [];
  }

  /** Two frames, K = 1, references 1 2 1 3. After 1 2 1, hot's front and
      rear are both slot 0, which holds page 1, the most recent page, while
      page 2 is still linked behind it. Page 3 then evicts page 1 and the
      frames end as [3, 2]. The intended engine, which with K = 1 is plain
      LRU (`Lru.KOneRunIsLru`), evicts page 2 and ends with [1, 3]. */
  lemma HeadDriftEvictsRecentPage()
    ensures var c := Run(Create(2, 1, 3), LruRefs[..3]);
      c.hot.front == 0 && c.hot.rear == 0 && At(c.next, 0) == 1 && c.frame == [1, 2]
    ensures Run(Create(2, 1, 3), LruRefs).frame == [3, 2]
    ensures Policy.Run(Policy.Create(2, 1, 3), LruRefs).frame == [1, 3]
  {
    HeadDriftPrefix();
    HeadDriftFinal();
    HeadIntendedRun();
  }

  /** After 1 2 1 hot's front and rear are both the slot of page 1. */
  lemma HeadDriftPrefix()
    ensures var c := Run(Create(2, 1, 3), LruRefs[..3]);
      c.hot.front == 0 && c.hot.rear == 0 && At(c.next, 0) == 1 && c.frame == [1, 2]
  {
    HeadDriftRun(3);
  }

  /** Page 3 then evicts page 1. */
  lemma HeadDriftFinal()
    ensures Run(Create(2, 1, 3), LruRefs).frame == [3, 2]
  {
    HeadDriftStart();
    HeadDriftFrom(0, 4);
    assert LruRefs[0..] == LruRefs;
  }

  lemma HeadDriftStart()
    ensures Create(2, 1, 3) == HeadDrift(0)
  {
  }

  /** The C code from the start along the first `j` references. */
  lemma HeadDriftRun(j: nat)
    requires j <= 4
    ensures Run(Create(2, 1, 3), LruRefs[..j]) == HeadDrift(j)
  {
    HeadDriftStart();
    HeadDriftFrom(0, j);
    assert LruRefs[0..j] == LruRefs[..j];
  }

  lemma HeadIntendedRun()
    ensures Policy.Run(Policy.Create(2, 1, 3), LruRefs).frame == [1, 3]
  {
    assert Policy.Create(2, 1, 3) == KOne0;
    HeadIntendedFrom0();
  }

  /** With no frames a miss finds the cache full and nothing to evict, and
      the page is admitted at slot -1: the C code then writes frame[-1]. */
  lemma ZeroFramesAdmitAtMinusOne()
    ensures var c := Create(0, 1, 0); c.hash[0] == -1 && MissSlot(c.(faults := 1)).1 == -1
  {
  }
}
