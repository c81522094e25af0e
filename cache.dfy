/** The LRU-K engine of OS_LRU-K.c as a mutable object.

    The C nodes are heap records linked by pointers. Here the node of a
    resident page is addressed by its frame slot, which it keeps for its whole
    residency, and its fields live in arrays indexed by that slot: `prev` and
    `next` for the intrusive links (-1 for NULL) and `refcnt` for the
    reference count. A node's page number is the page in its frame, so it is
    not stored twice. The page index `hash` maps a page to the slot of its
    node, or -1. Each list head is a value like the C `struct List`, and the
    ghost sequences `Cold` and `Hot` give the slots of each list front to rear.

    Every policy-level method is proved to do what the matching function of
    module Policy says, and `Reference` to keep the invariant `Valid()`. The
    list, index and slot helpers are proved against the functions of module
    Links and the ghost sequences `Cold` and `Hot`. */
module LruK {
  import opened Seqs
  import opened Links
  import Policy

  class Cache {
    const frames: nat
    const K: nat
    var used: nat
    var faults: nat
    var cold: List
    var hot: List
    var nextFreeSlot: nat
    const frame: array<int>    // slot -> page, or -1
    const hash: array<int>     // page -> slot of its node, or -1
    const prev: array<int>     // slot -> previous node in its list, or -1
    const next: array<int>     // slot -> next node in its list, or -1
    const refcnt: array<nat>   // slot -> references seen, capped at K
    ghost var Cold: seq<nat>
    ghost var Hot: seq<nat>

    /** The cache as a value of the policy model. */
    ghost function Model(): Policy.State
      reads this, frame, hash, refcnt
    {
      Policy.State(K, frame[..], hash[..], refcnt[..], Cold, Hot, used, nextFreeSlot, faults)
    }

    /** The links of `l` spell out the slots `ls`, front to rear. */
    ghost predicate ListLinked(l: List, ls: seq<nat>)
      reads prev, next
    {
      Chain(prev[..], next[..], l, ls)
    }

    /** The arrays of ints are distinct objects; `refcnt` has another element
        type, so it is distinct from all of them. */
    ghost predicate Separate()
      reads this
    {
      && frame != hash && frame != prev && frame != next && hash != prev && hash != next && prev != next
    }

    /** Both lists are well linked over the arena and share no node. */
    ghost predicate Linked()
      reads this, prev, next
    {
      LinkedWith(cold, hot, Cold, Hot)
    }

    ghost predicate LinkedWith(cold: List, hot: List, Cold: seq<nat>, Hot: seq<nat>)
      reads prev, next
    {
      && prev.Length == frames && next.Length == frames
      && ListLinked(cold, Cold) && ListLinked(hot, Hot) && Disjoint(Cold, Hot)
    }

    ghost predicate Valid()
      reads this, frame, hash, prev, next, refcnt
    {
      && frames >= 1 && frame.Length == frames && refcnt.Length == frames
      && Separate()
      && Linked()
      && Policy.Inv(Model())
    }

    /** cache_create. Zero frames are refused: with no frame and nothing to
        evict, the C code would admit a missed page at slot -1. */
    constructor (frames: nat, K: nat, maxPageIdInclusive: nat)
      requires frames >= 1
      requires maxPageIdInclusive < 0xFFFF_FFFF
      ensures Valid()
      ensures Model() == Policy.Create(frames, K, maxPageIdInclusive)
      ensures fresh(frame) && fresh(hash) && fresh(prev) && fresh(next) && fresh(refcnt)
    {
      this.frames := frames;
      used := 0;
      this.K := if K == 0 then 1 else K;
      faults := 0;
      cold, hot := Empty, Empty;
      Cold, Hot := [], [];
      hash := new int[maxPageIdInclusive + 1](_ => -1);
      var f := new int[frames];
      for i := 0 to frames
        modifies f
        invariant forall j :: 0 <= j < i ==> f[j] == -1
      {
        f[i] := -1;
      }
      frame := f;
      prev := new int[frames](_ => -1);
      next := new int[frames](_ => -1);
      refcnt := new nat[frames](_ => 0);
      nextFreeSlot := 0;
      new;
      assert forall j :: 0 <= j < frames ==> frame[..][j] == -1;
      assert frame[..] == seq(frames, _ => -1);
      assert forall j :: 0 <= j < hash.Length ==> hash[..][j] == -1;
      assert hash[..] == seq(maxPageIdInclusive + 1, _ => -1);
      assert refcnt[..] == seq(frames, _ => 0);
      assert Model() == Policy.Create(frames, K, maxPageIdInclusive);
      assert ListLinked(cold, Cold) && ListLinked(hot, Hot);
    }

    // -------------------------------------------------------------------------
    // List helpers

    /** list_unlink, for a node that is in the list it is given: its
        neighbours are joined, the head is moved off it, its own links are
        cleared, and no node outside the list is touched. (The C function also
        runs on a list that does not hold the node, and then decrements that
        list's size all the same: see module AsWritten.) */
    method ListUnlink(l: List, ghost ls: seq<nat>, n: nat) returns (r: List)
      requires prev != next
      requires ListLinked(l, ls) && n in ls
      modifies prev, next
      ensures ListLinked(r, Without(ls, n))
      ensures prev[n] == -1 && next[n] == -1
      ensures forall s :: 0 <= s < prev.Length && s !in ls ==> prev[s] == old(prev[s])
      ensures forall s :: 0 <= s < next.Length && s !in ls ==> next[s] == old(next[s])
    {
      ghost var i :| 0 <= i < |ls| && ls[i] == n;
      ghost var P, N := prev[..], next[..];
      Neighbours(P, N, l, ls, i);
      var p, q := prev[n], next[n];
      JoinNeighbours(n);
      var front := if l.front == n then q else l.front;
      var rear := if l.rear == n then p else l.rear;
      r := List(front, rear, if l.size > 0 then l.size - 1 else 0);
      assert r == UnlinkHead(P, N, l, n);
      WithoutAt(ls, i);
      UnlinkChain(P, N, l, ls, i);
      UnlinkOutside(P, N, l, ls, i);
    }

    /** The link writes of list_unlink: the neighbours of `n`, when there are
        any, point at each other, and `n`'s own links are cleared. */
    method JoinNeighbours(n: nat)
      requires prev != next && n < prev.Length && n < next.Length
      requires -1 <= prev[n] < next.Length && -1 <= next[n] < prev.Length
      modifies prev, next
      ensures prev[..] == UnlinkPrev(old(prev[..]), old(next[..]), n)
      ensures next[..] == UnlinkNext(old(prev[..]), old(next[..]), n)
      ensures prev[n] == -1 && next[n] == -1
    {
      var p, q := prev[n], next[n];
      if p != -1 {
        next[p] := q;
      }
      if q != -1 {
        prev[q] := p;
      }
      prev[n], next[n] := -1, -1;
    }

    /** list_push_front: the node becomes the front of a list it was not in. */
    method ListPushFront(l: List, ghost ls: seq<nat>, n: nat) returns (r: List)
      requires prev != next && n < prev.Length && n < next.Length
      requires ListLinked(l, ls) && n !in ls
      modifies prev, next
      ensures ListLinked(r, [n] + ls)
      ensures forall s :: 0 <= s < prev.Length && s != n && s !in ls ==> prev[s] == old(prev[s])
      ensures forall s :: 0 <= s < next.Length && s != n && s !in ls ==> next[s] == old(next[s])
    {
      ghost var P, N := prev[..], next[..];
      ChainPush(P, N, l, ls, n);
      prev[n] := -1;
      next[n] := l.front;
      if l.front != -1 {
        prev[l.front] := n;
      }
      r := List(n, if l.rear == -1 then n else l.rear, l.size + 1);
      assert prev[..] == PushPrev(P, l, n);
      assert next[..] == PushNext(N, l, n);
    }

    /** list_pop_rear: the rear node leaves the list and is returned; an
        empty list gives -1 (NULL). */
    method ListPopRear(l: List, ghost ls: seq<nat>) returns (r: List, n: int)
      requires prev != next
      requires ListLinked(l, ls)
      modifies prev, next
      ensures ls == [] ==> n == -1 && r == l
      ensures ls != [] ==> n == ls[|ls| - 1] && ListLinked(r, ls[..|ls| - 1])
      ensures forall s :: 0 <= s < prev.Length && s !in ls ==> prev[s] == old(prev[s])
      ensures forall s :: 0 <= s < next.Length && s !in ls ==> next[s] == old(next[s])
    {
      if l.rear == -1 {
        return l, -1;
      }
      n := l.rear;
      assert n == ls[|ls| - 1] && n in ls;
      r := ListUnlink(l, ls, n);
      WithoutLast(ls);
    }

    // -------------------------------------------------------------------------
    // Page index helpers

    /** hash_get: the slot of the page's node, or -1 when it is not resident
        (an out-of-range page never is). */
    method HashGet(page: nat) returns (n: int)
      requires Valid()
      ensures n == -1 <==> !Policy.Resident(Model(), page)
      ensures n != -1 ==> 0 <= n < used && frame[n] == page
    {
      if page >= hash.Length {
        assert !Policy.Resident(Model(), page);
        return -1;
      }
      n := hash[page];
      Policy.ResidentIndexed(Model(), page);
    }

    /** hash_put: pages outside the index are ignored. */
    method HashPut(page: nat, n: int)
      modifies hash
      ensures hash[..] == if page < hash.Length then old(hash[..])[page := n] else old(hash[..])
    {
      if page < hash.Length {
        hash[page] := n;
      }
    }

    /** hash_del: pages outside the index are ignored. */
    method HashDel(page: nat)
      modifies hash
      ensures hash[..] == if page < hash.Length then old(hash[..])[page := -1] else old(hash[..])
    {
      if page < hash.Length {
        hash[page] := -1;
      }
    }

    // -------------------------------------------------------------------------
    // Policy

    /** cache_full: every frame holds a node of one of the lists. */
    method CacheFull() returns (full: bool)
      requires Valid()
      ensures full == Policy.Full(Model())
      ensures full <==> |Cold| + |Hot| == frames
    {
      full := used >= frames;
    }

    /** The list part of cache_evict_one: the rear of cold is popped, or the
        rear of hot when cold is empty; -1 when both are empty. */
    method PopVictim() returns (victim: int)
      requires Separate() && Linked()
      modifies this, prev, next
      ensures Linked()
      ensures old(Cold) != [] ==>
        victim == old(Cold)[|old(Cold)| - 1] && Cold == old(Cold)[..|old(Cold)| - 1] && Hot == old(Hot)
      ensures old(Cold) == [] && old(Hot) != [] ==>
        victim == old(Hot)[|old(Hot)| - 1] && Hot == old(Hot)[..|old(Hot)| - 1] && Cold == old(Cold)
      ensures old(Cold) == [] && old(Hot) == [] ==> victim == -1 && Cold == old(Cold) && Hot == old(Hot)
      ensures used == old(used) && faults == old(faults) && nextFreeSlot == old(nextFreeSlot)
    {
      victim := -1;
      if cold.size != 0 {
        victim := PopCold();
      } else if hot.size != 0 {
        victim := PopHot();
      }
    }

    /** The rear of cold leaves it. */
    method PopCold() returns (victim: int)
      requires Separate() && Linked() && Cold != []
      modifies this, prev, next
      ensures Linked()
      ensures victim == old(Cold)[|old(Cold)| - 1] && Cold == old(Cold)[..|old(Cold)| - 1] && Hot == old(Hot)
      ensures used == old(used) && faults == old(faults) && nextFreeSlot == old(nextFreeSlot)
    {
      ghost var C0 := Cold;
      ghost var P, N := prev[..], next[..];
      cold, victim := ListPopRear(cold, Cold);
      ChainFrame(P, N, prev[..], next[..], hot, Hot);
      Cold := Cold[..|Cold| - 1];
      DisjointSub(C0, Cold, Hot);
    }

    /** The rear of hot leaves it, cold being empty. */
    method PopHot() returns (victim: int)
      requires Separate() && Linked() && Cold == [] && Hot != []
      modifies this, prev, next
      ensures Linked()
      ensures victim == old(Hot)[|old(Hot)| - 1] && Hot == old(Hot)[..|old(Hot)| - 1] && Cold == old(Cold)
      ensures used == old(used) && faults == old(faults) && nextFreeSlot == old(nextFreeSlot)
    {
      ghost var P, N := prev[..], next[..];
      hot, victim := ListPopRear(hot, Hot);
      ChainFrame(P, N, prev[..], next[..], cold, Cold);
      Hot := Hot[..|Hot| - 1];
    }

    /** cache_evict_one: the victim leaves its list, its page leaves the
        index and its frame is cleared. The victim's slot is returned, or -1
        when both lists are empty. */
    method EvictOne() returns (vslot: int)
      requires Valid()
      modifies this, frame, hash, prev, next
      ensures Linked()
      ensures Model() == Policy.EvictOne(old(Model())).state
      ensures vslot == Policy.EvictOne(old(Model())).slot
    {
      ghost var m := Model();
      var victim := PopVictim();
      if victim == -1 {
        return -1;
      }
      Policy.EvictionChoosesColdFirst(m);
      vslot := victim;
      ClearFrame(vslot);
    }

    /** The victim's page leaves the index and its frame is cleared. */
    method ClearFrame(v: nat)
      requires frame != hash && v < frame.Length && 0 <= frame[v] < hash.Length
      modifies frame, hash
      ensures frame[..] == old(frame[..])[v := -1]
      ensures hash[..] == old(hash[..])[old(frame[v]) := -1]
    {
      HashDel(frame[v]);
      frame[v] := -1;
    }

    /** The node leaves the list that holds it, named by `inCold`. */
    method Detach(n: nat, inCold: bool)
      requires Separate() && Linked() && n < frames
      requires if inCold then n in Cold else n in Hot
      modifies this, prev, next
      ensures Linked() && n !in Cold && n !in Hot
      ensures Cold == Without(old(Cold), n) && Hot == Without(old(Hot), n)
      ensures used == old(used) && faults == old(faults) && nextFreeSlot == old(nextFreeSlot)
    {
      DisjointMember(Cold, Hot, n);
      if inCold {
        WithoutAbsent(Hot, n);
        DetachCold(n);
      } else {
        WithoutAbsent(Cold, n);
        DetachHot(n);
      }
    }

    /** The node leaves cold. */
    method DetachCold(n: nat)
      requires Separate() && Linked() && n < frames && n in Cold
      modifies this, prev, next
      ensures Linked() && n !in Cold
      ensures Cold == Without(old(Cold), n) && Hot == old(Hot)
      ensures used == old(used) && faults == old(faults) && nextFreeSlot == old(nextFreeSlot)
    {
      DisjointMember(Cold, Hot, n);
      ghost var C0 := Cold;
      ghost var P, N := prev[..], next[..];
      cold := ListUnlink(cold, Cold, n);
      ChainFrame(P, N, prev[..], next[..], hot, Hot);
      Cold := Without(Cold, n);
      DisjointSub(C0, Cold, Hot);
    }

    /** The node leaves hot. */
    method DetachHot(n: nat)
      requires Separate() && Linked() && n < frames && n in Hot
      modifies this, prev, next
      ensures Linked() && n !in Hot
      ensures Hot == Without(old(Hot), n) && Cold == old(Cold)
      ensures used == old(used) && faults == old(faults) && nextFreeSlot == old(nextFreeSlot)
    {
      DisjointSym(Cold, Hot);
      ghost var H0 := Hot;
      ghost var P, N := prev[..], next[..];
      hot := ListUnlink(hot, Hot, n);
      ChainFrame(P, N, prev[..], next[..], cold, Cold);
      Hot := Without(Hot, n);
      DisjointSub(H0, Hot, Cold);
      DisjointSym(Hot, Cold);
    }

    /** The node, in neither list, becomes the front of hot. */
    method PushHot(n: nat)
      requires Separate() && Linked() && n < frames && n !in Cold && n !in Hot
      modifies this, prev, next
      ensures Linked()
      ensures Hot == [n] + old(Hot) && Cold == old(Cold)
      ensures used == old(used) && faults == old(faults) && nextFreeSlot == old(nextFreeSlot)
    {
      DisjointSym(Cold, Hot);
      ghost var H0 := Hot;
      ghost var P, N := prev[..], next[..];
      hot := ListPushFront(hot, Hot, n);
      ChainFrame(P, N, prev[..], next[..], cold, Cold);
      Hot := [n] + Hot;
      DisjointSub(H0, Hot[1..], Cold);
      forall i | 0 <= i < |Cold| ensures Cold[i] !in Hot {
        assert Cold[i] != n && Cold[i] !in Hot[1..];
      }
    }

    /** The node leaves the list that holds it and becomes the front of hot. */
    method MoveToHotFront(n: nat, inCold: bool)
      requires Separate() && Linked() && n < frames
      requires if inCold then n in Cold else n in Hot
      modifies this, prev, next
      ensures Linked()
      ensures Cold == Without(old(Cold), n) && Hot == [n] + Without(old(Hot), n)
      ensures used == old(used) && faults == old(faults) && nextFreeSlot == old(nextFreeSlot)
    {
      Detach(n, inCold);
      PushHot(n);
    }

    /** The node, in cold, moves to the front of cold. */
    method MoveToColdFront(n: nat)
      requires Separate() && Linked() && n < frames && n in Cold
      modifies this, prev, next
      ensures Linked()
      ensures Cold == [n] + Without(old(Cold), n) && Hot == old(Hot)
      ensures used == old(used) && faults == old(faults) && nextFreeSlot == old(nextFreeSlot)
    {
      DisjointMember(Cold, Hot, n);
      DetachCold(n);
      PushCold(n);
    }

    /** promote_on_hit, unlinking the node from the list that holds it, which
        the caller names: the node heads hot once it has K references and
        heads cold otherwise. The C function unlinks from cold and then from
        hot whenever the count has reached K; module AsWritten shows what that
        does to the list sizes. */
    method PromoteOnHit(n: nat, inCold: bool)
      requires Separate() && Linked() && refcnt.Length == frames && n < frames
      requires if inCold then n in Cold else n in Hot
      requires refcnt[n] < K ==> inCold
      modifies this, prev, next
      ensures Linked()
      ensures Model() == Policy.Promote(old(Model()), n)
    {
      if refcnt[n] >= K {
        MoveToHotFront(n, inCold);
      } else {
        MoveToColdFront(n);
      }
    }

    /** The admission of a missed page at a vacant slot: a node with one
        reference (node_new), entered in the index and the frame, pushed on
        cold, and promoted at once when K is 1. */
    method AdmitAt(page: nat, slot: nat)
      requires Separate() && Linked() && frame.Length == frames && refcnt.Length == frames
      requires Policy.Vacant(Model(), slot) && page < hash.Length && hash[page] == -1
      modifies this, frame, hash, prev, next, refcnt
      ensures Linked()
      ensures Model() == Policy.Admit(old(Model()), page, slot)
    {
      ghost var m := Model();
      refcnt[slot] := 1;
      HashPut(page, slot);
      frame[slot] := page;
      PushCold(slot);
      assert Model() == m.(refcnt := m.refcnt[slot := 1], hash := m.hash[page := slot],
                           frame := m.frame[slot := page], cold := [slot] + m.cold);
      if refcnt[slot] >= K {
        PromoteOnHit(slot, true);
      }
    }

    /** The node, in neither list, becomes the front of cold. */
    method PushCold(n: nat)
      requires Separate() && Linked() && n < frames && n !in Cold && n !in Hot
      modifies this, prev, next
      ensures Linked()
      ensures Cold == [n] + old(Cold) && Hot == old(Hot)
      ensures used == old(used) && faults == old(faults) && nextFreeSlot == old(nextFreeSlot)
    {
      ghost var P, N := prev[..], next[..];
      assert forall i :: 0 <= i < |Hot| ==> Hot[i] != n && Hot[i] !in Cold;
      cold := ListPushFront(cold, Cold, n);
      ChainFrame(P, N, prev[..], next[..], hot, Hot);
      Cold := [n] + Cold;
    }

    /** A miss in a full cache: one more fault, and the page goes to the slot
        of the victim. */
    method MissEvicting(page: nat)
      requires Valid() && Policy.Full(Model()) && page < hash.Length && hash[page] == -1
      modifies this, frame, hash, prev, next, refcnt
      ensures Linked()
      ensures Model() == Policy.Miss(old(Model()), page)
    {
      ghost var m := Model();
      faults := faults + 1;
      ghost var m1 := m.(faults := m.faults + 1);
      assert Valid() && Model() == m1 by {
        assert Model() == m1;
        Policy.FaultKeepsInv(m);
      }
      Policy.MissAfterFault(m, page);
      AdmitEvicting(page);
    }

    /** The page goes to the slot of the victim. */
    method AdmitEvicting(page: nat)
      requires Valid() && Policy.Full(Model()) && page < hash.Length && hash[page] == -1
      modifies this, frame, hash, prev, next, refcnt
      ensures Linked()
      ensures var e := Policy.EvictOne(old(Model())); e.slot >= 0 && Model() == Policy.Admit(e.state, page, e.slot as nat)
    {
      Policy.EvictLeavesVacant(Model());
      var slot := EvictOne();
      AdmitAt(page, slot);
    }

    /** A miss while a frame is free: one more fault, and the page goes to the
        next free slot. */
    method MissFilling(page: nat)
      requires Valid() && !Policy.Full(Model()) && page < hash.Length && hash[page] == -1
      modifies this, frame, hash, prev, next, refcnt
      ensures Linked()
      ensures Model() == Policy.Miss(old(Model()), page)
    {
      ghost var m := Model();
      faults := faults + 1;
      ghost var m1 := m.(faults := m.faults + 1);
      assert Valid() && Model() == m1 by {
        assert Model() == m1;
        Policy.FaultKeepsInv(m);
      }
      Policy.MissAfterFault(m, page);
      AdmitFresh(page);
    }

    /** The page goes to the next free slot, which the cache now uses. */
    method AdmitFresh(page: nat)
      requires Valid() && !Policy.Full(Model()) && page < hash.Length && hash[page] == -1
      modifies this, frame, hash, prev, next, refcnt
      ensures Linked()
      ensures var m := old(Model()); Model() == Policy.Admit(m.(used := m.used + 1, nextFree := m.nextFree + 1), page, m.nextFree)
    {
      ghost var m := Model();
      Policy.FreshSlotVacant(m);
      var slot := nextFreeSlot;
      nextFreeSlot := nextFreeSlot + 1;
      used := used + 1;
      assert Model() == m.(used := m.used + 1, nextFree := m.nextFree + 1);
      AdmitAt(page, slot);
    }

    /** The state change of cache_reference_and_print: a page outside the
        index is skipped; a hit counts one more reference below K and promotes
        the node; a miss is handled by MissEvicting or MissFilling. */
    method Reference(page: nat)
      requires Valid()
      modifies this, frame, hash, prev, next, refcnt
      ensures Valid()
      ensures Model() == Policy.Reference(old(Model()), page)
    {
      ghost var m := Model();
      Policy.ReferencePreservesInv(m, page);
      if page >= hash.Length {
        return;
      }
      var n := HashGet(page);
      Policy.ResidentIndexed(m, page);
      if n == -1 {
        // The C code counts the fault before it asks cache_full; the count
        // does not enter that test, so MissEvicting and MissFilling count it.
        var full := CacheFull();
        if full {
          MissEvicting(page);
        } else {
          MissFilling(page);
        }
        return;
      }
      assert n == hash[page];
      ReferenceHit(n);
    }

    /** The hit branch of cache_reference_and_print: one more reference below
        K, then promote_on_hit. */
    method ReferenceHit(n: nat)
      requires Valid() && n < used
      modifies this, prev, next, refcnt
      ensures Linked()
      ensures Model() == Policy.Hit(old(Model()), n)
    {
      ghost var m := Model();
      // A node is in cold exactly while its count is below K.
      Policy.ListOfSlot(m, n);
      var inCold := refcnt[n] < K;
      if refcnt[n] < K {
        refcnt[n] := refcnt[n] + 1;
      }
      ghost var m2 := Model();
      assert m2 == m.(refcnt := m.refcnt[n := if m.refcnt[n] < m.k then m.refcnt[n] + 1 else m.refcnt[n]]);
      assert Policy.Hit(m, n) == Policy.Promote(m2, n);
      PromoteOnHit(n, inCold);
    }
  }
}
