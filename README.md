# LRU-K page replacement with a page index and two intrusive lists

This project models the replacement engine of `OS_LRU-K.c`, an LRU-K page
cache. Every resident page has a node holding its reference count, which is
capped at K. The node sits in one of two doubly linked lists, each kept most
recent first:

- **cold** holds the nodes with fewer than K references;
- **hot** holds the nodes with K references.

A page index (`hash`) maps a page number to its node. The array `frame` maps a
physical slot to the page it holds, or -1.

A reference to a page goes one of three ways:

- A page at or beyond the index capacity is skipped.
- A **hit** adds a reference while the count is below K. The node then moves to
  the front of hot if it has K references, and to the front of cold otherwise.
- A **miss** counts one fault. While frames are free it takes the next free
  slot. Once the cache is full, the node at the rear of cold is evicted, or the
  rear of hot when cold is empty, and the new page takes the victim's slot. The
  new node enters cold with one reference, and is promoted at once when K is 1.

The model has five layers:

- `Policy` (policy.dfy) is the engine as pure functions on a value `State`: the
  lists are sequences of slots, most recent first. It also holds the
  invariant `Inv` that every reference preserves, and the lemmas about the
  policy.
- `LruK.Cache` (cache.dfy) is the engine as the C code runs it: a class
  updated in place, with arrays for the frames, the index, the links and the
  counts. Each list head is a `Links.List` value, like the C `struct List`,
  and the links are rewired one pointer at a time. Every policy-level method
  (creation, eviction, promotion, admission, hit, miss and reference) is
  proved to change the cache exactly as the matching `Policy` function
  changes its `Model()`. The list, index and slot helpers are proved against
  the `Links` functions on the link arrays and against the ghost sequences
  of the two lists. `Valid()` ties the arrays to the sequences through `Links.Chain`.
- `Links` (links.dfy) describes the intrusive lists on the slot arena. It
  proves that unlinking and pushing keep a well-formed chain.
- `Lru` (lru.dfy) is plain LRU as an independent reference definition. It
  proves that with K = 1 the intended engine of `Policy` behaves exactly
  like plain LRU, reference by reference and over whole strings of pages in
  range: same pages, same faults. The C code as written does not, because of the head drift
  described under Findings.
- `AsWritten` (as_written.dfy) is the C list bookkeeping exactly as written.
  It shows the size drift and the head drift described under Findings. `Scenarios`
  (scenarios.dfy) works two reference strings through the engine.

The model stores no node record. A node is addressed by the frame slot it
keeps while it is resident. Its `prev`, `next` and `refcnt` fields are arrays
indexed by that slot, and its page number is `frame[slot]`.

Two reference strings are worked through the engine in module `Scenarios`,
each to its final frames and fault count:

- **References 1 2 3 1 4, three frames, K = 2** (`Scenarios.ScenarioA`).
  Page 1 turns hot on its second reference. Page 4 then evicts the rear of
  cold, which is page 2, the oldest cold page. The frames end as [1, 4, 3]
  after four faults, with page 1 hot and pages 3 and 4 cold.
- **References 1 2 1 2 1 2 3, two frames, K = 3** (`Scenarios.ScenarioC`).
  Pages 1 and 2 both reach K = 3 references and turn hot. Page 3 then
  evicts page 1, the rear of hot. The frames end as [3, 2] after three
  faults, with page 2 hot and page 3 cold.

The code does not check for a capacity of 0 (see Findings); the model
requires at least one frame. The code keeps no timestamps or logical clock:
recency is only the order of the lists, and the model has none either.

## Model

| member | source | states |
|---|---|---|
| LruK.Cache.constructor | OS_LRU-K.c:98-113 | A new cache is valid and equals `Policy.Create`: K is clamped to at least 1, nothing is resident, every frame holds -1, and both lists are empty |
| Policy.Create | OS_LRU-K.c:98-113 | The new state satisfies the invariant. K is at least 1, and equals the requested K when that is positive. There is one frame per requested frame, each -1. The index covers pages 0 to maxPageIdInclusive with none resident. No page is used, there are no faults, and both lists are empty |
| LruK.Cache.ListUnlink | OS_LRU-K.c:41-49 | Unlinking a node that is in the list leaves a well-formed chain of the other nodes in their old order, and clears the node's own links. No link outside the list changes |
| Links.ChainUnlink | OS_LRU-K.c:41-49 | On the link arrays, the unlink of position i yields a chain of the remaining slots in order with the head updated. Links of slots outside the list are unchanged |
| Links.UnlinkChain | OS_LRU-K.c:41-49 | After the unlink of position i, the links and the new head spell out the list with that position cut out |
| Links.UnlinkOutside | OS_LRU-K.c:43-47 | The unlink keeps the sizes of the link arrays, and changes no link of a slot outside the list |
| LruK.Cache.JoinNeighbours | OS_LRU-K.c:43-47 | The link arrays become `Links.UnlinkPrev` and `Links.UnlinkNext` of the old links: the neighbours point at each other and the node's own links are -1 |
| LruK.Cache.ListPushFront | OS_LRU-K.c:51-58 | Pushing a node that is not in the list makes it the front of a well-formed chain followed by the old list. No link outside the list and the node changes |
| Links.ChainPush | OS_LRU-K.c:51-58 | On the link arrays, a push yields the chain `[n] + ls` with size one larger. Other links are unchanged |
| LruK.Cache.ListPopRear | OS_LRU-K.c:60-65 | An empty list returns -1 and stays as it is. Otherwise the rear node is returned, and the list becomes the chain of all nodes but the last |
| LruK.Cache.HashGet | OS_LRU-K.c:76-79 | The result is -1 exactly when the page is not resident, and a page beyond the capacity never is. Otherwise the result is an occupied slot whose frame holds the page |
| LruK.Cache.HashPut | OS_LRU-K.c:80-82 | The index entry of an in-range page is set to the node, and an out-of-range page leaves the index unchanged |
| LruK.Cache.HashDel | OS_LRU-K.c:83-85 | The index entry of an in-range page is cleared to -1, and an out-of-range page leaves the index unchanged |
| LruK.Cache.CacheFull | OS_LRU-K.c:126 | The result is `Policy.Full`, which holds exactly when the two lists together hold one node per frame |
| Policy.Full | OS_LRU-K.c:126 | The cache is full once `used` reaches the number of frames. `LruK.Cache.CacheFull` shows this holds exactly when the two lists hold one node per frame, and `Policy.FreshSlotVacant` that while it is not full the next free slot is vacant |
| LruK.Cache.PopVictim | OS_LRU-K.c:130-134 | The rear of cold is popped when cold is non-empty, and otherwise the rear of hot. With both lists empty nothing changes and the result is -1 |
| LruK.Cache.PopCold | OS_LRU-K.c:132 | The rear of a non-empty cold list is returned and leaves it. Hot and the counters are unchanged, and the lists stay well linked and disjoint |
| LruK.Cache.PopHot | OS_LRU-K.c:133 | With cold empty, the rear of hot is returned and leaves it. Cold and the counters are unchanged |
| LruK.Cache.EvictOne | OS_LRU-K.c:130-143 | The cache becomes the state of `Policy.EvictOne` and the result is its victim slot |
| LruK.Cache.ClearFrame | OS_LRU-K.c:138-139 | The victim's page leaves the index and the victim's frame becomes -1. No other frame or index entry changes |
| Policy.Clear | OS_LRU-K.c:137-139 | The victim's frame becomes -1 and its page leaves the index. Every other index entry and every other field keeps its value |
| Policy.EvictOne | OS_LRU-K.c:130-143 | The slot is -1 exactly when both lists are empty. Otherwise it is an occupied slot. Frame and index sizes and the counts are kept |
| Policy.EvictionChoosesColdFirst | OS_LRU-K.c:130-143 | The victim is the rear of cold whenever cold is non-empty, and then has fewer than K references. Only an empty cold list sends the choice to the rear of hot. The victim leaves its list, its page leaves the index and its frame becomes -1. Counters, counts and K are unchanged |
| Policy.EvictLeavesVacant | OS_LRU-K.c:130-143 | After an eviction from a full cache, the victim's slot is vacant: it is in no list, holds no page and no index entry names it. Every other slot still meets the invariant |
| Policy.EvictColdVacant | OS_LRU-K.c:132-139 | When cold is non-empty, the evicted rear of cold leaves a vacant slot |
| Policy.EvictHotVacant | OS_LRU-K.c:133-139 | When cold is empty, the evicted rear of hot leaves a vacant slot |
| LruK.Cache.Detach | OS_LRU-K.c:146-155 | The node leaves the list that holds it, and the other list is unchanged |
| LruK.Cache.DetachCold | OS_LRU-K.c:152 | A cold node leaves cold, the other cold nodes keep their order, and hot and the counters are unchanged |
| LruK.Cache.DetachHot | OS_LRU-K.c:148 | A hot node leaves hot, the other hot nodes keep their order, and cold and the counters are unchanged |
| LruK.Cache.PushHot | OS_LRU-K.c:149 | A node in neither list becomes the front of hot, ahead of the old hot nodes in order. Cold and the counters are unchanged |
| LruK.Cache.PushCold | OS_LRU-K.c:196 | A node in neither list becomes the front of cold, ahead of the old cold nodes in order. Hot and the counters are unchanged |
| LruK.Cache.MoveToHotFront | OS_LRU-K.c:146-149 | The node leaves its list and becomes the front of hot, and the other nodes keep their order |
| LruK.Cache.MoveToColdFront | OS_LRU-K.c:151-154 | A cold node moves to the front of cold, the other cold nodes keep their order, and hot is unchanged |
| LruK.Cache.PromoteOnHit | OS_LRU-K.c:146-155 | The cache becomes the state of `Policy.Promote`: the node is unlinked from the list that holds it, then heads hot with K references and cold otherwise |
| Policy.Promote | OS_LRU-K.c:146-155 | Promotion changes only the two lists. A node with K references heads hot and is no longer in cold; a node below K heads cold and hot is unchanged. `Policy.PromotePlacement` adds that it is in exactly one list and the other nodes keep their order |
| Policy.PromotePlacement | OS_LRU-K.c:146-155 | After promotion the node heads hot when it has K references and heads cold otherwise. It is then in exactly one list. The other nodes stay in the same lists in the same relative order, the total number of nodes is kept, and nothing but the lists changes |
| Policy.PromoteIdempotent | OS_LRU-K.c:146-155 | Promoting a node that already heads the list its count calls for changes nothing |
| Policy.PromoteTwice | OS_LRU-K.c:146-155 | Promoting the same node twice in a row gives the same state as promoting it once |
| Policy.PromoteRestores | OS_LRU-K.c:146-155 | Promotion puts a node whose count has just changed into the list its count calls for, and restores the list invariant |
| Policy.ListOfSlot | OS_LRU-K.c:146-155 | Under the invariant every occupied slot is in exactly one list, and it is in cold exactly while its count is below K |
| LruK.Cache.AdmitAt | OS_LRU-K.c:189-197 | Admitting a page at a vacant slot gives `Policy.Admit`: refcnt 1, the index maps the page to the slot, the frame holds the page, and the node is pushed on cold, then promoted when K is 1 |
| Policy.Admit | OS_LRU-K.c:189-197 | The page is indexed at the slot, the slot's frame holds the page, its count is 1, and no array changes size. `Policy.AdmitShape` adds that nothing else changes and that the slot is pushed onto the front of a list whose other nodes keep their order |
| Policy.AdmitShape | OS_LRU-K.c:189-197 | An admission sets the index, the frame and refcnt of exactly that slot, and keeps K, faults, used and next_free_slot. With K > 1 cold becomes the slot followed by the old cold list and hot is unchanged; with K = 1 hot becomes the slot followed by the old hot list and cold is unchanged |
| Policy.AdmitPreservesInv | OS_LRU-K.c:189-197 | An admission at a vacant slot restores the invariant |
| Policy.IndexAdmit | OS_LRU-K.c:193-194 | Writing the page to the vacant slot's frame and the slot to the page's index entry makes frames and index agree again |
| Policy.IndexClear | OS_LRU-K.c:138-139 | Clearing the victim's index entry and frame leaves frames and index in agreement everywhere but the victim's slot |
| Policy.FreshSlotVacant | OS_LRU-K.c:184-186 | While the cache is not full, the next free slot is vacant once `used` and `next_free_slot` have grown by one |
| LruK.Cache.MissEvicting | OS_LRU-K.c:174-198 | A miss on a full cache gives `Policy.Miss`: one more fault, then the page takes the victim's slot |
| LruK.Cache.AdmitEvicting | OS_LRU-K.c:181-197 | The victim's slot is non-negative, and the cache becomes that state with the page admitted at the victim's slot |
| LruK.Cache.MissFilling | OS_LRU-K.c:174-198 | A miss while a frame is free gives `Policy.Miss`: one more fault, and the page takes `next_free_slot` while `used` grows by one |
| Policy.Miss | OS_LRU-K.c:176-197 | A miss counts exactly one fault and changes no array's size. `Policy.MissShape` adds the slot it uses, the used count and the list placement |
| LruK.Cache.AdmitFresh | OS_LRU-K.c:184-197 | The page is admitted at `next_free_slot`, with `used` and `next_free_slot` one larger |
| Policy.MissShape | OS_LRU-K.c:174-197 | A miss counts exactly one fault and keeps K. The page takes a slot within the frames: the victim's slot when the cache is full, with `used` and next_free_slot unchanged and the victim's page gone from the index; otherwise the next free slot, with both one larger. The slot holds the page with refcnt 1. It is pushed onto the front of cold when K > 1 and of hot when K = 1, ahead of the other nodes of that list in their order; the other list keeps its nodes in order. On a full cache the victim has left its list first |
| Policy.FullMissShape | OS_LRU-K.c:181-197 | A miss on a full cache counts one fault, keeps `used`, next_free_slot and K, and puts the page with refcnt 1 into the victim's slot, which is the rear of cold, or the rear of hot when cold is empty. Only that frame changes, and the victim's page leaves the index. The lists become the old lists without the victim, with the slot pushed onto the front of cold when K > 1 and of hot when K = 1 |
| Policy.FillMissShape | OS_LRU-K.c:184-197 | A miss with a free frame counts one fault, grows `used` and next_free_slot by one, keeps K, and puts the page with refcnt 1 into the next free slot, changing only that frame and the page's index entry. With K > 1 cold becomes the slot followed by the old cold list and hot is unchanged; with K = 1 hot becomes the slot followed by the old hot list and cold is unchanged |
| Policy.EvictAdmitShape | OS_LRU-K.c:181-197 | On a full cache, evicting then admitting replaces just the victim's frame by the page. The victim is the rear of cold, or of hot when cold is empty. The victim's old page leaves the index, and K, used, next_free_slot and faults stay. The lists lose the victim, and the slot is pushed onto the front of cold when K > 1 and of hot when K = 1, with the other nodes in their order |
| Policy.FaultKeepsInv | OS_LRU-K.c:178 | Counting a fault keeps the invariant |
| LruK.Cache.ReferenceHit | OS_LRU-K.c:203-205 | A hit gives `Policy.Hit`: the count grows by one only below K, then the node is promoted |
| Policy.Hit | OS_LRU-K.c:203-205 | A hit counts no fault and changes no frame, no index entry and not `used`. The node's count grows by one while it is below K and no other count changes. `Policy.HitPreservesInv` keeps the invariant |
| Policy.HitReady | OS_LRU-K.c:204 | After the count update of a hit, every list is as the invariant demands except possibly the hit node, which is ready for promotion |
| Policy.HitPreservesInv | OS_LRU-K.c:203-205 | A hit keeps the invariant |
| Policy.MissPreservesInv | OS_LRU-K.c:174-198 | A miss keeps the invariant |
| Policy.FullMissPreservesInv | OS_LRU-K.c:181-198 | A miss on a full cache keeps the invariant |
| Policy.EvictAdmitPreservesInv | OS_LRU-K.c:181-197 | Evicting from a full cache and admitting at the victim's slot keeps the invariant |
| Policy.FillMissPreservesInv | OS_LRU-K.c:184-197 | A miss while a frame is free keeps the invariant |
| LruK.Cache.Reference | OS_LRU-K.c:167-209 | One reference keeps `Valid()` and changes the cache exactly as `Policy.Reference` changes its model |
| Policy.Reference | OS_LRU-K.c:167-209 | A page outside the index changes nothing. A hit counts no fault and keeps the frames; a miss counts one fault. No array changes size. `Policy.ReferencePreservesInv` keeps the invariant |
| Policy.ReferencePreservesInv | OS_LRU-K.c:167-209 | Every reference keeps the invariant (one node per used slot in exactly one list, counts in [1, K] deciding the list, index and frames in agreement, used at most frames), as well as the frame count, the index capacity and K |
| Policy.ResidentIndexed | OS_LRU-K.c:76-79 | For a page in range, the index entry is not -1 exactly when some occupied frame holds the page |
| Policy.ReferenceCounters | OS_LRU-K.c:168-187 | A page beyond the capacity changes nothing. A miss counts exactly one fault, and takes one more frame unless the cache is full. A hit counts no fault and takes no frame. Used never exceeds the frames |
| Policy.ReferenceMakesResident | OS_LRU-K.c:189-207 | After a reference to a page in range, the index names an occupied slot that holds the page. A hit keeps that slot and every frame and index entry, and adds a reference only below K. A miss starts at one reference. The count is in [1, K] and the node heads hot at K and cold below K |
| Policy.HitResident | OS_LRU-K.c:203-205 | A hit keeps the page in its slot and every frame and index entry. It adds a reference only below K, and then the node heads hot at K and cold below K |
| Policy.MissResident | OS_LRU-K.c:176-197 | After a miss the index names an occupied slot holding the page with one reference, at the head of hot when K is 1 and of cold otherwise |
| Policy.Run | OS_LRU-K.c:250-252 | The driver loop keeps the invariant, the frame count, the index capacity and K |
| Policy.RunStep | OS_LRU-K.c:250-252 | A run applies its first reference and then the rest. That reference keeps the invariant and the frame count |
| Policy.RepeatedPageFaultsOnce | OS_LRU-K.c:250-252 | Referencing one page n times faults at most once: on the first reference, and only if the page was not resident |
| Policy.RunFaultsBounded | OS_LRU-K.c:250-252 | A run never decreases the fault count and adds at most one fault per reference |
| Lru.ColdEmpty | OS_LRU-K.c:196-197 | With K = 1 every admitted node is promoted at once, so cold is always empty |
| Lru.HotPages | OS_LRU-K.c:196-197 | With K = 1 the hot pages are distinct, one per used slot. For every page in range, the page is among them exactly when it is resident |
| Lru.HitIsLruHit | OS_LRU-K.c:203-205 | With K = 1 a hit moves the page to the front of the hot pages and keeps the rest in order |
| Lru.FillIsLruMiss | OS_LRU-K.c:184-196 | With K = 1 a miss with a free frame puts the page in front of the hot pages |
| Lru.EvictIsLruMiss | OS_LRU-K.c:181-196 | With K = 1 a miss on a full cache drops the least recent hot page and puts the new page in front |
| Lru.HitLists | OS_LRU-K.c:203-205 | With K = 1 a hit leaves cold empty and the frames unchanged, and moves the hit slot to the front of hot |
| Lru.FillLists | OS_LRU-K.c:184-196 | With K = 1 a miss with a free frame leaves cold empty, puts the next free slot in front of hot and writes the page into its frame |
| Lru.EvictLists | OS_LRU-K.c:181-196 | With K = 1 a miss on a full cache moves the rear slot of hot to its front and writes the new page into that slot's frame |
| Lru.KOneIsLru | OS_LRU-K.c:167-209 | With K = 1 one reference does to the hot pages exactly what `LruStep`, plain LRU, does to its list. It faults exactly when plain LRU misses |
| Lru.KOneRunIsLru | OS_LRU-K.c:250-252 | With K = 1 a whole reference string of pages in range ends with the pages and the fault count of plain LRU |
| Scenarios.ScenarioA | OS_LRU-K.c:167-209 | Three frames, K = 2, references 1 2 3 1 4: the frames end as [1, 4, 3] with four faults, page 1 hot and pages 4 and 3 cold |
| Scenarios.ScenarioC | OS_LRU-K.c:167-209 | Two frames, K = 3, references 1 2 1 2 1 2 3: the frames end as [3, 2] with three faults, page 2 hot and page 3 cold |
| AsWritten.SizeDriftEvictsHotPage | OS_LRU-K.c:146-155 | As written, two frames, K = 2, references 1 2 1 1: cold's size is 0 while page 2 is still linked in cold. Page 3 then evicts page 1 and the frames end as [3, 2], where the intended engine gives [1, 3] |
| AsWritten.IntendedEvictsColdPage | OS_LRU-K.c:130-143 | The intended engine on references 1 2 1 1 3 with two frames and K = 2 evicts page 2, the rear of cold, and ends with frames [1, 3] |
| AsWritten.HeadDriftEvictsRecentPage | OS_LRU-K.c:146-155 | As written, two frames, K = 1, references 1 2 1: hot's front and rear are both slot 0, holding page 1, while page 2 is still linked behind it. Page 3 then evicts page 1, the most recent page, and the frames end as [3, 2]. The intended engine on the same string ends with [1, 3] |
| AsWritten.HeadDriftHit | OS_LRU-K.c:41-58 | As written, on two frames with K = 1 and references 1 2 1, the third reference, a hit on page 1 at hot's rear, leaves slot 0 as both front and rear of hot with page 2 still linked behind it |
| AsWritten.HeadDriftAtRear | OS_LRU-K.c:146-155 | As written, for any K, promoting a node with K references that is the rear of a hot list of two or more nodes and is not in cold leaves it as both front and rear of hot, with the old front linked behind it and the size unchanged |
| AsWritten.ZeroFramesAdmitAtMinusOne | OS_LRU-K.c:180-187 | As written, with no frames a miss finds the cache full and nothing to evict, and takes slot -1 |
| AsWritten.Unlink | OS_LRU-K.c:41-49 | `list_unlink` statement by statement, with -1 for NULL, including the early return on NULL. `AsWritten.UnlinkIsLinksUnlink`, `AsWritten.UnlinkInList` and `AsWritten.UnlinkElsewhere` state what it does |
| AsWritten.UnlinkIsLinksUnlink | OS_LRU-K.c:41-49 | As written, the unlink writes exactly the links and head that `Links.UnlinkPrev`, `Links.UnlinkNext` and `Links.UnlinkHead` give, for any list it is given |
| AsWritten.UnlinkInList | OS_LRU-K.c:41-49 | As written, unlinking a node from the list that holds it leaves a chain of the other nodes, with the size one smaller and the array sizes kept |
| AsWritten.UnlinkElsewhere | OS_LRU-K.c:41-49 | As written, unlinking a node from a non-empty list that does not hold it keeps the list's front and rear but sets its size to one less than the number of nodes it still holds |
| AsWritten.PushFront | OS_LRU-K.c:51-58 | `list_push_front` statement by statement. `AsWritten.PushFrontIsLinksPush` states what it does |
| AsWritten.PushFrontIsLinksPush | OS_LRU-K.c:51-58 | As written, the push writes exactly the links and head that `Links.PushPrev`, `Links.PushNext` and `Links.PushHead` give |
| AsWritten.PopRear | OS_LRU-K.c:60-65 | `list_pop_rear`. `AsWritten.PopRearInList` states what it does |
| AsWritten.PopRearInList | OS_LRU-K.c:60-65 | As written, popping a well-formed empty list returns NULL and changes nothing; popping a non-empty one returns its rear and leaves a chain of the others |
| AsWritten.Evict | OS_LRU-K.c:130-143 | `cache_evict_one`, with the choice made on the sizes. `AsWritten.EvictWithExactSizes` and `AsWritten.SizeDriftEvictsHotPage` state what it does |
| AsWritten.EvictWithExactSizes | OS_LRU-K.c:130-143 | As written, while both sizes are exact the victim is the rear of cold, or the rear of hot when cold is empty, or none; the victim's frame becomes -1 |
| AsWritten.Promote | OS_LRU-K.c:146-155 | `promote_on_hit` as written. `AsWritten.PromoteColdBelowK`, `AsWritten.SizeDriftEvictsHotPage` and `AsWritten.HeadDriftHit` state what it does |
| AsWritten.PromoteColdBelowK | OS_LRU-K.c:151-154 | As written, promoting a cold node below K references moves it to the front of cold, as the intended promotion does, and leaves hot's head unchanged |
| AsWritten.ColdUnlinkPush | OS_LRU-K.c:151-154 | As written, the unlink from cold and the push onto cold leave the chain of cold with the node moved to its front |
| AsWritten.MissSlot | OS_LRU-K.c:180-187 | The slot a miss takes, as written. `AsWritten.ZeroFramesAdmitAtMinusOne` states its zero-frame case |
| AsWritten.Reference | OS_LRU-K.c:167-209 | `cache_reference_and_print` as written. The step lemmas of `AsWritten.SizeDriftEvictsHotPage` and `AsWritten.HeadDriftEvictsRecentPage` state what it does on their reference strings |
| AsWritten.Create | OS_LRU-K.c:98-113 | `cache_create`. `AsWritten.CreateIsPolicyCreate` states what it gives |
| AsWritten.CreateIsPolicyCreate | OS_LRU-K.c:98-113 | As written, creation gives the same K, frames, index, counts and counters as `Policy.Create`, and list heads that spell out two empty lists |

## Left out

- Output is not modelled: `print_frames_line`, `print_list`, `cache_print`, and the message for a skipped page (OS_LRU-K.c:158-164, 169-170, 212-223).
- `main_2` reads its configuration and the reference string with `scanf`. `Policy.Run` stands in for its loop at lines 250-252, over a given sequence.
- `malloc`, `calloc`, `free`, `perror` and `exit` are not modelled, nor `cache_destroy`, which only frees memory. Dafny allocation takes their place.
- Pointer aliasing is not modelled. A node is the frame slot it occupies, and its links are slot-indexed arrays with -1 for NULL. The `pageNumber` and `slot` fields are not stored separately: a node's page is `frame[slot]`, and `hash_del` on the victim's page reads it from there.
- `node_new` (OS_LRU-K.c:88-96) has no method of its own. Its fields are set directly at admission: null links, refcnt 1, and the slot.
- LruK.Cache.PromoteOnHit: takes the list that holds the node as an argument (`inCold`, decided by the count before the hit's increment). It unlinks only from that list, where the C code unlinks from cold and then from hot. So `size` always equals the length of its list, and each list's front and rear are its first and last node. In the C code both of these drift. The size of the list that does not hold the node is decremented. When the node is at an end of hot, unlinking it from hot after its links were cleared sets that end to NULL, so after the push hot's front and rear no longer delimit its chain; at the rear, the node becomes both front and rear (see Findings and module `AsWritten`).
- LruK.Cache.ListUnlink: requires the node to be in the list it is given. The C function also runs on a list that does not hold the node; that case is modelled only in `AsWritten.Unlink`.
- LruK.Cache.constructor: requires at least one frame (see Findings). It also requires `maxPageIdInclusive < 0xFFFF_FFFF`, so that the unsigned `maxPageIdInclusive + 1` at line 107 does not wrap to 0.
- Policy.Admit: the page number and the slot are unbounded integers. The C code stores the page in the frame as `(int)page` (line 194) and takes the slot as `(int)c->next_free_slot++` (line 185), so a page number or a frame count of 2^31 or more would become a negative `int` there. The model keeps the value itself, so its invariant `frame[s] == page` holds only where those casts keep the value.
- Policy.Reference: the fault counter is an unbounded `nat`. The 32-bit unsigned wrap-around of `faults` after 2^32 misses is not modelled.
- LruK.Cache.Reference: asks `cache_full` before it counts the fault, where the C code counts it first. `cache_full` does not read `faults`, so the result is the same.
- The page identifiers are not required to be below `maxPageIdInclusive + 1`. `main_2` sizes the index from the largest page it reads, and a larger page is skipped, as at lines 168-172.

## Findings

| source | as written | input that shows it | evidently intended | confidence | as-written member | corrected member |
|---|---|---|---|---|---|---|
| OS_LRU-K.c:146-155 | On promotion with K references, `promote_on_hit` unlinks the node from cold and then from hot, whichever list holds it. `list_unlink` decrements the size of a list that does not hold the node, so cold's size can reach 0 while cold still holds nodes. `cache_evict_one` then tests that size and evicts from hot while cold pages are resident | two frames, K = 2, references 1 2 1 1 3: the second hit on page 1 takes cold's size to 0 with page 2 still cold, and page 3 evicts hot page 1, leaving frames [3, 2] | unlink from the list that holds the node, so sizes stay exact and the rear of cold is evicted first: frames [1, 3] | not executed | AsWritten.SizeDriftEvictsHotPage | Policy.EvictionChoosesColdFirst |
| OS_LRU-K.c:146-155 | For a node that has K references, `promote_on_hit` (line 148) unlinks it from cold first, whichever list holds it. For a hot node that unlink rewires hot's chain around the node and clears the node's links (lines 43-44 and 47), but leaves hot's front and rear alone. The unlink from hot (line 149) then reads the cleared links: if the node is hot's rear, line 46 sets the rear to NULL, and line 56 of the push makes the node the rear again as well as the front. The next eviction pops the rear, which is now the most recent page. With K = 1 every admission and every hit takes this path, so the code with K = 1 is not plain LRU | two frames, K = 1, references 1 2 1 3: after 1 2 1 hot's front and rear are both slot 0, which holds page 1, and page 3 evicts page 1, leaving frames [3, 2] | each list's front and rear stay its first and last node; with K = 1 the engine is plain LRU and ends with frames [1, 3] | not executed | AsWritten.HeadDriftEvictsRecentPage | Lru.KOneRunIsLru |
| OS_LRU-K.c:180-187 | With `frames == 0` the first miss finds the cache full, `cache_evict_one` returns -1, and the page is admitted at slot -1, so `frame[-1]` is written | `cache_create(0, 1, 0)`, then a reference to page 0 | refuse zero frames, so that every admitted slot lies within the frames | not executed | AsWritten.ZeroFramesAdmitAtMinusOne | Policy.MissShape |
