# Double-array trie with tail compression

This project is a Dafny model of the trie engine in `trie.cpp` (konghuarukhr/trie).

Keys are sequences of bytes (`Word`). Each key maps to an integer payload. The trie stores them in two growable arrays:

- **The node array.** Each slot is a `Node(base, prev)`:
  - `prev` is the index of the parent that owns the slot; `prev == 0` means the slot is free;
  - `base >= BASE` marks a branching node, whose child for symbol `w` sits at `base + w`;
  - `base <= 0` marks a leaf, whose tail record is `-base`.
- **The tail array.** Each `TailRec(words, data, usedBy)` holds the unconsumed rest of one key, its payload and the leaf that owns it.

Two cursors, `nextUnusedNodeIdx` and `nextUnusedTailIdx`, speed up the search for free slots. The root lives at index `ROOT = 1`. It starts with base `BASE = 2`; relocating its children raises that base (trie.cpp:262-276, 504).

## Imperative part

`DoubleArrayTrie.Trie` is a class with the two arrays and the two cursors as fields. Every source routine that changes them is a method with a `modifies` clause and its loops:

- the growth and cursor routines;
- `fill_tail`;
- `adjust`, `move` and `collect_sub_nodes`;
- `insert`, with its collision handling and tail splitting;
- `erase` and `erase_all_subs`;
- `search`;
- the two segment matches;
- both forms of `prefix` and `collect_all_subs`.

## Ghost abstraction

Three ghost fields explain the arrays:

- `path` gives the symbol path of every live node;
- `leafOf` gives the leaf of every stored key;
- `contents` maps each stored key to its payload.

`TrieFacts.Known` says what a lookup can follow: the path of a live node, or a prefix of a stored key. The contracts of `insert` and `erase` state the new `contents` and how `Known` changes. The contracts of the queries state their results in terms of `contents` and `Known`.

`TrieInvariant.Inv` ties the ghost fields to the arrays:

- every live node is linked to its parent at the slot its last symbol selects;
- free slots are all zero;
- a leaf's key is its path followed by its tail;
- `contents` holds exactly the leaves' keys and payloads.

## Proof structure

Every structural change is proved once, as a lemma over value snapshots (`TrieSteps`, `TrieRelocate`). The methods bring the arrays to the state that lemma describes:

- claiming a free slot for a new leaf;
- pushing a leaf one symbol down;
- removing a leaf or a childless branch;
- growing an array;
- relocating a node's children to a new base.

The reasoning about what a query may conclude lives in `TrieFacts`, `TrieInsertFacts`, `TrieEraseFacts` and `TrieQueryFacts`.

## Behaviour of trie.cpp worth knowing

- A slot is free when its `prev` is 0 (trie.cpp:167, 320, 366, 431). A leaf whose tail record is number 0 also has `base == 0`, so `base` alone does not tell a free slot.
- When the tail walk of `insert` consumes a leaf's tail completely, the tail record stays with the leaf as the holder of its payload, with no words (trie.cpp:350-354, 392-396).
- The tail form of `prefix` returns each key's rest after the queried prefix (trie.cpp:961-1041).
- `insert` raises its invariant-violation error for a new key that has a stored key as a proper prefix, or that is a proper prefix of a stored key. It also raises it for a new key that ends exactly on a branching node (trie.cpp:414). That covers the empty key, and the path of a node whose leaves were all erased. `TrieInsertFacts.RejectsCases` states the exact set.

## Model

| member | source | states |
|---|---|---|
| DoubleArrayTrie.Trie.constructor | trie.cpp:112-133 | the new trie stores no key and satisfies the invariant: two node slots with the root branching at `BASE`, one free tail record, the node cursor at `BASE + 256` and the tail cursor at 0 |
| DoubleArrayTrie.Trie.ExpandNodes | trie.cpp:144-160 | the node array grows to `next + 1` when doubling is not enough, else to double; old slots are kept, new ones are free; nothing else changes |
| DoubleArrayTrie.Trie.EnsureNodeSlot | trie.cpp:487-490 | slot `next` exists afterwards; existing slots are kept and any new slots are free |
| DoubleArrayTrie.Trie.IncNextUnusedNodeIdx | trie.cpp:163-172 | the cursor moves only when it equals `idx`, and then to the next free slot (or the end); every slot it skips is in use |
| DoubleArrayTrie.Trie.DecNextUnusedNodeIdx | trie.cpp:174-179 | the cursor drops to `idx` exactly when `idx` lies above `BASE + 255` and below the cursor |
| DoubleArrayTrie.Trie.GetNextUnusedTailIdx | trie.cpp:182-208 | returns the cursor's free tail record; doubles the tail array when the cursor is at the end; advances the cursor to the next free record, skipping only records in use |
| DoubleArrayTrie.Trie.SetNextUnusedTailIdx | trie.cpp:210-215 | the tail cursor becomes the minimum of itself and `idx` |
| DoubleArrayTrie.Trie.FillTail | trie.cpp:217-235 | record `t`, which must be empty, now holds the rest of the key, the payload and the owning leaf; no other record changes |
| DoubleArrayTrie.Trie.CollectSubNodes | trie.cpp:507-517 | returns exactly the child symbols of `tn`, in ascending order |
| TrieCollision.NewBase | trie.cpp:417-440 | the smallest base above the current one whose slots for all the children are free or beyond the array |
| TrieCollision.NewBaseFor | trie.cpp:442-472 | the smallest base above the current one whose slots for the children and for the incoming symbol are all free or beyond the array |
| DoubleArrayTrie.Trie.Adjust | trie.cpp:417-440 | moves `tn`'s children to that new base; the stored keys are unchanged and the new state is the relocated snapshot |
| DoubleArrayTrie.Trie.MoveTo | trie.cpp:438-439 | relocates `tn`'s children to a given fitting base, keeping the invariant and the stored keys |
| DoubleArrayTrie.Trie.Move | trie.cpp:474-505 | the children move by `offset`, their children are re-parented, their tail owners are updated and the old slots are freed; the result is exactly `Moved(old state)` and the stored keys are unchanged |
| DoubleArrayTrie.Trie.MoveChildren | trie.cpp:479-503 | after the loop, the arrays are the staged relocation of all children |
| DoubleArrayTrie.Trie.MoveChildAt | trie.cpp:480-502 | one round of the loop extends the staged relocation by one child |
| DoubleArrayTrie.Trie.MoveChild | trie.cpp:480-502 | one child is copied to its new slot, its children are re-parented and its tail owner is updated; the old slot is freed |
| DoubleArrayTrie.Trie.ReparentSubNodes | trie.cpp:483-486 | every grandchild's `prev` is raised by `offset` and nothing else changes |
| DoubleArrayTrie.Trie.RelocateSlot | trie.cpp:491-498 | the node is copied to its new slot and the old slot is zeroed; a leaf's tail record names the new owner |
| DoubleArrayTrie.Trie.ShiftBase | trie.cpp:504 | raising the parent's base completes the move; the invariant holds again |
| TrieRelocate.MoveKeepsInv | trie.cpp:474-505 | a relocation to a base where all child slots are free keeps the invariant and the stored keys |
| TrieCollision.FitsAllowMove | trie.cpp:429-439 | a base found by the search meets the relocation's precondition |
| TrieCollision.MovedKnownAll | trie.cpp:474-505 | a relocation changes nothing that a lookup can follow |
| TrieCollision.OtherMoved | trie.cpp:268-280 | after the other parent is moved away, the node on the insertion path is re-found at its new index and the wanted slot is free |
| TrieCollision.OwnMoved | trie.cpp:281-288 | after moving the inserting node itself, it keeps its index and path and stays branching |
| TrieCollision.OwnReady | trie.cpp:281-288 | after moving the inserting node, the slot for the new symbol is free |
| DoubleArrayTrie.Trie.Find | trie.cpp:625-695 | found exactly when the key is stored, and then yields its tail record with its payload; otherwise `unmatch` is the length of the longest prefix of the key that can be followed |
| DoubleArrayTrie.Trie.Search | trie.cpp:619-622 | found exactly when the key is stored, with its payload; otherwise the payload is untouched and `unmatch` is that longest prefix's length, equal to the key's length exactly when the whole key can be followed |
| TrieFacts.KnownPrefixClosed | trie.cpp:625-695 | what can be followed is closed under taking prefixes, so `unmatch` is unique |
| TrieFacts.MissNotKnown | trie.cpp:631-636 | a descent stopped by a missing child cannot be followed one symbol further |
| TrieFacts.LeafTailKnown | trie.cpp:644-664 | along a leaf's tail the matched part can be followed, the first mismatch cannot, and the key is stored exactly when both run out together |
| TrieFacts.NoKeyAboveBranch | trie.cpp:667-672 | no stored key ends at or above a branching node |
| TrieInvariant.ChildPath | trie.cpp:633-638 | a child found through `base + w` and `prev` has its parent's path followed by `w` |
| TrieInvariant.ChildAbsent | trie.cpp:633-636 | if a branching node has no child for `w`, no stored key continues its path with `w` |
| TrieInvariant.LeafOwnsPrefix | trie.cpp:640-664 | a leaf's path followed by its tail is a stored key with the leaf's payload, and it is the only stored key extending the leaf's path |
| TrieInvariant.KeyBelowBranch | trie.cpp:940-959 | every stored key extending a branching node's path continues through one of its children |
| TrieInvariant.PrefixFree | trie.cpp:338-356 | no stored key is a proper prefix of another |
| DoubleArrayTrie.Trie.Insert | trie.cpp:237-415 | fails exactly for the refused keys, leaving the keys and what can be followed unchanged; otherwise adds or overwrites the key with the payload, and what can be followed grows by exactly the key's prefixes; the invariant holds in both cases |
| TrieInsertFacts.RejectsCases | trie.cpp:237-415 | a key is refused exactly when it is new and either a stored key is its proper prefix or vice versa, or it ends on a branching node |
| DoubleArrayTrie.Trie.SetPayload | trie.cpp:240-243 | overwrites the payload of an already stored key; what can be followed is unchanged |
| TrieSteps.SetDataKeepsInv | trie.cpp:240-243 | changing a leaf's payload keeps the invariant and updates only that key |
| DoubleArrayTrie.Trie.Descend | trie.cpp:246-260 | the descent stops at a node whose path is the key's first `i` symbols, where the key runs out, a leaf is reached or the child is missing |
| DoubleArrayTrie.Trie.InsertBelow | trie.cpp:250-300 | a new key whose descent misses a child at a branching node is added, after any collision is resolved; what can be followed grows by exactly the key's prefixes |
| DoubleArrayTrie.Trie.ProvideSlot | trie.cpp:252-253 | slot `next` exists afterwards; the node array only gains free slots at its end, every open slot stays open, and live nodes, keys and cursors are unchanged |
| DoubleArrayTrie.Trie.MoveOther | trie.cpp:262-280 | when the wanted slot belongs to another parent with no more children, that parent is relocated; its keys and what can be followed are unchanged, and the insertion can claim the slot |
| DoubleArrayTrie.Trie.MoveOwn | trie.cpp:281-289 | otherwise the inserting node is relocated to a base where the new symbol's slot is free as well; keys and what can be followed are unchanged |
| TrieInsertFacts.BranchMissAccepts | trie.cpp:250-298 | a key whose descent misses a child is never refused |
| TrieInsertFacts.BranchEndRejects | trie.cpp:414 | a key that ends on a branching node is refused |
| DoubleArrayTrie.Trie.ClaimSlot | trie.cpp:291-298 | the free slot becomes a leaf holding the key's rest; the key is added, and what can be followed grows by exactly its prefixes |
| DoubleArrayTrie.Trie.FillLeaf | trie.cpp:295-296 | once the tail record is at hand, the new state is exactly the claimed snapshot: the slot is a leaf below `tn` owning the record, which holds the key's rest and payload, and the key is stored |
| TrieInsertFacts.ClaimedKnown | trie.cpp:291-298 | claiming a slot for a new key adds exactly that key's prefixes to what can be followed |
| DoubleArrayTrie.Trie.ClaimKey | trie.cpp:291-298 | once its slot is ready, the new key is stored with its payload, and what can be followed grows by exactly its prefixes |
| TrieSteps.ClaimKeepsInv | trie.cpp:291-298 | claiming a free child slot for a new leaf keeps the invariant and adds exactly that key |
| DoubleArrayTrie.Trie.InsertAtLeaf | trie.cpp:300-411 | at a leaf, either refuses exactly the refused keys, leaving the keys and what can be followed unchanged and the invariant intact, or adds the key, and what can be followed grows by exactly its prefixes |
| DoubleArrayTrie.Trie.WalkTail | trie.cpp:305-337 | pushes the leaf down one node per symbol the key shares with its tail; changes no key and nothing that can be followed, and stops where they disagree |
| TrieCollision.FirstFree | trie.cpp:311-322 | the first slot at or after the cursor that is free or beyond the array |
| DoubleArrayTrie.Trie.PushDown | trie.cpp:311-335 | one symbol of the tail becomes a branching node and the leaf moves to its child; keys and what can be followed are unchanged |
| DoubleArrayTrie.Trie.PushAt | trie.cpp:323-335 | the push into a given free slot: the new child has the path one symbol longer and the tail loses its first symbol |
| DoubleArrayTrie.Trie.ApplyPush | trie.cpp:327-330 | the writes of one push (the leaf's new base, the new leaf's slot, the tail without its first symbol) produce exactly the pushed snapshot, which satisfies the invariant |
| TrieSteps.PushDownKeepsInv | trie.cpp:323-335 | pushing a leaf one symbol down keeps the invariant and the stored keys |
| TrieInsertFacts.PushedKnown | trie.cpp:323-335 | a push changes nothing that can be followed |
| TrieInsertFacts.LeafEnd | trie.cpp:336-357 | where the walk stops, the key is refused exactly when the key or the tail has run out |
| TrieInsertFacts.LeafStopRejects | trie.cpp:338-356 | if the key or the tail runs out, but not both, the key is refused |
| TrieInsertFacts.LeafMissAccepts | trie.cpp:358-411 | if both still have symbols and they differ, the key is accepted |
| TrieCollision.SplitBase | trie.cpp:358-370 | the smallest base at or after the start whose slots for both diverging symbols are free or beyond the array |
| DoubleArrayTrie.Trie.SplitLeaf | trie.cpp:358-411 | the leaf splits into a branch with the old leaf and a new leaf; the new key is added, the others are kept, and what can be followed grows by exactly the new key's prefixes |
| DoubleArrayTrie.Trie.SplitAt | trie.cpp:372-411 | the split at a found base with both slots free adds exactly the new key, and exactly its prefixes to what can be followed |
| TrieSteps.GrowNodesKeepsInv | trie.cpp:144-160 | appending free node slots keeps the invariant |
| TrieSteps.GrowTailsKeepsInv | trie.cpp:186-200 | appending free tail records keeps the invariant |
| DoubleArrayTrie.Trie.Erase | trie.cpp:519-583 | removes exactly the stored keys that begin with the erased key (all of them for the empty key); nothing new can be followed afterwards, and only prefixes and extensions of the erased key can stop being followable |
| DoubleArrayTrie.Trie.MatchTail | trie.cpp:537-546 | returns the longest agreement of the key and the tail, up to a limit |
| TrieEraseFacts.MissKeep | trie.cpp:525-528 | a descent stopped by a missing child erases nothing |
| TrieEraseFacts.LeafKeep | trie.cpp:537-546 | if the key goes past what the leaf shares with it, nothing is erased |
| TrieEraseFacts.LeafDrop | trie.cpp:544-555 | if the key ends inside a leaf's key, exactly that key is erased |
| DoubleArrayTrie.Trie.EraseLeaf | trie.cpp:559-573 | freeing a leaf removes exactly its key and its node |
| TrieEraseFacts.ErasedKnown | trie.cpp:519-583 | removing live nodes whose paths are prefixes or extensions of the erased key, and the keys beginning with it, makes nothing new followable, and forgets only prefixes and extensions of the erased key |
| DoubleArrayTrie.Trie.FreeLeaf | trie.cpp:547-555 | the new state is the old one with the leaf's node and tail record zeroed, the leaf gone from the live nodes and its key gone from the stored keys |
| TrieSteps.RemoveLeafKeepsInv | trie.cpp:547-555 | removing a leaf keeps the invariant and removes exactly its key |
| DoubleArrayTrie.Trie.EraseAllSubs | trie.cpp:585-611 | removes every node below `tn` and every stored key that begins with its path; the remaining nodes are untouched |
| DoubleArrayTrie.Trie.EraseChild | trie.cpp:591-609 | one round of the loop removes the child for `w`, its subtree and the keys through it |
| DoubleArrayTrie.Trie.EraseSubtree | trie.cpp:594-606 | a branching child is cleared recursively and then freed |
| DoubleArrayTrie.Trie.FreeBranch | trie.cpp:577-581 | the new state is the old one with the childless branching node zeroed and gone from the live nodes; the stored keys are unchanged |
| TrieSteps.RemoveChildlessKeepsInv | trie.cpp:577-581 | removing a childless non-root branching node keeps the invariant |
| TrieEraseFacts.StripAll | trie.cpp:585-611 | erasing the keys through every child erases every key below the node |
| TrieEraseFacts.UnderAll | trie.cpp:585-611 | the nodes under all the children are exactly the node's descendants |
| TrieEraseFacts.Childless | trie.cpp:575-582 | once its descendants are gone, the node has no children |
| DoubleArrayTrie.Trie.EndsHere | trie.cpp:704-720 | the delimiter's slot holds a leaf with an empty tail exactly when the path followed by the delimiter is a stored key, and then yields its payload |
| TrieQueryFacts.EndAtBranch | trie.cpp:704-720 | a node's path followed by `e` is stored exactly when the child for `e` is a leaf with an empty tail, with that payload |
| TrieQueryFacts.NoCandidateAfterMiss | trie.cpp:722-725 | when the descent misses a child, no longer prefix of the input ends a stored key with the delimiter |
| TrieQueryFacts.LeafWithoutEnd | trie.cpp:733-735 | a leaf whose tail is empty or does not end with the delimiter completes no candidate |
| TrieQueryFacts.LeafCandidate | trie.cpp:736-754 | at a leaf, the only possible candidate is where the tail's matched part stops, and it is a candidate exactly when all but the delimiter matched |
| DoubleArrayTrie.Trie.LeafSegment | trie.cpp:728-755 | at a leaf, reports the unique candidate at or after the current offset, with its payload, or that there is none |
| DoubleArrayTrie.Trie.SegmentMaxMatch | trie.cpp:697-793 | finds a candidate exactly when some prefix of the input followed by the delimiter is stored; then returns the longest such prefix and its payload; otherwise leaves the outputs untouched |
| DoubleArrayTrie.Trie.SegmentMinMatch | trie.cpp:795-890 | finds a candidate exactly when one exists; then returns the shortest such prefix and its payload; otherwise leaves the outputs untouched |
| DoubleArrayTrie.Trie.Prefix | trie.cpp:892-938 | appends the payloads of exactly the stored keys that begin with the prefix, each once, in lexicographic key order |
| TrieQueryFacts.ListsUnique | trie.cpp:892-938 | the sorted listing of the keys beginning with a prefix is unique, so the results of both prefix queries are determined by the stored keys |
| DoubleArrayTrie.Trie.CollectAllSubs | trie.cpp:940-959 | appends the payloads of all stored keys below a branching node, in key order |
| DoubleArrayTrie.Trie.CollectChild | trie.cpp:944-958 | one round: the keys through the child for `w` and their payloads |
| DoubleArrayTrie.Trie.PrefixTails | trie.cpp:961-1041 | appends, for exactly the stored keys that begin with the prefix, each key's rest after the prefix with its payload, in key order |
| DoubleArrayTrie.Trie.CollectAllTails | trie.cpp:1043-1094 | below a node whose path is the prefix followed by `rel`, appends each key's rest after the prefix, with its payload, in key order |
| DoubleArrayTrie.Trie.CollectChildTails | trie.cpp:1069-1092 | one round: the rests of the keys through the child for `w` |
| TrieQueryFacts.ListsLeaf | trie.cpp:926-935 | below a leaf, the only key beginning with the prefix is the leaf's key |
| TrieQueryFacts.LeafWords | trie.cpp:905-931 | when the prefix runs out inside a leaf's tail, that leaf's key is the only match, and its rest is the unmatched part of the tail |
| TrieQueryFacts.ListsNone | trie.cpp:900-925 | when the descent fails, no stored key begins with the prefix |
| TrieQueryFacts.AmongStep | trie.cpp:944-958 | the keys through one more, larger child symbol extend the sorted listing |
| TrieQueryFacts.AmongAll | trie.cpp:940-959 | once every child is visited, the listing is all keys below the node |
| TrieQueryFacts.DataStep | trie.cpp:944-958 | one round of the loop keeps the listing sorted and the payloads aligned with it |
| TrieQueryFacts.TailsStep | trie.cpp:1069-1092 | one round of the tail loop keeps the listing sorted and the rests aligned with it |
| TrieTypes.SortedDistinct | trie.cpp:940-959 | a strictly sorted listing names no key twice |

## Left out

- Memory management: the allocation calls and `bad_alloc` failures are not modelled. Arrays grow by allocating a new array and copying.
- Tail storage: the `memmove`/`realloc` shrink of tail words is not modelled. A tail's words are a Dafny sequence that is replaced.
- The `PRE_ALLOCED_WORDS` buffer of the tail-form prefix query and its doubling are not modelled. The key prefix being built is a sequence.
- The destructor and the public wrapper class `Trie` (trie.cpp:1098-1151) are left out. The wrappers only forward calls.
- Integer width: `Index` is unbounded. Overflow of the 32-bit index is not modelled.
- Null arguments and `n_words` counts: the key is a sequence. The optional `data` and `unmatch` outputs are passed in as values; a call that finds nothing returns them unchanged.
- The prefix queries' result vector is a sequence `acc` that the call appends to. Each listing query also returns a ghost list of the keys it reports. TrieQueryFacts.ListsUnique shows that this list is determined by the stored keys.
- DoubleArrayTrie.Trie.Insert: the source walks the tail and shortens the tail record once, after the walk. In the refused case it does this as a recovery step before throwing. The model shortens the record by one symbol at each push step instead. Both end in the same arrays: the pushed-down nodes stay in place and the leaf at the end keeps the shortened tail.
- DoubleArrayTrie.Trie.MoveOwn: the three-argument `adjust` (trie.cpp:442-472) is folded into this method, as TrieCollision.NewBaseFor followed by a move.
- Cursor values: the contracts of the compound operations (insert, erase, move) do not state where the two cursors end up. They state only that the node cursor stays above `BASE + 255` and that the tail cursor names a free record or the end of the array. The cursor routines themselves have exact contracts.
- DoubleArrayTrie.Trie.LeafSegment: after the loop, the source tests `n_words == 1 && words[0] == end_word`. The model applies the same leaf check at offset `|words|`, which is equivalent.
- The test program is not part of this model.
