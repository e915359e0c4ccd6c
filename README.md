# Leaderboard core in Dafny

This project models the core of a customer leaderboard. The program keeps
a ledger from customer id to a cumulative score. The customers whose score
is above zero are ranked by score, highest first, with the lower id first
on a tie. On that ranking the program answers three queries: the rank of a
customer, the entries of a range of ranks, and a customer with a number of
neighbours above and below.

The program implements this several times over. The model covers each
implementation:

- **Order-statistics AVL tree** (`avl_tree.dfy`, module
  `OrderStatisticTree`). The tree is a value tree whose nodes cache their
  Height and SubtreeCount. It models the three copies of
  `OrderStatisticAvlTree`:
  - `Assesment/Assesment/DataStructures/OrderStatisticAvlTree.cs:1-214`;
  - `Run-Max-main/Assesment/Infrastructure/OrderStatisticAvlTree.cs:1-202`;
  - `Assesment/LeaderboardCore/OrderStatisticAvlTree.cs:1-39`.

  The three copies run the same algorithm line for line. The table cites
  the first copy.
- **Ledger and active-set store** (`store.dfy`, `LeaderboardStore`). This
  is `InMemoryLeaderboardStore` with its four-way `RefreshActive`.
- **The two validating façades over the store** (`store_services.dfy`,
  `StoreServices`).
- **The service with a parent-linked AVL tree and an in-order
  `Successor`** (`parent_linked_service.dfy`, `ParentLinkedService`).
- **The span-indexed skip list `RankedSkipList`**, in four files:
  - `skip_links.dfy`: how each level is linked;
  - `skip_list.dfy`: search and insertion;
  - `skip_list_remove.dfy`: removal;
  - `ranked_skip_list.dfy`: the class and its queries.
- **The façade over the skip list** (`skip_list_service.dfy`,
  `SkipListService`).
- **Two list-based reference implementations:**
  - `CustomerScoreStore`, which re-filters and re-sorts the whole ledger
    (`customer_score_store.dfy`);
  - the seeded, re-sorted list service (`seeded_list.dfy`).

One abstract specification ties them together:

- `Ordering` defines the comparator and `Ranked(S)`, the unique strictly
  sorted listing of a key set.
- `Ledger` defines `ActiveKeys(scores)`, the keys of the ids whose score is
  above zero, and `Board(scores) = Ranked(ActiveKeys(scores))`.
- `Ledger.Window(ranked, start, end)` is the list of entries of ranks
  `start..end`, which stops at the last rank.

Every query of every implementation is proved to return a `Window` of the
listing it keeps. The AVL tree, the store, the parent-linked service, the
skip list and `CustomerScoreStore` are each proved to list exactly
`Board(scores)` of their ledger. `Ordering.SortedUnique` then makes the
answers of these implementations equal for equal ledgers.

The seeded list does not keep `Board(scores)`. It keeps every id it has
seen, including those whose score is zero or below. It orders them by score
alone, and ties stay in whatever order the sort leaves them. What is proved
about it is `SeededList.Listed`:
- the list and the dictionary hold the same ids, each once;
- scores are non-increasing along the list;
- every entry's rank is its position + 1.

Its queries are windows of its own listing, `KeysOf(ordered, rows)`.

Scores are C# `decimal` values. They are modelled as `int`: every score
operation in the core is an addition or a comparison, and decimal does
these exactly. Customer ids (`long`) are modelled as `int`.

## Model

| member | source | states |
|---|---|---|
| Ordering.CompareTo | Assesment/Assesment/DataStructures/OrderStatisticAvlTree.cs:30-32 | `CompareTo` is -1, 0 or 1 exactly when the first value is less than, equal to or greater than the second |
| Ordering.Compare | Assesment/Assesment/DataStructures/OrderStatisticAvlTree.cs:28-33 | negative iff the first key ranks before the second (higher score, or equal score and lower id); zero iff both fields are equal; positive iff the second ranks first |
| Ordering.Ranked | Assesment/LeaderBoardService/Program.cs:157-162 | the leaderboard of a key set is strictly sorted by the comparator and lists exactly the set's keys |
| Ordering.SortedUnique | Assesment/LeaderBoardService/Program.cs:157-162 | two strictly sorted listings of the same keys are equal, so every implementation's ranking is the one leaderboard |
| Ordering.SortedIsRanked | Assesment/LeaderBoardService/Program.cs:157-162 | any strictly sorted listing is the leaderboard of its own keys |
| Ordering.PositionIsCountBefore | Assesment/Assesment/DataStructures/OrderStatisticAvlTree.cs:52-78 | the key at 0-based position i of a sorted listing has exactly i keys of the set ranked before it |
| Ordering.Prefix | Assesment/Assesment/Services/RankedSkipList.cs:83-93 | the number of leading keys that rank before k; in a sorted listing no later key does |
| Ordering.PrefixAt | Assesment/Assesment/Services/RankedSkipList.cs:166-195 | a listed key is preceded by exactly its position's worth of keys |
| Ledger.ActiveKeysUpdate | Assesment/LeaderboardCore/InMemoryLeaderboardStore.cs:18-33 | writing one id's score replaces at most that id's key among the active keys, and adds the new key only when the score is above zero |
| Ledger.Window | Assesment/Services/LeaderboardService.cs:34-39 | ranks start..end as entries (id, score, rank), each carrying the rank of its position, stopping at the last rank; never longer than end - start + 1 |
| Ledger.WindowGrows | Assesment/Services/LeaderboardService.cs:34-39 | asking for one more existing rank appends exactly that rank's entry |
| Ledger.WindowStops | Run-Max-main/Mywork/Mywork/Services/LeaderboardService.cs:62 | clamping the end rank to the population changes no window |
| Ledger.WindowHasCentre | Assesment/Assesment/LeaderboardCore/LeaderboardServiceImpl.cs:29-31 | with non-negative neighbour counts, the window around an existing rank contains that rank's entry |
| Ledger.ZeroDeltaKeepsBoard | Assesment/Assesment/Services/LeaderboardService.cs:11-19 | an update by zero leaves the leaderboard unchanged; the zero-delta clause of the parent-linked service rests on it |
| Ledger.InRanks | Assesment/LeaderBoardService/Program.cs:123-126 | the filter by rank keeps exactly the entries with start <= rank <= end, in list order |
| Ledger.InRanksSlice | Assesment/LeaderBoardService/Program.cs:123-126 | on a list whose ranks count up by position, the rank filter is a contiguous slice |
| Ledger.WindowSlice | Assesment/LeaderBoardService/Program.cs:143-149 | a slice of the fully ranked list is the window of the corresponding ranks |
| OrderStatisticTree.ElementsAreKeys | Assesment/Assesment/DataStructures/OrderStatisticAvlTree.cs:5-21 | a tree's in-order listing holds exactly its keys |
| OrderStatisticTree.CachedSizes | Assesment/Assesment/DataStructures/OrderStatisticAvlTree.cs:161-165 | with correct caches, SubtreeCount is the number of keys below the node |
| OrderStatisticTree.OrderedIsSorted | Assesment/Assesment/DataStructures/OrderStatisticAvlTree.cs:82-102 | the in-order listing of a search-ordered tree is strictly sorted by the comparator |
| OrderStatisticTree.Update | Assesment/Assesment/DataStructures/OrderStatisticAvlTree.cs:161-165 | Height and SubtreeCount are recomputed from the children, so the node's caches become correct when the children's are |
| OrderStatisticTree.RotateRight | Assesment/Assesment/DataStructures/OrderStatisticAvlTree.cs:187-198 | the in-order listing and the key set are unchanged; search order is kept; both moved nodes' caches are correct |
| OrderStatisticTree.RotateLeft | Assesment/Assesment/DataStructures/OrderStatisticAvlTree.cs:200-211 | the mirror image of RotateRight, with the same guarantees |
| OrderStatisticTree.RotationOrdered | Assesment/Assesment/DataStructures/OrderStatisticAvlTree.cs:187-211 | the two shapes a rotation converts between list the same keys, and one is search-ordered iff the other is |
| OrderStatisticTree.Balance | Assesment/Assesment/DataStructures/OrderStatisticAvlTree.cs:169-185 | rebalancing keeps the in-order listing, the keys and search order, and leaves correct caches |
| OrderStatisticTree.LeftHeavy | Assesment/Assesment/DataStructures/OrderStatisticAvlTree.cs:172-177 | the left-heavy branch (single or double rotation) keeps listing, keys, order and caches |
| OrderStatisticTree.RightHeavy | Assesment/Assesment/DataStructures/OrderStatisticAvlTree.cs:178-183 | the right-heavy branch keeps listing, keys, order and caches |
| OrderStatisticTree.BalanceRestores | Assesment/Assesment/DataStructures/OrderStatisticAvlTree.cs:169-185 | on a node whose AVL children differ in height by at most two, Balance yields an AVL tree whose height drops by at most one; a node already in balance is returned unchanged |
| OrderStatisticTree.LeftLeftCase | Assesment/Assesment/DataStructures/OrderStatisticAvlTree.cs:172-177 | a single right rotation fixes a left-left imbalance |
| OrderStatisticTree.RightRightCase | Assesment/Assesment/DataStructures/OrderStatisticAvlTree.cs:178-183 | a single left rotation fixes a right-right imbalance |
| OrderStatisticTree.LeftRightCase | Assesment/Assesment/DataStructures/OrderStatisticAvlTree.cs:172-177 | the double rotation fixes a left-right imbalance and lowers the height by one |
| OrderStatisticTree.RightLeftCase | Assesment/Assesment/DataStructures/OrderStatisticAvlTree.cs:178-183 | the double rotation fixes a right-left imbalance and lowers the height by one |
| OrderStatisticTree.InsertInternal | Assesment/Assesment/DataStructures/OrderStatisticAvlTree.cs:82-102 | insertion adds exactly the key and grows SubtreeCount by one; it keeps search order when the key was absent (an equal key goes right) |
| OrderStatisticTree.InsertBalanced | Assesment/Assesment/DataStructures/OrderStatisticAvlTree.cs:82-102 | insertion keeps the AVL condition and grows the height by at most one |
| OrderStatisticTree.MinKey | Assesment/Assesment/DataStructures/OrderStatisticAvlTree.cs:134-138 | the leftmost key is in the tree and, when the tree is ordered, ranks before every other key |
| OrderStatisticTree.MinNode | Assesment/Assesment/DataStructures/OrderStatisticAvlTree.cs:134-138 | following left links ends at the leftmost key |
| OrderStatisticTree.RemoveInternal | Assesment/Assesment/DataStructures/OrderStatisticAvlTree.cs:104-132 | on an ordered tree, removal leaves exactly the other keys, still ordered and with correct caches; the two-child case copies in the successor's key |
| OrderStatisticTree.ReplacedChild | Assesment/Assesment/DataStructures/OrderStatisticAvlTree.cs:108-116 | removing a key from the only subtree it can lie in removes it from the node |
| OrderStatisticTree.ReplacedBySuccessor | Assesment/Assesment/DataStructures/OrderStatisticAvlTree.cs:124-127 | copying the successor's key into a two-child node and removing it from the right subtree removes exactly the node's own key |
| OrderStatisticTree.RemoveBalanced | Assesment/Assesment/DataStructures/OrderStatisticAvlTree.cs:104-132 | removal keeps the AVL condition and lowers the height by at most one |
| OrderStatisticTree.RemoveAbsentUnchanged | Assesment/Assesment/DataStructures/OrderStatisticAvlTree.cs:104-116 | removing an absent key returns the very same tree |
| OrderStatisticTree.SelectByRankInternal | Assesment/Assesment/DataStructures/OrderStatisticAvlTree.cs:140-158 | the key at 1-based rank `rank` of the in-order listing; None outside 1..Count |
| OrderStatisticTree.SearchPath | Assesment/Assesment/DataStructures/OrderStatisticAvlTree.cs:55-76 | the descent of GetRank splits the listing around the subtree it stops at, with the accumulated count equal to the number of keys on its left |
| OrderStatisticTree.RankOf | Assesment/Assesment/DataStructures/OrderStatisticAvlTree.cs:52-78 | Ok iff the key is in the tree; the 1-based rank is the key's listing position + 1 and 1 + the number of keys before it; otherwise Err(NodeNotFound) |
| OrderStatisticTree.SelectRankRoundTrip | Assesment/Assesment/DataStructures/OrderStatisticAvlTree.cs:46-78 | the key at rank r is k iff k is in the tree and r is k's only rank, so select and rank invert each other |
| OrderStatisticTree.OrderStatisticAvlTree.constructor | Assesment/Assesment/DataStructures/OrderStatisticAvlTree.cs:23-25 | a new tree is empty and valid |
| OrderStatisticTree.OrderStatisticAvlTree.Count | Assesment/Assesment/DataStructures/OrderStatisticAvlTree.cs:25 | Count is the number of keys (the root's SubtreeCount, 0 when empty) |
| OrderStatisticTree.OrderStatisticAvlTree.Insert | Assesment/Assesment/DataStructures/OrderStatisticAvlTree.cs:35-39 | the returned node carries the key, the key set grows by exactly it, Count grows by one, the tree stays a valid AVL tree |
| OrderStatisticTree.OrderStatisticAvlTree.Remove | Assesment/Assesment/DataStructures/OrderStatisticAvlTree.cs:41-44 | the node's key leaves the key set and nothing else does; an absent key leaves the tree unchanged |
| OrderStatisticTree.OrderStatisticAvlTree.SelectByRank | Assesment/Assesment/DataStructures/OrderStatisticAvlTree.cs:46-50 | the rank-th key in ranking order, None for rank <= 0 or rank > Count |
| OrderStatisticTree.OrderStatisticAvlTree.GetRank | Assesment/Assesment/DataStructures/OrderStatisticAvlTree.cs:52-78 | the 1-based rank of a present key; NodeNotFound (the thrown exception) for an absent one |
| LeaderboardStore.ReconciledBoard | Assesment/LeaderboardCore/InMemoryLeaderboardStore.cs:18-33 | a tree indexed by `_active` and reconciled with the ledger lists exactly the ledger's leaderboard |
| LeaderboardStore.RefreshReconciles | Assesment/LeaderboardCore/InMemoryLeaderboardStore.cs:23-30 | the outcome of RefreshActive after a ledger write keeps `_active` equal to the ids with score above zero |
| LeaderboardStore.InactiveAbsent | Assesment/LeaderboardCore/InMemoryLeaderboardStore.cs:27-28 | no key of an inactive id is in the tree, so inserting it never meets a duplicate |
| LeaderboardStore.IndexedRemove | Assesment/LeaderboardCore/InMemoryLeaderboardStore.cs:25-26 | dropping an id together with its node keeps the index invariant |
| LeaderboardStore.IndexedInsert | Assesment/LeaderboardCore/InMemoryLeaderboardStore.cs:27-28 | adding an id together with its new node keeps the index invariant |
| LeaderboardStore.IdsCount | Assesment/LeaderboardCore/InMemoryLeaderboardStore.cs:13 | as many active ids as keys in the tree |
| LeaderboardStore.InMemoryLeaderboardStore.constructor | Assesment/LeaderboardCore/InMemoryLeaderboardStore.cs:8-10 | empty ledger, empty index, empty ranking |
| LeaderboardStore.InMemoryLeaderboardStore.UpdateScore | Assesment/LeaderboardCore/InMemoryLeaderboardStore.cs:15 | stores and returns old + delta (delta for a new id), never clamped; the index is untouched |
| LeaderboardStore.InMemoryLeaderboardStore.TryGetScore | Assesment/LeaderboardCore/InMemoryLeaderboardStore.cs:16 | found iff the ledger has the id, with its score; 0 otherwise |
| LeaderboardStore.InMemoryLeaderboardStore.ActiveCount | Assesment/LeaderboardCore/InMemoryLeaderboardStore.cs:13 | the tree's Count equals the number of active ids |
| LeaderboardStore.InMemoryLeaderboardStore.RefreshActive | Assesment/LeaderboardCore/InMemoryLeaderboardStore.cs:18-33 | a score above zero (re)indexes the id with its new key; any other score drops it; the index invariant holds after |
| LeaderboardStore.InMemoryLeaderboardStore.Evict | Assesment/LeaderboardCore/InMemoryLeaderboardStore.cs:26 | an active id and its node leave the index together |
| LeaderboardStore.InMemoryLeaderboardStore.Admit | Assesment/LeaderboardCore/InMemoryLeaderboardStore.cs:28 | an inactive id enters the index with the node of its new key |
| LeaderboardStore.InMemoryLeaderboardStore.GetByRank | Assesment/LeaderboardCore/InMemoryLeaderboardStore.cs:35-43 | the entry of the ranking at that rank, carrying the rank asked for; None outside 1..Count |
| LeaderboardStore.InMemoryLeaderboardStore.GetRank | Assesment/LeaderboardCore/InMemoryLeaderboardStore.cs:45-50 | 0 for an inactive id; otherwise the 1-based position of its key in the ranking |
| StoreServices.CollectRanks | Assesment/Services/LeaderboardService.cs:34-39 | asking for ranks start, start + 1, ... until end or the first missing rank yields the window start..end |
| StoreServices.UnclampedCapacityNegative | Assesment/Services/LeaderboardService.cs:48-51 | with high + low < -1 the capacity passed to the list constructor is negative |
| StoreServices.ClampedWindowHasTarget | Assesment/Assesment/LeaderboardCore/LeaderboardServiceImpl.cs:29-30 | with clamped counts the capacity is at least one and the window holds the customer's own entry |
| StoreServices.LeaderboardService.constructor | Assesment/Services/LeaderboardService.cs:7 | the service wraps the given store |
| StoreServices.LeaderboardService.GetAll | Assesment/Services/LeaderboardService.cs:10-18 | ranks 1..100 in order, stopping at the first missing rank |
| StoreServices.LeaderboardService.UpdateScore | Assesment/Services/LeaderboardService.cs:20-28 | a non-positive id or a delta outside ±1000 is rejected with the store unchanged; otherwise the new cumulative score, with the store's ranking the new leaderboard |
| StoreServices.LeaderboardService.GetRange | Assesment/Services/LeaderboardService.cs:30-41 | empty for startRank <= 0 or endRank < startRank; otherwise the window startRank..endRank |
| StoreServices.LeaderboardService.GetWithNeighbors | Assesment/Services/LeaderboardService.cs:43-59 | None for an inactive id; a negative capacity throws; otherwise the window max(1, rank - high)..rank + low |
| StoreServices.LeaderboardServiceImpl.constructor | Assesment/Assesment/LeaderboardCore/LeaderboardServiceImpl.cs:6 | the service wraps the given store |
| StoreServices.LeaderboardServiceImpl.UpdateScore | Assesment/Assesment/LeaderboardCore/LeaderboardServiceImpl.cs:8-15 | the same validation and store updates as the other façade; the result may be <= 0 |
| StoreServices.LeaderboardServiceImpl.GetRange | Assesment/Assesment/LeaderboardCore/LeaderboardServiceImpl.cs:17-25 | empty for an invalid range; otherwise the window, never padded past the population |
| StoreServices.LeaderboardServiceImpl.GetWithNeighbors | Assesment/Assesment/LeaderboardCore/LeaderboardServiceImpl.cs:27-32 | None for an inactive id; negative counts raised to 0; the window always contains the customer's own entry |
| StoreServices.ApplyUpdate | Assesment/Services/LeaderboardService.cs:25-27 | the ledger gets old + delta and the index is refreshed, so a synced store stays synced with the new leaderboard |
| ParentLinkedService.InsertKeep | Run-Max-main/Mywork/Mywork/Services/LeaderboardService.cs:172-182 | insertion that leaves an equal key in place adds exactly the key and keeps order and caches |
| ParentLinkedService.InsertKeepMatches | Run-Max-main/Mywork/Mywork/Services/LeaderboardService.cs:172-182 | on a well-formed tree this insertion is the identity for a present key and the plain AVL insertion for an absent one |
| ParentLinkedService.PlugElements | Run-Max-main/Mywork/Mywork/Services/LeaderboardService.cs:124-147 | a node seen through its parent links sits between the keys its ancestors leave on its left and on its right |
| ParentLinkedService.AtKey | Run-Max-main/Mywork/Mywork/Services/LeaderboardService.cs:212-223 | the cursor's node is the key at its listing position |
| ParentLinkedService.PlugDown | Run-Max-main/Mywork/Mywork/Services/LeaderboardService.cs:224-235 | going down to a child pushes its parent's frame without changing the whole tree |
| ParentLinkedService.SelectByRank | Run-Max-main/Mywork/Mywork/Services/LeaderboardService.cs:224-235 | for 1 <= rank <= Count, a node of the tree at position rank - 1; None otherwise |
| ParentLinkedService.Successor | Run-Max-main/Mywork/Mywork/Services/LeaderboardService.cs:212-223 | the node at the next position, or None exactly at the last one |
| ParentLinkedService.Walk | Run-Max-main/Mywork/Mywork/Services/LeaderboardService.cs:64-71 | select the first rank, then follow Successor: the window start..end |
| ParentLinkedService.RemoveStep | Run-Max-main/Mywork/Mywork/Services/LeaderboardService.cs:183-206 | removal keeps the tree well formed and takes out exactly the key |
| ParentLinkedService.InsertStep | Run-Max-main/Mywork/Mywork/Services/LeaderboardService.cs:172-182 | insertion keeps the tree well formed and adds exactly the key |
| ParentLinkedService.TreeBoard | Run-Max-main/Mywork/Mywork/Services/LeaderboardService.cs:36-40 | a well-formed tree holding a ledger's active keys lists its leaderboard |
| ParentLinkedService.LeaderboardService.constructor | Run-Max-main/Mywork/Mywork/Services/LeaderboardService.cs:10-11 | empty ledger, empty tree |
| ParentLinkedService.LeaderboardService.UpdateScore | Run-Max-main/Mywork/Mywork/Services/LeaderboardService.cs:24-48 | a delta outside ±1000 throws before any change; otherwise stores and returns old + delta (old defaults to 0), and the tree lists the new leaderboard; a zero delta leaves the ranking unchanged |
| ParentLinkedService.LeaderboardService.GetRange | Run-Max-main/Mywork/Mywork/Services/LeaderboardService.cs:50-77 | start < 1 or end < start is rejected; otherwise the window start..end, empty past the population |
| ParentLinkedService.LeaderboardService.GetRank | Run-Max-main/Mywork/Mywork/Services/LeaderboardService.cs:236-252 | the 1-based position of a present key; -1 for an absent one |
| ParentLinkedService.LeaderboardService.GetWithNeighbors | Run-Max-main/Mywork/Mywork/Services/LeaderboardService.cs:79-112 | negative counts throw; None for an id without a score above zero; otherwise the window max(1, rank - high)..min(rank + low, total), holding the customer's own entry |
| SkipList.NewNode | Assesment/Assesment/Services/RankedSkipList.cs:257-266 | a new node has MaxLevel null forward links of span 1 and no backward link |
| SkipList.SearchableAll | Assesment/Assesment/Services/RankedSkipList.cs:83-93 | on every level of a linked list, following links while the next key ranks before k stops exactly at the last position before k |
| SkipList.Search | Assesment/Assesment/Services/RankedSkipList.cs:83-93 | on every level the search settles on the last node before the key, and the ranks it adds up are those nodes' positions |
| SkipList.RaiseLevel | Assesment/Assesment/Services/RankedSkipList.cs:95-105 | each level from `_level` up to the new node's level links the head to null with span `_length`, and the list is laid out at the new level |
| SkipList.SpliceLevels | Assesment/Assesment/Services/RankedSkipList.cs:107-118 | after splicing and widening, every level is wired for the list with the new node at its place |
| SkipList.LinkBack | Assesment/Assesment/Services/RankedSkipList.cs:120-122 | the new node's backward link is the node before it, and the node after it points back to it |
| SkipList.Insert | Assesment/Assesment/Services/RankedSkipList.cs:78-126 | the list stays linked; its keys are the old keys with the new one at its sorted place; `_length` grows by one and `_level` becomes max(level, drawn level) |
| SkipList.SortedIns | Assesment/Assesment/Services/RankedSkipList.cs:83-93 | a key put into a sorted listing at its own place keeps the listing sorted |
| SkipListRemove.Locate | Assesment/Assesment/Services/RankedSkipList.cs:131-140 | the removal search settles on the last node before the id's node on every level, at the node's own index on level 0 |
| SkipListRemove.Unlink | Assesment/Assesment/Services/RankedSkipList.cs:142-153 | merging spans where the node was linked and narrowing them elsewhere leaves every level wired for the list without it |
| SkipListRemove.Shrink | Assesment/Assesment/Services/RankedSkipList.cs:158-159 | `_level` drops while the top level is empty, never below 1, and the list is then linked |
| SkipListRemove.Remove | Assesment/Assesment/Services/RankedSkipList.cs:128-164 | the node's key is taken out of the listing, `_length` drops by one, the list stays linked, and the id leaves `_byId` when asked to |
| RankedSkipLists.RankOf | Assesment/Assesment/Services/RankedSkipList.cs:166-195 | the sum of spans walked is the 1-based position of a listed key; -1 when it is not listed |
| RankedSkipLists.Traverse | Assesment/Assesment/Services/RankedSkipList.cs:221-230 | the descent stops on level 0 at position max(0, start - 1) |
| RankedSkipLists.Collect | Assesment/Assesment/Services/RankedSkipList.cs:232-239 | walking level 0 from there yields the window st..last |
| RankedSkipLists.RangeByRank | Assesment/Assesment/Services/RankedSkipList.cs:211-246 | the window max(1, start)..end of the listing, empty when start passes the end or the length |
| RankedSkipLists.DelMembers | Assesment/Assesment/Services/RankedSkipList.cs:128-164 | taking a key out of a sorted listing removes exactly that member |
| RankedSkipLists.RankedSkipList.HeldMembers | Assesment/Assesment/Services/RankedSkipList.cs:197-209 | in a valid list the key `_byId` holds for an id is the one member with that id |
| RankedSkipLists.RankedSkipList.constructor | Assesment/Assesment/Services/RankedSkipList.cs:20-25 | an empty list of level 1 |
| RankedSkipLists.RankedSkipList.RandomLevel | Assesment/Assesment/Services/RankedSkipList.cs:27-33 | a level in 1..32: one more than the number of leading successful draws, capped at MaxLevel |
| RankedSkipLists.RankedSkipList.InsertInternal | Assesment/Assesment/Services/RankedSkipList.cs:78-126 | the new key enters the listing at its sorted place, `_length` grows by one, `_byId` maps the id to the node |
| RankedSkipLists.RankedSkipList.RemoveInternal | Assesment/Assesment/Services/RankedSkipList.cs:128-164 | the id's key leaves the members, `_length` drops by one, the list stays linked |
| RankedSkipLists.RankedSkipList.InsertOrUpdate | Assesment/Assesment/Services/RankedSkipList.cs:42-62 | the id's old key is replaced by (id, score); with an unchanged score nothing changes |
| RankedSkipLists.RankedSkipList.Remove | Assesment/Assesment/Services/RankedSkipList.cs:64-76 | the id's key leaves the members; an unknown id changes nothing |
| RankedSkipLists.RankedSkipList.GetNode | Assesment/Assesment/Services/RankedSkipList.cs:197-209 | the node of a listed id carries its member's score; None exactly when no member has the id |
| RankedSkipLists.RankedSkipList.GetRank | Assesment/Assesment/Services/RankedSkipList.cs:166-195 | the 1-based rank of (id, score) when listed, -1 otherwise |
| RankedSkipLists.RankedSkipList.GetRangeByRank | Assesment/Assesment/Services/RankedSkipList.cs:211-246 | the window max(1, start)..end of the listing |
| SkipListService.ActiveOthers | Assesment/Assesment/Services/LeaderboardService.cs:11-19 | taking out an id's key leaves exactly the active keys of the other ids |
| SkipListService.ActiveAfterUpdate | Assesment/Assesment/Services/LeaderboardService.cs:13-17 | after an update to v, the active keys are the old ones less the id's keys, plus (id, v) exactly when v is above zero |
| SkipListService.ActiveById | Assesment/Assesment/Services/LeaderboardService.cs:32-35 | an id has an active key exactly when its score is above zero, and that key carries its score |
| SkipListService.ToDtos | Assesment/Assesment/Services/LeaderboardService.cs:24-27 | mapping triples to DTOs keeps every entry and the order |
| SkipListService.LeaderboardService.constructor | Assesment/Assesment/Services/LeaderboardService.cs:8-9 | empty ledger, empty skip list |
| SkipListService.LeaderboardService.ListingIsBoard | Assesment/Assesment/Services/LeaderboardService.cs:8-9 | the skip list's ranking is the leaderboard of the ledger |
| SkipListService.LeaderboardService.AddOrUpdate | Assesment/Assesment/Services/LeaderboardService.cs:11-19 | returns old + delta (delta for a new id), unbounded; the skip list then ranks exactly the ids with score above zero |
| SkipListService.LeaderboardService.GetRangeByRank | Assesment/Assesment/Services/LeaderboardService.cs:21-28 | the window max(1, start)..end of the leaderboard |
| SkipListService.LeaderboardService.GetWithNeighbors | Assesment/Assesment/Services/LeaderboardService.cs:30-45 | None for an id without a score above zero; otherwise the window max(1, rank - high)..rank + low around its rank |
| CustomerScores.IndexOfId | Assesment/LeaderBoardService/Program.cs:137-143 | -1 when no customer has the id; otherwise the first position holding it |
| CustomerScores.ListedIffActive | Assesment/LeaderBoardService/Program.cs:157-159 | a customer is on the ranked list exactly when its score is above zero |
| CustomerScores.CustomerScoreStore.constructor | Assesment/LeaderBoardService/Program.cs:81-83 | empty ledger, empty list |
| CustomerScores.CustomerScoreStore.UpdateScore | Assesment/LeaderBoardService/Program.cs:87-115 | the score becomes max(0, old + delta) (old 0 for a new id) and is returned; the list is the new leaderboard |
| CustomerScores.CustomerScoreStore.UpdateSortedCustomers | Assesment/LeaderBoardService/Program.cs:154-169 | the list becomes the ids with score above zero, in ranking order, ranked 1..n |
| CustomerScores.CustomerScoreStore.GetCustomersByRankRange | Assesment/LeaderBoardService/Program.cs:117-129 | the entries with start <= rank <= end, in rank order: the window max(1, start)..end |
| CustomerScores.CustomerScoreStore.GetCustomerWithNeighbors | Assesment/LeaderBoardService/Program.cs:131-152 | None for an unranked id; a negative slice length throws; otherwise positions max(0, i - high)..min(n - 1, i + low) |
| SeededList.PermutationDistinct | Mywork/Mywork/Services/LeaderboardService.cs:55 | re-ordering a list without repeats gives a list without repeats |
| SeededList.InsertByScore | Mywork/Mywork/Services/LeaderboardService.cs:55 | placing one id into a list sorted by non-increasing score keeps it sorted and adds exactly that id |
| SeededList.ByScore | Mywork/Mywork/Services/LeaderboardService.cs:55 | the sort is a permutation of the list with scores non-increasing |
| SeededList.Rerank | Mywork/Mywork/Services/LeaderboardService.cs:56 | each entry's rank becomes its position + 1; scores and everything else are unchanged |
| SeededList.Enter | Mywork/Mywork/Services/LeaderboardService.cs:43-52 | a new id is added to both the dictionary and the list, a known id to neither |
| SeededList.ReorderConsistent | Mywork/Mywork/Services/LeaderboardService.cs:55 | a permutation of the list stays in step with the dictionary |
| SeededList.InRanksIsWindow | Mywork/Mywork/Services/LeaderboardService.cs:28 | once ranks follow positions, the rank filter is a window of the list |
| SeededList.Update | Mywork/Mywork/Services/LeaderboardService.cs:39-59 | the id's score becomes old + delta (0 for a new id) and is returned; no entry is removed, a new id is added once; the list is sorted and ranked 1..n |
| SeededList.LeaderboardService.constructor | Mywork/Mywork/Services/LeaderboardService.cs:13-22 | fifty entries: rank i, id 1000 + i, score 1000 - 3i |
| SeededList.LeaderboardService.GetRange | Mywork/Mywork/Services/LeaderboardService.cs:24-29 | start raised to 1; the entries of ranks start..end; empty when end < start |
| SeededList.LeaderboardService.GetWithNeighbors | Mywork/Mywork/Services/LeaderboardService.cs:31-37 | None for an unknown id; otherwise ranks max(1, rank - high)..min(count, rank + low) |
| SeededList.LeaderboardService.UpdateScore | Mywork/Mywork/Services/LeaderboardService.cs:39-59 | the score becomes old + delta and is returned; the list is re-sorted and re-ranked; no entry is ever removed |

## Left out

- Locking and atomicity are not modelled. This covers `ReaderWriterLockSlim`, `lock`, the atomicity of `ConcurrentDictionary.AddOrUpdate`, and `Task.Run`. Every operation is sequential.
- Random level choice: `RandomLevel`'s draws (`NextDouble() < Probability` from a thread-local `Random`) are an input predicate `coin`. The probability distribution and the expected cost are not modelled.
- In-place node updates and aliasing are not modelled. AVL nodes are values, and every helper that returns a new subtree root is a function that returns the new subtree. A node handle is the key it carries, which is all the callers read from it.
- ParentLinkedService.Successor: the invariant "every node's `Parent` field is the node it hangs under, null for the root" is not modelled or proved. The source keeps it with the writes at Run-Max-main/Mywork/Mywork/Services/LeaderboardService.cs:129-132, 141-144, 176 and 194. The model's cursor carries the ancestors' frames by construction. So the climb at lines 220-221 is proved over that path, not over the source's `Parent` fields.
- SeededList.LeaderboardService.UpdateScore: does not rank by `Board(scores)`. The seeded list keeps ids with a score of zero or below and leaves score ties in sort order, as the source does. Its contract is `Listed` over its own listing.
- Skip-list nodes live in a map from `Ref` to node. This one map stands for both the heap and the `_byId` dictionary, with node identity being the customer id.
- Entry objects shared between `_byId` and `_ordered` in the seeded list are an id sequence plus a map of rows.
- Integer widths are not modelled. `int` and `long` overflow (for example `rank + low`) and decimal's 28-digit range are not modelled, because integers here are unbounded.
- `UserName` and the DTO types are left out; entries are (id, score, rank).
- Lazy evaluation is not modelled. `GetRange` in the parent-linked service is an iterator whose argument checks surface only when it is enumerated. The model returns the checked result eagerly.
- `List.Sort` instability is not modelled. The seeded list sorts by score only, and the model sorts with one particular stable order, `SeededList.ByScore`. Its contract promises only what any sort gives: a permutation with non-increasing scores.
- `OrderBy(c => c.Rank)` in `GetCustomersByRankRangeAsync` is not modelled separately. It applies to a list already in rank order, so the model treats it as the identity.
- OrderStatisticTree.OrderStatisticAvlTree.Insert requires the key to be absent. Every caller inserts only a fresh key. Inserting a key that is already present would create a duplicate node, and the model does not cover that.
- RankedSkipLists.RankedSkipList.InsertInternal requires the id to be unlisted, as its two callers guarantee.
- SkipListService.LeaderboardService.GetWithNeighbors states its window over the skip list's `Listing()`. `ListingIsBoard` proves this equals the ledger's leaderboard.
- The removal search of `RemoveInternal` also records the ranks of the settled nodes; the source computes these only in the insertion search.
- HTTP handlers, dependency injection, Razor pages, the front end and the service interfaces are not part of this model.

## Findings

| source | as written | input that shows it | evidently intended | confidence | as-written member | corrected member |
|---|---|---|---|---|---|---|
| Assesment/Services/LeaderboardService.cs:51 | `new List<LeaderboardEntry>(end - start + 1)` with the caller's high and low unclamped, so the capacity is negative and the constructor throws | an active customer at rank 1 with high = 0, low = -2 (capacity 1 - 1 + 1 - 2 = -1) | clamp negative high and low to zero, as the other façade over the same store does, so the window always holds the customer | not executed | StoreServices.UnclampedCapacityNegative | StoreServices.LeaderboardServiceImpl.GetWithNeighbors |
