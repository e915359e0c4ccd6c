/**
 * The two façades over InMemoryLeaderboardStore. Both validate an update
 * (customer id above zero, delta within ±1000) before touching the store,
 * and build range and neighbour windows by asking the store for one rank
 * after another until a rank is missing. LeaderboardServiceImpl clamps
 * negative neighbour counts to zero; LeaderboardService does not.
 */
module StoreServices {
  import opened Wrappers
  import opened Ordering
  import opened Ledger
  import opened OrderStatisticTree
  import opened LeaderboardStore

  /** The ranks a neighbour query asks for: max(1, rank - high) .. rank + low. */
  function NeighborBounds(rank: int, high: int, low: int): (int, int) {
    (Max(1, rank - high), rank + low)
  }

  /** The capacity handed to `new List<T>(end - start + 1)`; a negative one
      throws ArgumentOutOfRangeException. */
  function Capacity(bounds: (int, int)): int {
    bounds.1 - bounds.0 + 1
  }

  /** The loop both façades share: GetByRank(r) for r = start, start + 1, ...
      up to end, stopping at the first rank the store does not have. */
  method CollectRanks(store: InMemoryLeaderboardStore, start: int, end: int) returns (list: seq<Entry>)
    requires store.Valid() && 1 <= start
    ensures list == Window(store.Listing(), start, end)
  {
    list := [];
    var r := start;
    while r <= end
      invariant start <= r <= Max(end + 1, start)
      invariant r > start ==> r - 1 <= |store.Listing()|
      invariant list == Window(store.Listing(), start, r - 1)
      decreases end - r
    {
      var e := store.GetByRank(r);
      if e.None? {
        WindowStops(store.Listing(), start, end);
        WindowStops(store.Listing(), start, r - 1);
        return;
      }
      WindowGrows(store.Listing(), start, r);
      list := list + [e.value];
      r := r + 1;
    }
  }

  /** With high + low below -1 the capacity LeaderboardService passes to
      `new List<T>` is negative whatever the rank, so the query throws. */
  lemma UnclampedCapacityNegative(rank: int, high: int, low: int)
    requires 1 <= rank && high + low < -1
    ensures Capacity(NeighborBounds(rank, high, low)) < 0
  {
  }

  /** With the counts clamped to zero, the window is never empty and always
      contains the target's own rank. */
  lemma ClampedWindowHasTarget(ranked: seq<Key>, rank: int, high: int, low: int)
    requires 1 <= rank <= |ranked|
    ensures var b := NeighborBounds(rank, Max(0, high), Max(0, low));
      && 1 <= Capacity(b)
      && 0 <= rank - b.0 < |Window(ranked, b.0, b.1)|
      && Window(ranked, b.0, b.1)[rank - b.0] == EntryAt(ranked, rank)
  {
    WindowHasCentre(ranked, rank, Max(0, high), Max(0, low));
  }

  /** LeaderboardService over ILeaderboardStore. */
  class LeaderboardService {
    const store: InMemoryLeaderboardStore

    constructor (store: InMemoryLeaderboardStore)
      ensures this.store == store
    {
      this.store := store;
    }

    /** GetAll: ranks 1..100 in order, stopping at the first missing rank. */
    method GetAll() returns (list: seq<Entry>)
      requires store.Valid()
      ensures list == Window(store.Listing(), 1, 100)
    {
      list := CollectRanks(store, 1, 100);
    }

    /** UpdateScore: reject a non-positive id or a delta outside ±1000 before
        any change; otherwise write the ledger, refresh the index and return
        the new cumulative score. */
    method UpdateScore(customerId: int, delta: int) returns (r: Result<int>)
      requires store.Valid()
      modifies store, store.tree
      ensures store.Valid()
      ensures !(customerId > 0 && DeltaInRange(delta)) ==>
        r == Err(ArgumentOutOfRange) && store.scores == old(store.scores) &&
        store.active == old(store.active) && store.tree.root == old(store.tree.root)
      ensures customerId > 0 && DeltaInRange(delta) ==>
        r == Ok(ScoreOf(old(store.scores), customerId) + delta) &&
        store.scores == old(store.scores)[customerId := r.value]
      ensures old(store.Synced()) ==> store.Synced() && store.Listing() == Board(store.scores)
    {
      if customerId <= 0 || !DeltaInRange(delta) {
        if store.Synced() {
          ReconciledBoard(store.scores, store.active, store.tree.root);
        }
        return Err(ArgumentOutOfRange);
      }
      r := ApplyUpdate(store, customerId, delta);
    }

    /** GetRange: empty for startRank <= 0 or endRank < startRank, otherwise
        consecutive ranks from startRank, stopping at the population. */
    method GetRange(startRank: int, endRank: int) returns (list: seq<Entry>)
      requires store.Valid()
      ensures startRank <= 0 || endRank < startRank ==> list == []
      ensures 0 < startRank <= endRank ==> list == Window(store.Listing(), startRank, endRank)
    {
      if startRank <= 0 || endRank < startRank {
        return [];
      }
      list := CollectRanks(store, startRank, endRank);
    }

    /** GetWithNeighbors: None for an inactive id; otherwise the window
        max(1, rank - high) .. rank + low, with high and low taken as given:
        a negative capacity makes the list constructor throw. */
    method GetWithNeighbors(customerId: int, high: int, low: int) returns (r: Result<Option<seq<Entry>>>)
      requires store.Valid()
      ensures store.Rank(customerId) == 0 ==> r == Ok(None)
      ensures store.Rank(customerId) != 0 ==>
        var b := NeighborBounds(store.Rank(customerId), high, low);
        && (Capacity(b) < 0 ==> r == Err(ArgumentOutOfRange))
        && (Capacity(b) >= 0 ==> r == Ok(Some(Window(store.Listing(), b.0, b.1))))
    {
      var rank := store.GetRank(customerId);
      if rank == 0 {
        return Ok(None);
      }
      var bounds := NeighborBounds(rank, high, low);
      if Capacity(bounds) < 0 {
        return Err(ArgumentOutOfRange);
      }
      var list := CollectRanks(store, bounds.0, bounds.1);
      r := Ok(Some(list));
    }
  }

  /** LeaderboardServiceImpl over ILeaderboardStore. */
  class LeaderboardServiceImpl {
    const store: InMemoryLeaderboardStore

    constructor (store: InMemoryLeaderboardStore)
      ensures this.store == store
    {
      this.store := store;
    }

    /** UpdateScore: the same validation and the same store calls as
        LeaderboardService.UpdateScore; the result may be zero or below. */
    method UpdateScore(customerId: int, delta: int) returns (r: Result<int>)
      requires store.Valid()
      modifies store, store.tree
      ensures store.Valid()
      ensures !(customerId > 0 && DeltaInRange(delta)) ==>
        r == Err(ArgumentOutOfRange) && store.scores == old(store.scores) &&
        store.active == old(store.active) && store.tree.root == old(store.tree.root)
      ensures customerId > 0 && DeltaInRange(delta) ==>
        r == Ok(ScoreOf(old(store.scores), customerId) + delta) &&
        store.scores == old(store.scores)[customerId := r.value]
      ensures old(store.Synced()) ==> store.Synced() && store.Listing() == Board(store.scores)
    {
      if customerId <= 0 || !DeltaInRange(delta) {
        if store.Synced() {
          ReconciledBoard(store.scores, store.active, store.tree.root);
        }
        return Err(ArgumentOutOfRange);
      }
      r := ApplyUpdate(store, customerId, delta);
    }

    method GetRange(startRank: int, endRank: int) returns (list: seq<Entry>)
      requires store.Valid()
      ensures startRank <= 0 || endRank < startRank ==> list == []
      ensures 0 < startRank <= endRank ==> list == Window(store.Listing(), startRank, endRank)
    {
      if startRank <= 0 || endRank < startRank {
        return [];
      }
      list := CollectRanks(store, startRank, endRank);
    }

    /** GetWithNeighbors: None for an inactive id; otherwise negative high
        and low are raised to zero, and the window max(1, rank - high) ..
        rank + low always holds the customer's own entry. */
    method GetWithNeighbors(customerId: int, high: int, low: int) returns (r: Option<seq<Entry>>)
      requires store.Valid()
      ensures store.Rank(customerId) == 0 ==> r == None
      ensures store.Rank(customerId) != 0 ==>
        var b := NeighborBounds(store.Rank(customerId), Max(0, high), Max(0, low));
        r == Some(Window(store.Listing(), b.0, b.1))
      ensures customerId in store.active ==>
        1 <= store.Rank(customerId) <= |store.Listing()| && r.Some? && EntryAt(store.Listing(), store.Rank(customerId)) in r.value &&
        EntryAt(store.Listing(), store.Rank(customerId)).customerId == customerId
    {
      var rank := store.GetRank(customerId);
      if rank == 0 {
        return None;
      }
      var high', low' := high, low;
      if high' < 0 { high' := 0; }
      if low' < 0 { low' := 0; }
      var bounds := NeighborBounds(rank, high', low');
      ClampedWindowHasTarget(store.Listing(), rank, high, low);
      var list := CollectRanks(store, bounds.0, bounds.1);
      r := Some(list);
    }
  }

  /** `var s = _store.UpdateScore(id, delta); _store.RefreshActive(id, s)`. */
  method ApplyUpdate(store: InMemoryLeaderboardStore, customerId: int, delta: int) returns (r: Result<int>)
    requires store.Valid()
    modifies store, store.tree
    ensures store.Valid()
    ensures r == Ok(ScoreOf(old(store.scores), customerId) + delta)
    ensures store.scores == old(store.scores)[customerId := r.value]
    ensures old(store.Synced()) ==> store.Synced() && store.Listing() == Board(store.scores)
  {
    ghost var scores0, active0 := store.scores, store.active;
    var newScore := store.UpdateScore(customerId, delta);
    store.RefreshActive(customerId, newScore);
    if Reconciled(scores0, active0) {
      RefreshReconciles(scores0, active0, customerId, newScore);
      ReconciledBoard(store.scores, store.active, store.tree.root);
    }
    r := Ok(newScore);
  }
}
