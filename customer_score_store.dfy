/**
 * CustomerScoreStore: the naive reference leaderboard. Every update writes
 * the ledger (a score never below zero) and rebuilds the whole ranked list
 * of customers with a score above zero; queries filter that list.
 */
module CustomerScores {
  import opened Wrappers
  import opened Ordering
  import opened Ledger

  /** `FirstOrDefault(c => c.Id == customerId)` followed by `IndexOf`: the
      position of the first customer with the id, or -1. */
  function IndexOfId(customers: seq<Entry>, id: int): (i: int)
    ensures -1 <= i < |customers|
    ensures i >= 0 ==> customers[i].customerId == id && forall j | 0 <= j < i :: customers[j].customerId != id
    ensures i == -1 ==> forall j | 0 <= j < |customers| :: customers[j].customerId != id
  {
    if customers == [] then -1
    else if customers[0].customerId == id then 0
    else
      var i := IndexOfId(customers[1..], id);
      if i == -1 then -1 else i + 1
  }

  /** Every score in the ledger is at least zero. */
  ghost predicate Clamped(scores: map<int, int>) {
    forall id | id in scores :: scores[id] >= 0
  }

  /** A customer appears on the ranked list of a ledger exactly when its
      score is above zero. */
  lemma ListedIffActive(scores: map<int, int>, id: int)
    ensures var keys := Board(scores);
      var listing := Window(keys, 1, |keys|);
      (forall j | 0 <= j < |listing| :: listing[j].customerId != id) <==> !(id in scores && scores[id] > 0)
  {
    var keys := Board(scores);
    var listing := Window(keys, 1, |keys|);
    if id in scores && scores[id] > 0 {
      var k := Key(id, scores[id]);
      assert k in ActiveKeys(scores);
      var j :| 0 <= j < |keys| && keys[j] == k;
      assert listing[j] == EntryAt(keys, j + 1);
    }
    forall j | 0 <= j < |listing| && listing[j].customerId == id
      ensures id in scores && scores[id] > 0
    {
      assert keys[j] in ActiveKeys(scores);
    }
  }

  class CustomerScoreStore {
    var scores: map<int, int>
    var sortedCustomers: seq<Entry>

    /** `_sortedCustomers` is the leaderboard of `_customerScores`, ranked
        1..n, and no score is below zero. */
    ghost predicate Valid()
      reads this
    {
      sortedCustomers == Window(Board(scores), 1, |Board(scores)|) && Clamped(scores)
    }

    constructor ()
      ensures Valid() && scores == map[]
    {
      scores := map[];
      sortedCustomers := [];
    }

    /** UpdateScoreAsync: the id's score becomes the old one (zero for a new
        id) plus delta, raised to zero when negative; the ranked list is
        rebuilt; the stored score is returned. */
    method UpdateScore(customerId: int, delta: int) returns (score: int)
      requires Clamped(scores)
      modifies this
      ensures score == Max(0, ScoreOf(old(scores), customerId) + delta)
      ensures scores == old(scores)[customerId := score]
      ensures Valid()
    {
      var current := if customerId in scores then scores[customerId] else 0;
      var updated := current + delta;
      if updated < 0 {
        updated := 0;
      }
      scores := scores[customerId := updated];
      UpdateSortedCustomers();
      score := updated;
    }

    /** UpdateSortedCustomers: the customers with a score above zero in
        ranking order, then each given the rank of its position. */
    method UpdateSortedCustomers()
      requires Clamped(scores)
      modifies this
      ensures scores == old(scores) && Valid()
    {
      var keys := Board(scores);
      var list := seq(|keys|, i requires 0 <= i < |keys| => Entry(keys[i].id, keys[i].score, 0));
      for i := 0 to |list|
        invariant |list| == |keys|
        invariant forall j | 0 <= j < i :: list[j] == EntryAt(keys, j + 1)
        invariant forall j | i <= j < |list| :: list[j] == Entry(keys[j].id, keys[j].score, 0)
      {
        list := list[i := list[i].(rank := i + 1)];
      }
      sortedCustomers := list;
      assert sortedCustomers == Window(keys, 1, |keys|);
    }

    /** GetCustomersByRankRangeAsync: the customers ranked start..end, in
        rank order; the window of the leaderboard from max(1, start). */
    method GetCustomersByRankRange(start: int, end: int) returns (list: seq<Entry>)
      requires Valid()
      ensures list == Window(Board(scores), Max(1, start), end)
    {
      list := InRanks(sortedCustomers, start, end);
      ghost var keys := Board(scores);
      InRanksSlice(sortedCustomers, 1, start, end);
      var lo := Min(|keys|, Max(0, start - 1));
      var hi := Min(|keys|, Max(lo, end));
      WindowSlice(keys, lo, hi);
    }

    /** GetCustomerWithNeighborsAsync: None for an id not on the list;
        otherwise, with `index` the id's position, the slice of positions
        max(0, index - high) .. min(count - 1, index + low). A negative
        slice length makes `GetRange` throw. */
    method GetCustomerWithNeighbors(customerId: int, high: int, low: int) returns (r: Result<Option<seq<Entry>>>, ghost index: int)
      requires Valid()
      ensures !(customerId in scores && scores[customerId] > 0) ==> r == Ok(None)
      ensures customerId in scores && scores[customerId] > 0 ==>
        && 0 <= index < |Board(scores)| && Board(scores)[index] == Key(customerId, scores[customerId])
        && var lo, hi := Max(0, index - high), Min(|Board(scores)| - 1, index + low);
        && (hi - lo + 1 < 0 ==> r == Err(ArgumentOutOfRange))
        && (hi - lo + 1 >= 0 ==> r == Ok(Some(Window(Board(scores), lo + 1, hi + 1))))
    {
      ghost var keys := Board(scores);
      var i := IndexOfId(sortedCustomers, customerId);
      index := i;
      if i == -1 {
        ListedIffActive(scores, customerId);
        return Ok(None), i;
      }
      assert sortedCustomers[i] == EntryAt(keys, i + 1);
      assert keys[i] in ActiveKeys(scores);
      var startIndex := Max(0, i - high);
      var endIndex := Min(|sortedCustomers| - 1, i + low);
      if endIndex - startIndex + 1 < 0 {
        return Err(ArgumentOutOfRange), i;
      }
      WindowSlice(keys, startIndex, endIndex + 1);
      r := Ok(Some(sortedCustomers[startIndex..endIndex + 1]));
    }
  }
}
