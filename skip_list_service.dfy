/**
 * The façade over RankedSkipList: a ledger of cumulative scores (a
 * ConcurrentDictionary in the program, here a map) and the skip list that
 * ranks the ids whose score is above zero. Updates are not validated here:
 * any id and any delta are applied.
 */
module SkipListService {
  import opened Wrappers
  import opened Ordering
  import opened Ledger
  import opened SkipLinks
  import opened SkipList
  import opened RankedSkipLists

  /** The active keys but the one for `id` are the active keys of other
      ids. */
  lemma ActiveOthers(scores: map<int, int>, id: int)
    ensures ActiveKeys(scores) - {Key(id, ScoreOf(scores, id))} == set k | k in ActiveKeys(scores) && k.id != id
  {
    forall k | k in ActiveKeys(scores) && k.id == id
      ensures k == Key(id, ScoreOf(scores, id))
    {
      assert k.id in scores && k == Key(k.id, scores[k.id]);
    }
  }

  /** After an update of `id` to `v`, the active keys are those held
      before less the keys of `id`, plus the new key when `v` is above zero:
      the change AddOrUpdate makes to the skip list. */
  lemma ActiveAfterUpdate(members: set<Key>, held: set<Key>, scores: map<int, int>, id: int, v: int)
    requires members == ActiveKeys(scores)
    requires held == set k | k in members && k.id == id
    ensures ActiveKeys(scores[id := v]) == (members - held) + (if v > 0 then {Key(id, v)} else {})
  {
    ActiveOthers(scores, id);
    ActiveKeysUpdate(scores, id, v);
  }

  /** An id has an active key exactly when its score is above zero, and
      that key carries the score. */
  lemma ActiveById(members: set<Key>, scores: map<int, int>, id: int, score: int)
    requires members == ActiveKeys(scores)
    ensures (forall k | k in members :: k.id != id) <==> !(id in scores && scores[id] > 0)
    ensures Key(id, score) in members ==> id in scores && scores[id] == score
  {
    if id in scores && scores[id] > 0 {
      assert Key(id, scores[id]) in ActiveKeys(scores);
    }
  }

  /** The `foreach` that turns skip-list triples into DTOs: the same
      entries, in the same order. */
  method ToDtos(data: seq<Entry>) returns (list: seq<Entry>)
    ensures list == data
  {
    list := [];
    for i := 0 to |data|
      invariant list == data[..i]
    {
      list := list + [Entry(data[i].customerId, data[i].score, data[i].rank)];
    }
  }

  /** LeaderboardService over RankedSkipList. */
  class LeaderboardService {
    const skipList: RankedSkipList
    var scores: map<int, int>

    /** The skip list holds exactly the active keys of the ledger. */
    ghost predicate Valid()
      reads this, skipList
    {
      skipList.Valid() && skipList.Members() == ActiveKeys(scores)
    }

    constructor ()
      ensures Valid() && scores == map[] && fresh(skipList)
    {
      skipList := new RankedSkipList();
      scores := map[];
    }

    /** The skip list's ranking is the leaderboard the ledger denotes. */
    lemma ListingIsBoard()
      requires Valid()
      ensures skipList.Listing() == Board(scores)
    {
      SortedIsRanked(skipList.Listing(), ActiveKeys(scores));
    }

    /** AddOrUpdate: the ledger's score becomes the old one plus delta (delta
        for a new id, without any bound); an id with a score above zero is
        put in or moved in the skip list, any other is taken out of it. */
    method AddOrUpdate(customerId: int, delta: int, coin: int -> bool) returns (newScore: int)
      requires Valid()
      modifies this, skipList
      ensures Valid()
      ensures newScore == ScoreOf(old(scores), customerId) + delta
      ensures scores == old(scores)[customerId := newScore]
      ensures skipList.Listing() == Board(scores)
    {
      newScore := if customerId in scores then scores[customerId] + delta else delta;
      skipList.HeldMembers(customerId);
      ActiveAfterUpdate(skipList.Members(), skipList.Held(customerId), scores, customerId, newScore);
      scores := scores[customerId := newScore];
      if newScore > 0 {
        skipList.InsertOrUpdate(customerId, newScore, coin);
      } else {
        skipList.Remove(customerId);
      }
      ListingIsBoard();
    }

    /** GetRangeByRank: the entries of ranks `start` to `end` of the
        leaderboard, a `start` below 1 counting as 1. */
    method GetRangeByRank(start: int, end: int) returns (list: seq<Entry>)
      requires Valid()
      ensures list == Window(Board(scores), Max(1, start), end)
    {
      var data := skipList.GetRangeByRank(start, end);
      list := ToDtos(data);
      ListingIsBoard();
    }

    /** GetWithNeighbors: None for an id without a score above zero;
        otherwise, with `rank` the 1-based rank of the id's key on the
        skip list's ranking (which ListingIsBoard shows is the leaderboard),
        the ranks max(1, rank - high) .. rank + low, high and
        low taken as given (negative counts only narrow the window). */
    method GetWithNeighbors(customerId: int, high: int, low: int) returns (r: Option<seq<Entry>>, ghost rank: int)
      requires Valid()
      ensures !(customerId in scores && scores[customerId] > 0) ==> r == None
      ensures customerId in scores && scores[customerId] > 0 ==>
        && 1 <= rank <= |skipList.Listing()| && skipList.Listing()[rank - 1] == Key(customerId, scores[customerId])
        && r == Some(Window(skipList.Listing(), Max(1, rank - high), rank + low))
    {
      rank := 0;
      var node := skipList.GetNode(customerId);
      if node == None {
        assert !(customerId in scores && scores[customerId] > 0) by {
          ActiveById(skipList.Members(), scores, customerId, 0);
        }
        r := None;
      } else {
        assert customerId in scores && scores[customerId] == node.value.score by {
          ActiveById(skipList.Members(), scores, customerId, node.value.score);
        }
        assert Key(customerId, node.value.score) in skipList.Listing();
        var rk := skipList.GetRank(node.value.score, customerId);
        rank := rk;
        if rk <= 0 {
          r := None;
        } else {
          var start := Max(1, rk - high);
          var end := rk + low;
          var range := skipList.GetRangeByRank(start, end);
          var list := ToDtos(range);
          r := Some(list);
        }
      }
    }
  }
}
