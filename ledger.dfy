/**
 * The score ledger and the listing shapes every leaderboard variant returns:
 * entries (customer id, score, rank) for a window of 1-based ranks.
 */
module Ledger {
  import opened Ordering

  /** LeaderboardEntry / LeaderboardEntryDto: (CustomerId, Score, Rank). */
  datatype Entry = Entry(customerId: int, score: int, rank: int)

  /** The bound every validating façade puts on one update's delta. */
  const MaxDelta: int := 1000

  predicate DeltaInRange(delta: int) {
    -MaxDelta <= delta <= MaxDelta
  }

  /** The ledger's score for an id: the stored value, or the default zero. */
  function ScoreOf(scores: map<int, int>, id: int): int {
    if id in scores then scores[id] else 0
  }

  /** The keys a ledger ranks: every id whose score is above zero. */
  function ActiveKeys(scores: map<int, int>): set<Key> {
    set id | id in scores && scores[id] > 0 :: Key(id, scores[id])
  }

  /** Writing a score for one id replaces at most that id's key among the
      active keys: the old key leaves, and the new one enters when above zero. */
  lemma ActiveKeysUpdate(scores: map<int, int>, id: int, v: int)
    ensures ActiveKeys(scores[id := v]) ==
      (ActiveKeys(scores) - {Key(id, ScoreOf(scores, id))}) + (if v > 0 then {Key(id, v)} else {})
  {
    var after := scores[id := v];
    forall k
      ensures k in ActiveKeys(after) <==>
        k in (ActiveKeys(scores) - {Key(id, ScoreOf(scores, id))}) + (if v > 0 then {Key(id, v)} else {})
    {
      if k in ActiveKeys(scores) {
        assert k.id in scores && k == Key(k.id, scores[k.id]);
        if k.id != id {
          assert k.id in after && after[k.id] > 0 && k == Key(k.id, after[k.id]);
        }
      }
      if v > 0 {
        assert id in after && after[id] > 0 && Key(id, v) == Key(id, after[id]);
      }
      if k in ActiveKeys(after) {
        assert k == Key(k.id, after[k.id]);
        if k.id != id {
          assert k in ActiveKeys(scores);
        }
      }
    }
  }

  /** The leaderboard a ledger denotes. */
  function Board(scores: map<int, int>): seq<Key> {
    Ranked(ActiveKeys(scores))
  }

  /** The entry shown at 1-based rank r of a listing. */
  function EntryAt(ranked: seq<Key>, r: int): Entry
    requires 1 <= r <= |ranked|
  {
    Entry(ranked[r - 1].id, ranked[r - 1].score, r)
  }

  function Min(a: int, b: int): int { if a < b then a else b }

  function Max(a: int, b: int): int { if a < b then b else a }

  /** Entries for ranks start..end of a listing, stopping at its last rank:
      consecutive ranks from `start`, each with the key ranked there, never
      padded past the population and never longer than asked. */
  function Window(ranked: seq<Key>, start: int, end: int): (w: seq<Entry>)
    requires 1 <= start
    ensures |w| == Max(0, Min(end, |ranked|) - start + 1)
    ensures |w| <= Max(0, end - start + 1)
    ensures forall i | 0 <= i < |w| :: start + i <= |ranked| && w[i] == EntryAt(ranked, start + i)
  {
    var last := Min(end, |ranked|);
    if last < start then []
    else seq(last - start + 1, i requires 0 <= i < last - start + 1 => EntryAt(ranked, start + i))
  }

  /** Asking for one more existing rank appends that rank's entry. */
  lemma WindowGrows(ranked: seq<Key>, start: int, r: int)
    requires 1 <= start <= r <= |ranked|
    ensures Window(ranked, start, r) == Window(ranked, start, r - 1) + [EntryAt(ranked, r)]
  {
    var w, v := Window(ranked, start, r), Window(ranked, start, r - 1);
    assert |w| == |v| + 1;
    forall i | 0 <= i < |w|
      ensures w[i] == (v + [EntryAt(ranked, r)])[i]
    {
    }
  }

  /** Past the last rank, a window stops where the listing does. */
  lemma WindowStops(ranked: seq<Key>, start: int, end: int)
    requires 1 <= start && |ranked| <= end
    ensures Window(ranked, start, end) == Window(ranked, start, |ranked|)
  {
  }

  /** A window of a positive width around an existing rank contains that rank. */
  lemma WindowHasCentre(ranked: seq<Key>, rank: int, high: int, low: int)
    requires 1 <= rank <= |ranked| && 0 <= high && 0 <= low
    ensures var start := Max(1, rank - high);
      0 <= rank - start < |Window(ranked, start, rank + low)| &&
      Window(ranked, start, rank + low)[rank - start] == EntryAt(ranked, rank)
  {
  }

  /** A delta of zero changes neither membership nor order. */
  lemma ZeroDeltaKeepsBoard(scores: map<int, int>, id: int)
    ensures Board(scores[id := ScoreOf(scores, id) + 0]) == Board(scores)
  {
    var after := scores[id := ScoreOf(scores, id) + 0];
    assert ActiveKeys(after) == ActiveKeys(scores) by {
      forall k
        ensures k in ActiveKeys(after) <==> k in ActiveKeys(scores)
      {
        if k in ActiveKeys(after) {
          assert k.id in scores && scores[k.id] > 0 && k == Key(k.id, scores[k.id]);
        }
        if k in ActiveKeys(scores) {
          assert k.id in after && after[k.id] > 0 && k == Key(k.id, after[k.id]);
        }
      }
    }
  }

  /** The filter `Where(x => x.Rank >= start && x.Rank <= end)`: the entries
      whose rank lies in start..end, in list order. */
  function InRanks(entries: seq<Entry>, start: int, end: int): (r: seq<Entry>)
    ensures forall e | e in r :: e in entries && start <= e.rank <= end
    ensures forall e | e in entries && start <= e.rank <= end :: e in r
  {
    if entries == [] then []
    else (if start <= entries[0].rank <= end then [entries[0]] else []) + InRanks(entries[1..], start, end)
  }

  /** On a list whose ranks count up from `base` by position, the filter
      is the slice of positions start - base .. end - base. */
  lemma {:induction false} InRanksSlice(entries: seq<Entry>, base: int, start: int, end: int)
    requires forall i | 0 <= i < |entries| :: entries[i].rank == base + i
    ensures var lo := Min(|entries|, Max(0, start - base));
      InRanks(entries, start, end) == entries[lo..Min(|entries|, Max(lo, end - base + 1))]
    decreases |entries|
  {
    if entries != [] {
      var rest := entries[1..];
      assert forall i | 0 <= i < |rest| :: rest[i].rank == base + 1 + i by {
        forall i | 0 <= i < |rest|
          ensures rest[i].rank == base + 1 + i
        {
          assert rest[i] == entries[i + 1];
        }
      }
      InRanksSlice(rest, base + 1, start, end);
      var lo := Min(|entries|, Max(0, start - base));
      var hi := Min(|entries|, Max(lo, end - base + 1));
      var lo' := Min(|rest|, Max(0, start - base - 1));
      var hi' := Min(|rest|, Max(lo', end - base));
      if start <= base <= end {
        assert lo == 0 && lo' == 0 && hi == hi' + 1;
        assert entries[lo..hi] == [entries[0]] + rest[lo'..hi'];
      } else if base < start {
        assert lo == lo' + 1 && hi == hi' + 1;
        assert entries[lo..hi] == rest[lo'..hi'];
      } else {
        assert lo == 0 && hi == 0 && hi' == 0;
      }
    }
  }

  /** A slice of the full listing is a window of it. */
  lemma WindowSlice(ranked: seq<Key>, lo: int, hi: int)
    requires 0 <= lo <= hi <= |ranked|
    ensures Window(ranked, 1, |ranked|)[lo..hi] == Window(ranked, lo + 1, hi)
  {
    var all, w := Window(ranked, 1, |ranked|), Window(ranked, lo + 1, hi);
    assert |all[lo..hi]| == |w|;
    forall i | 0 <= i < |w|
      ensures all[lo..hi][i] == w[i]
    {
      assert all[lo + i] == EntryAt(ranked, lo + i + 1);
    }
  }
}
