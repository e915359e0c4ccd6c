/**
 * The list-based leaderboard: a seeded list of entry objects, each also
 * reachable by id, re-sorted by score and re-ranked after every update.
 * Entries are never removed, whatever their score. The entry objects are
 * shared between the id dictionary and the list; here an entry is its id,
 * the list is a sequence of ids and the mutable fields of each entry live
 * in one map from id to `Row`.
 */
module SeededList {
  import opened Wrappers
  import opened Ordering
  import opened Ledger

  /** The mutable part of one entry object: its score and its rank. */
  datatype Row = Row(score: int, rank: int)

  predicate Distinct(s: seq<int>) {
    forall i, j | 0 <= i < j < |s| :: s[i] != s[j]
  }

  /** Every id of the list has an entry object. */
  predicate AllIn(ids: seq<int>, rows: map<int, Row>) {
    forall i | 0 <= i < |ids| :: ids[i] in rows
  }

  /** Scores never increase along the list. */
  predicate NonIncreasing(ids: seq<int>, rows: map<int, Row>)
    requires AllIn(ids, rows)
  {
    forall i, j | 0 <= i < j < |ids| :: rows[ids[i]].score >= rows[ids[j]].score
  }

  /** An id occurs at most once in a list without repeats. */
  lemma {:induction false} DistinctOnce(s: seq<int>, x: int)
    requires Distinct(s)
    ensures multiset(s)[x] <= 1
  {
    if s != [] {
      assert s == [s[0]] + s[1..];
      assert Distinct(s[1..]) by {
        forall i, j | 0 <= i < j < |s[1..]|
          ensures s[1..][i] != s[1..][j]
        {
          assert s[1..][i] == s[i + 1] && s[1..][j] == s[j + 1];
        }
      }
      DistinctOnce(s[1..], x);
      if s[0] == x {
        assert x !in s[1..];
      }
    }
  }

  /** An id at two positions occurs at least twice. */
  lemma TwiceCounted(s: seq<int>, i: int, j: int)
    requires 0 <= i < j < |s| && s[i] == s[j]
    ensures multiset(s)[s[i]] >= 2
  {
    assert s == s[..j] + s[j..];
    assert s[i] in s[..j];
    assert s[j] in s[j..];
  }

  /** A permutation of a list without repeats has none either. */
  lemma PermutationDistinct(a: seq<int>, b: seq<int>)
    requires multiset(a) == multiset(b) && Distinct(a)
    ensures Distinct(b)
  {
    forall i, j | 0 <= i < j < |b|
      ensures b[i] != b[j]
    {
      if b[i] == b[j] {
        TwiceCounted(b, i, j);
        DistinctOnce(a, b[i]);
      }
    }
  }

  /** The first entry of a list sorted by non-increasing score has the
      highest score. */
  lemma HeadHighest(t: seq<int>, rows: map<int, Row>)
    requires t != [] && AllIn(t, rows) && NonIncreasing(t, rows)
    ensures forall y | y in t :: rows[y].score <= rows[t[0]].score
  {
    forall y | y in t
      ensures rows[y].score <= rows[t[0]].score
    {
      var k :| 0 <= k < |t| && t[k] == y;
      if k > 0 {
        assert rows[t[0]].score >= rows[t[k]].score;
      }
    }
  }

  /** An entry whose score is at least every score of a sorted list can go
      in front of it. */
  lemma PrependHighest(x: int, rest: seq<int>, rows: map<int, Row>)
    requires x in rows && AllIn(rest, rows) && NonIncreasing(rest, rows)
    requires forall y | y in rest :: rows[y].score <= rows[x].score
    ensures AllIn([x] + rest, rows) && NonIncreasing([x] + rest, rows)
  {
    var r := [x] + rest;
    forall i, j | 0 <= i < j < |r|
      ensures rows[r[i]].score >= rows[r[j]].score
    {
      assert r[j] == rest[j - 1];
      if i > 0 {
        assert r[i] == rest[i - 1];
      } else {
        assert rest[j - 1] in rest;
      }
    }
  }

  /** Puts `id` in front of the first entry whose score is not above its
      own, in a list sorted by non-increasing score. */
  function InsertByScore(id: int, t: seq<int>, rows: map<int, Row>): (r: seq<int>)
    requires id in rows && AllIn(t, rows) && NonIncreasing(t, rows)
    ensures multiset(r) == multiset(t) + multiset{id}
    ensures forall y | y in r :: y == id || y in t
    ensures AllIn(r, rows) && NonIncreasing(r, rows)
  {
    if t == [] || rows[id].score >= rows[t[0]].score then
      if t == [] then [id]
      else
        HeadHighest(t, rows);
        PrependHighest(id, t, rows);
        [id] + t
    else
      var rest := InsertByScore(id, t[1..], rows);
      assert t == [t[0]] + t[1..];
      HeadHighest(t, rows);
      PrependHighest(t[0], rest, rows);
      [t[0]] + rest
  }

  /** `_ordered.Sort((a, b) => b.Score.CompareTo(a.Score))`: the same ids,
      by non-increasing score. */
  function ByScore(ids: seq<int>, rows: map<int, Row>): (r: seq<int>)
    requires AllIn(ids, rows)
    ensures multiset(r) == multiset(ids)
    ensures AllIn(r, rows) && NonIncreasing(r, rows)
  {
    if ids == [] then []
    else
      assert ids == [ids[0]] + ids[1..];
      InsertByScore(ids[0], ByScore(ids[1..], rows), rows)
  }

  /** `for (i = 0; i < _ordered.Count; i++) _ordered[i].Rank = i + 1`: each
      listed entry takes its position plus one as rank; nothing else of any
      entry changes. */
  method Rerank(ordered: seq<int>, rows: map<int, Row>) returns (ranked: map<int, Row>)
    requires Distinct(ordered) && AllIn(ordered, rows)
    ensures ranked.Keys == rows.Keys
    ensures forall id | id in rows :: ranked[id].score == rows[id].score
    ensures forall i | 0 <= i < |ordered| :: ranked[ordered[i]].rank == i + 1
    ensures forall id | id in rows && id !in ordered :: ranked[id] == rows[id]
  {
    ranked := rows;
    for i := 0 to |ordered|
      invariant ranked.Keys == rows.Keys
      invariant forall id | id in rows :: ranked[id].score == rows[id].score
      invariant forall j | 0 <= j < i :: ranked[ordered[j]].rank == j + 1
      invariant forall id | id in rows && id !in ordered[..i] :: ranked[id] == rows[id]
    {
      assert ordered[..i + 1] == ordered[..i] + [ordered[i]];
      ranked := ranked[ordered[i] := ranked[ordered[i]].(rank := i + 1)];
    }
    assert ordered[..|ordered|] == ordered;
  }

  /** The score of every entry, by id. */
  ghost function ScoresOf(rows: map<int, Row>): map<int, int> {
    map id | id in rows :: rows[id].score
  }

  /** Re-ranking changes no score, so it keeps the scores by id and the
      order by score. */
  lemma SameScores(a: map<int, Row>, b: map<int, Row>, ids: seq<int>)
    requires a.Keys == b.Keys && forall id | id in a :: a[id].score == b[id].score
    requires AllIn(ids, a) && NonIncreasing(ids, a)
    ensures ScoresOf(a) == ScoresOf(b)
    ensures AllIn(ids, b) && NonIncreasing(ids, b)
  {
    forall id | id in a
      ensures ScoresOf(a)[id] == ScoresOf(b)[id]
    {
    }
    assert ScoresOf(a).Keys == ScoresOf(b).Keys;
    forall i, j | 0 <= i < j < |ids|
      ensures b[ids[i]].score >= b[ids[j]].score
    {
      assert ids[i] in a && ids[j] in a;
      assert a[ids[i]].score >= a[ids[j]].score;
    }
  }

  /** The list and the dictionary hold the same entries, once each. */
  ghost predicate Consistent(ordered: seq<int>, rows: map<int, Row>) {
    Distinct(ordered) && AllIn(ordered, rows) && forall id | id in rows :: id in ordered
  }

  /** Writing the row of an id, appending the id to the list when it is
      new, keeps the list and the dictionary in step. */
  lemma Enter(ordered: seq<int>, rows: map<int, Row>, id: int, row: Row)
    requires Consistent(ordered, rows)
    ensures Consistent(if id in rows then ordered else ordered + [id], rows[id := row])
  {
    if id !in rows {
      var o := ordered + [id];
      assert id !in ordered;
      forall i, j | 0 <= i < j < |o|
        ensures o[i] != o[j]
      {
        if j == |ordered| {
          assert o[i] == ordered[i];
        } else {
          assert o[i] == ordered[i] && o[j] == ordered[j];
        }
      }
    }
  }

  /** Writing one entry's row changes that id's score only. */
  lemma WriteRow(rows: map<int, Row>, id: int, row: Row)
    ensures ScoresOf(rows[id := row]) == ScoresOf(rows)[id := row.score]
  {
  }

  /** Re-ordering the list keeps it in step with the dictionary. */
  lemma ReorderConsistent(ordered: seq<int>, sorted: seq<int>, rows: map<int, Row>)
    requires Consistent(ordered, rows) && multiset(ordered) == multiset(sorted)
    ensures Consistent(sorted, rows)
  {
    PermutationDistinct(ordered, sorted);
    forall i | 0 <= i < |sorted|
      ensures sorted[i] in rows
    {
      assert sorted[i] in multiset(ordered);
    }
    forall id | id in rows
      ensures id in sorted
    {
      assert id in multiset(sorted);
    }
  }

  /** The entries as the list shows them: id, score and stored rank. */
  function ListingOf(ordered: seq<int>, rows: map<int, Row>): (r: seq<Entry>)
    requires AllIn(ordered, rows)
    ensures |r| == |ordered|
  {
    seq(|ordered|, i requires 0 <= i < |ordered| => Entry(ordered[i], rows[ordered[i]].score, rows[ordered[i]].rank))
  }

  /** The (id, score) keys of the list, in list order. */
  ghost function KeysOf(ordered: seq<int>, rows: map<int, Row>): (r: seq<Key>)
    requires AllIn(ordered, rows)
    ensures |r| == |ordered|
  {
    seq(|ordered|, i requires 0 <= i < |ordered| => Key(ordered[i], rows[ordered[i]].score))
  }

  /** Once every entry's rank is its position plus one, filtering the list
      by rank range [s, e] yields the window of ranks s..e. */
  lemma InRanksIsWindow(ordered: seq<int>, rows: map<int, Row>, s: int, e: int)
    requires AllIn(ordered, rows) && 1 <= s
    requires forall i | 0 <= i < |ordered| :: rows[ordered[i]].rank == i + 1
    ensures InRanks(ListingOf(ordered, rows), s, e) == Window(KeysOf(ordered, rows), s, e)
  {
    var listing, keys := ListingOf(ordered, rows), KeysOf(ordered, rows);
    assert listing == Window(keys, 1, |keys|);
    InRanksSlice(listing, 1, s, e);
    var lo := Min(|keys|, s - 1);
    var hi := Min(|keys|, Max(lo, e));
    WindowSlice(keys, lo, hi);
  }

  /** The list and the dictionary hold the same entries, once each; the
      list is sorted by non-increasing score and every rank is its position
      plus one. */
  ghost predicate Listed(ordered: seq<int>, rows: map<int, Row>) {
    && Consistent(ordered, rows)
    && NonIncreasing(ordered, rows)
    && (forall i | 0 <= i < |ordered| :: rows[ordered[i]].rank == i + 1)
  }

  /** The body of UpdateScore on the list and the rows: an unknown id gets
      a new entry of score zero at the end of the list; the entry's score
      grows by delta; the list is re-sorted by score and re-ranked. */
  method Update(ordered: seq<int>, rows: map<int, Row>, id: int, delta: int)
    returns (ordered': seq<int>, rows': map<int, Row>, score: int)
    requires Listed(ordered, rows)
    ensures Listed(ordered', rows')
    ensures score == ScoreOf(ScoresOf(rows), id) + delta
    ensures ScoresOf(rows') == ScoresOf(rows)[id := score]
    ensures multiset(ordered') == multiset(ordered) + (if id in rows then multiset{} else multiset{id})
  {
    var row := if id in rows then rows[id] else Row(0, 0);
    var o := if id in rows then ordered else ordered + [id];
    score := row.score + delta;
    Enter(ordered, rows, id, row.(score := score));
    WriteRow(rows, id, row.(score := score));
    var rs := rows[id := row.(score := score)];
    ordered' := ByScore(o, rs);
    ReorderConsistent(o, ordered', rs);
    rows' := Rerank(ordered', rs);
    SameScores(rs, rows', ordered');
  }

  class LeaderboardService {
    var ordered: seq<int>
    var rows: map<int, Row>

    /** `_byId` and `_ordered` hold the same entries, once each; the list is
        sorted by non-increasing score and every rank is its position plus
        one. */
    ghost predicate Valid()
      reads this
    {
      Listed(ordered, rows)
    }

    /** The score of every known id. */
    ghost function Scores(): map<int, int>
      reads this
    {
      ScoresOf(rows)
    }

    ghost function Keys(): seq<Key>
      reads this
      requires AllIn(ordered, rows)
    {
      KeysOf(ordered, rows)
    }

    /** Fifty seeded entries: the i-th has id 1000 + i, score 1000 - 3i and
        rank i. */
    constructor ()
      ensures Valid() && |ordered| == 50
      ensures forall i | 0 <= i < 50 :: ordered[i] == 1001 + i && rows[ordered[i]] == Row(1000 - (i + 1) * 3, i + 1)
    {
      var seeded := seq(50, i requires 0 <= i < 50 => 1001 + i);
      var byId := map id | id in seeded :: Row(1000 - (id - 1000) * 3, id - 1000);
      forall id | id in byId
        ensures id in seeded
      {
        assert seeded[id - 1001] == id;
      }
      ordered, rows := seeded, byId;
    }

    /** GetRange: a start below 1 is raised to 1; the entries of ranks
        start..end in rank order (none when end < start). */
    method GetRange(start: int, end: int) returns (list: seq<Entry>)
      requires Valid()
      ensures list == Window(Keys(), Max(1, start), end)
    {
      var s := start;
      if s < 1 {
        s := 1;
      }
      if end < s {
        return [];
      }
      list := InRanks(ListingOf(ordered, rows), s, end);
      InRanksIsWindow(ordered, rows, s, end);
    }

    /** GetWithNeighbors: None for an unknown id; otherwise, with `rank` the
        id's rank, the entries of ranks max(1, rank - high) ..
        min(count, rank + low). */
    method GetWithNeighbors(customerId: int, high: int, low: int) returns (r: Option<seq<Entry>>, ghost rank: int)
      requires Valid()
      ensures customerId !in Scores() ==> r == None
      ensures customerId in Scores() ==>
        && 1 <= rank <= |ordered| && Keys()[rank - 1] == Key(customerId, Scores()[customerId])
        && r == Some(Window(Keys(), Max(1, rank - high), Min(|ordered|, rank + low)))
    {
      rank := 0;
      if customerId !in rows {
        return None, rank;
      }
      var center := rows[customerId];
      rank := center.rank;
      var s := Max(1, center.rank - high);
      var e := Min(|ordered|, center.rank + low);
      var list := InRanks(ListingOf(ordered, rows), s, e);
      InRanksIsWindow(ordered, rows, s, e);
      r := Some(list);
    }

    /** UpdateScore: an unknown id gets a new entry of score zero at the end
        of the list; the entry's score grows by delta; the list is re-sorted
        by score and re-ranked; the new score is returned. */
    method UpdateScore(customerId: int, delta: int) returns (score: int)
      requires Valid()
      modifies this
      ensures Valid()
      ensures score == ScoreOf(old(Scores()), customerId) + delta
      ensures Scores() == old(Scores())[customerId := score]
      ensures multiset(ordered) == multiset(old(ordered)) + (if customerId in old(rows) then multiset{} else multiset{customerId})
    {
      ordered, rows, score := Update(ordered, rows, customerId, delta);
    }
  }
}
