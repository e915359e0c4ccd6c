/**
 * The ranking order shared by every leaderboard variant: higher score first,
 * equal scores broken by the lower customer id. The abstract leaderboard is
 * the unique strictly sorted listing of a set of keys.
 */
module Ordering {

  /** A ranking key: a customer id with the score that places it. */
  datatype Key = Key(id: int, score: int)

  /** `a` ranks strictly before `b`. */
  predicate Before(a: Key, b: Key) {
    a.score > b.score || (a.score == b.score && a.id < b.id)
  }

  /** `x.CompareTo(y)` for long and decimal: -1, 0 or 1. */
  function CompareTo(x: int, y: int): (c: int)
    ensures c == -1 <==> x < y
    ensures c == 0 <==> x == y
    ensures c == 1 <==> x > y
  {
    if x < y then -1 else if x > y then 1 else 0
  }

  /** The comparator of every tree and of the skip list: the score compared
      in reverse, then the id. */
  function Compare(a: Key, b: Key): (c: int)
    ensures c < 0 <==> Before(a, b)
    ensures c == 0 <==> a == b
    ensures c > 0 <==> Before(b, a)
  {
    var scoreCmp := CompareTo(b.score, a.score);
    if scoreCmp != 0 then scoreCmp else CompareTo(a.id, b.id)
  }

  /** Strictly increasing in ranking order (so also free of duplicates). */
  ghost predicate Sorted(s: seq<Key>) {
    forall i, j | 0 <= i < j < |s| :: Before(s[i], s[j])
  }

  /** `m` is the first key of `s` in ranking order. */
  predicate IsFirst(m: Key, s: set<Key>) {
    m in s && forall x | x in s && x != m :: Before(m, x)
  }

  lemma {:induction false} FirstExists(s: set<Key>)
    requires s != {}
    ensures exists m :: IsFirst(m, s)
    decreases |s|
  {
    var x :| x in s;
    if s == {x} {
      assert IsFirst(x, s);
    } else {
      FirstExists(s - {x});
      var m :| IsFirst(m, s - {x});
      if Before(x, m) {
        forall y | y in s && y != x
          ensures Before(x, y)
        {
          if y != m { assert y in s - {x}; }
        }
        assert IsFirst(x, s);
      } else {
        assert IsFirst(m, s);
      }
    }
  }

  /** The leaderboard a set of keys denotes: its keys listed in ranking order. */
  function Ranked(s: set<Key>): (r: seq<Key>)
    ensures Sorted(r)
    ensures |r| == |s|
    ensures forall k :: k in r <==> k in s
    decreases |s|
  {
    if s == {} then []
    else
      FirstExists(s);
      var m :| IsFirst(m, s);
      var rest := Ranked(s - {m});
      assert forall i | 0 < i < |[m] + rest| :: ([m] + rest)[i] in s - {m};
      [m] + rest
  }

  /** A sorted listing is determined by its keys: two sorted sequences with
      the same members are equal. */
  lemma {:induction false} SortedUnique(a: seq<Key>, b: seq<Key>)
    requires Sorted(a) && Sorted(b)
    requires forall k :: k in a <==> k in b
    ensures a == b
    decreases |a|
  {
    var keys := set x | x in a;
    DistinctCount(a, keys);
    DistinctCount(b, keys);
    if a != [] {
      assert a[0] in b;
      assert b[0] in a;
      assert a[0] == b[0];
      TailMembers(a, keys);
      TailMembers(b, keys);
      SortedUnique(a[1..], b[1..]);
      assert a == [a[0]] + a[1..] && b == [b[0]] + b[1..];
    }
  }

  /** Every sorted sequence is the ranking of its own keys. */
  lemma SortedIsRanked(s: seq<Key>, keys: set<Key>)
    requires Sorted(s)
    requires forall k :: k in s <==> k in keys
    ensures s == Ranked(keys)
  {
    SortedUnique(s, Ranked(keys));
  }

  /** Keys are never listed twice. */
  lemma SortedDistinct(s: seq<Key>, i: int, j: int)
    requires Sorted(s) && 0 <= i < |s| && 0 <= j < |s| && s[i] == s[j]
    ensures i == j
  {
  }

  /** Dropping the first key of a sorted listing drops exactly that key. */
  lemma TailMembers(s: seq<Key>, keys: set<Key>)
    requires Sorted(s) && s != []
    requires forall x :: x in s <==> x in keys
    ensures forall x :: x in s[1..] <==> x in keys - {s[0]}
  {
    forall x
      ensures x in s[1..] <==> x in keys - {s[0]}
    {
      assert s == [s[0]] + s[1..];
      if x in s[1..] {
        var i :| 0 <= i < |s| - 1 && s[1..][i] == x;
        assert Before(s[0], s[i + 1]);
      }
    }
  }

  /** A duplicate-free listing is as long as its set of members. */
  lemma {:induction false} DistinctCount(s: seq<Key>, keys: set<Key>)
    requires Sorted(s)
    requires forall x :: x in s <==> x in keys
    ensures |s| == |keys|
  {
    if s != [] {
      TailMembers(s, keys);
      DistinctCount(s[1..], keys - {s[0]});
    } else {
      assert keys == {};
    }
  }

  /** How many keys of a set rank strictly before `k`. */
  function CountBefore(keys: set<Key>, k: Key): nat {
    |set x | x in keys && Before(x, k)|
  }

  /** In a sorted listing of a key set, position i holds the key with exactly
      i keys of the set before it: its 1-based rank is 1 + CountBefore. */
  lemma {:induction false} PositionIsCountBefore(s: seq<Key>, keys: set<Key>, i: int)
    requires Sorted(s)
    requires forall x :: x in s <==> x in keys
    requires 0 <= i < |s|
    ensures CountBefore(keys, s[i]) == i
    decreases |s|
  {
    var k := s[i];
    if i == 0 {
      forall x | x in keys
        ensures !Before(x, k)
      {
        var j :| 0 <= j < |s| && s[j] == x;
        if j > 0 { assert Before(k, x); }
      }
      assert (set x | x in keys && Before(x, k)) == {};
    } else {
      TailMembers(s, keys);
      var kt := keys - {s[0]};
      PositionIsCountBefore(s[1..], kt, i - 1);
      assert s[1..][i - 1] == k;
      assert Before(s[0], k);
      assert (set x | x in keys && Before(x, k)) == (set x | x in kt && Before(x, k)) + {s[0]};
    }
  }

  /** How many keys at the front of `s` rank before `k`: in a sorted
      listing, exactly the keys before `k` come first. */
  function Prefix(s: seq<Key>, k: Key): (r: nat)
    ensures r <= |s|
    ensures forall j | 0 <= j < r :: Before(s[j], k)
    ensures Sorted(s) ==> forall j | r <= j < |s| :: !Before(s[j], k)
  {
    if s == [] || !Before(s[0], k) then 0 else 1 + Prefix(s[1..], k)
  }

  /** A listed key is preceded by exactly its position's worth of keys. */
  lemma PrefixAt(s: seq<Key>, i: int)
    requires Sorted(s) && 0 <= i < |s|
    ensures Prefix(s, s[i]) == i
  {
    var r := Prefix(s, s[i]);
    assert r <= i;
    assert r < |s| ==> !Before(s[r], s[i]);
  }
}
