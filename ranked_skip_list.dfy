/**
 * The RankedSkipList object: its state (the nodes, standing for the node
 * objects and the `_byId` dictionary, `_level` and `_length`), the list
 * invariant, and its operations. The searches that only read the list
 * (GetRank, GetRangeByRank) are methods over the state's values; the
 * operations that change it apply SkipList.Insert and SkipListRemove.Remove
 * to its fields.
 */
module RankedSkipLists {
  import opened Wrappers
  import opened Ordering
  import opened Ledger
  import opened SkipLinks
  import opened SkipList
  import opened SkipListRemove

  /** The descent of GetRank: level by level from the top, following the
      links while the next key comes before k and adding up their spans.
      It ends on level 0 at position r0, the number of keys before k, and
      the rank so added up is r0. */
  method Descend(nodes: map<Ref, Node>, ghost order: seq<int>, ghost hs: seq<int>, level: int, ghost r0: int, k: Key)
    returns (x: Ref, rank: int)
    requires 1 <= level <= MaxLevel && |hs| == |order| + 1 && hs[0] == level && 0 <= r0 <= |order|
    requires forall p | 0 <= p < |hs| :: hs[p] >= 1
    requires SearchableBelow(nodes, order, hs, level, k, None, r0)
    ensures rank == r0 && x == Nd(order, r0)
  {
    assert Steps(nodes, order, hs, level - 1, k, None, r0);
    x, rank := Head, 0;
    var i := level - 1;
    while i >= 0
      invariant -1 <= i < level && 0 <= rank <= r0 && hs[rank] > i && x == Nd(order, rank)
      invariant i < level - 1 ==> r0 < NextUp(hs, rank, i + 1)
    {
      assert Steps(nodes, order, hs, i, k, None, r0);
      x, rank := Walk(nodes, order, hs, r0, x, i, rank, k, None);
      i := i - 1;
    }
    LevelZero(hs, rank);
  }

  /** GetRank: the 1-based rank of the key (customerId, score) when the
      list holds exactly that key, and -1 otherwise (an unknown id, or a
      known id with another score). */
  method RankOf(nodes: map<Ref, Node>, ghost order: seq<int>, ghost hs: seq<int>, level: int, ghost length: int,
                score: int, id: int) returns (rank: int)
    requires Linked(nodes, order, hs, level, length)
    ensures Key(id, score) in Keys(nodes, order) ==>
      1 <= rank <= |order| && Keys(nodes, order)[rank - 1] == Key(id, score)
    ensures Key(id, score) !in Keys(nodes, order) ==> rank == -1
  {
    var k := Key(id, score);
    ghost var keys := Keys(nodes, order);
    ghost var r0 := Prefix(keys, k);
    SearchableAll(nodes, order, hs, level, k, None);
    var x;
    x, rank := Descend(nodes, order, hs, level, r0, k);
    LevelZero(hs, r0);
    WiredAt(nodes, order, hs, 0, r0);
    if nodes[x].forward[0] != Null && nodes[Item(nodes[x].forward[0].id)].score == score && nodes[x].forward[0].id == id {
      assert keys[r0] == k;
      rank := rank + 1;
    } else {
      if k in keys {
        var j :| 0 <= j < |keys| && keys[j] == k;
        PrefixAt(keys, j);
        assert false;
      }
      rank := -1;
    }
  }

  /** One level of GetRangeByRank's descent: from position r (node x) on
      level i, follow the links while the position they reach is below
      `start`. It stops at the last position on level i before
      `Max(1, start)`. */
  method Skip(nodes: map<Ref, Node>, ghost order: seq<int>, ghost hs: seq<int>, x: Ref, i: int, r: int, start: int)
    returns (y: Ref, s: int)
    requires |hs| == |order| + 1 && 0 <= i && Wired(nodes, order, hs, i) && start <= |order| + 1
    requires 0 <= r <= Max(0, start - 1) && hs[r] > i && x == Nd(order, r)
    ensures r <= s <= Max(0, start - 1) && hs[s] > i && y == Nd(order, s)
    ensures Max(0, start - 1) < NextUp(hs, s, i)
  {
    WiredAt(nodes, order, hs, i, r);
    y, s := x, r;
    while nodes[y].forward[i] != Null && s + nodes[y].span[i] < start
      invariant r <= s <= Max(0, start - 1) && hs[s] > i && y == Nd(order, s)
      invariant y in nodes && i < |nodes[y].forward| && i < |nodes[y].span|
      invariant nodes[y].forward[i] == LinkAt(order, hs, s, i) && nodes[y].span[i] == SpanAt(hs, s, i)
      decreases |hs| - s
    {
      ghost var q := NextUp(hs, s, i);
      s := s + nodes[y].span[i];
      y := Item(nodes[y].forward[i].id);
      assert s == q && y == Nd(order, q);
      WiredAt(nodes, order, hs, i, q);
    }
  }

  /** The descent of GetRangeByRank: it ends on level 0 at the position just
      before rank `Max(1, start)`, having added up exactly that many
      spans. */
  method Traverse(nodes: map<Ref, Node>, ghost order: seq<int>, ghost hs: seq<int>, level: int, start: int)
    returns (x: Ref, traversed: int)
    requires 1 <= level && |hs| == |order| + 1 && hs[0] == level && start <= |order| + 1
    requires forall p | 0 <= p < |hs| :: hs[p] >= 1
    requires WiredBelow(nodes, order, hs, level)
    ensures traversed == Max(0, start - 1) && x == Nd(order, traversed)
  {
    x, traversed := Head, 0;
    var i := level - 1;
    while i >= 0
      invariant -1 <= i < level && 0 <= traversed <= Max(0, start - 1) && hs[traversed] > i
      invariant x == Nd(order, traversed)
      invariant i < level - 1 ==> Max(0, start - 1) < NextUp(hs, traversed, i + 1)
    {
      x, traversed := Skip(nodes, order, hs, x, i, traversed, start);
      i := i - 1;
    }
    LevelZero(hs, traversed);
  }

  /** The last loop of GetRangeByRank: from the node at position st - 1,
      collect the entries of ranks st to `last` along level 0, stopping at
      the end of the list. */
  method Collect(nodes: map<Ref, Node>, ghost order: seq<int>, ghost hs: seq<int>, x: Ref, st: int, last: int)
    returns (result: seq<Entry>)
    requires |hs| == |order| + 1 && Present(nodes, order) && Wired(nodes, order, hs, 0)
    requires forall p | 0 <= p < |hs| :: hs[p] >= 1
    requires 1 <= st <= |order| + 1 && last <= |order| && x == Nd(order, st - 1)
    ensures result == Window(Keys(nodes, order), st, last)
  {
    ghost var keys := Keys(nodes, order);
    LevelZero(hs, st - 1);
    WiredAt(nodes, order, hs, 0, st - 1);
    var link := nodes[x].forward[0];
    var rank := st;
    result := [];
    while link != Null && rank <= last
      invariant st <= rank <= Max(st, last + 1) && rank <= |order| + 1
      invariant link == if rank <= |order| then To(order[rank - 1]) else Null
      invariant result == Window(keys, st, rank - 1)
      decreases |order| + 1 - rank
    {
      WindowGrows(keys, st, rank);
      result := result + [Entry(link.id, nodes[Item(link.id)].score, rank)];
      LevelZero(hs, rank);
      WiredAt(nodes, order, hs, 0, rank);
      link := nodes[Item(link.id)].forward[0];
      rank := rank + 1;
    }
  }

  /** GetRangeByRank: the entries of ranks `start` to `end` of the ranking,
      a `start` below 1 counting as 1 and an `end` past the last rank as
      the last rank. */
  method RangeByRank(nodes: map<Ref, Node>, ghost order: seq<int>, ghost hs: seq<int>, level: int, length: int,
                     start: int, end: int) returns (result: seq<Entry>)
    requires Linked(nodes, order, hs, level, length)
    ensures result == Window(Keys(nodes, order), Max(1, start), end)
  {
    result := [];
    if start > length {
      return;
    }
    var last := end;
    if last > length {
      WindowStops(Keys(nodes, order), Max(1, start), end);
      last := length;
    }
    if start > last {
      return;
    }
    var x, traversed := Traverse(nodes, order, hs, level, start);
    result := Collect(nodes, order, hs, x, traversed + 1, last);
  }

  /** A key taken out of a sorted listing leaves its members, and no other
      key does. */
  lemma DelMembers(s: seq<Key>, m: int)
    requires Sorted(s) && 0 <= m < |s|
    ensures (set x | x in Del(s, m)) == (set x | x in s) - {s[m]}
  {
    var t := Del(s, m);
    forall x | x in s && x != s[m]
      ensures x in t
    {
      var j :| 0 <= j < |s| && s[j] == x;
      assert t[if j < m then j else j - 1] == x;
    }
    forall j | 0 <= j < |t|
      ensures t[j] != s[m]
    {
      var i := if j < m then j else j + 1;
      if s[i] == s[m] {
        SortedDistinct(s, i, m);
      }
    }
  }

  /** Taking id out of the listing keeps every other registered node
      registered; the node for id stays in the map only as a stale entry. */
  lemma RegisteredDel(nodes: map<Ref, Node>, nodes': map<Ref, Node>, order: seq<int>, m: int)
    requires Registered(nodes, order) && 0 <= m < |order| && nodes'.Keys <= nodes.Keys
    ensures forall r | r in nodes' && r != Head :: r.id in Del(order, m) || r.id == order[m]
  {
    var t := Del(order, m);
    forall r | r in nodes' && r != Head && r.id != order[m]
      ensures r.id in t
    {
      var j :| 0 <= j < |order| && order[j] == r.id;
      assert t[if j < m then j else j - 1] == r.id;
    }
  }

  /** RankedSkipList: the head and its nodes, `_level` and `_length`.
      `nodes` stands for both the heap of nodes and the `_byId` dictionary,
      a node being found under its customer id; the ghost `order` (the ids
      along level 0) and `hs` (the head's height, then each node's) are the
      positions the links must agree with. */
  class RankedSkipList {
    var nodes: map<Ref, Node>
    var level: int
    var length: int
    ghost var order: seq<int>
    ghost var hs: seq<int>

    /** The list is linked, and `_byId` holds exactly the listed ids. */
    ghost predicate Valid()
      reads this
    {
      && Linked(nodes, order, hs, level, length)
      && Registered(nodes, order)
    }

    /** The ranking: the listed keys in level-0 order. */
    ghost function Listing(): seq<Key>
      reads this
      requires Present(nodes, order)
    {
      Keys(nodes, order)
    }

    /** The keys listed. */
    ghost function Members(): set<Key>
      reads this
      requires Present(nodes, order)
    {
      set k | k in Listing()
    }

    /** The key `_byId` holds for an id, if any. */
    ghost function Held(id: int): set<Key>
      reads this
    {
      if Item(id) in nodes then {Key(id, nodes[Item(id)].score)} else {}
    }

    /** In a valid list the key held for an id is the one member with that
        id. */
    lemma HeldMembers(id: int)
      requires Valid()
      ensures Held(id) == set k | k in Members() && k.id == id
    {
      forall k | k in Members() && k.id == id
        ensures k in Held(id)
      {
        var j :| 0 <= j < |order| && Listing()[j] == k;
      }
      if Item(id) in nodes {
        var j :| 0 <= j < |order| && order[j] == id;
        assert Listing()[j] == Key(id, nodes[Item(id)].score);
      }
    }

    constructor ()
      ensures Valid() && Listing() == [] && level == 1
    {
      nodes := map[Head := NewNode(0, 0)];
      level := 1;
      length := 0;
      order := [];
      hs := [1];
      new;
      NextUpIs(hs, 0, 0, 1);
    }

    /** RandomLevel, with the i-th draw's `NextDouble() < Probability` given
        as `coin(i)`: one plus the number of successful draws in a row, at
        most MaxLevel. */
    static method RandomLevel(coin: int -> bool) returns (lvl: int)
      ensures 1 <= lvl <= MaxLevel
      ensures forall j | 1 <= j < lvl :: coin(j)
      ensures lvl < MaxLevel ==> !coin(lvl)
    {
      lvl := 1;
      while lvl < MaxLevel && coin(lvl)
        invariant 1 <= lvl <= MaxLevel
        invariant forall j | 1 <= j < lvl :: coin(j)
      {
        lvl := lvl + 1;
      }
    }

    /** InsertInternal: the drawn level (see RandomLevel) decides the new
        node's height; the key goes in at its own place in the ranking, the
        node is registered by id, and the list stays linked. An id left in
        the map by RemoveInternal(node, false) is overwritten. */
    method InsertInternal(id: int, score: int, coin: int -> bool)
      requires Linked(nodes, order, hs, level, length) && id !in order
      requires forall r | r in nodes && r != Head :: r.id in order || r.id == id
      modifies this
      ensures Valid() && length == old(length) + 1
      ensures Listing() == Ins(old(Listing()), Prefix(old(Listing()), Key(id, score)), Key(id, score))
      ensures Members() == old(Members()) + {Key(id, score)}
      ensures Item(id) in nodes && nodes[Item(id)].score == score
    {
      var lvl := RandomLevel(coin);
      nodes, order, hs, level, length := Insert(nodes, order, hs, level, length, id, score, lvl);
    }

    /** RemoveInternal: the node's key leaves the ranking and the list
        stays linked; with `removeFromDict` the id leaves `_byId` too,
        otherwise its node stays there, stale, for InsertInternal to
        replace. */
    method RemoveInternal(id: int, removeFromDict: bool)
      requires Valid() && Item(id) in nodes
      modifies this
      ensures Linked(nodes, order, hs, level, length) && length == old(length) - 1 && id !in order
      ensures Members() == old(Members()) - old(Held(id))
      ensures removeFromDict ==> Valid() && Item(id) !in nodes
      ensures !removeFromDict ==> forall r | r in nodes && r != Head :: r.id in order || r.id == id
    {
      ghost var before := Listing();
      ghost var m;
      nodes, order, hs, level, length, m := SkipListRemove.Remove(nodes, order, hs, level, length, id, removeFromDict);
      DelMembers(before, m);
      RegisteredDel(old(nodes), nodes, old(order), m);
      DistinctIns(order, m, id);
    }

    /** InsertOrUpdate: a known id with the same score changes nothing; a
        known id with another score is taken out (its node left in `_byId`)
        and put back with the new score; an unknown id is put in. Either
        way the id ends up listed once, with the new score. */
    method InsertOrUpdate(id: int, score: int, coin: int -> bool)
      requires Valid()
      modifies this
      ensures Valid()
      ensures Members() == (old(Members()) - old(Held(id))) + {Key(id, score)}
      ensures Item(id) in nodes && nodes[Item(id)].score == score
      ensures old(Held(id)) == {Key(id, score)} ==>
        nodes == old(nodes) && level == old(level) && length == old(length)
    {
      if Item(id) in nodes {
        if nodes[Item(id)].score == score {
          HeldMembers(id);
          return;
        }
        RemoveInternal(id, false);
        InsertInternal(id, score, coin);
      } else {
        InsertInternal(id, score, coin);
      }
    }

    /** Remove: an unknown id changes nothing; a known one leaves the
        ranking and `_byId`. */
    method Remove(id: int)
      requires Valid()
      modifies this
      ensures Valid() && Item(id) !in nodes
      ensures Members() == old(Members()) - old(Held(id))
      ensures old(Item(id) !in nodes) ==> nodes == old(nodes) && level == old(level) && length == old(length)
    {
      if Item(id) in nodes {
        RemoveInternal(id, true);
      }
    }

    /** GetNode: the node `_byId` holds for the id, which in a valid list
        carries the id's listed score; none when the id is not listed. */
    method GetNode(id: int) returns (r: Option<Node>)
      requires Valid()
      ensures r.Some? ==> Key(id, r.value.score) in Members()
      ensures r.None? ==> forall k | k in Members() :: k.id != id
    {
      HeldMembers(id);
      if Item(id) in nodes {
        r := Some(nodes[Item(id)]);
      } else {
        r := None;
      }
    }

    /** GetRank: the 1-based rank of (customerId, score) when that key is
        listed, -1 otherwise. */
    method GetRank(score: int, id: int) returns (rank: int)
      requires Valid()
      ensures Key(id, score) in Listing() ==> 1 <= rank <= |Listing()| && Listing()[rank - 1] == Key(id, score)
      ensures Key(id, score) !in Listing() ==> rank == -1
    {
      rank := RankOf(nodes, order, hs, level, length, score, id);
    }

    /** GetRangeByRank: the entries of ranks `start` to `end`, see
        RangeByRank. */
    method GetRangeByRank(start: int, end: int) returns (result: seq<Entry>)
      requires Valid()
      ensures result == Window(Listing(), Max(1, start), end)
    {
      result := RangeByRank(nodes, order, hs, level, length, start, end);
    }
  }
}
