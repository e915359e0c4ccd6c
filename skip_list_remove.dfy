/**
 * RemoveInternal of RankedSkipList: the search for the node that passes
 * over it on every level, the unlink level by level, the backward link
 * past it, the level shrink and the dictionary removal.
 *
 * The list before the removal is `Ins(order, r0, id)`, `Ins(hs, r0 + 1, lvl)`:
 * `order` and `hs` are what is left once the node of `id`, of level `lvl`,
 * at index r0 of the order, is gone.
 */
module SkipListRemove {
  import opened Wrappers
  import opened Ordering
  import opened Ledger
  import opened SkipLinks
  import opened SkipList

  /** A level the node reaches: `update[i].Span[i] += node.Span[i] - 1` and
      `update[i].Forward[i] = node.Forward[i]`. */
  method UnlinkOne(nodes: map<Ref, Node>, u: Ref, id: int, i: int) returns (nodes': map<Ref, Node>)
    requires u in nodes && Item(id) in nodes
    requires 0 <= i < |nodes[u].forward| && i < |nodes[u].span|
    requires i < |nodes[Item(id)].forward| && i < |nodes[Item(id)].span|
    ensures SameFrame(nodes', nodes)
    ensures forall x, t | !(x == u && t == i) :: Slot(nodes', x, t) == Slot(nodes, x, t)
    ensures Slot(nodes', u, i) ==
      Some((nodes[Item(id)].forward[i], nodes[u].span[i] + nodes[Item(id)].span[i] - 1))
  {
    nodes' := SetSpan(nodes, u, i, nodes[u].span[i] + nodes[Item(id)].span[i] - 1);
    nodes' := SetForward(nodes', u, i, nodes[Item(id)].forward[i]);
  }

  /** A level above the node's: `update[i].Span[i]--`. */
  method ShrinkOne(nodes: map<Ref, Node>, u: Ref, i: int) returns (nodes': map<Ref, Node>)
    requires u in nodes && 0 <= i < |nodes[u].forward| && i < |nodes[u].span|
    ensures SameFrame(nodes', nodes)
    ensures forall x, t | !(x == u && t == i) :: Slot(nodes', x, t) == Slot(nodes, x, t)
    ensures Slot(nodes', u, i) == Some((nodes[u].forward[i], nodes[u].span[i] - 1))
  {
    nodes' := SetSpan(nodes, u, i, nodes[u].span[i] - 1);
  }

  /** The test of the unlink loop, `update[i].Forward[i] == node`: the last
      node before the removed one on level i links to it exactly on the
      levels it reaches. */
  lemma LinksToNode(nodes: map<Ref, Node>, order: seq<int>, hs: seq<int>, i: int, id: int, lvl: int, px: int, u: Ref, r0: int)
    requires |hs| == |order| + 1 && 0 <= r0 < |hs| && Distinct(Ins(order, r0, id))
    requires Wired(nodes, Ins(order, r0, id), Ins(hs, r0 + 1, lvl), i) && 0 <= i
    requires Settled(Ins(order, r0, id), Ins(hs, r0 + 1, lvl), r0, i, px, u)
    ensures u in nodes && i < |nodes[u].forward| && i < |nodes[u].span|
    ensures nodes[u].forward[i] == To(id) <==> i < lvl
  {
    var order', hs' := Ins(order, r0, id), Ins(hs, r0 + 1, lvl);
    WiredAt(nodes, order', hs', i, px);
    PxBeforeDel(hs, i, lvl, px, r0);
    var q := NextUp(hs', px, i);
    if lvl <= i && q < |hs'| {
      assert q != r0 + 1;
      assert order'[q - 1] != order'[r0];
    }
  }

  /** One level the node reaches, unlinked: the level is then wired as the
      list without the node, and no level above it has changed. */
  lemma UnspliceStep(nodes1: map<Ref, Node>, prev: map<Ref, Node>, cur: map<Ref, Node>, order: seq<int>, hs: seq<int>,
                     i: int, id: int, lvl: int, px: int, u: Ref, r0: int)
    requires |hs| == |order| + 1 && 0 <= r0 < |hs| && Distinct(order)
    requires Wired(nodes1, Ins(order, r0, id), Ins(hs, r0 + 1, lvl), i) && 0 <= i < lvl
    requires Settled(Ins(order, r0, id), Ins(hs, r0 + 1, lvl), r0, i, px, u) && (i == 0 ==> px == r0)
    requires SlotsFrom(prev, nodes1, i) && WiredBelow(prev, order, hs, i)
    requires forall x, t | !(x == u && t == i) :: Slot(cur, x, t) == Slot(prev, x, t)
    requires u in prev && i < |prev[u].forward| && i < |prev[u].span|
    requires Item(id) in prev && i < |prev[Item(id)].forward| && i < |prev[Item(id)].span|
    requires Slot(cur, u, i) == Some((prev[Item(id)].forward[i], prev[u].span[i] + prev[Item(id)].span[i] - 1))
    ensures WiredBelow(cur, order, hs, i + 1) && SlotsFrom(cur, nodes1, i + 1)
  {
    var order', hs' := Ins(order, r0, id), Ins(hs, r0 + 1, lvl);
    WiredAt(nodes1, order', hs', i, r0 + 1);
    WiredAt(nodes1, order', hs', i, px);
    assert Slot(prev, Item(id), i) == Slot(nodes1, Item(id), i);
    assert Slot(prev, u, i) == Slot(nodes1, u, i);
    Unsplice(nodes1, cur, order, hs, i, id, lvl, px, r0);
    forall j | 0 <= j < i
      ensures Wired(cur, order, hs, j)
    {
      WiredFrame(prev, cur, order, hs, j);
    }
  }

  /** One level above the node's, narrowed: the level is then wired as the
      list without the node, and no level above it has changed. */
  lemma ShrinkStep(nodes1: map<Ref, Node>, prev: map<Ref, Node>, cur: map<Ref, Node>, order: seq<int>, hs: seq<int>,
                   i: int, id: int, lvl: int, px: int, u: Ref, r0: int)
    requires |hs| == |order| + 1 && 0 <= r0 < |hs| && Distinct(order)
    requires Wired(nodes1, Ins(order, r0, id), Ins(hs, r0 + 1, lvl), i) && 1 <= lvl <= i
    requires Settled(Ins(order, r0, id), Ins(hs, r0 + 1, lvl), r0, i, px, u)
    requires SlotsFrom(prev, nodes1, i) && WiredBelow(prev, order, hs, i)
    requires forall x, t | !(x == u && t == i) :: Slot(cur, x, t) == Slot(prev, x, t)
    requires u in prev && i < |prev[u].forward| && i < |prev[u].span|
    requires Slot(cur, u, i) == Some((prev[u].forward[i], prev[u].span[i] - 1))
    ensures WiredBelow(cur, order, hs, i + 1) && SlotsFrom(cur, nodes1, i + 1)
  {
    var order', hs' := Ins(order, r0, id), Ins(hs, r0 + 1, lvl);
    WiredAt(nodes1, order', hs', i, px);
    assert Slot(prev, u, i) == Slot(nodes1, u, i);
    StepDown(nodes1, cur, order, hs, i, id, lvl, px, r0);
    forall j | 0 <= j < i
      ensures Wired(cur, order, hs, j)
    {
      WiredFrame(prev, cur, order, hs, j);
    }
  }

  /** The ids left once one is taken out are distinct, and the one taken
      out is not among them. */
  lemma DistinctIns(order: seq<int>, r0: int, id: int)
    requires 0 <= r0 <= |order| && Distinct(Ins(order, r0, id))
    ensures Distinct(order) && id !in order
  {
    var order' := Ins(order, r0, id);
    forall a, b | 0 <= a < b < |order|
      ensures order[a] != order[b]
    {
      assert order[a] == order'[if a < r0 then a else a + 1];
      assert order[b] == order'[if b < r0 then b else b + 1];
    }
    forall j | 0 <= j < |order|
      ensures order[j] != id
    {
      assert order[j] == order'[if j < r0 then j else j + 1] && order'[r0] == id;
    }
  }

  /** A level the node reaches, unlinked: with `update[i]` the last
      position px before it on level i, the level is then wired as the list
      without the node, and no level above it has changed. */
  method UnlinkLevel(ghost nodes1: map<Ref, Node>, nodes: map<Ref, Node>, ghost order: seq<int>, ghost hs: seq<int>,
                     id: int, ghost lvl: int, ghost r0: int, i: int, ghost px: int, u: Ref) returns (nodes': map<Ref, Node>)
    requires |hs| == |order| + 1 && 0 <= r0 < |hs| && Distinct(order) && id !in order
    requires Wired(nodes1, Ins(order, r0, id), Ins(hs, r0 + 1, lvl), i) && 0 <= i < lvl
    requires Settled(Ins(order, r0, id), Ins(hs, r0 + 1, lvl), r0, i, px, u) && (i == 0 ==> px == r0)
    requires SameFrame(nodes, nodes1) && SlotsFrom(nodes, nodes1, i) && WiredBelow(nodes, order, hs, i)
    ensures forall t :: Slot(nodes', Item(id), t) == Slot(nodes, Item(id), t)
    ensures SameFrame(nodes', nodes1) && SlotsFrom(nodes', nodes1, i + 1) && WiredBelow(nodes', order, hs, i + 1)
  {
    WiredAt(nodes1, Ins(order, r0, id), Ins(hs, r0 + 1, lvl), i, px);
    WiredAt(nodes1, Ins(order, r0, id), Ins(hs, r0 + 1, lvl), i, r0 + 1);
    assert Slot(nodes, u, i) == Slot(nodes1, u, i) && Slot(nodes, Item(id), i) == Slot(nodes1, Item(id), i);
    NdNotNew(order, id, px);
    nodes' := UnlinkOne(nodes, u, id, i);
    UnspliceStep(nodes1, nodes, nodes', order, hs, i, id, lvl, px, u, r0);
  }

  /** A level above the node's, narrowed by one: the level is then wired as
      the list without the node, and no level above it has changed. */
  method ShrinkLevel(ghost nodes1: map<Ref, Node>, nodes: map<Ref, Node>, ghost order: seq<int>, ghost hs: seq<int>,
                     ghost id: int, ghost lvl: int, ghost r0: int, i: int, ghost px: int, u: Ref) returns (nodes': map<Ref, Node>)
    requires |hs| == |order| + 1 && 0 <= r0 < |hs| && Distinct(order) && id !in order
    requires Wired(nodes1, Ins(order, r0, id), Ins(hs, r0 + 1, lvl), i) && 1 <= lvl <= i
    requires Settled(Ins(order, r0, id), Ins(hs, r0 + 1, lvl), r0, i, px, u)
    requires SameFrame(nodes, nodes1) && SlotsFrom(nodes, nodes1, i) && WiredBelow(nodes, order, hs, i)
    ensures forall t :: Slot(nodes', Item(id), t) == Slot(nodes, Item(id), t)
    ensures SameFrame(nodes', nodes1) && SlotsFrom(nodes', nodes1, i + 1) && WiredBelow(nodes', order, hs, i + 1)
  {
    WiredAt(nodes1, Ins(order, r0, id), Ins(hs, r0 + 1, lvl), i, px);
    assert Slot(nodes, u, i) == Slot(nodes1, u, i);
    NdNotNew(order, id, px);
    nodes' := ShrinkOne(nodes, u, i);
    ShrinkStep(nodes1, nodes, nodes', order, hs, i, id, lvl, px, u, r0);
  }

  /** The unlink loop of RemoveInternal: on every level, the node before
      the removed one either links past it, over both spans less one, or
      its link over it shrinks by one. Every level is then wired as the
      list without the node. */
  method Unlink(nodes: map<Ref, Node>, ghost order: seq<int>, ghost hs: seq<int>, level: int,
                id: int, ghost lvl: int, ghost r0: int, update: array<Ref>, rank: array<int>) returns (nodes': map<Ref, Node>)
    requires |hs| == |order| + 1 && 0 <= r0 < |hs| && Distinct(Ins(order, r0, id))
    requires WiredBelow(nodes, Ins(order, r0, id), Ins(hs, r0 + 1, lvl), level) && 1 <= lvl <= level
    requires update.Length == MaxLevel && rank.Length == MaxLevel && rank[0] == r0
    requires SettledFrom(Ins(order, r0, id), Ins(hs, r0 + 1, lvl), r0, 0, level, rank[..], update[..])
    ensures SameFrame(nodes', nodes) && SlotsFrom(nodes', nodes, level) && WiredBelow(nodes', order, hs, level)
    ensures forall t :: Slot(nodes', Item(id), t) == Slot(nodes, Item(id), t)
  {
    DistinctIns(order, r0, id);
    nodes' := nodes;
    var i := 0;
    while i < level
      invariant 0 <= i <= level
      invariant SameFrame(nodes', nodes) && SlotsFrom(nodes', nodes, i) && WiredBelow(nodes', order, hs, i)
      invariant forall t :: Slot(nodes', Item(id), t) == Slot(nodes, Item(id), t)
    {
      assert Settled(Ins(order, r0, id), Ins(hs, r0 + 1, lvl), r0, i, rank[i], update[i]);
      LinksToNode(nodes, order, hs, i, id, lvl, rank[i], update[i], r0);
      assert Slot(nodes', update[i], i) == Slot(nodes, update[i], i);
      if nodes'[update[i]].forward[i] == To(id) {
        nodes' := UnlinkLevel(nodes, nodes', order, hs, id, lvl, r0, i, rank[i], update[i]);
      } else {
        nodes' := ShrinkLevel(nodes, nodes', order, hs, id, lvl, r0, i, rank[i], update[i]);
      }
      i := i + 1;
    }
  }

  /** The node taken out leaves a list of the same shape. */
  lemma ShapedDel(nodes: map<Ref, Node>, nodes1: map<Ref, Node>, order: seq<int>, hs: seq<int>, level: int,
                  id: int, lvl: int, r0: int)
    requires 0 <= r0 <= |order| && |hs| == |order| + 1
    requires Shaped(nodes, Ins(order, r0, id), Ins(hs, r0 + 1, lvl), level) && SameFrame(nodes1, nodes)
    ensures Shaped(nodes1, order, hs, level)
  {
    var order', hs' := Ins(order, r0, id), Ins(hs, r0 + 1, lvl);
    DistinctIns(order, r0, id);
    forall j | 0 <= j < |order|
      ensures Item(order[j]) in nodes1 && nodes1[Item(order[j])].level == hs[j + 1]
    {
      var j' := if j < r0 then j else j + 1;
      assert order[j] == order'[j'] && hs[j + 1] == hs'[j' + 1];
    }
    forall p | 1 <= p < |hs|
      ensures 1 <= hs[p] <= level
    {
      assert hs[p] == hs'[if p < r0 + 1 then p else p + 1];
    }
    assert hs[0] == hs'[0];
  }

  /** The keys left are the old keys with the one at r0 taken out. */
  lemma KeysDel(nodes: map<Ref, Node>, nodes1: map<Ref, Node>, order: seq<int>, id: int, r0: int)
    requires 0 <= r0 <= |order| && Present(nodes, Ins(order, r0, id)) && Present(nodes1, order)
    requires forall x | x in nodes1 :: x in nodes && nodes1[x].score == nodes[x].score
    ensures Keys(nodes1, order) == Del(Keys(nodes, Ins(order, r0, id)), r0)
  {
    var order' := Ins(order, r0, id);
    forall j | 0 <= j < |order|
      ensures order[j] == order'[if j < r0 then j else j + 1]
    {
    }
  }

  /** A sorted listing with one key taken out is sorted. */
  lemma SortedDel(s: seq<Key>, m: int)
    requires Sorted(s) && 0 <= m < |s|
    ensures Sorted(Del(s, m))
  {
    var t := Del(s, m);
    forall a, b | 0 <= a < b < |t|
      ensures Before(t[a], t[b])
    {
      assert t[a] == s[if a < m then a else a + 1] && t[b] == s[if b < m then b else b + 1];
    }
  }

  /** `if (node.Forward[0] != null) node.Forward[0].Backward = node.Backward`. */
  method UnlinkBack(nodes: map<Ref, Node>, id: int) returns (nodes': map<Ref, Node>)
    requires Item(id) in nodes && 0 < |nodes[Item(id)].forward|
    requires nodes[Item(id)].forward[0].To? ==> Item(nodes[Item(id)].forward[0].id) in nodes
    ensures SameLinks(nodes', nodes)
    ensures match nodes[Item(id)].forward[0]
      case Null => (forall x | x in nodes :: nodes'[x].backward == nodes[x].backward)
      case To(f) => (nodes'[Item(f)].backward == nodes[Item(id)].backward
        && forall x | x in nodes && x != Item(f) :: nodes'[x].backward == nodes[x].backward)
  {
    nodes' := nodes;
    if nodes[Item(id)].forward[0] != Null {
      nodes' := SetBackward(nodes, Item(nodes[Item(id)].forward[0].id), nodes[Item(id)].backward);
    }
  }

  /** BackDel at one index j of the order left. */
  lemma BackDelAt(nodes: map<Ref, Node>, nodes': map<Ref, Node>, order: seq<int>, id: int, r0: int, j: int)
    requires 0 <= r0 <= |order| && Present(nodes, Ins(order, r0, id)) && BackLinked(nodes, Ins(order, r0, id))
    requires Distinct(Ins(order, r0, id)) && nodes'.Keys == nodes.Keys && 0 <= j < |order|
    requires Item(id) in nodes && Present(nodes, order)
    requires r0 < |order| ==> nodes'[Item(order[r0])].backward == nodes[Item(id)].backward
    requires forall x | x in nodes && (r0 < |order| ==> x != Item(order[r0])) :: nodes'[x].backward == nodes[x].backward
    ensures Item(order[j]) in nodes'
    ensures nodes'[Item(order[j])].backward == if j == 0 then Null else To(order[j - 1])
  {
    var order' := Ins(order, r0, id);
    DistinctIns(order, r0, id);
    if j < r0 {
      BackAt(nodes, order', j);
      assert order[j] == order'[j];
    } else if j == r0 {
      BackAt(nodes, order', r0);
    } else {
      BackAt(nodes, order', j + 1);
      assert order[j] == order'[j + 1] && order[j - 1] == order'[j];
    }
  }

  /** After UnlinkBack, level 0's backward links are right for the order
      left. */
  lemma BackDel(nodes: map<Ref, Node>, nodes': map<Ref, Node>, order: seq<int>, id: int, r0: int)
    requires 0 <= r0 <= |order| && Present(nodes, Ins(order, r0, id)) && BackLinked(nodes, Ins(order, r0, id))
    requires Distinct(Ins(order, r0, id)) && nodes'.Keys == nodes.Keys
    requires Item(id) in nodes && Present(nodes, order)
    requires r0 < |order| ==> nodes'[Item(order[r0])].backward == nodes[Item(id)].backward
    requires forall x | x in nodes && (r0 < |order| ==> x != Item(order[r0])) :: nodes'[x].backward == nodes[x].backward
    ensures Present(nodes', order) && BackLinked(nodes', order)
  {
    forall j | 0 <= j < |order|
      ensures Item(order[j]) in nodes'
      ensures nodes'[Item(order[j])].backward == if j == 0 then Null else To(order[j - 1])
    {
      BackDelAt(nodes, nodes', order, id, r0, j);
    }
  }

  /** The unlink and the backward link of RemoveInternal: the list is then
      laid out without the node, its key taken out of the listing, at the
      same level. */
  method Detach(nodes: map<Ref, Node>, ghost order: seq<int>, ghost hs: seq<int>, level: int, length: int,
                id: int, ghost lvl: int, ghost r0: int, update: array<Ref>, rank: array<int>) returns (nodes': map<Ref, Node>)
    requires |hs| == |order| + 1 && 0 <= r0 <= |order|
    requires Laid(nodes, Ins(order, r0, id), Ins(hs, r0 + 1, lvl), level, length)
    requires update.Length == MaxLevel && rank.Length == MaxLevel && rank[0] == r0
    requires SettledFrom(Ins(order, r0, id), Ins(hs, r0 + 1, lvl), r0, 0, level, rank[..], update[..])
    ensures Laid(nodes', order, hs, level, length - 1) && nodes'.Keys == nodes.Keys
    ensures Keys(nodes', order) == Del(Keys(nodes, Ins(order, r0, id)), r0)
  {
    ghost var order', hs' := Ins(order, r0, id), Ins(hs, r0 + 1, lvl);
    assert order'[r0] == id && hs'[r0 + 1] == lvl;
    var nodes1 := Unlink(nodes, order, hs, level, id, lvl, r0, update, rank);
    ShapedDel(nodes, nodes1, order, hs, level, id, lvl, r0);
    NextOfNew(nodes, order, hs, id, lvl, r0);
    assert Slot(nodes1, Item(id), 0) == Slot(nodes, Item(id), 0);
    nodes' := UnlinkBack(nodes1, id);
    DistinctIns(order, r0, id);
    BackDel(nodes1, nodes', order, id, r0);
    LinksKeep(nodes1, nodes', order, hs, level);
    KeysDel(nodes, nodes1, order, id, r0);
    SortedDel(Keys(nodes, order'), r0);
    forall i | level <= i < MaxLevel
      ensures nodes'[Head].forward[i] == Null
    {
      assert Slot(nodes1, Head, i) == Slot(nodes, Head, i);
    }
  }

  /** An empty top level taken off: the list is laid out one level lower. */
  lemma Lowered(nodes: map<Ref, Node>, order: seq<int>, hs: seq<int>, level: int, length: int)
    requires Laid(nodes, order, hs, level, length) && 1 < level && nodes[Head].forward[level - 1] == Null
    ensures Laid(nodes, order, hs[0 := level - 1], level - 1, length)
  {
    EmptyLevel(nodes, order, hs, level - 1);
    var hs' := hs[0 := level - 1];
    forall i | 0 <= i < level - 1
      ensures Wired(nodes, order, hs', i)
    {
      HeadHeight(nodes, order, hs, level - 1, i);
    }
  }

  /** `while (_level > 1 && _head.Forward[_level - 1] == null) _level--`:
      the list is then linked, its top level in use unless it is level 1. */
  method Shrink(nodes: map<Ref, Node>, ghost order: seq<int>, ghost hs: seq<int>, level: int, length: int)
    returns (level': int, ghost hs': seq<int>)
    requires Laid(nodes, order, hs, level, length)
    ensures 1 <= level' <= level && hs' == hs[0 := level']
    ensures Linked(nodes, order, hs', level', length)
  {
    level', hs' := level, hs;
    assert hs[0 := level] == hs;
    while level' > 1 && nodes[Head].forward[level' - 1] == Null
      invariant 1 <= level' <= level && hs' == hs[0 := level']
      invariant Laid(nodes, order, hs', level', length)
    {
      Lowered(nodes, order, hs', level', length);
      assert hs'[0 := level' - 1] == hs[0 := level' - 1];
      level' := level' - 1;
      hs' := hs[0 := level'];
    }
  }

  /** `_byId.Remove(node.CustomerId)`: a node no position holds can go
      from the map. */
  lemma Dropped(nodes: map<Ref, Node>, order: seq<int>, hs: seq<int>, level: int, length: int, id: int)
    requires Linked(nodes, order, hs, level, length) && id !in order
    ensures Linked(nodes - {Item(id)}, order, hs, level, length)
    ensures Keys(nodes - {Item(id)}, order) == Keys(nodes, order)
  {
    var nodes' := nodes - {Item(id)};
    forall i | 0 <= i < level
      ensures Wired(nodes', order, hs, i)
    {
      forall p | 0 <= p < |hs| && hs[p] > i
        ensures Slot(nodes', Nd(order, p), i) == Slot(nodes, Nd(order, p), i)
      {
        NdNotNew(order, id, p);
      }
      WiredFrame(nodes, nodes', order, hs, i);
    }
  }

  /** The search of RemoveInternal: on every level, the last node before
      the node of `id` that does not link past it, found by following the
      links while they lead neither to that node nor to a key ranked after
      it. Level 0 settles at the node's own index m. */
  method Locate(nodes: map<Ref, Node>, ghost order: seq<int>, ghost hs: seq<int>, level: int, length: int, id: int)
    returns (update: array<Ref>, rank: array<int>, ghost m: int)
    requires Linked(nodes, order, hs, level, length) && id in order
    ensures 0 <= m < |order| && order[m] == id
    ensures update.Length == MaxLevel && rank.Length == MaxLevel && rank[0] == m
    ensures SettledFrom(order, hs, m, 0, level, rank[..], update[..])
  {
    m :| 0 <= m < |order| && order[m] == id;
    var k := Key(id, nodes[Item(id)].score);
    assert Keys(nodes, order)[m] == k;
    PrefixAt(Keys(nodes, order), m);
    SearchableAll(nodes, order, hs, level, k, Some(id));
    update, rank := Search(nodes, order, hs, level, m, k, Some(id));
  }

  /** RemoveInternal on the list's state: the node of `id`, at index m of
      the order, is found by the search that passes over it, unlinked on
      every level, and its key taken out of the listing; the level drops
      past every emptied top level; with `removeFromDict` the node leaves
      `_byId`, and without it its entry stays for InsertInternal to
      replace. */
  method Remove(nodes: map<Ref, Node>, ghost order: seq<int>, ghost hs: seq<int>, level: int, length: int,
                id: int, removeFromDict: bool)
    returns (nodes': map<Ref, Node>, ghost order': seq<int>, ghost hs': seq<int>, level': int, length': int, ghost m: int)
    requires Linked(nodes, order, hs, level, length) && id in order
    ensures 0 <= m < |order| && order[m] == id && order' == Del(order, m)
    ensures Linked(nodes', order', hs', level', length') && length' == length - 1
    ensures Keys(nodes', order') == Del(Keys(nodes, order), m)
    ensures nodes'.Keys == if removeFromDict then nodes.Keys - {Item(id)} else nodes.Keys
  {
    var update, rank;
    update, rank, m := Locate(nodes, order, hs, level, length, id);
    order' := Del(order, m);
    ghost var rest, lvl := Del(hs, m + 1), hs[m + 1];
    assert Ins(order', m, id) == order && Ins(rest, m + 1, lvl) == hs;
    var nodes1 := Detach(nodes, order', rest, level, length, id, lvl, m, update, rank);
    length' := length - 1;
    level', hs' := Shrink(nodes1, order', rest, level, length');
    nodes' := nodes1;
    if removeFromDict {
      DistinctIns(order', m, id);
      Dropped(nodes1, order', hs', level', length', id);
      nodes' := nodes1 - {Item(id)};
    }
  }
}
