/**
 * RankedSkipList: a skip list of customers in ranking order whose links
 * carry spans, so that the sum of the spans walked from the head to a node
 * is that node's 1-based rank. Nodes are found by id through `_byId`; level
 * 0 also has backward links; the list's own level grows with the tallest
 * node put in and shrinks when its top level empties.
 *
 * The nodes are kept in a map from `Ref` (the head, or the node of an id),
 * which stands for both the heap of node objects and the `_byId`
 * dictionary. The ghost `order` lists the ids in level-0 order and the
 * ghost `hs` the positions' levels (`hs[0]` is `_level`); SkipLinks says
 * how each level is linked in terms of them.
 */
module SkipList {
  import opened Wrappers
  import opened Ordering
  import opened Ledger
  import opened SkipLinks

  /** `new Node(customerId, score, nodeLevel, MaxLevel)`: no links, and every
      span 1. */
  function NewNode(score: int, lvl: int): (n: Node)
    ensures |n.forward| == MaxLevel && |n.span| == MaxLevel
    ensures forall i | 0 <= i < MaxLevel :: n.forward[i] == Null && n.span[i] == 1
    ensures n.score == score && n.level == lvl && n.backward == Null
  {
    Node(score, lvl, seq(MaxLevel, _ => Null), seq(MaxLevel, _ => 1), Null)
  }

  /** Every id of the order has a node. */
  ghost predicate Present(nodes: map<Ref, Node>, order: seq<int>) {
    forall k | 0 <= k < |order| :: Item(order[k]) in nodes
  }

  /** The keys in level-0 order: each id with the score of its node. */
  ghost function Keys(nodes: map<Ref, Node>, order: seq<int>): (s: seq<Key>)
    requires Present(nodes, order)
    ensures |s| == |order|
    ensures forall k | 0 <= k < |order| :: s[k] == Key(order[k], nodes[Item(order[k])].score)
  {
    seq(|order|, k requires 0 <= k < |order| => Key(order[k], nodes[Item(order[k])].score))
  }

  /** The shape of the list: node arrays of MaxLevel entries, the head and
      every listed node present, distinct ids, and the levels as `hs` says,
      each between 1 and the list's level. */
  ghost predicate Shaped(nodes: map<Ref, Node>, order: seq<int>, hs: seq<int>, level: int) {
    && Head in nodes
    && (forall r | r in nodes :: |nodes[r].forward| == MaxLevel && |nodes[r].span| == MaxLevel)
    && 1 <= level <= MaxLevel
    && |hs| == |order| + 1 && hs[0] == level
    && Distinct(order) && Present(nodes, order)
    && (forall p | 1 <= p < |hs| :: 1 <= hs[p] <= level)
    && (forall k | 0 <= k < |order| :: nodes[Item(order[k])].level == hs[k + 1])
  }

  /** Level 0's backward links: the first node has none, every other node
      links back to the one before it. */
  ghost predicate BackLinked(nodes: map<Ref, Node>, order: seq<int>)
    requires Present(nodes, order)
  {
    forall k | 0 <= k < |order| :: nodes[Item(order[k])].backward == if k == 0 then Null else To(order[k - 1])
  }

  /** Every level below n is wired. */
  ghost predicate WiredBelow(nodes: map<Ref, Node>, order: seq<int>, hs: seq<int>, n: int)
    requires |hs| == |order| + 1
  {
    forall i | 0 <= i < n :: Wired(nodes, order, hs, i)
  }

  /** The list invariant but for its top level: every level below `_level`
      wired as the positions say, the head's links above it null, the
      backward links right, and level 0 strictly sorted. */
  ghost predicate Laid(nodes: map<Ref, Node>, order: seq<int>, hs: seq<int>, level: int, length: int) {
    && Shaped(nodes, order, hs, level)
    && length == |order|
    && WiredBelow(nodes, order, hs, level)
    && (forall i | level <= i < MaxLevel :: nodes[Head].forward[i] == Null)
    && BackLinked(nodes, order)
    && Sorted(Keys(nodes, order))
  }

  /** The list invariant: laid out, with its top level in use unless it is
      level 1. */
  ghost predicate Linked(nodes: map<Ref, Node>, order: seq<int>, hs: seq<int>, level: int, length: int) {
    && Laid(nodes, order, hs, level, length)
    && (level == 1 || nodes[Head].forward[level - 1] != Null)
  }

  /** The fields other than the links and spans, and the array lengths,
      agree. */
  ghost predicate SameFrame(a: map<Ref, Node>, b: map<Ref, Node>) {
    && a.Keys == b.Keys
    && forall x | x in a :: (a[x].score == b[x].score && a[x].level == b[x].level
         && a[x].backward == b[x].backward && |a[x].forward| == |b[x].forward| && |a[x].span| == |b[x].span|)
  }

  /** What does not depend on the links carries over to a map with the same
      frame. */
  lemma FrameKeys(a: map<Ref, Node>, b: map<Ref, Node>, order: seq<int>, hs: seq<int>, level: int)
    requires SameFrame(a, b) && Shaped(a, order, hs, level) && BackLinked(a, order)
    ensures Shaped(b, order, hs, level) && Keys(b, order) == Keys(a, order) && BackLinked(b, order)
  {
  }

  /** Node x has a link on level i, and the node it links to is present. */
  ghost predicate Guarded(nodes: map<Ref, Node>, x: Ref, i: int) {
    && x in nodes && 0 <= i < |nodes[x].forward| && i < |nodes[x].span|
    && (nodes[x].forward[i].To? ==> Item(nodes[x].forward[i].id) in nodes)
  }

  /** The test of a search loop: `x.Forward[i] != null`, the node it links to
      is not the one being removed (`avoid`, for RemoveInternal), and
      `Compare(x.Forward[i], k) < 0`. */
  function Advances(nodes: map<Ref, Node>, x: Ref, i: int, k: Key, avoid: Option<int>): bool
    requires Guarded(nodes, x, i)
  {
    match nodes[x].forward[i]
    case Null => false
    case To(f) => avoid != Some(f) && Compare(Key(f, nodes[Item(f)].score), k) < 0
  }

  /** What a wired level shows at a position p up to the number r0 of keys
      before k: the search goes on from p exactly when the next position on
      level i is still before k, and it gets there by p's link and span. */
  lemma Ahead(nodes: map<Ref, Node>, order: seq<int>, hs: seq<int>, level: int, i: int, p: int, k: Key, avoid: Option<int>)
    requires Shaped(nodes, order, hs, level) && Sorted(Keys(nodes, order))
    requires 0 <= i && Wired(nodes, order, hs, i)
    requires avoid.Some? ==> Item(avoid.value) in nodes && Key(avoid.value, nodes[Item(avoid.value)].score) == k
    requires 0 <= p < |hs| && hs[p] > i && p <= Prefix(Keys(nodes, order), k)
    ensures Guarded(nodes, Nd(order, p), i)
    ensures var q := NextUp(hs, p, i);
      && (Advances(nodes, Nd(order, p), i, k, avoid) ==>
            && q <= Prefix(Keys(nodes, order), k) && hs[q] > i
            && nodes[Nd(order, p)].span[i] == q - p
            && nodes[Nd(order, p)].forward[i] == To(order[q - 1]))
      && (!Advances(nodes, Nd(order, p), i, k, avoid) ==> Prefix(Keys(nodes, order), k) < q)
  {
    WiredAt(nodes, order, hs, i, p);
    var q := NextUp(hs, p, i);
    if q < |hs| {
      assert Keys(nodes, order)[q - 1] == Key(order[q - 1], nodes[Item(order[q - 1])].score);
    }
  }

  /** The search has settled level j at position p, node u: the last
      position on level j before the r0 keys that come before the key. */
  ghost predicate Settled(order: seq<int>, hs: seq<int>, r0: int, j: int, p: int, u: Ref) {
    && |hs| == |order| + 1 && 0 <= p <= r0 < |hs| && hs[p] > j
    && r0 < NextUp(hs, p, j) && u == Nd(order, p)
  }

  /** Every level from lo up to the list's level is settled, at the
      positions `rank` and the nodes `update` give. */
  ghost predicate SettledFrom(order: seq<int>, hs: seq<int>, r0: int, lo: int, level: int, rank: seq<int>, update: seq<Ref>) {
    && 0 <= lo && level <= |rank| && level <= |update|
    && forall j | lo <= j < level :: Settled(order, hs, r0, j, rank[j], update[j])
  }

  lemma SettleOne(order: seq<int>, hs: seq<int>, r0: int, i: int, level: int, rank: seq<int>, update: seq<Ref>, r: int, x: Ref)
    requires SettledFrom(order, hs, r0, i + 1, level, rank, update)
    requires 0 <= i < level && Settled(order, hs, r0, i, r, x)
    ensures SettledFrom(order, hs, r0, i, level, rank[i := r], update[i := x])
  {
  }

  /** At position p of level i, up to r0: node p has a link on level i,
      and the search goes on from it exactly when the next position q on
      level i is still at most r0, reached by p's link and span. */
  ghost predicate StepsAt(nodes: map<Ref, Node>, order: seq<int>, hs: seq<int>, i: int, k: Key, avoid: Option<int>, r0: int, p: int)
    requires |hs| == |order| + 1 && 0 <= p < |hs|
  {
    var q := NextUp(hs, p, i);
    && Guarded(nodes, Nd(order, p), i)
    && (Advances(nodes, Nd(order, p), i, k, avoid) ==>
          && q <= r0 && q < |hs| && hs[q] > i
          && nodes[Nd(order, p)].span[i] == q - p
          && nodes[Nd(order, p)].forward[i] == To(order[q - 1]))
    && (!Advances(nodes, Nd(order, p), i, k, avoid) ==> r0 < q)
  }

  /** Level i can be searched for k up to r0: every position up to r0 on
      it steps as StepsAt says. */
  ghost predicate Steps(nodes: map<Ref, Node>, order: seq<int>, hs: seq<int>, i: int, k: Key, avoid: Option<int>, r0: int) {
    && |hs| == |order| + 1 && 0 <= r0 < |hs|
    && forall p | 0 <= p <= r0 && hs[p] > i :: StepsAt(nodes, order, hs, i, k, avoid, r0, p)
  }

  /** Every wired level of a sorted list can be searched for k up to the
      number of keys before k. */
  lemma Searchable(nodes: map<Ref, Node>, order: seq<int>, hs: seq<int>, level: int, i: int, k: Key, avoid: Option<int>)
    requires Shaped(nodes, order, hs, level) && Sorted(Keys(nodes, order))
    requires 0 <= i && Wired(nodes, order, hs, i)
    requires avoid.Some? ==> Item(avoid.value) in nodes && Key(avoid.value, nodes[Item(avoid.value)].score) == k
    ensures Steps(nodes, order, hs, i, k, avoid, Prefix(Keys(nodes, order), k))
  {
    forall p | 0 <= p <= Prefix(Keys(nodes, order), k) && hs[p] > i
      ensures StepsAt(nodes, order, hs, i, k, avoid, Prefix(Keys(nodes, order), k), p)
    {
      Ahead(nodes, order, hs, level, i, p, k, avoid);
    }
  }

  /** One level of a search: from position r (node x) on level i, follow
      the links while the next key comes before k, adding up their spans.
      It stops at the last position on level i up to r0, the number of keys
      before k. */
  method Walk(nodes: map<Ref, Node>, ghost order: seq<int>, ghost hs: seq<int>, ghost r0: int,
              x: Ref, i: int, r: int, k: Key, avoid: Option<int>) returns (y: Ref, s: int)
    requires Steps(nodes, order, hs, i, k, avoid, r0)
    requires 0 <= r <= r0 && hs[r] > i && x == Nd(order, r)
    ensures r <= s <= r0 && hs[s] > i && y == Nd(order, s)
    ensures r0 < NextUp(hs, s, i)
  {
    y, s := x, r;
    while Advances(nodes, y, i, k, avoid)
      invariant r <= s <= r0 && hs[s] > i && y == Nd(order, s)
      invariant StepsAt(nodes, order, hs, i, k, avoid, r0, s)
      decreases |hs| - s
    {
      ghost var q := NextUp(hs, s, i);
      s := s + nodes[y].span[i];
      y := Item(nodes[y].forward[i].id);
      assert s == q && y == Nd(order, q);
    }
  }

  /** Every level below the list's level can be searched for k up to r0. */
  ghost predicate SearchableBelow(nodes: map<Ref, Node>, order: seq<int>, hs: seq<int>, level: int, k: Key, avoid: Option<int>, r0: int) {
    forall i | 0 <= i < level :: Steps(nodes, order, hs, i, k, avoid, r0)
  }

  /** A laid-out list can be searched for k on every level, up to the number
      of keys before k. */
  lemma SearchableAll(nodes: map<Ref, Node>, order: seq<int>, hs: seq<int>, level: int, k: Key, avoid: Option<int>)
    requires Shaped(nodes, order, hs, level) && Sorted(Keys(nodes, order)) && WiredBelow(nodes, order, hs, level)
    requires avoid.Some? ==> Item(avoid.value) in nodes && Key(avoid.value, nodes[Item(avoid.value)].score) == k
    ensures SearchableBelow(nodes, order, hs, level, k, avoid, Prefix(Keys(nodes, order), k))
  {
    forall i | 0 <= i < level
      ensures Steps(nodes, order, hs, i, k, avoid, Prefix(Keys(nodes, order), k))
    {
      Searchable(nodes, order, hs, level, i, k, avoid);
    }
  }

  /** The search of InsertInternal (and, passing over the node being
      removed, of RemoveInternal): for each level from the top down, the
      last node before k on that level (`update`) and its position
      (`rank`); on level 0 that is position r0, the number of keys before
      k. */
  method Search(nodes: map<Ref, Node>, ghost order: seq<int>, ghost hs: seq<int>, level: int, ghost r0: int, k: Key,
                avoid: Option<int>) returns (update: array<Ref>, rank: array<int>)
    requires 1 <= level <= MaxLevel && |hs| == |order| + 1 && hs[0] == level
    requires forall p | 0 <= p < |hs| :: hs[p] >= 1
    requires SearchableBelow(nodes, order, hs, level, k, avoid, r0)
    ensures fresh(update) && fresh(rank) && update.Length == MaxLevel && rank.Length == MaxLevel
    ensures rank[0] == r0
    ensures SettledFrom(order, hs, r0, 0, level, rank[..], update[..])
  {
    update := new Ref[MaxLevel](_ => Head);
    rank := new int[MaxLevel];
    var x := Head;
    var i := level - 1;
    while i >= 0
      invariant -1 <= i < level
      invariant SettledFrom(order, hs, r0, i + 1, level, rank[..], update[..])
      invariant i < level - 1 ==> x == update[i + 1]
      invariant i == level - 1 ==> x == Head
    {
      var r := if i == level - 1 then 0 else rank[i + 1];
      assert Steps(nodes, order, hs, i, k, avoid, r0);
      x, r := Walk(nodes, order, hs, r0, x, i, r, k, avoid);
      SettleOne(order, hs, r0, i, level, rank[..], update[..], r, x);
      rank[i], update[i] := r, x;
      i := i - 1;
    }
    assert Settled(order, hs, r0, 0, rank[0], update[0]);
    LevelZero(hs, rank[0]);
  }

  /** Raising the head's level keeps every settled level settled. */
  lemma SettledRaise(order: seq<int>, hs: seq<int>, r0: int, level: int, lvl: int, rank: seq<int>, update: seq<Ref>)
    requires |hs| == |order| + 1 && SettledFrom(order, hs, r0, 0, level, rank, update) && level <= lvl
    ensures SettledFrom(order, hs[0 := lvl], r0, 0, level, rank, update)
  {
    forall j | 0 <= j < level
      ensures Settled(order, hs[0 := lvl], r0, j, rank[j], update[j])
    {
      assert Settled(order, hs, r0, j, rank[j], update[j]);
      NextUpHead(hs, lvl, rank[j], j);
    }
  }

  /** One more level settled on top of levels 0 up to i. */
  lemma SettleUp(order: seq<int>, hs: seq<int>, r0: int, i: int, rank: seq<int>, update: seq<Ref>, r: int, x: Ref)
    requires SettledFrom(order, hs, r0, 0, i, rank, update) && 0 <= i < |rank| && i < |update|
    requires Settled(order, hs, r0, i, r, x)
    ensures SettledFrom(order, hs, r0, 0, i + 1, rank[i := r], update[i := x])
  {
  }

  /** A level above every node's, the head linking it to null with span n,
      is settled at the head for whichever of the n + 1 places the new key
      takes. */
  lemma SettledFresh(order: seq<int>, hs: seq<int>, r0: int, i: int)
    requires |hs| == |order| + 1 && 0 <= r0 < |hs| && hs[0] > i
    requires forall p | 1 <= p < |hs| :: hs[p] <= i
    ensures Settled(order, hs, r0, i, 0, Head)
  {
    NextUpIs(hs, 0, i, |hs|);
  }

  /** After the raise: the levels below the old `_level` keep their links
      and spans, and each new one is the head's null link of span n. */
  lemma Raised(nodes: map<Ref, Node>, nodes': map<Ref, Node>, order: seq<int>, hs: seq<int>, level: int, lvl: int, length: int)
    requires Laid(nodes, order, hs, level, length) && level < lvl <= MaxLevel
    requires SameFrame(nodes, nodes')
    requires forall x, t | !(x == Head && level <= t < lvl) :: Slot(nodes', x, t) == Slot(nodes, x, t)
    requires forall t | level <= t < lvl :: Slot(nodes', Head, t) == Some((Null, length))
    ensures Laid(nodes', order, hs[0 := lvl], lvl, length)
  {
    FrameKeys(nodes, nodes', order, hs, level);
    var hs' := hs[0 := lvl];
    forall i | 0 <= i < lvl
      ensures Wired(nodes', order, hs', i)
    {
      if i < level {
        WiredFrame(nodes, nodes', order, hs, i);
        HeadHeight(nodes', order, hs, lvl, i);
      } else {
        FreshLevel(nodes', order, hs', i);
      }
    }
    forall i | lvl <= i < MaxLevel
      ensures nodes'[Head].forward[i] == Null
    {
      assert Slot(nodes', Head, i) == Slot(nodes, Head, i);
    }
  }

  /** The level raise of InsertInternal: each level from `_level` up to the
      new node's starts at the head, at position 0, and the head's span
      there becomes `_length`. */
  method RaiseLevel(nodes: map<Ref, Node>, ghost order: seq<int>, ghost hs: seq<int>, level: int, length: int,
                    lvl: int, update: array<Ref>, rank: array<int>) returns (nodes': map<Ref, Node>)
    requires Laid(nodes, order, hs, level, length) && level < lvl <= MaxLevel
    requires update.Length == MaxLevel && rank.Length == MaxLevel
    requires SettledFrom(order, hs, rank[0], 0, level, rank[..], update[..])
    modifies update, rank
    ensures rank[0] == old(rank[0])
    ensures SettledFrom(order, hs[0 := lvl], rank[0], 0, lvl, rank[..], update[..])
    ensures Laid(nodes', order, hs[0 := lvl], lvl, length)
    ensures SameFrame(nodes, nodes')
  {
    ghost var r0 := rank[0];
    ghost var hs' := hs[0 := lvl];
    SettledRaise(order, hs, r0, level, lvl, rank[..], update[..]);
    nodes' := nodes;
    var i := level;
    while i < lvl
      invariant level <= i <= lvl && rank[0] == r0
      invariant SettledFrom(order, hs', r0, 0, i, rank[..], update[..])
      invariant SameFrame(nodes, nodes')
      invariant forall x, t | !(x == Head && level <= t < i) :: Slot(nodes', x, t) == Slot(nodes, x, t)
      invariant forall t | level <= t < i :: Slot(nodes', Head, t) == Some((Null, length))
    {
      SettledFresh(order, hs', r0, i);
      SettleUp(order, hs', r0, i, rank[..], update[..], 0, Head);
      update[i] := Head;
      nodes' := SetSpan(nodes', Head, i, length);
      rank[i] := 0;
      i := i + 1;
    }
    Raised(nodes, nodes', order, hs, level, lvl, length);
  }

  /** Levels from lo up agree slot by slot. */
  ghost predicate SlotsFrom(a: map<Ref, Node>, b: map<Ref, Node>, lo: int) {
    forall x, t | lo <= t :: Slot(a, x, t) == Slot(b, x, t)
  }

  /** A node that takes no position leaves every level as wired as it was. */
  lemma WiredNew(nodes: map<Ref, Node>, order: seq<int>, hs: seq<int>, level: int, id: int, node: Node)
    requires Shaped(nodes, order, hs, level) && id !in order
    requires WiredBelow(nodes, order, hs, level)
    ensures WiredBelow(nodes[Item(id) := node], order, hs, level)
  {
    var nodes' := nodes[Item(id) := node];
    forall i | 0 <= i < level
      ensures Wired(nodes', order, hs, i)
    {
      forall p | 0 <= p < |hs| && hs[p] > i
        ensures Slot(nodes', Nd(order, p), i) == Slot(nodes, Nd(order, p), i)
      {
        NdNotNew(order, id, p);
      }
      WiredFrame(nodes, nodes', order, hs, i);
    }
  }

  /** One level of the splice: the new node takes over px's link and the
      part of its span past r0, px links to the new node, and the level is
      wired as the list with the new node at position r0 + 1. */
  lemma SpliceStep(nodes1: map<Ref, Node>, prev: map<Ref, Node>, cur: map<Ref, Node>, order: seq<int>, hs: seq<int>,
                   i: int, id: int, lvl: int, px: int, u: Ref, r0: int)
    requires |hs| == |order| + 1 && Distinct(order) && id !in order
    requires Wired(nodes1, order, hs, i) && 0 <= i < lvl
    requires Settled(order, hs, r0, i, px, u) && (i == 0 ==> px == r0)
    requires SlotsFrom(prev, nodes1, i)
    requires WiredBelow(prev, Ins(order, r0, id), Ins(hs, r0 + 1, lvl), i)
    requires forall x, t | t != i :: Slot(cur, x, t) == Slot(prev, x, t)
    requires forall x | x != Item(id) && x != u :: Slot(cur, x, i) == Slot(prev, x, i)
    requires u in prev && i < |prev[u].forward| && i < |prev[u].span|
    requires Slot(cur, Item(id), i) == Some((prev[u].forward[i], prev[u].span[i] - (r0 - px)))
    requires Slot(cur, u, i) == Some((To(id), r0 - px + 1))
    ensures WiredBelow(cur, Ins(order, r0, id), Ins(hs, r0 + 1, lvl), i + 1)
    ensures SlotsFrom(cur, nodes1, i + 1)
  {
    var order', hs' := Ins(order, r0, id), Ins(hs, r0 + 1, lvl);
    WiredAt(nodes1, order, hs, i, px);
    assert Slot(prev, Nd(order, px), i) == Slot(nodes1, Nd(order, px), i);
    SpliceIn(nodes1, cur, order, hs, i, id, lvl, px, r0);
    forall j | 0 <= j < i
      ensures Wired(cur, order', hs', j)
    {
      WiredFrame(prev, cur, order', hs', j);
    }
  }

  /** One level above the new node's: the link over position r0 + 1 grows
      by one, and the level is wired as the list with the new node. */
  lemma BumpStep(nodes1: map<Ref, Node>, prev: map<Ref, Node>, cur: map<Ref, Node>, order: seq<int>, hs: seq<int>,
                 i: int, id: int, lvl: int, px: int, u: Ref, r0: int)
    requires |hs| == |order| + 1 && Distinct(order) && id !in order
    requires Wired(nodes1, order, hs, i) && 1 <= lvl <= i
    requires Settled(order, hs, r0, i, px, u)
    requires SlotsFrom(prev, nodes1, i)
    requires WiredBelow(prev, Ins(order, r0, id), Ins(hs, r0 + 1, lvl), i)
    requires forall x, t | !(x == u && t == i) :: Slot(cur, x, t) == Slot(prev, x, t)
    requires u in prev && i < |prev[u].forward| && i < |prev[u].span|
    requires Slot(cur, u, i) == Some((prev[u].forward[i], prev[u].span[i] + 1))
    ensures WiredBelow(cur, Ins(order, r0, id), Ins(hs, r0 + 1, lvl), i + 1)
    ensures SlotsFrom(cur, nodes1, i + 1)
  {
    var order', hs' := Ins(order, r0, id), Ins(hs, r0 + 1, lvl);
    WiredAt(nodes1, order, hs, i, px);
    assert Slot(prev, Nd(order, px), i) == Slot(nodes1, Nd(order, px), i);
    StepOver(nodes1, cur, order, hs, i, id, lvl, px, r0);
    forall j | 0 <= j < i
      ensures Wired(cur, order', hs', j)
    {
      WiredFrame(prev, cur, order', hs', j);
    }
  }

  /** One level of the splice: `node.Forward[i] = update[i].Forward[i]`,
      `update[i].Forward[i] = node`, and the span s of `update[i]` on level
      i split into d + 1 for `update[i]` and s - d for the new node. */
  method SpliceOne(nodes: map<Ref, Node>, u: Ref, id: int, i: int, d: int) returns (nodes': map<Ref, Node>)
    requires u in nodes && Item(id) in nodes && u != Item(id)
    requires 0 <= i < |nodes[u].forward| && i < |nodes[u].span|
    requires i < |nodes[Item(id)].forward| && i < |nodes[Item(id)].span|
    ensures SameFrame(nodes', nodes)
    ensures forall x, t | t != i :: Slot(nodes', x, t) == Slot(nodes, x, t)
    ensures forall x | x != Item(id) && x != u :: Slot(nodes', x, i) == Slot(nodes, x, i)
    ensures Slot(nodes', Item(id), i) == Some((nodes[u].forward[i], nodes[u].span[i] - d))
    ensures Slot(nodes', u, i) == Some((To(id), d + 1))
  {
    nodes' := SetForward(nodes, Item(id), i, nodes[u].forward[i]);
    nodes' := SetForward(nodes', u, i, To(id));
    nodes' := SetSpan(nodes', Item(id), i, nodes'[u].span[i] - d);
    nodes' := SetSpan(nodes', u, i, d + 1);
  }

  /** One level above the new node's: `update[i].Span[i]++`. */
  method BumpOne(nodes: map<Ref, Node>, u: Ref, i: int) returns (nodes': map<Ref, Node>)
    requires u in nodes && 0 <= i < |nodes[u].forward| && i < |nodes[u].span|
    ensures SameFrame(nodes', nodes)
    ensures forall x, t | !(x == u && t == i) :: Slot(nodes', x, t) == Slot(nodes, x, t)
    ensures Slot(nodes', u, i) == Some((nodes[u].forward[i], nodes[u].span[i] + 1))
  {
    nodes' := SetSpan(nodes, u, i, nodes[u].span[i] + 1);
  }

  /** A level the new node reaches, spliced: with `update[i]` the last
      position px before the new key's place r0 + 1 on level i, and
      d = r0 - px, the level is then wired as the list with the new node at
      r0 + 1, and no level above it has changed. */
  method SpliceLevel(ghost nodes1: map<Ref, Node>, nodes: map<Ref, Node>, ghost order: seq<int>, ghost hs: seq<int>,
                     id: int, ghost lvl: int, ghost r0: int, i: int, ghost px: int, u: Ref, d: int) returns (nodes': map<Ref, Node>)
    requires |hs| == |order| + 1 && Distinct(order) && id !in order
    requires Wired(nodes1, order, hs, i) && 0 <= i < lvl
    requires Settled(order, hs, r0, i, px, u) && (i == 0 ==> px == r0) && d == r0 - px
    requires SameFrame(nodes, nodes1) && SlotsFrom(nodes, nodes1, i)
    requires WiredBelow(nodes, Ins(order, r0, id), Ins(hs, r0 + 1, lvl), i)
    requires Item(id) in nodes && i < |nodes[Item(id)].forward| && i < |nodes[Item(id)].span|
    ensures SameFrame(nodes', nodes1) && SlotsFrom(nodes', nodes1, i + 1)
    ensures WiredBelow(nodes', Ins(order, r0, id), Ins(hs, r0 + 1, lvl), i + 1)
  {
    WiredAt(nodes1, order, hs, i, px);
    assert Slot(nodes, u, i) == Slot(nodes1, u, i);
    NdNotNew(order, id, px);
    nodes' := SpliceOne(nodes, u, id, i, d);
    SpliceStep(nodes1, nodes, nodes', order, hs, i, id, lvl, px, u, r0);
  }

  /** A level above the new node's, widened: the level is then wired as the
      list with the new node at r0 + 1, and no level above it has changed. */
  method BumpLevel(ghost nodes1: map<Ref, Node>, nodes: map<Ref, Node>, ghost order: seq<int>, ghost hs: seq<int>,
                   ghost id: int, ghost lvl: int, ghost r0: int, i: int, ghost px: int, u: Ref) returns (nodes': map<Ref, Node>)
    requires |hs| == |order| + 1 && Distinct(order) && id !in order
    requires Wired(nodes1, order, hs, i) && 1 <= lvl <= i
    requires Settled(order, hs, r0, i, px, u)
    requires SameFrame(nodes, nodes1) && SlotsFrom(nodes, nodes1, i)
    requires WiredBelow(nodes, Ins(order, r0, id), Ins(hs, r0 + 1, lvl), i)
    ensures SameFrame(nodes', nodes1) && SlotsFrom(nodes', nodes1, i + 1)
    ensures WiredBelow(nodes', Ins(order, r0, id), Ins(hs, r0 + 1, lvl), i + 1)
  {
    WiredAt(nodes1, order, hs, i, px);
    assert Slot(nodes, u, i) == Slot(nodes1, u, i);
    nodes' := BumpOne(nodes, u, i);
    BumpStep(nodes1, nodes, nodes', order, hs, i, id, lvl, px, u, r0);
  }

  /** The new node's links of InsertInternal: on each level it reaches, it is
      spliced in after `update[i]`; on each level above it, up to `_level`,
      the link passing over it grows by one. Every level is then wired as
      the list with the new node at position `rank[0] + 1`. */
  method SpliceLevels(nodes: map<Ref, Node>, ghost order: seq<int>, ghost hs: seq<int>, level: int,
                      id: int, score: int, lvl: int, update: array<Ref>, rank: array<int>) returns (nodes': map<Ref, Node>)
    requires Shaped(nodes, order, hs, level) && WiredBelow(nodes, order, hs, level)
    requires id !in order && 1 <= lvl <= level
    requires update.Length == MaxLevel && rank.Length == MaxLevel
    requires SettledFrom(order, hs, rank[0], 0, level, rank[..], update[..])
    ensures WiredBelow(nodes', Ins(order, rank[0], id), Ins(hs, rank[0] + 1, lvl), level)
    ensures SameFrame(nodes', nodes[Item(id) := NewNode(score, lvl)])
    ensures SlotsFrom(nodes', nodes[Item(id) := NewNode(score, lvl)], level)
  {
    ghost var r0 := rank[0];
    ghost var order', hs' := Ins(order, r0, id), Ins(hs, r0 + 1, lvl);
    var node := NewNode(score, lvl);
    WiredNew(nodes, order, hs, level, id, node);
    nodes' := nodes[Item(id) := node];
    ghost var nodes1 := nodes';
    assert Settled(order, hs, r0, 0, rank[0], update[0]);
    LevelZero(hs, r0);
    var i := 0;
    while i < lvl
      invariant 0 <= i <= lvl
      invariant SameFrame(nodes', nodes1) && SlotsFrom(nodes', nodes1, i)
      invariant WiredBelow(nodes', order', hs', i)
    {
      assert Settled(order, hs, r0, i, rank[i], update[i]);
      nodes' := SpliceLevel(nodes1, nodes', order, hs, id, lvl, r0, i, rank[i], update[i], rank[0] - rank[i]);
      i := i + 1;
    }
    while i < level
      invariant lvl <= i <= level
      invariant SameFrame(nodes', nodes1) && SlotsFrom(nodes', nodes1, i)
      invariant WiredBelow(nodes', order', hs', i)
    {
      assert Settled(order, hs, r0, i, rank[i], update[i]);
      nodes' := BumpLevel(nodes1, nodes', order, hs, id, lvl, r0, i, rank[i], update[i]);
      i := i + 1;
    }
  }

  /** Fields other than Backward, and the array lengths, agree. */
  ghost predicate SameLinks(a: map<Ref, Node>, b: map<Ref, Node>) {
    && a.Keys == b.Keys
    && forall x | x in a :: (a[x].score == b[x].score && a[x].level == b[x].level
         && a[x].forward == b[x].forward && a[x].span == b[x].span)
  }

  /** Keys put in at a sorted listing's own place for them keep it sorted. */
  lemma SortedIns(s: seq<Key>, k: Key)
    requires Sorted(s) && forall j | 0 <= j < |s| :: s[j].id != k.id
    ensures Sorted(Ins(s, Prefix(s, k), k))
  {
    var m := Prefix(s, k);
    var t := Ins(s, m, k);
    forall a, b | 0 <= a < b < |t|
      ensures Before(t[a], t[b])
    {
      if b == m {
        assert t[a] == s[a];
      } else if a == m {
        assert t[b] == s[b - 1] && !Before(s[b - 1], k) && s[b - 1] != k;
      } else if a < m < b {
        assert Before(t[a], k) && !Before(t[b], k) && t[b] != k;
      }
    }
  }

  /** The new node's key at index r0: the keys of the grown order are the
      old keys with the new one put in there. */
  lemma KeysIns(nodes0: map<Ref, Node>, nodes: map<Ref, Node>, order: seq<int>, id: int, score: int, lvl: int, r0: int)
    requires Present(nodes0, order) && id !in order && 0 <= r0 <= |order|
    requires nodes.Keys == nodes0.Keys + {Item(id)}
    requires forall x | x in nodes :: nodes[x].score == nodes0[Item(id) := NewNode(score, lvl)][x].score
    ensures Present(nodes, Ins(order, r0, id))
    ensures Keys(nodes, Ins(order, r0, id)) == Ins(Keys(nodes0, order), r0, Key(id, score))
  {
    var order' := Ins(order, r0, id);
    forall j | 0 <= j < |order'|
      ensures Item(order'[j]) in nodes
      ensures j != r0 ==> nodes[Item(order'[j])].score == nodes0[Item(order'[j])].score
    {
      if j != r0 {
        assert order'[j] in order;
      }
    }
  }

  /** The shape of the list with the new node at index r0 of the order. */
  lemma ShapedIns(nodes0: map<Ref, Node>, nodes: map<Ref, Node>, order: seq<int>, hs: seq<int>, level: int,
                  id: int, score: int, lvl: int, r0: int)
    requires Shaped(nodes0, order, hs, level) && id !in order && 0 <= r0 <= |order| && 1 <= lvl <= level
    requires SameFrame(nodes, nodes0[Item(id) := NewNode(score, lvl)])
    ensures Shaped(nodes, Ins(order, r0, id), Ins(hs, r0 + 1, lvl), level)
  {
    var order', hs' := Ins(order, r0, id), Ins(hs, r0 + 1, lvl);
    forall a, b | 0 <= a < b < |order'|
      ensures order'[a] != order'[b]
    {
      if a != r0 && b != r0 {
        assert order'[a] == order[if a < r0 then a else a - 1];
        assert order'[b] == order[if b < r0 then b else b - 1];
      } else {
        assert order[if a == r0 then b - 1 else a] in order;
      }
    }
    forall j | 0 <= j < |order'|
      ensures Item(order'[j]) in nodes && nodes[Item(order'[j])].level == hs'[j + 1]
    {
      if j != r0 {
        assert order'[j] in order;
      }
    }
  }

  /** The Backward links of InsertInternal: `node.Backward` becomes
      `update[0]`, or null when that is the head, and the node after the new
      one, if any, links back to it. */
  method LinkBack(nodes: map<Ref, Node>, id: int, u: Ref) returns (nodes': map<Ref, Node>)
    requires Item(id) in nodes && 0 < |nodes[Item(id)].forward| && nodes[Item(id)].forward[0] != To(id)
    requires nodes[Item(id)].forward[0].To? ==> Item(nodes[Item(id)].forward[0].id) in nodes
    ensures SameLinks(nodes', nodes)
    ensures nodes'[Item(id)].backward == if u == Head then Null else To(u.id)
    ensures match nodes[Item(id)].forward[0]
      case Null => (forall x | x in nodes && x != Item(id) :: nodes'[x].backward == nodes[x].backward)
      case To(f) => (nodes'[Item(f)].backward == To(id)
        && forall x | x in nodes && x != Item(id) && x != Item(f) :: nodes'[x].backward == nodes[x].backward)
  {
    nodes' := SetBackward(nodes, Item(id), if u == Head then Null else To(u.id));
    if nodes'[Item(id)].forward[0] != Null {
      nodes' := SetBackward(nodes', Item(nodes'[Item(id)].forward[0].id), To(id));
    }
  }

  /** On level 0 the new node at index r0 links to the node that was at
      index r0, if any. */
  lemma NextOfNew(nodes: map<Ref, Node>, order: seq<int>, hs: seq<int>, id: int, lvl: int, r0: int)
    requires |hs| == |order| + 1 && 0 <= r0 <= |order| && 1 <= lvl
    requires forall p | 0 <= p < |hs| :: hs[p] >= 1
    requires Wired(nodes, Ins(order, r0, id), Ins(hs, r0 + 1, lvl), 0)
    ensures Item(id) in nodes && 0 < |nodes[Item(id)].forward|
    ensures nodes[Item(id)].forward[0] == if r0 < |order| then To(order[r0]) else Null
  {
    var order', hs' := Ins(order, r0, id), Ins(hs, r0 + 1, lvl);
    LevelZero(hs', r0 + 1);
    WiredAt(nodes, order', hs', 0, r0 + 1);
  }

  /** One entry of BackLinked. */
  lemma BackAt(nodes: map<Ref, Node>, order: seq<int>, j: int)
    requires Present(nodes, order) && BackLinked(nodes, order) && 0 <= j < |order|
    ensures nodes[Item(order[j])].backward == if j == 0 then Null else To(order[j - 1])
  {
  }

  /** After LinkBack, level 0's backward links are right for the order with
      the new node at index r0. */
  lemma BackIns(nodes0: map<Ref, Node>, nodes: map<Ref, Node>, nodes': map<Ref, Node>, order: seq<int>, hs: seq<int>,
                level: int, id: int, score: int, lvl: int, r0: int)
    requires Shaped(nodes0, order, hs, level) && BackLinked(nodes0, order) && id !in order
    requires 0 <= r0 <= |order| && 1 <= lvl
    requires SameFrame(nodes, nodes0[Item(id) := NewNode(score, lvl)]) && nodes'.Keys == nodes.Keys
    requires nodes'[Item(id)].backward == if r0 == 0 then Null else To(order[r0 - 1])
    requires r0 < |order| ==> nodes'[Item(order[r0])].backward == To(id)
    requires forall x | x in nodes && x != Item(id) && (r0 < |order| ==> x != Item(order[r0])) :: nodes'[x].backward == nodes[x].backward
    ensures BackLinked(nodes', Ins(order, r0, id))
  {
    var order' := Ins(order, r0, id);
    forall j | 0 <= j < |order'|
      ensures Item(order'[j]) in nodes'
      ensures nodes'[Item(order'[j])].backward == if j == 0 then Null else To(order'[j - 1])
    {
      BackInsAt(nodes0, nodes, nodes', order, hs, level, id, score, lvl, r0, j);
    }
    assert Present(nodes', order');
    assert forall k | 0 <= k < |order'| :: nodes'[Item(order'[k])].backward == if k == 0 then Null else To(order'[k - 1]);
    assert BackLinked(nodes', order');
  }

  /** BackIns at one index j of the new order. */
  lemma BackInsAt(nodes0: map<Ref, Node>, nodes: map<Ref, Node>, nodes': map<Ref, Node>, order: seq<int>, hs: seq<int>,
                  level: int, id: int, score: int, lvl: int, r0: int, j: int)
    requires Shaped(nodes0, order, hs, level) && BackLinked(nodes0, order) && id !in order
    requires 0 <= r0 <= |order| && 1 <= lvl && 0 <= j <= |order|
    requires SameFrame(nodes, nodes0[Item(id) := NewNode(score, lvl)]) && nodes'.Keys == nodes.Keys
    requires nodes'[Item(id)].backward == if r0 == 0 then Null else To(order[r0 - 1])
    requires r0 < |order| ==> nodes'[Item(order[r0])].backward == To(id)
    requires forall x | x in nodes && x != Item(id) && (r0 < |order| ==> x != Item(order[r0])) :: nodes'[x].backward == nodes[x].backward
    ensures Item(Ins(order, r0, id)[j]) in nodes'
    ensures nodes'[Item(Ins(order, r0, id)[j])].backward == if j == 0 then Null else To(Ins(order, r0, id)[j - 1])
  {
    var order' := Ins(order, r0, id);
    if j < r0 {
      BackAt(nodes0, order, j);
      if r0 < |order| {
        NdDistinct(order, j + 1, r0 + 1);
      }
      NdNotNew(order, id, j + 1);
    } else if j > r0 + 1 {
      BackAt(nodes0, order, j - 1);
      NdDistinct(order, j, r0 + 1);
      NdNotNew(order, id, j);
    }
  }

  /** The head's top level stays in use: it was, or the new node reaches it. */
  lemma TopIns(nodes: map<Ref, Node>, order: seq<int>, hs: seq<int>, level: int, id: int, lvl: int, r0: int)
    requires |hs| == |order| + 1 && 0 <= r0 < |hs| && 1 <= level && hs[0] == level
    requires level == 1 || LinkAt(order, hs, 0, level - 1) != Null || lvl == level
    requires 1 < level && Wired(nodes, Ins(order, r0, id), Ins(hs, r0 + 1, lvl), level - 1)
    ensures Head in nodes && level - 1 < |nodes[Head].forward|
    ensures nodes[Head].forward[level - 1] != Null
  {
    InsBefore(order, hs, r0, id, lvl, 0, level - 1);
    WiredAt(nodes, Ins(order, r0, id), Ins(hs, r0 + 1, lvl), level - 1, 0);
  }

  /** Maps that agree on everything but the backward links are shaped,
      keyed and wired alike. */
  lemma LinksKeep(a: map<Ref, Node>, b: map<Ref, Node>, order: seq<int>, hs: seq<int>, level: int)
    requires SameLinks(b, a) && Shaped(a, order, hs, level) && WiredBelow(a, order, hs, level)
    ensures Shaped(b, order, hs, level) && Keys(b, order) == Keys(a, order) && WiredBelow(b, order, hs, level)
  {
    forall i | 0 <= i < level
      ensures Wired(b, order, hs, i)
    {
      forall p | 0 <= p < |hs| && hs[p] > i
        ensures Slot(b, Nd(order, p), i) == Slot(a, Nd(order, p), i)
      {
      }
      WiredFrame(a, b, order, hs, i);
    }
  }

  /** The list after InsertInternal's splice and backward links is linked,
      with the new key at index r0 of the listing, its own place. */
  lemma LinkedIns(nodes1: map<Ref, Node>, nodes2: map<Ref, Node>, nodes': map<Ref, Node>, order: seq<int>, hs: seq<int>,
                  level: int, length: int, id: int, score: int, lvl: int, r0: int)
    requires Laid(nodes1, order, hs, level, length) && id !in order && 1 <= lvl <= level
    requires r0 == Prefix(Keys(nodes1, order), Key(id, score))
    requires level == 1 || LinkAt(order, hs, 0, level - 1) != Null || lvl == level
    requires WiredBelow(nodes2, Ins(order, r0, id), Ins(hs, r0 + 1, lvl), level)
    requires SameFrame(nodes2, nodes1[Item(id) := NewNode(score, lvl)])
    requires SlotsFrom(nodes2, nodes1[Item(id) := NewNode(score, lvl)], level)
    requires SameLinks(nodes', nodes2) && Present(nodes', Ins(order, r0, id)) && BackLinked(nodes', Ins(order, r0, id))
    ensures Linked(nodes', Ins(order, r0, id), Ins(hs, r0 + 1, lvl), level, length + 1)
    ensures Keys(nodes', Ins(order, r0, id)) == Ins(Keys(nodes1, order), r0, Key(id, score))
  {
    var k := Key(id, score);
    var order', hs' := Ins(order, r0, id), Ins(hs, r0 + 1, lvl);
    ShapedIns(nodes1, nodes2, order, hs, level, id, score, lvl, r0);
    LinksKeep(nodes2, nodes', order', hs', level);
    KeysIns(nodes1, nodes2, order, id, score, lvl, r0);
    SortedIns(Keys(nodes1, order), k);
    forall i | level <= i < MaxLevel
      ensures nodes'[Head].forward[i] == Null
    {
      assert Slot(nodes2, Head, i) == Slot(nodes1, Head, i);
    }
    if level > 1 {
      TopIns(nodes2, order, hs, level, id, lvl, r0);
    }
  }

  /** The first half of InsertInternal: the search for k, then the level
      raise when the drawn `lvl` is above `_level`. The list is then laid
      out at level `Max(level, lvl)`, with `update` and `rank` settled for
      k's place r0, and its top level in use unless the new node will
      reach it. */
  method Prepare(nodes: map<Ref, Node>, ghost order: seq<int>, ghost hs: seq<int>, level: int, length: int,
                 lvl: int, k: Key) returns (nodes1: map<Ref, Node>, level': int, update: array<Ref>, rank: array<int>)
    requires Linked(nodes, order, hs, level, length) && 1 <= lvl <= MaxLevel
    ensures level' == Max(level, lvl) && SameFrame(nodes, nodes1)
    ensures Laid(nodes1, order, hs[0 := level'], level', length) && Keys(nodes1, order) == Keys(nodes, order)
    ensures level' == 1 || LinkAt(order, hs[0 := level'], 0, level' - 1) != Null || lvl == level'
    ensures update.Length == MaxLevel && rank.Length == MaxLevel
    ensures rank[0] == Prefix(Keys(nodes, order), k)
    ensures SettledFrom(order, hs[0 := level'], rank[0], 0, level', rank[..], update[..])
  {
    ghost var r0 := Prefix(Keys(nodes, order), k);
    SearchableAll(nodes, order, hs, level, k, None);
    update, rank := Search(nodes, order, hs, level, r0, k, None);
    if lvl > level {
      nodes1 := RaiseLevel(nodes, order, hs, level, length, lvl, update, rank);
      level' := lvl;
      FrameKeys(nodes, nodes1, order, hs, level);
    } else {
      nodes1, level' := nodes, level;
      assert hs[0 := level'] == hs;
      if level > 1 {
        WiredAt(nodes, order, hs, level - 1, 0);
      }
    }
  }

  /** The second half of InsertInternal: the new node spliced in after
      `update[i]` on each level, and the backward links set. The list is
      then linked with the new key at index `rank[0]`. */
  method Place(nodes1: map<Ref, Node>, ghost order: seq<int>, ghost hs: seq<int>, level: int, length: int,
               id: int, score: int, lvl: int, update: array<Ref>, rank: array<int>) returns (nodes': map<Ref, Node>)
    requires Laid(nodes1, order, hs, level, length) && id !in order && 1 <= lvl <= level
    requires level == 1 || LinkAt(order, hs, 0, level - 1) != Null || lvl == level
    requires update.Length == MaxLevel && rank.Length == MaxLevel
    requires rank[0] == Prefix(Keys(nodes1, order), Key(id, score))
    requires SettledFrom(order, hs, rank[0], 0, level, rank[..], update[..])
    ensures Linked(nodes', Ins(order, rank[0], id), Ins(hs, rank[0] + 1, lvl), level, length + 1)
    ensures Keys(nodes', Ins(order, rank[0], id)) == Ins(Keys(nodes1, order), rank[0], Key(id, score))
    ensures nodes'.Keys == nodes1.Keys + {Item(id)}
  {
    ghost var r0 := rank[0];
    var nodes2 := SpliceLevels(nodes1, order, hs, level, id, score, lvl, update, rank);
    assert Settled(order, hs, r0, 0, rank[0], update[0]);
    nodes' := BackLevel(nodes1, nodes2, order, hs, level, id, score, lvl, r0, update[0]);
    LinkedIns(nodes1, nodes2, nodes', order, hs, level, length, id, score, lvl, r0);
  }

  /** The backward links of InsertInternal, set after the splice with u the
      node at position r0, before the new key's place: level 0's backward
      links are then right for the order with the new node at index r0. */
  method BackLevel(ghost nodes1: map<Ref, Node>, nodes2: map<Ref, Node>, ghost order: seq<int>, ghost hs: seq<int>,
                   ghost level: int, id: int, ghost score: int, ghost lvl: int, ghost r0: int, u: Ref)
    returns (nodes': map<Ref, Node>)
    requires Shaped(nodes1, order, hs, level) && BackLinked(nodes1, order) && id !in order
    requires 0 <= r0 <= |order| && 1 <= lvl && u == Nd(order, r0)
    requires SameFrame(nodes2, nodes1[Item(id) := NewNode(score, lvl)])
    requires Wired(nodes2, Ins(order, r0, id), Ins(hs, r0 + 1, lvl), 0)
    ensures SameLinks(nodes', nodes2) && Present(nodes', Ins(order, r0, id))
    ensures BackLinked(nodes', Ins(order, r0, id))
  {
    NextOfNew(nodes2, order, hs, id, lvl, r0);
    nodes' := LinkBack(nodes2, id, u);
    BackIns(nodes1, nodes2, nodes', order, hs, level, id, score, lvl, r0);
  }

  /** InsertInternal on the list's state, the level `lvl` drawn: the new key
      goes in at its own place in the listing, the node is registered by
      id, the level rises to `lvl` when that is higher, and the list stays
      linked. A node left for the id by RemoveInternal(node, false) is
      replaced. */
  method Insert(nodes: map<Ref, Node>, ghost order: seq<int>, ghost hs: seq<int>, level: int, length: int,
                id: int, score: int, lvl: int)
    returns (nodes': map<Ref, Node>, ghost order': seq<int>, ghost hs': seq<int>, level': int, length': int)
    requires Linked(nodes, order, hs, level, length) && id !in order && 1 <= lvl <= MaxLevel
    requires forall r | r in nodes && r != Head :: r.id in order || r.id == id
    ensures Linked(nodes', order', hs', level', length') && Registered(nodes', order')
    ensures length' == length + 1 && level' == Max(level, lvl)
    ensures Keys(nodes', order') == Ins(Keys(nodes, order), Prefix(Keys(nodes, order), Key(id, score)), Key(id, score))
    ensures (set x | x in Keys(nodes', order')) == (set x | x in Keys(nodes, order)) + {Key(id, score)}
    ensures Item(id) in nodes' && nodes'[Item(id)].score == score
  {
    var nodes1, update, rank;
    nodes1, level', update, rank := Prepare(nodes, order, hs, level, length, lvl, Key(id, score));
    ghost var r0 := rank[0];
    nodes' := Place(nodes1, order, hs[0 := level'], level', length, id, score, lvl, update, rank);
    order', hs', length' := Ins(order, r0, id), Ins(hs[0 := level'], r0 + 1, lvl), length + 1;
    RegisteredIns(nodes, nodes', order, r0, id);
    InsMembers(Keys(nodes, order), r0, Key(id, score));
    assert order'[r0] == id && Keys(nodes', order')[r0] == Key(id, score);
  }

  /** Every node in the map but the head is a listed id's: `_byId` holds
      the listed customers and no others. */
  ghost predicate Registered(nodes: map<Ref, Node>, order: seq<int>) {
    forall r | r in nodes && r != Head :: r.id in order
  }

  /** The new id, listed, registers the one node added for it. */
  lemma RegisteredIns(nodes: map<Ref, Node>, nodes': map<Ref, Node>, order: seq<int>, r0: int, id: int)
    requires forall r | r in nodes && r != Head :: r.id in order || r.id == id
    requires nodes'.Keys == nodes.Keys + {Item(id)} && 0 <= r0 <= |order|
    ensures Registered(nodes', Ins(order, r0, id))
  {
    var order' := Ins(order, r0, id);
    forall r | r in nodes' && r != Head
      ensures r.id in order'
    {
      if r.id == id {
        assert order'[r0] == id;
      } else {
        var j :| 0 <= j < |order| && order[j] == r.id;
        assert order'[if j < r0 then j else j + 1] == r.id;
      }
    }
  }

  /** A key put into a listing joins its members. */
  lemma InsMembers(s: seq<Key>, m: int, k: Key)
    requires 0 <= m <= |s|
    ensures (set x | x in Ins(s, m, k)) == (set x | x in s) + {k}
  {
    var t := Ins(s, m, k);
    forall x | x in s
      ensures x in t
    {
      var j :| 0 <= j < |s| && s[j] == x;
      assert t[if j < m then j else j + 1] == x;
    }
    assert t[m] == k;
  }
}
