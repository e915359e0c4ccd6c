/**
 * The link structure of the span-indexed skip list, level by level.
 *
 * A node is named by the customer id it carries (ids are unique in the
 * list), the head by `Head`. The list's positions are 0 for the head and
 * 1..n for the nodes in level-0 order; `hs[p]` is how many levels the
 * node at position p takes part in (for the head: the list's `_level`).
 * On level i, every position that reaches it links forward to the next
 * position that reaches it, and the link's span is the distance in
 * positions; a last link is null, with span 1 on level 0 and, above it,
 * the number of positions still after the node.
 */
module SkipLinks {
  import opened Wrappers

  /** `MaxLevel`: the length of every node's Forward and Span arrays. */
  const MaxLevel: int := 32

  /** A node reference: the head, or the node of a customer id. */
  datatype Ref = Head | Item(id: int)

  /** A Forward or Backward link: null, or the node of a customer id. */
  datatype Link = Null | To(id: int)

  /** A node: its score, its level, its Forward and Span arrays and its
      Backward link. */
  datatype Node = Node(score: int, level: int, forward: seq<Link>, span: seq<int>, backward: Link)

  /** The ids are pairwise different. */
  ghost predicate Distinct(order: seq<int>) {
    forall a, b | 0 <= a < b < |order| :: order[a] != order[b]
  }

  /** `s` with `x` put in at index m. */
  function Ins<T>(s: seq<T>, m: int, x: T): (r: seq<T>)
    requires 0 <= m <= |s|
    ensures |r| == |s| + 1
    ensures forall k | 0 <= k < |r| :: r[k] == if k < m then s[k] else if k == m then x else s[k - 1]
  {
    s[..m] + [x] + s[m..]
  }

  /** `s` with index m taken out. */
  function Del<T>(s: seq<T>, m: int): (r: seq<T>)
    requires 0 <= m < |s|
    ensures |r| == |s| - 1
    ensures forall k | 0 <= k < |r| :: r[k] == if k < m then s[k] else s[k + 1]
    ensures Ins(r, m, s[m]) == s
  {
    s[..m] + s[m + 1..]
  }

  /** The reference at position p: the head at 0, then the nodes in order. */
  function Nd(order: seq<int>, p: int): Ref
    requires 0 <= p <= |order|
  {
    if p == 0 then Head else Item(order[p - 1])
  }

  /** The next position after p that reaches level i, or |hs| when none. */
  ghost function NextUp(hs: seq<int>, p: int, i: int): (q: int)
    requires 0 <= p < |hs|
    ensures p < q <= |hs|
    ensures q < |hs| ==> hs[q] > i
    ensures forall r | p < r < q :: hs[r] <= i
    decreases |hs| - p
  {
    if p + 1 == |hs| then |hs|
    else if hs[p + 1] > i then p + 1
    else NextUp(hs, p + 1, i)
  }

  /** The next position is the one that reaches the level with none
      reaching it in between. */
  lemma NextUpIs(hs: seq<int>, p: int, i: int, q: int)
    requires 0 <= p < q <= |hs|
    requires q < |hs| ==> hs[q] > i
    requires forall r | p < r < q :: hs[r] <= i
    ensures NextUp(hs, p, i) == q
  {
  }

  /** On level 0, which every position reaches, the next position is p + 1. */
  lemma LevelZero(hs: seq<int>, p: int)
    requires 0 <= p < |hs|
    requires forall r | 0 <= r < |hs| :: hs[r] >= 1
    ensures NextUp(hs, p, 0) == p + 1
  {
    NextUpIs(hs, p, 0, p + 1);
  }

  /** The link that level i of position p holds in a well-linked list. */
  ghost function LinkAt(order: seq<int>, hs: seq<int>, p: int, i: int): Link
    requires |hs| == |order| + 1 && 0 <= p < |hs|
  {
    var q := NextUp(hs, p, i);
    if q < |hs| then To(order[q - 1]) else Null
  }

  /** The span that level i of position p holds in a well-linked list. */
  ghost function SpanAt(hs: seq<int>, p: int, i: int): int
    requires 0 <= p < |hs|
  {
    var q := NextUp(hs, p, i);
    if q < |hs| then q - p else if i == 0 then 1 else |hs| - 1 - p
  }

  /** Forward[i] and Span[i] of a node, when it exists and has level i. */
  function Slot(nodes: map<Ref, Node>, r: Ref, i: int): Option<(Link, int)> {
    if r in nodes && 0 <= i < |nodes[r].forward| && i < |nodes[r].span|
    then Some((nodes[r].forward[i], nodes[r].span[i]))
    else None
  }

  /** Level i is linked as the positions and levels `order`, `hs` say. */
  ghost predicate Wired(nodes: map<Ref, Node>, order: seq<int>, hs: seq<int>, i: int)
    requires |hs| == |order| + 1
  {
    forall p {:trigger Slot(nodes, Nd(order, p), i)} | 0 <= p < |hs| && hs[p] > i ::
      Slot(nodes, Nd(order, p), i) == Some((LinkAt(order, hs, p, i), SpanAt(hs, p, i)))
  }

  /** What a wired level says about one position. */
  lemma WiredAt(nodes: map<Ref, Node>, order: seq<int>, hs: seq<int>, i: int, p: int)
    requires |hs| == |order| + 1 && Wired(nodes, order, hs, i)
    requires 0 <= p < |hs| && hs[p] > i
    ensures Nd(order, p) in nodes && 0 <= i < |nodes[Nd(order, p)].forward| && i < |nodes[Nd(order, p)].span|
    ensures nodes[Nd(order, p)].forward[i] == LinkAt(order, hs, p, i)
    ensures nodes[Nd(order, p)].span[i] == SpanAt(hs, p, i)
  {
    assert Slot(nodes, Nd(order, p), i) == Some((LinkAt(order, hs, p, i), SpanAt(hs, p, i)));
  }

  /** `x.Forward[i] = link`: only that slot's link changes. */
  function SetForward(nodes: map<Ref, Node>, r: Ref, i: int, link: Link): (s: map<Ref, Node>)
    requires r in nodes && 0 <= i < |nodes[r].forward|
    ensures s.Keys == nodes.Keys
    ensures forall x | x in nodes :: (s[x].score == nodes[x].score && s[x].level == nodes[x].level
      && s[x].backward == nodes[x].backward && |s[x].forward| == |nodes[x].forward| && s[x].span == nodes[x].span)
    ensures forall x, t :: (Slot(s, x, t) ==
      if x == r && t == i && Slot(nodes, x, t).Some? then Some((link, Slot(nodes, x, t).value.1)) else Slot(nodes, x, t))
  {
    nodes[r := nodes[r].(forward := nodes[r].forward[i := link])]
  }

  /** `x.Span[i] = span`: only that slot's span changes. */
  function SetSpan(nodes: map<Ref, Node>, r: Ref, i: int, span: int): (s: map<Ref, Node>)
    requires r in nodes && 0 <= i < |nodes[r].span|
    ensures s.Keys == nodes.Keys
    ensures forall x | x in nodes :: (s[x].score == nodes[x].score && s[x].level == nodes[x].level
      && s[x].backward == nodes[x].backward && s[x].forward == nodes[x].forward && |s[x].span| == |nodes[x].span|)
    ensures forall x, t :: (Slot(s, x, t) ==
      if x == r && t == i && Slot(nodes, x, t).Some? then Some((Slot(nodes, x, t).value.0, span)) else Slot(nodes, x, t))
  {
    nodes[r := nodes[r].(span := nodes[r].span[i := span])]
  }

  /** `x.Backward = link`: no Forward or Span slot changes. */
  function SetBackward(nodes: map<Ref, Node>, r: Ref, link: Link): (s: map<Ref, Node>)
    requires r in nodes
    ensures s.Keys == nodes.Keys
    ensures forall x | x in nodes :: (s[x].score == nodes[x].score && s[x].level == nodes[x].level
      && s[x].forward == nodes[x].forward && s[x].span == nodes[x].span)
    ensures forall x | x in nodes && x != r :: s[x].backward == nodes[x].backward
    ensures s[r].backward == link
    ensures forall x, t :: Slot(s, x, t) == Slot(nodes, x, t)
  {
    nodes[r := nodes[r].(backward := link)]
  }

  /** A level whose slots are all as before stays wired. */
  lemma WiredFrame(nodes: map<Ref, Node>, nodes': map<Ref, Node>, order: seq<int>, hs: seq<int>, i: int)
    requires |hs| == |order| + 1 && Wired(nodes, order, hs, i)
    requires forall p | 0 <= p < |hs| && hs[p] > i :: Slot(nodes', Nd(order, p), i) == Slot(nodes, Nd(order, p), i)
    ensures Wired(nodes', order, hs, i)
  {
  }

  /** The head's own level does not change where the nodes after it link. */
  lemma NextUpHead(hs: seq<int>, h: int, p: int, i: int)
    requires 0 <= p < |hs|
    ensures NextUp(hs[0 := h], p, i) == NextUp(hs, p, i)
  {
    NextUpIs(hs[0 := h], p, i, NextUp(hs, p, i));
  }

  /** Raising or lowering the head's level keeps every level below both
      heights wired. */
  lemma HeadHeight(nodes: map<Ref, Node>, order: seq<int>, hs: seq<int>, h: int, i: int)
    requires |hs| == |order| + 1 && Wired(nodes, order, hs, i)
    requires i < hs[0] && i < h
    ensures Wired(nodes, order, hs[0 := h], i)
  {
    forall p | 0 <= p < |hs| && hs[0 := h][p] > i
      ensures Slot(nodes, Nd(order, p), i) == Some((LinkAt(order, hs[0 := h], p, i), SpanAt(hs[0 := h], p, i)))
    {
      NextUpHead(hs, h, p, i);
    }
  }

  /** A level no node reaches is wired once the head links it to null with
      span n. */
  lemma FreshLevel(nodes: map<Ref, Node>, order: seq<int>, hs: seq<int>, i: int)
    requires |hs| == |order| + 1 && 1 <= i < hs[0]
    requires forall p | 1 <= p < |hs| :: hs[p] <= i
    requires Slot(nodes, Head, i) == Some((Null, |order|))
    ensures Wired(nodes, order, hs, i)
  {
    NextUpIs(hs, 0, i, |hs|);
  }

  /** Level i is linked to null at the head: no node reaches it. */
  lemma EmptyLevel(nodes: map<Ref, Node>, order: seq<int>, hs: seq<int>, i: int)
    requires |hs| == |order| + 1 && Wired(nodes, order, hs, i) && hs[0] > i
    requires Slot(nodes, Head, i).Some? && Slot(nodes, Head, i).value.0 == Null
    ensures forall p | 1 <= p < |hs| :: hs[p] <= i
  {
    WiredAt(nodes, order, hs, i, 0);
  }

  /** Before an inserted position, the next position is unchanged when it
      comes before the insertion point, and otherwise the inserted one when
      it reaches the level, else the old one moved up by one. */
  lemma NextUpInsBefore(hs: seq<int>, m: int, h: int, p: int, i: int)
    requires 1 <= m <= |hs| && 0 <= p < m
    ensures NextUp(Ins(hs, m, h), p, i) ==
      var q := NextUp(hs, p, i); if q < m then q else if h > i then m else q + 1
  {
    var hs', q := Ins(hs, m, h), NextUp(hs, p, i);
    if q < m {
      NextUpIs(hs', p, i, q);
    } else if h > i {
      NextUpIs(hs', p, i, m);
    } else {
      NextUpIs(hs', p, i, q + 1);
    }
  }

  /** From the inserted position, the next one is the old next position
      after its predecessor, moved up by one. */
  lemma NextUpInsAt(hs: seq<int>, m: int, h: int, i: int)
    requires 1 <= m <= |hs|
    ensures NextUp(Ins(hs, m, h), m, i) == NextUp(hs, m - 1, i) + 1
  {
    NextUpIs(Ins(hs, m, h), m, i, NextUp(hs, m - 1, i) + 1);
  }

  /** After the inserted position, everything moves up by one. */
  lemma NextUpInsAfter(hs: seq<int>, m: int, h: int, p: int, i: int)
    requires 1 <= m <= p < |hs|
    ensures NextUp(Ins(hs, m, h), p + 1, i) == NextUp(hs, p, i) + 1
  {
    NextUpIs(Ins(hs, m, h), p + 1, i, NextUp(hs, p, i) + 1);
  }

  /** Links and spans before the position r0 + 1 of a node put in at index
      r0 of the order with level h. */
  lemma InsBefore(order: seq<int>, hs: seq<int>, r0: int, id: int, h: int, p: int, i: int)
    requires |hs| == |order| + 1 && 0 <= p <= r0 < |hs|
    ensures var q, order', hs' := NextUp(hs, p, i), Ins(order, r0, id), Ins(hs, r0 + 1, h);
      && (q <= r0 ==> LinkAt(order', hs', p, i) == LinkAt(order, hs, p, i) && SpanAt(hs', p, i) == SpanAt(hs, p, i))
      && (r0 < q && h > i ==> LinkAt(order', hs', p, i) == To(id) && SpanAt(hs', p, i) == r0 + 1 - p)
      && (r0 < q && h <= i && 1 <= i ==>
            LinkAt(order', hs', p, i) == LinkAt(order, hs, p, i) && SpanAt(hs', p, i) == SpanAt(hs, p, i) + 1)
  {
    NextUpInsBefore(hs, r0 + 1, h, p, i);
  }

  /** The inserted position links where its predecessor linked. */
  lemma InsAt(order: seq<int>, hs: seq<int>, r0: int, id: int, h: int, i: int)
    requires |hs| == |order| + 1 && 0 <= r0 < |hs|
    ensures LinkAt(Ins(order, r0, id), Ins(hs, r0 + 1, h), r0 + 1, i) == LinkAt(order, hs, r0, i)
    ensures SpanAt(Ins(hs, r0 + 1, h), r0 + 1, i) == SpanAt(hs, r0, i)
  {
    NextUpInsAt(hs, r0 + 1, h, i);
  }

  /** After the inserted position, links and spans move up with their node. */
  lemma InsAfter(order: seq<int>, hs: seq<int>, r0: int, id: int, h: int, p: int, i: int)
    requires |hs| == |order| + 1 && 0 <= r0 < p < |hs|
    ensures LinkAt(Ins(order, r0, id), Ins(hs, r0 + 1, h), p + 1, i) == LinkAt(order, hs, p, i)
    ensures SpanAt(Ins(hs, r0 + 1, h), p + 1, i) == SpanAt(hs, p, i)
  {
    NextUpInsAfter(hs, r0 + 1, h, p, i);
  }

  /** Positions between px and px's next position on a level share its
      link, and their span is what remains of px's. */
  lemma SameNext(order: seq<int>, hs: seq<int>, px: int, r: int, i: int)
    requires |hs| == |order| + 1 && 0 <= px <= r < |hs| && r < NextUp(hs, px, i)
    requires i == 0 ==> px == r
    ensures LinkAt(order, hs, r, i) == LinkAt(order, hs, px, i)
    ensures SpanAt(hs, r, i) == SpanAt(hs, px, i) - (r - px)
  {
    NextUpIs(hs, r, i, NextUp(hs, px, i));
  }

  /** Two positions of a list of distinct ids name different nodes. */
  lemma NdDistinct(order: seq<int>, a: int, b: int)
    requires Distinct(order) && 0 <= a <= |order| && 0 <= b <= |order| && a != b
    ensures Nd(order, a) != Nd(order, b)
  {
    if a > 0 && b > 0 {
      if a < b {
        assert order[a - 1] != order[b - 1];
      } else {
        assert order[b - 1] != order[a - 1];
      }
    }
  }

  /** No position of a list names a node whose id is not in it. */
  lemma NdNotNew(order: seq<int>, id: int, p: int)
    requires id !in order && 0 <= p <= |order|
    ensures Nd(order, p) != Item(id)
  {
    if p > 0 {
      assert order[p - 1] in order;
    }
  }

  /** A position up to r0 that reaches level i, other than the last such
      position px, lies before px and links no further than px. */
  lemma LeftOfPx(hs: seq<int>, i: int, px: int, r0: int, p: int)
    requires 0 <= px <= r0 < |hs| && r0 < NextUp(hs, px, i) && hs[px] > i
    requires 0 <= p <= r0 && p != px && hs[p] > i
    ensures p < px && NextUp(hs, p, i) <= px
  {
  }

  /** A position left of the insertion point whose link does not pass over
      it keeps its slot. */
  lemma CaseBefore(nodes: map<Ref, Node>, nodes': map<Ref, Node>, order: seq<int>, hs: seq<int>,
                   i: int, id: int, lvl: int, r0: int, p: int)
    requires |hs| == |order| + 1 && 0 <= p <= r0 < |hs| && NextUp(hs, p, i) <= r0
    requires Slot(nodes, Nd(order, p), i) == Some((LinkAt(order, hs, p, i), SpanAt(hs, p, i)))
    requires Slot(nodes', Nd(order, p), i) == Slot(nodes, Nd(order, p), i)
    ensures Slot(nodes', Nd(Ins(order, r0, id), p), i) ==
      Some((LinkAt(Ins(order, r0, id), Ins(hs, r0 + 1, lvl), p, i), SpanAt(Ins(hs, r0 + 1, lvl), p, i)))
  {
    InsBefore(order, hs, r0, id, lvl, p, i);
    assert Nd(Ins(order, r0, id), p) == Nd(order, p);
  }

  /** The position whose link passes over the insertion point now links to
      the new node, r0 - px + 1 positions on. */
  lemma CasePx(nodes': map<Ref, Node>, order: seq<int>, hs: seq<int>, i: int, id: int, lvl: int, px: int, r0: int)
    requires |hs| == |order| + 1 && 0 <= px <= r0 < |hs| && r0 < NextUp(hs, px, i) && i < lvl
    requires Slot(nodes', Nd(order, px), i) == Some((To(id), r0 - px + 1))
    ensures Slot(nodes', Nd(Ins(order, r0, id), px), i) ==
      Some((LinkAt(Ins(order, r0, id), Ins(hs, r0 + 1, lvl), px, i), SpanAt(Ins(hs, r0 + 1, lvl), px, i)))
  {
    InsBefore(order, hs, r0, id, lvl, px, i);
    assert Nd(Ins(order, r0, id), px) == Nd(order, px);
  }

  /** Above the new node's level, the link passing over the insertion point
      keeps its target and grows by one. */
  lemma CasePxOver(nodes': map<Ref, Node>, order: seq<int>, hs: seq<int>, i: int, id: int, lvl: int, px: int, r0: int)
    requires |hs| == |order| + 1 && 0 <= px <= r0 < |hs| && r0 < NextUp(hs, px, i) && 1 <= lvl <= i
    requires Slot(nodes', Nd(order, px), i) == Some((LinkAt(order, hs, px, i), SpanAt(hs, px, i) + 1))
    ensures Slot(nodes', Nd(Ins(order, r0, id), px), i) ==
      Some((LinkAt(Ins(order, r0, id), Ins(hs, r0 + 1, lvl), px, i), SpanAt(Ins(hs, r0 + 1, lvl), px, i)))
  {
    InsBefore(order, hs, r0, id, lvl, px, i);
    assert Nd(Ins(order, r0, id), px) == Nd(order, px);
  }

  /** The new node takes over what px's link had left after r0. */
  lemma CaseNew(nodes': map<Ref, Node>, order: seq<int>, hs: seq<int>, i: int, id: int, lvl: int, px: int, r0: int)
    requires |hs| == |order| + 1 && 0 <= px <= r0 < |hs| && r0 < NextUp(hs, px, i)
    requires i == 0 ==> px == r0
    requires Slot(nodes', Item(id), i) == Some((LinkAt(order, hs, px, i), SpanAt(hs, px, i) - (r0 - px)))
    ensures Slot(nodes', Nd(Ins(order, r0, id), r0 + 1), i) ==
      Some((LinkAt(Ins(order, r0, id), Ins(hs, r0 + 1, lvl), r0 + 1, i), SpanAt(Ins(hs, r0 + 1, lvl), r0 + 1, i)))
  {
    InsAt(order, hs, r0, id, lvl, i);
    SameNext(order, hs, px, r0, i);
    assert Nd(Ins(order, r0, id), r0 + 1) == Item(id);
  }

  /** A position right of the insertion point keeps its slot, one position on. */
  lemma CaseAfter(nodes: map<Ref, Node>, nodes': map<Ref, Node>, order: seq<int>, hs: seq<int>,
                  i: int, id: int, lvl: int, r0: int, p: int)
    requires |hs| == |order| + 1 && 0 <= r0 && r0 + 1 < p <= |hs|
    requires Slot(nodes, Nd(order, p - 1), i) == Some((LinkAt(order, hs, p - 1, i), SpanAt(hs, p - 1, i)))
    requires Slot(nodes', Nd(order, p - 1), i) == Slot(nodes, Nd(order, p - 1), i)
    ensures Slot(nodes', Nd(Ins(order, r0, id), p), i) ==
      Some((LinkAt(Ins(order, r0, id), Ins(hs, r0 + 1, lvl), p, i), SpanAt(Ins(hs, r0 + 1, lvl), p, i)))
  {
    InsAfter(order, hs, r0, id, lvl, p - 1, i);
    assert Nd(Ins(order, r0, id), p) == Nd(order, p - 1);
  }

  /** Left of the insertion point, every position other than px keeps its
      slot and is still wired. */
  lemma SpliceBeforeAt(nodes: map<Ref, Node>, nodes': map<Ref, Node>, order: seq<int>, hs: seq<int>,
                     i: int, id: int, lvl: int, px: int, r0: int, p: int)
    requires |hs| == |order| + 1 && Distinct(order) && id !in order
    requires Wired(nodes, order, hs, i) && 0 <= i
    requires 0 <= px <= r0 < |hs| && hs[px] > i && r0 < NextUp(hs, px, i)
    requires forall r | r != Item(id) && r != Nd(order, px) :: Slot(nodes', r, i) == Slot(nodes, r, i)
    requires 0 <= p <= r0 && p != px && Ins(hs, r0 + 1, lvl)[p] > i
    ensures Slot(nodes', Nd(Ins(order, r0, id), p), i) ==
      Some((LinkAt(Ins(order, r0, id), Ins(hs, r0 + 1, lvl), p, i), SpanAt(Ins(hs, r0 + 1, lvl), p, i)))
  {
    assert hs[p] > i;
    LeftOfPx(hs, i, px, r0, p);
    NdDistinct(order, p, px);
    NdNotNew(order, id, p);
    CaseBefore(nodes, nodes', order, hs, i, id, lvl, r0, p);
  }

  /** Right of the new node, every position keeps its slot, one position on,
      and is still wired. */
  lemma SpliceAfterAt(nodes: map<Ref, Node>, nodes': map<Ref, Node>, order: seq<int>, hs: seq<int>,
                    i: int, id: int, lvl: int, px: int, r0: int, p: int)
    requires |hs| == |order| + 1 && Distinct(order) && id !in order
    requires Wired(nodes, order, hs, i) && 0 <= i
    requires 0 <= px <= r0 < |hs|
    requires forall r | r != Item(id) && r != Nd(order, px) :: Slot(nodes', r, i) == Slot(nodes, r, i)
    requires r0 + 1 < p < |hs| + 1 && Ins(hs, r0 + 1, lvl)[p] > i
    ensures Slot(nodes', Nd(Ins(order, r0, id), p), i) ==
      Some((LinkAt(Ins(order, r0, id), Ins(hs, r0 + 1, lvl), p, i), SpanAt(Ins(hs, r0 + 1, lvl), p, i)))
  {
    assert hs[p - 1] > i;
    NdDistinct(order, p - 1, px);
    NdNotNew(order, id, p - 1);
    CaseAfter(nodes, nodes', order, hs, i, id, lvl, r0, p);
  }

  /** One position of a level the new node is spliced into. */
  lemma SpliceAt(nodes: map<Ref, Node>, nodes': map<Ref, Node>, order: seq<int>, hs: seq<int>,
                 i: int, id: int, lvl: int, px: int, r0: int, p: int)
    requires |hs| == |order| + 1 && Distinct(order) && id !in order
    requires Wired(nodes, order, hs, i) && 0 <= i < lvl
    requires 0 <= px <= r0 < |hs| && hs[px] > i && r0 < NextUp(hs, px, i)
    requires i == 0 ==> px == r0
    requires Slot(nodes', Item(id), i) == Some((LinkAt(order, hs, px, i), SpanAt(hs, px, i) - (r0 - px)))
    requires Slot(nodes', Nd(order, px), i) == Some((To(id), r0 - px + 1))
    requires forall r | r != Item(id) && r != Nd(order, px) :: Slot(nodes', r, i) == Slot(nodes, r, i)
    requires 0 <= p < |hs| + 1 && Ins(hs, r0 + 1, lvl)[p] > i
    ensures Slot(nodes', Nd(Ins(order, r0, id), p), i) ==
      Some((LinkAt(Ins(order, r0, id), Ins(hs, r0 + 1, lvl), p, i), SpanAt(Ins(hs, r0 + 1, lvl), p, i)))
  {
    if p == px {
      CasePx(nodes', order, hs, i, id, lvl, px, r0);
    } else if p <= r0 {
      SpliceBeforeAt(nodes, nodes', order, hs, i, id, lvl, px, r0, p);
    } else if p == r0 + 1 {
      CaseNew(nodes', order, hs, i, id, lvl, px, r0);
    } else {
      SpliceAfterAt(nodes, nodes', order, hs, i, id, lvl, px, r0, p);
    }
  }

  /** Splicing a new node in on a level it reaches: with px the last
      position up to r0 that reaches level i, the new node takes over
      px's link and the part of its span after r0, and px links to it. */
  lemma SpliceIn(nodes: map<Ref, Node>, nodes': map<Ref, Node>, order: seq<int>, hs: seq<int>,
                 i: int, id: int, lvl: int, px: int, r0: int)
    requires |hs| == |order| + 1 && Distinct(order) && id !in order
    requires Wired(nodes, order, hs, i) && 0 <= i < lvl
    requires 0 <= px <= r0 < |hs| && hs[px] > i && r0 < NextUp(hs, px, i)
    requires i == 0 ==> px == r0
    requires Slot(nodes', Item(id), i) == Some((LinkAt(order, hs, px, i), SpanAt(hs, px, i) - (r0 - px)))
    requires Slot(nodes', Nd(order, px), i) == Some((To(id), r0 - px + 1))
    requires forall r | r != Item(id) && r != Nd(order, px) :: Slot(nodes', r, i) == Slot(nodes, r, i)
    ensures Wired(nodes', Ins(order, r0, id), Ins(hs, r0 + 1, lvl), i)
  {
    forall p | 0 <= p < |hs| + 1 && Ins(hs, r0 + 1, lvl)[p] > i
      ensures Slot(nodes', Nd(Ins(order, r0, id), p), i) ==
        Some((LinkAt(Ins(order, r0, id), Ins(hs, r0 + 1, lvl), p, i), SpanAt(Ins(hs, r0 + 1, lvl), p, i)))
    {
      SpliceAt(nodes, nodes', order, hs, i, id, lvl, px, r0, p);
    }
  }

  /** One position of a level above the new node's. */
  lemma StepAt(nodes: map<Ref, Node>, nodes': map<Ref, Node>, order: seq<int>, hs: seq<int>,
               i: int, id: int, lvl: int, px: int, r0: int, p: int)
    requires |hs| == |order| + 1 && Distinct(order) && id !in order
    requires Wired(nodes, order, hs, i) && 1 <= lvl <= i
    requires 0 <= px <= r0 < |hs| && hs[px] > i && r0 < NextUp(hs, px, i)
    requires Slot(nodes', Nd(order, px), i) == Some((LinkAt(order, hs, px, i), SpanAt(hs, px, i) + 1))
    requires forall r | r != Nd(order, px) :: Slot(nodes', r, i) == Slot(nodes, r, i)
    requires 0 <= p < |hs| + 1 && Ins(hs, r0 + 1, lvl)[p] > i
    ensures Slot(nodes', Nd(Ins(order, r0, id), p), i) ==
      Some((LinkAt(Ins(order, r0, id), Ins(hs, r0 + 1, lvl), p, i), SpanAt(Ins(hs, r0 + 1, lvl), p, i)))
  {
    if p == px {
      CasePxOver(nodes', order, hs, i, id, lvl, px, r0);
    } else if p <= r0 {
      SpliceBeforeAt(nodes, nodes', order, hs, i, id, lvl, px, r0, p);
    } else {
      SpliceAfterAt(nodes, nodes', order, hs, i, id, lvl, px, r0, p);
    }
  }

  /** On a level above the new node's, the link that passes over r0 grows
      by one. */
  lemma StepOver(nodes: map<Ref, Node>, nodes': map<Ref, Node>, order: seq<int>, hs: seq<int>,
                 i: int, id: int, lvl: int, px: int, r0: int)
    requires |hs| == |order| + 1 && Distinct(order) && id !in order
    requires Wired(nodes, order, hs, i) && 1 <= lvl <= i
    requires 0 <= px <= r0 < |hs| && hs[px] > i && r0 < NextUp(hs, px, i)
    requires Slot(nodes', Nd(order, px), i) == Some((LinkAt(order, hs, px, i), SpanAt(hs, px, i) + 1))
    requires forall r | r != Nd(order, px) :: Slot(nodes', r, i) == Slot(nodes, r, i)
    ensures Wired(nodes', Ins(order, r0, id), Ins(hs, r0 + 1, lvl), i)
  {
    forall p | 0 <= p < |hs| + 1 && Ins(hs, r0 + 1, lvl)[p] > i
      ensures Slot(nodes', Nd(Ins(order, r0, id), p), i) ==
        Some((LinkAt(Ins(order, r0, id), Ins(hs, r0 + 1, lvl), p, i), SpanAt(Ins(hs, r0 + 1, lvl), p, i)))
    {
      StepAt(nodes, nodes', order, hs, i, id, lvl, px, r0, p);
    }
  }

  /** The old positions of a list a node was taken out of: `order`, `hs`
      are what is left, and the node had id `id`, level `lvl`, position
      r0 + 1. Before r0 + 1, the last position reaching a level the node
      reached links to it; on a lower level it links past it. */
  lemma PxBeforeDel(hs: seq<int>, i: int, lvl: int, px: int, r0: int)
    requires 0 <= px <= r0 < |hs| && Ins(hs, r0 + 1, lvl)[px] > i && r0 < NextUp(Ins(hs, r0 + 1, lvl), px, i)
    ensures hs[px] > i && r0 < NextUp(hs, px, i)
    ensures lvl > i ==> NextUp(Ins(hs, r0 + 1, lvl), px, i) == r0 + 1
  {
    NextUpInsBefore(hs, r0 + 1, lvl, px, i);
  }

  /** Left of a node taken out, a position whose link does not reach it
      keeps its slot. */
  lemma UnCaseBefore(nodes: map<Ref, Node>, nodes': map<Ref, Node>, order: seq<int>, hs: seq<int>,
                     i: int, id: int, lvl: int, r0: int, p: int)
    requires |hs| == |order| + 1 && 0 <= p <= r0 < |hs| && NextUp(hs, p, i) <= r0
    requires Slot(nodes, Nd(order, p), i) ==
      Some((LinkAt(Ins(order, r0, id), Ins(hs, r0 + 1, lvl), p, i), SpanAt(Ins(hs, r0 + 1, lvl), p, i)))
    requires Slot(nodes', Nd(order, p), i) == Slot(nodes, Nd(order, p), i)
    ensures Slot(nodes', Nd(order, p), i) == Some((LinkAt(order, hs, p, i), SpanAt(hs, p, i)))
  {
    InsBefore(order, hs, r0, id, lvl, p, i);
  }

  /** The position that linked to a node taken out links where the node did,
      over both spans. */
  lemma UnCasePx(nodes': map<Ref, Node>, order: seq<int>, hs: seq<int>, i: int, id: int, lvl: int, px: int, r0: int)
    requires |hs| == |order| + 1 && 0 <= px <= r0 < |hs| && r0 < NextUp(hs, px, i) && i < lvl
    requires i == 0 ==> px == r0
    requires Slot(nodes', Nd(order, px), i) ==
      Some((LinkAt(Ins(order, r0, id), Ins(hs, r0 + 1, lvl), r0 + 1, i),
            SpanAt(Ins(hs, r0 + 1, lvl), px, i) + SpanAt(Ins(hs, r0 + 1, lvl), r0 + 1, i) - 1))
    ensures Slot(nodes', Nd(order, px), i) == Some((LinkAt(order, hs, px, i), SpanAt(hs, px, i)))
  {
    var order', hs' := Ins(order, r0, id), Ins(hs, r0 + 1, lvl);
    assert LinkAt(order', hs', r0 + 1, i) == LinkAt(order, hs, px, i)
        && SpanAt(hs', r0 + 1, i) == SpanAt(hs, px, i) - (r0 - px) by {
      InsAt(order, hs, r0, id, lvl, i);
      SameNext(order, hs, px, r0, i);
    }
    assert SpanAt(hs', px, i) == r0 + 1 - px by {
      InsBefore(order, hs, r0, id, lvl, px, i);
    }
  }

  /** Above a node taken out, the link that passed over it shrinks by one. */
  lemma UnCasePxOver(nodes': map<Ref, Node>, order: seq<int>, hs: seq<int>, i: int, id: int, lvl: int, px: int, r0: int)
    requires |hs| == |order| + 1 && 0 <= px <= r0 < |hs| && r0 < NextUp(hs, px, i) && 1 <= lvl <= i
    requires Slot(nodes', Nd(order, px), i) ==
      Some((LinkAt(Ins(order, r0, id), Ins(hs, r0 + 1, lvl), px, i), SpanAt(Ins(hs, r0 + 1, lvl), px, i) - 1))
    ensures Slot(nodes', Nd(order, px), i) == Some((LinkAt(order, hs, px, i), SpanAt(hs, px, i)))
  {
    InsBefore(order, hs, r0, id, lvl, px, i);
  }

  /** Right of a node taken out, a position keeps its slot, one position
      back. */
  lemma UnCaseAfter(nodes: map<Ref, Node>, nodes': map<Ref, Node>, order: seq<int>, hs: seq<int>,
                    i: int, id: int, lvl: int, r0: int, p: int)
    requires |hs| == |order| + 1 && 0 <= r0 < p < |hs|
    requires Slot(nodes, Nd(order, p), i) ==
      Some((LinkAt(Ins(order, r0, id), Ins(hs, r0 + 1, lvl), p + 1, i), SpanAt(Ins(hs, r0 + 1, lvl), p + 1, i)))
    requires Slot(nodes', Nd(order, p), i) == Slot(nodes, Nd(order, p), i)
    ensures Slot(nodes', Nd(order, p), i) == Some((LinkAt(order, hs, p, i), SpanAt(hs, p, i)))
  {
    InsAfter(order, hs, r0, id, lvl, p, i);
  }

  /** Left of a node taken out, every position other than px is still
      wired. */
  lemma UnBeforeAt(nodes: map<Ref, Node>, nodes': map<Ref, Node>, order: seq<int>, hs: seq<int>,
                   i: int, id: int, lvl: int, px: int, r0: int, p: int)
    requires |hs| == |order| + 1 && 0 <= r0 < |hs| && Distinct(order)
    requires Wired(nodes, Ins(order, r0, id), Ins(hs, r0 + 1, lvl), i) && 0 <= i
    requires 0 <= px <= r0 && hs[px] > i && r0 < NextUp(hs, px, i)
    requires forall r | r != Nd(Ins(order, r0, id), px) :: Slot(nodes', r, i) == Slot(nodes, r, i)
    requires 0 <= p <= r0 && p != px && hs[p] > i
    ensures Slot(nodes', Nd(order, p), i) == Some((LinkAt(order, hs, p, i), SpanAt(hs, p, i)))
  {
    LeftOfPx(hs, i, px, r0, p);
    NdDistinct(order, p, px);
    assert Nd(Ins(order, r0, id), p) == Nd(order, p);
    assert Nd(Ins(order, r0, id), px) == Nd(order, px);
    assert Ins(hs, r0 + 1, lvl)[p] > i;
    UnCaseBefore(nodes, nodes', order, hs, i, id, lvl, r0, p);
  }

  /** Right of a node taken out, every position is still wired. */
  lemma UnAfterAt(nodes: map<Ref, Node>, nodes': map<Ref, Node>, order: seq<int>, hs: seq<int>,
                  i: int, id: int, lvl: int, px: int, r0: int, p: int)
    requires |hs| == |order| + 1 && 0 <= r0 < |hs| && Distinct(order)
    requires Wired(nodes, Ins(order, r0, id), Ins(hs, r0 + 1, lvl), i) && 0 <= i
    requires 0 <= px <= r0
    requires forall r | r != Nd(Ins(order, r0, id), px) :: Slot(nodes', r, i) == Slot(nodes, r, i)
    requires r0 < p < |hs| && hs[p] > i
    ensures Slot(nodes', Nd(order, p), i) == Some((LinkAt(order, hs, p, i), SpanAt(hs, p, i)))
  {
    NdDistinct(order, p, px);
    assert Nd(Ins(order, r0, id), p + 1) == Nd(order, p);
    assert Nd(Ins(order, r0, id), px) == Nd(order, px);
    assert Ins(hs, r0 + 1, lvl)[p + 1] > i;
    UnCaseAfter(nodes, nodes', order, hs, i, id, lvl, r0, p);
  }

  /** One position of a level the node at r0 + 1 is unlinked from. */
  lemma UnspliceAt(nodes: map<Ref, Node>, nodes': map<Ref, Node>, order: seq<int>, hs: seq<int>,
                   i: int, id: int, lvl: int, px: int, r0: int, p: int)
    requires |hs| == |order| + 1 && 0 <= r0 < |hs| && Distinct(order)
    requires Wired(nodes, Ins(order, r0, id), Ins(hs, r0 + 1, lvl), i) && 0 <= i < lvl
    requires 0 <= px <= r0 && Ins(hs, r0 + 1, lvl)[px] > i && r0 < NextUp(Ins(hs, r0 + 1, lvl), px, i)
    requires i == 0 ==> px == r0
    requires Slot(nodes', Nd(Ins(order, r0, id), px), i) ==
      Some((LinkAt(Ins(order, r0, id), Ins(hs, r0 + 1, lvl), r0 + 1, i),
            SpanAt(Ins(hs, r0 + 1, lvl), px, i) + SpanAt(Ins(hs, r0 + 1, lvl), r0 + 1, i) - 1))
    requires forall r | r != Nd(Ins(order, r0, id), px) :: Slot(nodes', r, i) == Slot(nodes, r, i)
    requires 0 <= p < |hs| && hs[p] > i
    ensures Slot(nodes', Nd(order, p), i) == Some((LinkAt(order, hs, p, i), SpanAt(hs, p, i)))
  {
    PxBeforeDel(hs, i, lvl, px, r0);
    if p == px {
      assert Nd(Ins(order, r0, id), px) == Nd(order, px);
      UnCasePx(nodes', order, hs, i, id, lvl, px, r0);
    } else if p <= r0 {
      UnBeforeAt(nodes, nodes', order, hs, i, id, lvl, px, r0, p);
    } else {
      UnAfterAt(nodes, nodes', order, hs, i, id, lvl, px, r0, p);
    }
  }

  /** Taking out the node at r0 + 1 on a level it reached: with px the last
      position before it on that level, px takes over its link and the sum
      of both spans less one. */
  lemma Unsplice(nodes: map<Ref, Node>, nodes': map<Ref, Node>, order: seq<int>, hs: seq<int>,
                 i: int, id: int, lvl: int, px: int, r0: int)
    requires |hs| == |order| + 1 && 0 <= r0 < |hs| && Distinct(order)
    requires Wired(nodes, Ins(order, r0, id), Ins(hs, r0 + 1, lvl), i) && 0 <= i < lvl
    requires 0 <= px <= r0 && Ins(hs, r0 + 1, lvl)[px] > i && r0 < NextUp(Ins(hs, r0 + 1, lvl), px, i)
    requires i == 0 ==> px == r0
    requires Slot(nodes', Nd(Ins(order, r0, id), px), i) ==
      Some((LinkAt(Ins(order, r0, id), Ins(hs, r0 + 1, lvl), r0 + 1, i),
            SpanAt(Ins(hs, r0 + 1, lvl), px, i) + SpanAt(Ins(hs, r0 + 1, lvl), r0 + 1, i) - 1))
    requires forall r | r != Nd(Ins(order, r0, id), px) :: Slot(nodes', r, i) == Slot(nodes, r, i)
    ensures Wired(nodes', order, hs, i)
  {
    forall p | 0 <= p < |hs| && hs[p] > i
      ensures Slot(nodes', Nd(order, p), i) == Some((LinkAt(order, hs, p, i), SpanAt(hs, p, i)))
    {
      UnspliceAt(nodes, nodes', order, hs, i, id, lvl, px, r0, p);
    }
  }

  /** One position of a level above the node taken out at r0 + 1. */
  lemma StepDownAt(nodes: map<Ref, Node>, nodes': map<Ref, Node>, order: seq<int>, hs: seq<int>,
                   i: int, id: int, lvl: int, px: int, r0: int, p: int)
    requires |hs| == |order| + 1 && 0 <= r0 < |hs| && Distinct(order)
    requires Wired(nodes, Ins(order, r0, id), Ins(hs, r0 + 1, lvl), i) && 1 <= lvl <= i
    requires 0 <= px <= r0 && Ins(hs, r0 + 1, lvl)[px] > i && r0 < NextUp(Ins(hs, r0 + 1, lvl), px, i)
    requires Slot(nodes', Nd(Ins(order, r0, id), px), i) ==
      Some((LinkAt(Ins(order, r0, id), Ins(hs, r0 + 1, lvl), px, i), SpanAt(Ins(hs, r0 + 1, lvl), px, i) - 1))
    requires forall r | r != Nd(Ins(order, r0, id), px) :: Slot(nodes', r, i) == Slot(nodes, r, i)
    requires 0 <= p < |hs| && hs[p] > i
    ensures Slot(nodes', Nd(order, p), i) == Some((LinkAt(order, hs, p, i), SpanAt(hs, p, i)))
  {
    PxBeforeDel(hs, i, lvl, px, r0);
    if p == px {
      assert Nd(Ins(order, r0, id), px) == Nd(order, px);
      UnCasePxOver(nodes', order, hs, i, id, lvl, px, r0);
    } else if p <= r0 {
      UnBeforeAt(nodes, nodes', order, hs, i, id, lvl, px, r0, p);
    } else {
      UnAfterAt(nodes, nodes', order, hs, i, id, lvl, px, r0, p);
    }
  }

  /** Taking out the node at r0 + 1 on a level above its own: the link
      passing over it shrinks by one. */
  lemma StepDown(nodes: map<Ref, Node>, nodes': map<Ref, Node>, order: seq<int>, hs: seq<int>,
                 i: int, id: int, lvl: int, px: int, r0: int)
    requires |hs| == |order| + 1 && 0 <= r0 < |hs| && Distinct(order)
    requires Wired(nodes, Ins(order, r0, id), Ins(hs, r0 + 1, lvl), i) && 1 <= lvl <= i
    requires 0 <= px <= r0 && Ins(hs, r0 + 1, lvl)[px] > i && r0 < NextUp(Ins(hs, r0 + 1, lvl), px, i)
    requires Slot(nodes', Nd(Ins(order, r0, id), px), i) ==
      Some((LinkAt(Ins(order, r0, id), Ins(hs, r0 + 1, lvl), px, i), SpanAt(Ins(hs, r0 + 1, lvl), px, i) - 1))
    requires forall r | r != Nd(Ins(order, r0, id), px) :: Slot(nodes', r, i) == Slot(nodes, r, i)
    ensures Wired(nodes', order, hs, i)
  {
    forall p | 0 <= p < |hs| && hs[p] > i
      ensures Slot(nodes', Nd(order, p), i) == Some((LinkAt(order, hs, p, i), SpanAt(hs, p, i)))
    {
      StepDownAt(nodes, nodes', order, hs, i, id, lvl, px, r0, p);
    }
  }
}
