/**
 * The leaderboard service whose AVL tree keeps parent links: a ledger of
 * cumulative scores and a tree of the ids whose score is above zero. Range
 * and neighbour queries select the first rank, then step from node to node
 * with an in-order Successor that climbs through parent links.
 *
 * The tree is the value tree of OrderStatisticTree; a node reached with its
 * parent links is a Cursor: the subtree rooted at the node together with the
 * frames of its ancestors, each frame holding what the parent keeps besides
 * the link to this child.
 */
module ParentLinkedService {
  import opened Wrappers
  import opened Ordering
  import opened Ledger
  import opened OrderStatisticTree

  // ---- Insert with an equal key kept ----

  /** Insert: descend by the comparator; an equal key is left in place, and
      every node on the way up is recalculated and balanced. */
  function InsertKeep(t: Tree, k: Key): (r: Tree)
    requires CachesCorrect(t)
    ensures r.Node? && CachesCorrect(r)
    ensures Keys(r) == Keys(t) + {k}
    ensures Ordered(t) ==> Ordered(r)
  {
    if t.Nil? then Node(Nil, k, Nil, 1, 1)
    else
      var cmp := Compare(k, t.key);
      if cmp < 0 then Balance(Update(t.(left := InsertKeep(t.left, k))))
      else if cmp > 0 then Balance(Update(t.(right := InsertKeep(t.right, k))))
      else Balance(Update(t))
  }

  /** On a well-formed tree, InsertKeep is the plain insertion of an absent
      key and leaves the tree as it is when the key is present. */
  lemma {:induction false} InsertKeepMatches(t: Tree, k: Key)
    requires WellFormed(t)
    ensures InsertKeep(t, k) == if k in Keys(t) then t else InsertInternal(t, k)
  {
    if t.Node? {
      CachedSizes(t.left);
      CachedSizes(t.right);
      assert Update(t) == t;
      var cmp := Compare(k, t.key);
      if cmp < 0 {
        InsertKeepMatches(t.left, k);
        assert k in Keys(t) <==> k in Keys(t.left);
        if k in Keys(t.left) {
          BalanceRestores(t);
        }
      } else if cmp > 0 {
        InsertKeepMatches(t.right, k);
        assert k in Keys(t) <==> k in Keys(t.right);
        if k in Keys(t.right) {
          BalanceRestores(t);
        }
      } else {
        BalanceRestores(t);
      }
    }
  }

  // ---- Cursors: a node with its parent links ----

  /** What a parent keeps besides the link to the child on the path. */
  datatype Frame =
    | LeftChildOf(key: Key, right: Tree, height: int, count: int)
    | RightChildOf(left: Tree, key: Key, height: int, count: int)

  /** A node reached with its parent links: the subtree rooted at the node
      and its ancestors' frames, the parent's frame last. */
  datatype Cursor = Cursor(focus: Tree, path: seq<Frame>)

  /** The parent node rebuilt around its child. */
  function Attach(t: Tree, f: Frame): Tree {
    match f
    case LeftChildOf(k, r, h, c) => Node(t, k, r, h, c)
    case RightChildOf(l, k, h, c) => Node(l, k, t, h, c)
  }

  /** The whole tree rebuilt from a subtree and the frames above it. */
  function Plug(t: Tree, path: seq<Frame>): Tree
    decreases |path|
  {
    if path == [] then t else Plug(Attach(t, path[|path| - 1]), path[..|path| - 1])
  }

  /** The keys the path leaves on the left of the subtree, in order. */
  ghost function Pre(path: seq<Frame>): seq<Key>
    decreases |path|
  {
    if path == [] then []
    else
      var f := path[|path| - 1];
      Pre(path[..|path| - 1]) + (if f.RightChildOf? then Elements(f.left) + [f.key] else [])
  }

  /** The keys the path leaves on the right of the subtree, in order. */
  ghost function Post(path: seq<Frame>): seq<Key>
    decreases |path|
  {
    if path == [] then []
    else
      var f := path[|path| - 1];
      (if f.LeftChildOf? then [f.key] + Elements(f.right) else []) + Post(path[..|path| - 1])
  }

  /** The whole tree lists the left-behind keys, the subtree, then the
      right-behind keys. */
  lemma {:induction false} PlugElements(t: Tree, path: seq<Frame>)
    ensures Elements(Plug(t, path)) == Pre(path) + Elements(t) + Post(path)
    decreases |path|
  {
    if path != [] {
      var f, rest := path[|path| - 1], path[..|path| - 1];
      PlugElements(Attach(t, f), rest);
      if f.LeftChildOf? {
        assert Elements(Attach(t, f)) == Elements(t) + ([f.key] + Elements(f.right));
      } else {
        assert Elements(Attach(t, f)) == (Elements(f.left) + [f.key]) + Elements(t);
      }
    }
  }

  /** The cursor stands on a node of `root`. */
  ghost predicate At(c: Cursor, root: Tree) {
    c.focus.Node? && Plug(c.focus, c.path) == root
  }

  /** The 0-based position of the cursor's node in the in-order listing. */
  ghost function Position(c: Cursor): int
    requires c.focus.Node?
  {
    |Pre(c.path)| + |Elements(c.focus.left)|
  }

  /** The cursor's node is the key at its position. */
  lemma AtKey(c: Cursor, root: Tree)
    requires At(c, root)
    ensures 0 <= Position(c) < |Elements(root)|
    ensures Elements(root)[Position(c)] == c.focus.key
  {
    PlugElements(c.focus, c.path);
    assert Elements(c.focus) == Elements(c.focus.left) + [c.focus.key] + Elements(c.focus.right);
  }

  /** Going down to a child pushes the parent's frame. */
  lemma PlugDown(t: Tree, path: seq<Frame>)
    requires t.Node?
    ensures Plug(t.left, path + [LeftChildOf(t.key, t.right, t.height, t.count)]) == Plug(t, path)
    ensures Plug(t.right, path + [RightChildOf(t.left, t.key, t.height, t.count)]) == Plug(t, path)
    ensures Pre(path + [LeftChildOf(t.key, t.right, t.height, t.count)]) == Pre(path)
    ensures Pre(path + [RightChildOf(t.left, t.key, t.height, t.count)]) == Pre(path) + Elements(t.left) + [t.key]
  {
    assert (path + [LeftChildOf(t.key, t.right, t.height, t.count)])[..|path|] == path;
    assert (path + [RightChildOf(t.left, t.key, t.height, t.count)])[..|path|] == path;
  }

  /** SelectByRank: walk down by subtree counts, keeping the parent links;
      the cursor on the rank-th node, or None outside 1..Count. */
  method SelectByRank(root: Tree, rank: int) returns (c: Option<Cursor>)
    requires CachesCorrect(root)
    ensures 1 <= rank <= |Elements(root)| ==> c.Some? && At(c.value, root) && Position(c.value) == rank - 1
    ensures !(1 <= rank <= |Elements(root)|) ==> c == None
  {
    var node, rk := root, rank;
    var path: seq<Frame> := [];
    while node.Node?
      invariant CachesCorrect(node) && Plug(node, path) == root
      invariant 1 <= rank <= |Elements(root)| ==> 1 <= rk <= |Elements(node)| && |Pre(path)| + rk == rank
      invariant !(1 <= rank <= |Elements(root)|) ==> !(1 <= rk <= |Elements(node)|)
      decreases node
    {
      CachedSizes(node.left);
      PlugDown(node, path);
      var leftSize := Size(node.left);
      if rk == leftSize + 1 {
        return Some(Cursor(node, path));
      }
      if rk < leftSize + 1 {
        path := path + [LeftChildOf(node.key, node.right, node.height, node.count)];
        node := node.left;
      } else {
        rk := rk - (leftSize + 1);
        path := path + [RightChildOf(node.left, node.key, node.height, node.count)];
        node := node.right;
      }
    }
    c := None;
  }

  /** Successor: the leftmost node of the right subtree when there is one;
      otherwise climb while coming up from a right child, and the parent
      reached from a left child is next (none past the last node). */
  method Successor(c: Cursor, ghost root: Tree) returns (next: Option<Cursor>)
    requires At(c, root)
    ensures next.Some? <==> Position(c) + 1 < |Elements(root)|
    ensures next.Some? ==> At(next.value, root) && Position(next.value) == Position(c) + 1
  {
    PlugElements(c.focus, c.path);
    var focus := c.focus;
    assert Elements(focus) == Elements(focus.left) + [focus.key] + Elements(focus.right);
    if focus.right.Node? {
      PlugDown(focus, c.path);
      var cur := focus.right;
      var path := c.path + [RightChildOf(focus.left, focus.key, focus.height, focus.count)];
      while cur.left.Node?
        invariant cur.Node? && Plug(cur, path) == root
        invariant Pre(path) == Pre(c.path) + Elements(focus.left) + [focus.key]
        decreases cur
      {
        PlugDown(cur, path);
        path := path + [LeftChildOf(cur.key, cur.right, cur.height, cur.count)];
        cur := cur.left;
      }
      return Some(Cursor(cur, path));
    }
    var child, path := focus, c.path;
    while path != [] && path[|path| - 1].RightChildOf?
      invariant Plug(child, path) == root
      invariant Pre(path) + Elements(child) == Pre(c.path) + Elements(focus)
      invariant Post(path) == Post(c.path)
      decreases |path|
    {
      var f := path[|path| - 1];
      assert Elements(Attach(child, f)) == Elements(f.left) + [f.key] + Elements(child);
      child := Attach(child, f);
      path := path[..|path| - 1];
    }
    if path == [] {
      return None;
    }
    var f := path[|path| - 1];
    assert Elements(Attach(child, f)) == Elements(child) + [f.key] + Elements(f.right);
    next := Some(Cursor(Attach(child, f), path[..|path| - 1]));
  }

  /** The shared walk of GetRange and GetWithNeighbors: select the first
      rank, then emit an entry and step to the successor up to the last. */
  method Walk(root: Tree, start: int, end: int) returns (list: seq<Entry>)
    requires CachesCorrect(root) && 1 <= start <= end <= |Elements(root)|
    ensures list == Window(Elements(root), start, end)
  {
    var node := SelectByRank(root, start);
    var current := start;
    list := [];
    while node.Some? && current <= end
      invariant start <= current <= end + 1
      invariant node.Some? ==> At(node.value, root) && Position(node.value) == current - 1
      invariant node.None? ==> current - 1 == |Elements(root)|
      invariant list == Window(Elements(root), start, current - 1)
      decreases end - current
    {
      var c := node.value;
      AtKey(c, root);
      WindowGrows(Elements(root), start, current);
      list := list + [Entry(c.focus.key.id, c.focus.key.score, current)];
      node := Successor(c, root);
      current := current + 1;
    }
  }

  /** Taking a key out keeps the tree well formed. */
  lemma RemoveStep(t: Tree, k: Key)
    requires WellFormed(t)
    ensures WellFormed(RemoveInternal(t, k)) && Keys(RemoveInternal(t, k)) == Keys(t) - {k}
  {
    RemoveBalanced(t, k);
  }

  /** Putting a key in keeps the tree well formed, whether or not it was
      already there. */
  lemma InsertStep(t: Tree, k: Key)
    requires WellFormed(t)
    ensures WellFormed(InsertKeep(t, k)) && Keys(InsertKeep(t, k)) == Keys(t) + {k}
  {
    InsertKeepMatches(t, k);
    if k !in Keys(t) {
      InsertBalanced(t, k);
    }
  }

  /** A well-formed tree holding a ledger's active keys lists its board. */
  lemma TreeBoard(root: Tree, scores: map<int, int>)
    requires WellFormed(root) && Keys(root) == ActiveKeys(scores)
    ensures Elements(root) == Board(scores)
  {
    OrderedIsSorted(root);
    ElementsAreKeys(root);
    SortedIsRanked(Elements(root), ActiveKeys(scores));
  }

  /** Two well-formed trees over the ledger before and after a zero delta
      list the same keys in the same order. */
  lemma ZeroDeltaTree(before: Tree, after: Tree, scores: map<int, int>, id: int)
    requires WellFormed(before) && Keys(before) == ActiveKeys(scores)
    requires WellFormed(after) && Keys(after) == ActiveKeys(scores[id := ScoreOf(scores, id) + 0])
    ensures Elements(after) == Elements(before)
  {
    ZeroDeltaKeepsBoard(scores, id);
    TreeBoard(before, scores);
    TreeBoard(after, scores[id := ScoreOf(scores, id) + 0]);
  }

  /** The service: the ledger `_scores` and the tree `_root` of the ids
      whose score is above zero. */
  class LeaderboardService {
    var root: Tree
    var scores: map<int, int>

    ghost predicate Valid()
      reads this
    {
      WellFormed(root) && Keys(root) == ActiveKeys(scores)
    }

    constructor ()
      ensures Valid() && root == Nil && scores == map[]
    {
      root := Nil;
      scores := map[];
    }

    /** UpdateScore: reject a delta outside ±1000 before any change; store
        old + delta (old defaults to 0); take out the old key when the old
        score was above zero and put in the new key when the new one is; a
        zero delta leaves the ranking as it was. */
    method UpdateScore(customerId: int, delta: int) returns (r: Result<int>)
      requires Valid()
      modifies this
      ensures Valid() && Elements(root) == Board(scores)
      ensures !DeltaInRange(delta) ==>
        r == Err(ArgumentOutOfRange) && root == old(root) && scores == old(scores)
      ensures DeltaInRange(delta) ==>
        r == Ok(ScoreOf(old(scores), customerId) + delta) &&
        scores == old(scores)[customerId := r.value]
      ensures delta == 0 ==> Elements(root) == old(Elements(root))
    {
      ghost var root0, scores0 := root, scores;
      if !DeltaInRange(delta) {
        TreeBoard(root, scores);
        return Err(ArgumentOutOfRange);
      }
      var oldScore := ScoreOf(scores, customerId);
      var newScore := oldScore + delta;
      ActiveKeysUpdate(scores, customerId, newScore);
      ghost var removed := ActiveKeys(scores) - {Key(customerId, oldScore)};
      scores := scores[customerId := newScore];
      if oldScore > 0 {
        RemoveStep(root, Key(customerId, oldScore));
        root := RemoveInternal(root, Key(customerId, oldScore));
      } else {
        assert Key(customerId, oldScore) !in Keys(root);
      }
      assert WellFormed(root) && Keys(root) == removed;
      if newScore > 0 {
        InsertStep(root, Key(customerId, newScore));
        root := InsertKeep(root, Key(customerId, newScore));
      }
      assert Keys(root) == ActiveKeys(scores);
      TreeBoard(root, scores);
      if delta == 0 {
        ZeroDeltaTree(root0, root, scores0, customerId);
      }
      r := Ok(newScore);
    }

    /** GetRange: reject startRank < 1 or endRank < startRank; empty for an
        empty tree or a start past the population; otherwise ranks start..
        endRank, with endRank cut down to the population. */
    method GetRange(startRank: int, endRank: int) returns (r: Result<seq<Entry>>)
      requires Valid()
      ensures startRank < 1 || endRank < startRank ==> r == Err(InvalidArgument)
      ensures 1 <= startRank <= endRank ==> r == Ok(Window(Elements(root), startRank, endRank))
    {
      if startRank < 1 || endRank < startRank {
        return Err(InvalidArgument);
      }
      CachedSizes(root);
      if root.Nil? {
        return Ok([]);
      }
      var total := root.count;
      if startRank > total {
        return Ok([]);
      }
      var end := endRank;
      if end > total {
        WindowStops(Elements(root), startRank, endRank);
        end := total;
      }
      var list := Walk(root, startRank, end);
      r := Ok(list);
    }

    /** GetRank(customerId, score): the 1-based rank of the key, or -1 when
        the tree does not hold it. */
    method GetRank(customerId: int, score: int) returns (rank: int)
      requires Valid()
      ensures Key(customerId, score) in Keys(root) ==>
        rank == 1 + CountBefore(Keys(root), Key(customerId, score)) &&
        1 <= rank <= |Elements(root)| && Elements(root)[rank - 1] == Key(customerId, score)
      ensures Key(customerId, score) !in Keys(root) ==> rank == -1
    {
      var r := RankOf(root, Key(customerId, score));
      rank := if r.Ok? then r.value else -1;
    }

    /** The rank of an active id: one more than the number of active keys
        ranked before its key. */
    ghost function RankOfId(customerId: int): int
      reads this
      requires customerId in scores
    {
      1 + CountBefore(Keys(root), Key(customerId, scores[customerId]))
    }

    /** GetWithNeighbors: reject negative high or low; None for an unknown id
        or one whose score is not above zero; otherwise the ranks
        max(1, rank - high) .. rank + low, cut down to the population. */
    method GetWithNeighbors(customerId: int, high: int, low: int) returns (r: Result<Option<seq<Entry>>>)
      requires Valid()
      ensures high < 0 || low < 0 ==> r == Err(ArgumentOutOfRange)
      ensures 0 <= high && 0 <= low && !(customerId in scores && scores[customerId] > 0) ==> r == Ok(None)
      ensures 0 <= high && 0 <= low && customerId in scores && scores[customerId] > 0 ==>
        var rank := RankOfId(customerId);
        && 1 <= rank <= |Elements(root)|
        && r == Ok(Some(Window(Elements(root), Max(1, rank - high), rank + low)))
        && EntryAt(Elements(root), rank) in r.value.value
        && EntryAt(Elements(root), rank).customerId == customerId
    {
      if high < 0 || low < 0 {
        return Err(ArgumentOutOfRange);
      }
      if customerId !in scores || scores[customerId] <= 0 {
        return Ok(None);
      }
      var score := scores[customerId];
      assert Key(customerId, score) in ActiveKeys(scores);
      var rank := GetRank(customerId, score);
      var startRank := Max(1, rank - high);
      var endRank := rank + low;
      CachedSizes(root);
      var total := Size(root);
      WindowHasCentre(Elements(root), rank, high, low);
      if endRank > total {
        WindowStops(Elements(root), startRank, endRank);
        endRank := total;
      }
      var list := Walk(root, startRank, endRank);
      r := Ok(Some(list));
    }
  }
}
