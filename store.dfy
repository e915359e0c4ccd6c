/**
 * InMemoryLeaderboardStore: a score ledger, an order-statistics tree of the
 * active customers, and the map from each active id to its tree node.
 * A customer is active when their score is above zero; RefreshActive is the
 * four-way policy that keeps the tree equal to that set.
 */
module LeaderboardStore {
  import opened Wrappers
  import opened Ordering
  import opened Ledger
  import opened OrderStatisticTree

  /** The index invariant: `_active` maps each id to the key of its node,
      and the tree holds exactly the keys `_active` maps to. */
  ghost predicate Indexed(active: map<int, Key>, root: Tree) {
    && WellFormed(root)
    && (forall id | id in active :: active[id].id == id && active[id] in Keys(root))
    && (forall k | k in Keys(root) :: k.id in active && active[k.id] == k)
  }

  /** The index agrees with the ledger: an id is active exactly when its
      score is above zero, and then under the key carrying that score. */
  ghost predicate Reconciled(scores: map<int, int>, active: map<int, Key>) {
    forall id ::
      && (id in active <==> id in scores && scores[id] > 0)
      && (id in active ==> active[id] == Key(id, scores[id]))
  }

  /** An index reconciled with a ledger lists exactly that ledger's board. */
  lemma ReconciledBoard(scores: map<int, int>, active: map<int, Key>, root: Tree)
    requires Indexed(active, root) && Reconciled(scores, active)
    ensures Keys(root) == ActiveKeys(scores)
    ensures Elements(root) == Board(scores)
  {
    forall k
      ensures k in Keys(root) <==> k in ActiveKeys(scores)
    {
      if k in ActiveKeys(scores) {
        var id :| id in scores && scores[id] > 0 && k == Key(id, scores[id]);
        assert id in active;
      }
    }
    OrderedIsSorted(root);
    ElementsAreKeys(root);
    SortedIsRanked(Elements(root), ActiveKeys(scores));
  }

  /** Applying RefreshActive's outcome after a ledger write keeps the index
      reconciled with the ledger. */
  lemma RefreshReconciles(scores: map<int, int>, active: map<int, Key>, id: int, newScore: int)
    requires Reconciled(scores, active)
    ensures Reconciled(scores[id := newScore],
                       if newScore > 0 then active[id := Key(id, newScore)] else active - {id})
  {
  }

  /** No key of an inactive id is in an indexed tree. */
  lemma InactiveAbsent(active: map<int, Key>, root: Tree, id: int, score: int)
    requires Indexed(active, root) && id !in active
    ensures Key(id, score) !in Keys(root)
  {
  }

  /** Dropping an id together with its node keeps the index. */
  lemma IndexedRemove(active: map<int, Key>, root: Tree, root': Tree, id: int)
    requires Indexed(active, root) && id in active
    requires WellFormed(root') && Keys(root') == Keys(root) - {active[id]}
    ensures Indexed(active - {id}, root')
  {
  }

  /** Adding an id together with a node for it keeps the index. */
  lemma IndexedInsert(active: map<int, Key>, root: Tree, root': Tree, k: Key)
    requires Indexed(active, root) && k.id !in active
    requires WellFormed(root') && Keys(root') == Keys(root) + {k}
    ensures Indexed(active[k.id := k], root')
  {
  }

  /** Distinct keys with distinct ids: as many ids as keys. */
  lemma {:induction false} IdsCount(keys: set<Key>, active: map<int, Key>)
    requires forall k | k in keys :: k.id in active && active[k.id] == k
    requires forall id | id in active :: active[id].id == id && active[id] in keys
    ensures |active| == |keys|
    decreases |keys|
  {
    if keys == {} {
      assert forall id :: id !in active;
      assert active == map[];
    } else {
      var k :| k in keys;
      var rest := active - {k.id};
      forall k' | k' in keys - {k}
        ensures k'.id in rest && rest[k'.id] == k'
      {
        assert k'.id != k.id;
      }
      IdsCount(keys - {k}, rest);
      assert active.Keys == rest.Keys + {k.id};
    }
  }

  class InMemoryLeaderboardStore {
    var scores: map<int, int>
    var active: map<int, Key>
    const tree: OrderStatisticAvlTree

    ghost predicate Valid()
      reads this, tree
    {
      Indexed(active, tree.root)
    }

    /** The ledger and the index agree, as they do after every update that
        a service completes. */
    ghost predicate Synced()
      reads this, tree
    {
      Valid() && Reconciled(scores, active)
    }

    /** The active keys in rank order. */
    ghost function Listing(): seq<Key>
      reads this, tree
    {
      Elements(tree.root)
    }

    /** The rank of an id: one more than the number of active keys ranked
        before its key, or 0 for an inactive id. */
    ghost function Rank(customerId: int): int
      reads this, tree
    {
      if customerId in active then 1 + CountBefore(Keys(tree.root), active[customerId]) else 0
    }

    constructor ()
      ensures Synced() && fresh(tree)
      ensures scores == map[] && active == map[] && Listing() == []
    {
      scores := map[];
      active := map[];
      tree := new OrderStatisticAvlTree();
    }

    /** UpdateScore: upsert the cumulative score (old + delta, or delta for
        a new id) and return it; no clamping, and the index is not touched. */
    method UpdateScore(customerId: int, delta: int) returns (newScore: int)
      modifies this
      ensures newScore == ScoreOf(old(scores), customerId) + delta
      ensures scores == old(scores)[customerId := newScore]
      ensures active == old(active)
    {
      newScore := ScoreOf(scores, customerId) + delta;
      scores := scores[customerId := newScore];
    }

    /** TryGetScore: whether the ledger has the id, and its score (the
        default 0 when it has not). */
    method TryGetScore(customerId: int) returns (found: bool, score: int)
      ensures found <==> customerId in scores
      ensures found ==> score == scores[customerId]
      ensures !found ==> score == 0
    {
      found := customerId in scores;
      score := if found then scores[customerId] else 0;
    }

    /** ActiveCount: the tree's Count, which is the number of active ids. */
    function ActiveCount(): (n: int)
      reads this, tree
      requires Valid()
      ensures n == |Listing()| == |active|
    {
      IdsCount(Keys(tree.root), active);
      tree.Count()
    }

    /** RefreshActive: remove the node of an active id whose new score is not
        above zero; insert a node for an inactive id whose score is; replace
        the node of an active id that stays active; otherwise do nothing. */
    method RefreshActive(customerId: int, newScore: int)
      requires Valid()
      modifies this, tree
      ensures Valid()
      ensures scores == old(scores)
      ensures newScore > 0 ==> active == old(active)[customerId := Key(customerId, newScore)]
      ensures newScore <= 0 ==> active == old(active) - {customerId}
    {
      var isActive := customerId in active;
      var shouldBe := newScore > 0;
      if isActive && !shouldBe {
        Evict(customerId);
      } else if !isActive && shouldBe {
        Admit(customerId, newScore);
      } else if isActive && shouldBe {
        Evict(customerId);
        Admit(customerId, newScore);
      }
    }

    /** `_tree.Remove(node); _active.Remove(customerId)` for an active id. */
    method Evict(customerId: int)
      requires Valid() && customerId in active
      modifies this, tree
      ensures Valid()
      ensures scores == old(scores) && active == old(active) - {customerId}
    {
      var node := active[customerId];
      ghost var root := tree.root;
      tree.Remove(node);
      IndexedRemove(active, root, tree.root, customerId);
      active := active - {customerId};
    }

    /** `_active[customerId] = _tree.Insert(customerId, score)` for an
        inactive id. */
    method Admit(customerId: int, score: int)
      requires Valid() && customerId !in active
      modifies this, tree
      ensures Valid()
      ensures scores == old(scores) && active == old(active)[customerId := Key(customerId, score)]
    {
      InactiveAbsent(active, tree.root, customerId, score);
      ghost var root := tree.root;
      var n := tree.Insert(customerId, score);
      IndexedInsert(active, root, tree.root, n);
      active := active[customerId := n];
    }

    /** GetByRank: the entry at a 1-based rank, or None outside 1..Count. */
    method GetByRank(rank: int) returns (e: Option<Entry>)
      requires Valid()
      ensures 1 <= rank <= |Listing()| ==> e == Some(EntryAt(Listing(), rank))
      ensures !(1 <= rank <= |Listing()|) ==> e == None
    {
      var node := tree.SelectByRank(rank);
      if node.None? {
        return None;
      }
      e := Some(Entry(node.value.id, node.value.score, rank));
    }

    /** GetRank: 0 for an inactive id, otherwise the tree rank of its node. */
    method GetRank(customerId: int) returns (rank: int)
      requires Valid()
      ensures rank == Rank(customerId)
      ensures customerId !in active ==> rank == 0
      ensures customerId in active ==>
        1 <= rank <= |Listing()| && Listing()[rank - 1] == active[customerId]
    {
      if customerId !in active {
        return 0;
      }
      var r := tree.GetRank(active[customerId]);
      rank := r.value;
    }
  }
}
