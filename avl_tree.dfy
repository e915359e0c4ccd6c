/**
 * OrderStatisticAvlTree: an AVL tree ordered by (score descending, id
 * ascending) whose nodes cache their Height and SubtreeCount, so that the
 * k-th key and the rank of a key are found along one root-to-leaf path.
 *
 * Subtrees are values: a node the source updates in place (children,
 * cached fields, the key copied in during a two-child delete) is rebuilt
 * here, and each private static helper that returns the new subtree root
 * becomes a function returning the new subtree.
 */
module OrderStatisticTree {
  import opened Wrappers
  import opened Ordering

  /** Nil stands for a null child; a Node carries the key (CustomerId, Score),
      the two children and the cached Height and SubtreeCount. */
  datatype Tree = Nil | Node(left: Tree, key: Key, right: Tree, height: int, count: int)

  /** `n?.Height ?? 0` */
  function Height(t: Tree): int {
    if t.Nil? then 0 else t.height
  }

  /** `n?.SubtreeCount ?? 0` */
  function Size(t: Tree): int {
    if t.Nil? then 0 else t.count
  }

  /** The keys of a subtree in order (left subtree, node, right subtree). */
  ghost function Elements(t: Tree): seq<Key> {
    match t
    case Nil => []
    case Node(l, k, r, _, _) => Elements(l) + [k] + Elements(r)
  }

  ghost function Keys(t: Tree): set<Key> {
    match t
    case Nil => {}
    case Node(l, k, r, _, _) => Keys(l) + {k} + Keys(r)
  }

  /** Search-tree order under the comparator: everything left of a node ranks
      before it, everything right of it after it. */
  ghost predicate Ordered(t: Tree) {
    match t
    case Nil => true
    case Node(l, k, r, _, _) =>
      && Ordered(l) && Ordered(r)
      && (forall x | x in Keys(l) :: Before(x, k))
      && (forall x | x in Keys(r) :: Before(k, x))
  }

  /** Every node's cached fields agree with its children:
      Height = 1 + max(child heights), SubtreeCount = 1 + left + right. */
  ghost predicate CachesCorrect(t: Tree) {
    match t
    case Nil => true
    case Node(l, _, r, h, c) =>
      && CachesCorrect(l) && CachesCorrect(r)
      && h == 1 + MaxOf(Height(l), Height(r))
      && c == 1 + Size(l) + Size(r)
  }

  /** The AVL condition: child heights differ by at most one at every node. */
  ghost predicate Balanced(t: Tree) {
    match t
    case Nil => true
    case Node(l, _, r, _, _) =>
      Balanced(l) && Balanced(r) && -1 <= Height(l) - Height(r) <= 1
  }

  ghost predicate WellFormed(t: Tree) {
    Ordered(t) && CachesCorrect(t) && Balanced(t)
  }

  function MaxOf(a: int, b: int): int {
    if a < b then b else a
  }

  lemma ElementsAreKeys(t: Tree)
    ensures forall x :: x in Elements(t) <==> x in Keys(t)
  {
  }

  lemma CachedSizes(t: Tree)
    requires CachesCorrect(t)
    ensures Size(t) == |Elements(t)| && 0 <= Height(t)
    ensures t.Node? ==> 1 <= Height(t)
  {
  }

  /** In-order listing of an ordered tree is strictly sorted. */
  lemma {:induction false} OrderedIsSorted(t: Tree)
    requires Ordered(t)
    ensures Sorted(Elements(t))
  {
    if t.Node? {
      OrderedIsSorted(t.left);
      OrderedIsSorted(t.right);
      ElementsAreKeys(t.left);
      ElementsAreKeys(t.right);
      var el, er := Elements(t.left), Elements(t.right);
      var s := Elements(t);
      forall i, j | 0 <= i < j < |s|
        ensures Before(s[i], s[j])
      {
        if j < |el| {
          assert s[i] == el[i] && s[j] == el[j];
        } else if i > |el| {
          assert s[i] == er[i - |el| - 1] && s[j] == er[j - |el| - 1];
        } else if i == |el| {
          assert s[j] == er[j - |el| - 1] && s[j] in Keys(t.right);
        } else if j == |el| {
          assert s[i] == el[i] && s[i] in Keys(t.left);
        } else {
          assert s[i] == el[i] && s[i] in Keys(t.left);
          assert s[j] == er[j - |el| - 1] && s[j] in Keys(t.right);
        }
      }
    }
  }

  // ---- Update, BalanceFactor, rotations, Balance ----

  /** Update(n): recompute n's Height and SubtreeCount from its children. */
  function Update(n: Tree): (r: Tree)
    requires n.Node?
    ensures r.Node? && r.left == n.left && r.key == n.key && r.right == n.right
    ensures CachesCorrect(n.left) && CachesCorrect(n.right) ==> CachesCorrect(r)
  {
    n.(height := 1 + MaxOf(Height(n.left), Height(n.right)),
       count := 1 + Size(n.left) + Size(n.right))
  }

  function BalanceFactor(n: Tree): int
    requires n.Node?
  {
    Height(n.left) - Height(n.right)
  }

  /** RotateRight(y): y's left child x becomes the subtree root; x's right
      subtree moves under y. y is updated first, then x. */
  function RotateRight(y: Tree): (x: Tree)
    requires y.Node? && y.left.Node?
    ensures x.Node? && x.right.Node?
    ensures Elements(x) == Elements(y)
    ensures Keys(x) == Keys(y)
    ensures Ordered(y) ==> Ordered(x)
    ensures CachesCorrect(y.left.left) && CachesCorrect(y.left.right) && CachesCorrect(y.right)
      ==> CachesCorrect(x)
  {
    var x := y.left;
    var lowered := Update(y.(left := x.right));
    var r := Update(x.(right := lowered));
    RotationOrdered(x.left, x.key, x.right, y.key, y.right, x, y, lowered, r);
    r
  }

  /** RotateLeft(x): x's right child y becomes the subtree root; y's left
      subtree moves under x. x is updated first, then y. */
  function RotateLeft(x: Tree): (y: Tree)
    requires x.Node? && x.right.Node?
    ensures y.Node? && y.left.Node?
    ensures Elements(y) == Elements(x)
    ensures Keys(y) == Keys(x)
    ensures Ordered(x) ==> Ordered(y)
    ensures CachesCorrect(x.left) && CachesCorrect(x.right.left) && CachesCorrect(x.right.right)
      ==> CachesCorrect(y)
  {
    var y := x.right;
    var lowered := Update(x.(right := y.left));
    var r := Update(y.(left := lowered));
    RotationOrdered(x.left, x.key, y.left, y.key, y.right, lowered, r, y, x);
    r
  }

  /** The two shapes a rotation converts between, ((a kx b) ky c) and
      (a kx (b ky c)), have the same keys in the same order, and one is
      ordered exactly when the other is, whatever their cached fields. */
  lemma RotationOrdered(a: Tree, kx: Key, b: Tree, ky: Key, c: Tree,
                        leftLow: Tree, leftTop: Tree, rightLow: Tree, rightTop: Tree)
    requires leftLow.Node? && leftLow.left == a && leftLow.key == kx && leftLow.right == b
    requires leftTop.Node? && leftTop.left == leftLow && leftTop.key == ky && leftTop.right == c
    requires rightLow.Node? && rightLow.left == b && rightLow.key == ky && rightLow.right == c
    requires rightTop.Node? && rightTop.left == a && rightTop.key == kx && rightTop.right == rightLow
    ensures Keys(leftTop) == Keys(rightTop) && Elements(leftTop) == Elements(rightTop)
    ensures Ordered(leftTop) <==> Ordered(rightTop)
  {
    assert Elements(leftLow) == Elements(a) + [kx] + Elements(b);
    assert Elements(leftTop) == (Elements(a) + [kx] + Elements(b)) + [ky] + Elements(c);
    assert Elements(rightLow) == Elements(b) + [ky] + Elements(c);
    assert Elements(rightTop) == Elements(a) + [kx] + (Elements(b) + [ky] + Elements(c));
    Reassociate(Elements(a), [kx], Elements(b), [ky], Elements(c));
    LeftShapeOrdered(a, kx, b, ky, c, leftLow, leftTop);
    RightShapeOrdered(a, kx, b, ky, c, rightLow, rightTop);
  }

  lemma Reassociate(p: seq<Key>, q: seq<Key>, r: seq<Key>, s: seq<Key>, t: seq<Key>)
    ensures (p + q + r) + s + t == p + q + (r + s + t)
  {
  }

  /** Three ordered subtrees separated by two keys, in ranking order. */
  ghost predicate Separated(a: Tree, kx: Key, b: Tree, ky: Key, c: Tree) {
    && Ordered(a) && Ordered(b) && Ordered(c) && Before(kx, ky)
    && (forall x | x in Keys(a) :: Before(x, kx))
    && (forall x | x in Keys(b) :: Before(kx, x) && Before(x, ky))
    && (forall x | x in Keys(c) :: Before(ky, x))
  }

  lemma LeftShapeOrdered(a: Tree, kx: Key, b: Tree, ky: Key, c: Tree, low: Tree, top: Tree)
    requires low.Node? && low.left == a && low.key == kx && low.right == b
    requires top.Node? && top.left == low && top.key == ky && top.right == c
    ensures Ordered(top) <==> Separated(a, kx, b, ky, c)
  {
    assert Keys(low) == Keys(a) + {kx} + Keys(b);
    if Separated(a, kx, b, ky, c) {
      forall x | x in Keys(low)
        ensures Before(x, ky)
      {
        if x in Keys(a) { assert Before(x, kx); }
      }
    }
  }

  lemma RightShapeOrdered(a: Tree, kx: Key, b: Tree, ky: Key, c: Tree, low: Tree, top: Tree)
    requires low.Node? && low.left == b && low.key == ky && low.right == c
    requires top.Node? && top.left == a && top.key == kx && top.right == low
    ensures Ordered(top) <==> Separated(a, kx, b, ky, c)
  {
    assert Keys(low) == Keys(b) + {ky} + Keys(c);
    if Separated(a, kx, b, ky, c) {
      forall x | x in Keys(low)
        ensures Before(kx, x)
      {
        if x in Keys(c) { assert Before(ky, x); }
      }
    }
  }

  /** Balance(n): a single or double rotation when the child heights differ
      by more than one; otherwise n itself. */
  function Balance(n: Tree): (r: Tree)
    requires n.Node? && CachesCorrect(n)
    ensures r.Node?
    ensures Elements(r) == Elements(n)
    ensures Keys(r) == Keys(n)
    ensures Ordered(n) ==> Ordered(r)
    ensures CachesCorrect(r)
  {
    CachedSizes(n.left);
    CachedSizes(n.right);
    var bf := BalanceFactor(n);
    if bf > 1 then LeftHeavy(n)
    else if bf < -1 then RightHeavy(n)
    else n
  }

  /** The left-heavy branch of Balance: a left-right case first rotates the
      left child left, then the node is rotated right. */
  function LeftHeavy(n: Tree): (r: Tree)
    requires n.Node? && n.left.Node? && CachesCorrect(n)
    ensures r.Node?
    ensures Elements(r) == Elements(n)
    ensures Keys(r) == Keys(n)
    ensures Ordered(n) ==> Ordered(r)
    ensures CachesCorrect(r)
  {
    var l := n.left;
    assert CachesCorrect(l);
    assert CachesCorrect(l.left) && CachesCorrect(l.right);
    CachedSizes(l.left);
    if BalanceFactor(l) < 0 then
      assert l.right.Node?;
      assert CachesCorrect(l.right.left) && CachesCorrect(l.right.right);
      var l' := RotateLeft(l);
      assert CachesCorrect(l'.left) && CachesCorrect(l'.right);
      RotateRight(n.(left := l'))
    else
      RotateRight(n)
  }

  /** The right-heavy branch of Balance, the mirror image of LeftHeavy. */
  function RightHeavy(n: Tree): (r: Tree)
    requires n.Node? && n.right.Node? && CachesCorrect(n)
    ensures r.Node?
    ensures Elements(r) == Elements(n)
    ensures Keys(r) == Keys(n)
    ensures Ordered(n) ==> Ordered(r)
    ensures CachesCorrect(r)
  {
    var r := n.right;
    assert CachesCorrect(r);
    assert CachesCorrect(r.left) && CachesCorrect(r.right);
    CachedSizes(r.right);
    if BalanceFactor(r) > 0 then
      assert r.left.Node?;
      assert CachesCorrect(r.left.left) && CachesCorrect(r.left.right);
      var r' := RotateRight(r);
      assert CachesCorrect(r'.left) && CachesCorrect(r'.right);
      RotateLeft(n.(right := r'))
    else
      RotateLeft(n)
  }

  /** Rebalancing a node whose children are AVL trees differing in height by
      at most two yields an AVL tree, at most one level lower; a node that
      was already balanced is returned unchanged. */
  lemma BalanceRestores(n: Tree)
    requires n.Node? && CachesCorrect(n)
    requires Balanced(n.left) && Balanced(n.right)
    requires -2 <= BalanceFactor(n) <= 2
    ensures Balanced(Balance(n))
    ensures n.height - 1 <= Height(Balance(n)) <= n.height
    ensures -1 <= BalanceFactor(n) <= 1 ==> Balance(n) == n
  {
    CachedSizes(n.left);
    CachedSizes(n.right);
    if BalanceFactor(n) > 1 {
      if BalanceFactor(n.left) < 0 {
        LeftRightCase(n);
      } else {
        LeftLeftCase(n);
      }
    } else if BalanceFactor(n) < -1 {
      if BalanceFactor(n.right) > 0 {
        RightLeftCase(n);
      } else {
        RightRightCase(n);
      }
    }
  }

  /** Left child two levels higher and not right-heavy: one right rotation. */
  lemma LeftLeftCase(n: Tree)
    requires n.Node? && n.left.Node? && CachesCorrect(n)
    requires Balanced(n.left) && Balanced(n.right)
    requires BalanceFactor(n) == 2 && BalanceFactor(n.left) >= 0
    ensures Balanced(RotateRight(n))
    ensures n.height - 1 <= Height(RotateRight(n)) <= n.height
  {
    var l := n.left;
    CachedSizes(l.left);
    CachedSizes(l.right);
    CachedSizes(n.right);
    var lowered := Update(n.(left := l.right));
    assert RotateRight(n) == Update(l.(right := lowered));
  }

  /** Right child two levels higher and not left-heavy: one left rotation. */
  lemma RightRightCase(n: Tree)
    requires n.Node? && n.right.Node? && CachesCorrect(n)
    requires Balanced(n.left) && Balanced(n.right)
    requires BalanceFactor(n) == -2 && BalanceFactor(n.right) <= 0
    ensures Balanced(RotateLeft(n))
    ensures n.height - 1 <= Height(RotateLeft(n)) <= n.height
  {
    var r := n.right;
    CachedSizes(r.left);
    CachedSizes(r.right);
    CachedSizes(n.left);
    var lowered := Update(n.(right := r.left));
    assert RotateLeft(n) == Update(r.(left := lowered));
  }

  /** Left child two levels higher and right-heavy: rotate the left child
      left, then the node right; the result is one level lower. */
  lemma LeftRightCase(n: Tree)
    requires n.Node? && n.left.Node? && CachesCorrect(n)
    requires Balanced(n.left) && Balanced(n.right)
    requires BalanceFactor(n) == 2 && BalanceFactor(n.left) < 0
    ensures Balanced(Balance(n))
    ensures Height(Balance(n)) == n.height - 1
  {
    var l := n.left;
    CachedSizes(l.left);
    CachedSizes(l.right);
    CachedSizes(n.right);
    var lr := l.right;
    CachedSizes(lr.left);
    CachedSizes(lr.right);
    LeftRightShape(n);
    var a := Update(l.(right := lr.left));
    var b := Update(n.(left := lr.right));
    assert Balanced(a) && Balanced(b) && Height(a) == Height(b) == n.height - 2;
  }

  /** The double rotation of the left-right case, spelled out: (a lr b) with
      a = (l.left l lr.left) and b = (lr.right n n.right). */
  lemma LeftRightShape(n: Tree)
    requires n.Node? && n.left.Node? && CachesCorrect(n)
    requires BalanceFactor(n) > 1 && BalanceFactor(n.left) < 0
    ensures n.left.right.Node?
    ensures var l := n.left; var lr := l.right;
      Balance(n) == Update(Update(lr.(left := Update(l.(right := lr.left)))).(right := Update(n.(left := lr.right))))
  {
    CachedSizes(n.left.left);
    CachedSizes(n.right);
    var l := n.left;
    var lr := l.right;
    var l' := Update(lr.(left := Update(l.(right := lr.left))));
    assert RotateLeft(l) == l';
    assert Balance(n) == LeftHeavy(n) == RotateRight(n.(left := l'));
  }

  /** Right child two levels higher and left-heavy: rotate the right child
      right, then the node left; the result is one level lower. */
  lemma RightLeftCase(n: Tree)
    requires n.Node? && n.right.Node? && CachesCorrect(n)
    requires Balanced(n.left) && Balanced(n.right)
    requires BalanceFactor(n) == -2 && BalanceFactor(n.right) > 0
    ensures Balanced(Balance(n))
    ensures Height(Balance(n)) == n.height - 1
  {
    var r := n.right;
    CachedSizes(r.left);
    CachedSizes(r.right);
    CachedSizes(n.left);
    var rl := r.left;
    CachedSizes(rl.left);
    CachedSizes(rl.right);
    RightLeftShape(n);
    var a := Update(r.(left := rl.right));
    var b := Update(n.(right := rl.left));
    assert Balanced(a) && Balanced(b) && Height(a) == Height(b) == n.height - 2;
  }

  /** The double rotation of the right-left case, spelled out: (b rl a) with
      b = (n.left n rl.left) and a = (rl.right r r.right). */
  lemma RightLeftShape(n: Tree)
    requires n.Node? && n.right.Node? && CachesCorrect(n)
    requires BalanceFactor(n) < -1 && BalanceFactor(n.right) > 0
    ensures n.right.left.Node?
    ensures var r := n.right; var rl := r.left;
      Balance(n) == Update(Update(rl.(right := Update(r.(left := rl.right)))).(left := Update(n.(right := rl.left))))
  {
    CachedSizes(n.right.right);
    CachedSizes(n.left);
    var r := n.right;
    var rl := r.left;
    var r' := Update(rl.(right := Update(r.(left := rl.right))));
    assert RotateRight(r) == r';
    assert Balance(n) == RightHeavy(n) == RotateLeft(n.(right := r'));
  }

  // ---- Insert ----

  /** InsertInternal: descend by the comparator (an equal key goes right),
      attach a new leaf, then Update and Balance every node on the way up. */
  function InsertInternal(t: Tree, k: Key): (r: Tree)
    requires CachesCorrect(t)
    ensures r.Node? && CachesCorrect(r)
    ensures Keys(r) == Keys(t) + {k}
    ensures Size(r) == Size(t) + 1
    ensures Ordered(t) && k !in Keys(t) ==> Ordered(r)
  {
    CachedSizes(t);
    if t.Nil? then Node(Nil, k, Nil, 1, 1)
    else if Compare(k, t.key) < 0 then
      var u := Update(t.(left := InsertInternal(t.left, k)));
      var b := Balance(u);
      CachedSizes(u);
      CachedSizes(b);
      b
    else
      var u := Update(t.(right := InsertInternal(t.right, k)));
      var b := Balance(u);
      CachedSizes(u);
      CachedSizes(b);
      b
  }

  /** Insertion keeps the AVL condition and grows the height by at most one. */
  lemma {:induction false} InsertBalanced(t: Tree, k: Key)
    requires CachesCorrect(t) && Balanced(t)
    ensures Balanced(InsertInternal(t, k))
    ensures Height(t) <= Height(InsertInternal(t, k)) <= Height(t) + 1
  {
    CachedSizes(t);
    if t.Node? {
      CachedSizes(t.left);
      CachedSizes(t.right);
      if Compare(k, t.key) < 0 {
        InsertBalanced(t.left, k);
        BalanceRestores(Update(t.(left := InsertInternal(t.left, k))));
      } else {
        InsertBalanced(t.right, k);
        BalanceRestores(Update(t.(right := InsertInternal(t.right, k))));
      }
    }
  }

  // ---- Remove ----

  /** The key of the leftmost node: the in-order successor source in a
      two-child delete. */
  function MinKey(t: Tree): (m: Key)
    requires t.Node?
    ensures m in Keys(t)
    ensures Ordered(t) ==> forall x | x in Keys(t) && x != m :: Before(m, x)
  {
    if t.left.Nil? then t.key else MinKey(t.left)
  }

  /** MinNode: follow Left links to the leftmost node. */
  method MinNode(t: Tree) returns (m: Key)
    requires t.Node?
    ensures m == MinKey(t)
  {
    var node := t;
    while node.left.Node?
      invariant node.Node? && MinKey(node) == MinKey(t)
      decreases node
    {
      node := node.left;
    }
    m := node.key;
  }

  /** RemoveInternal: find the key; a node with at most one child is replaced
      by that child; a node with two children takes its in-order successor's
      key, and that key is removed from the right subtree. */
  function RemoveInternal(t: Tree, k: Key): (r: Tree)
    requires CachesCorrect(t)
    ensures CachesCorrect(r)
    ensures Keys(r) <= Keys(t)
    ensures Ordered(t) ==> Ordered(r) && Keys(r) == Keys(t) - {k}
  {
    if t.Nil? then Nil
    else
      var cmp := Compare(k, t.key);
      if cmp < 0 then
        var u := Update(t.(left := RemoveInternal(t.left, k)));
        ReplacedChild(t, u, k);
        Balance(u)
      else if cmp > 0 then
        var u := Update(t.(right := RemoveInternal(t.right, k)));
        ReplacedChild(t, u, k);
        Balance(u)
      else if t.left.Nil? then t.right
      else if t.right.Nil? then t.left
      else
        var succ := MinKey(t.right);
        var u := Update(t.(key := succ, right := RemoveInternal(t.right, succ)));
        ReplacedBySuccessor(t, u);
        Balance(u)
  }

  /** Removing k from the one subtree it can lie in removes it from the node. */
  lemma ReplacedChild(t: Tree, u: Tree, k: Key)
    requires t.Node? && u.Node? && u.key == t.key && k != t.key
    requires u.left == t.left || u.right == t.right
    requires Keys(u.left) <= Keys(t.left) && Keys(u.right) <= Keys(t.right)
    requires Ordered(t) ==> Ordered(u.left) && Ordered(u.right)
    requires Ordered(t) ==> Keys(u.left) == Keys(t.left) - {k} && Keys(u.right) == Keys(t.right) - {k}
    ensures Keys(u) <= Keys(t)
    ensures Ordered(t) ==> Ordered(u) && Keys(u) == Keys(t) - {k}
  {
  }

  /** Copying the successor's key into a two-child node and removing it
      from the right subtree removes exactly the node's own key. */
  lemma ReplacedBySuccessor(t: Tree, u: Tree)
    requires t.Node? && t.right.Node? && u.Node? && u.left == t.left
    requires u.key == MinKey(t.right)
    requires Keys(u.right) <= Keys(t.right)
    requires Ordered(t.right) ==> Ordered(u.right) && Keys(u.right) == Keys(t.right) - {u.key}
    ensures Keys(u) <= Keys(t)
    ensures Ordered(t) ==> Ordered(u) && Keys(u) == Keys(t) - {t.key}
  {
    if Ordered(t) {
      assert Before(t.key, u.key);
      forall x | x in Keys(u.left)
        ensures Before(x, u.key)
      {
        assert Before(x, t.key);
      }
    }
  }

  /** Removal keeps the AVL condition and lowers the height by at most one. */
  lemma {:induction false} RemoveBalanced(t: Tree, k: Key)
    requires CachesCorrect(t) && Balanced(t)
    ensures Balanced(RemoveInternal(t, k))
    ensures Height(t) - 1 <= Height(RemoveInternal(t, k)) <= Height(t)
  {
    CachedSizes(t);
    if t.Node? {
      CachedSizes(t.left);
      CachedSizes(t.right);
      var cmp := Compare(k, t.key);
      if cmp < 0 {
        RemoveBalanced(t.left, k);
        BalanceRestores(Update(t.(left := RemoveInternal(t.left, k))));
      } else if cmp > 0 {
        RemoveBalanced(t.right, k);
        BalanceRestores(Update(t.(right := RemoveInternal(t.right, k))));
      } else if t.left.Node? && t.right.Node? {
        var succ := MinKey(t.right);
        RemoveBalanced(t.right, succ);
        BalanceRestores(Update(t.(key := succ, right := RemoveInternal(t.right, succ))));
      }
    }
  }

  /** Removing a key that is not in a well-formed tree returns the very same tree. */
  lemma {:induction false} RemoveAbsentUnchanged(t: Tree, k: Key)
    requires WellFormed(t) && k !in Keys(t)
    ensures RemoveInternal(t, k) == t
  {
    if t.Node? {
      CachedSizes(t.left);
      CachedSizes(t.right);
      if Compare(k, t.key) < 0 {
        RemoveAbsentUnchanged(t.left, k);
        assert Update(t.(left := RemoveInternal(t.left, k))) == t;
        BalanceRestores(t);
      } else {
        RemoveAbsentUnchanged(t.right, k);
        assert Update(t.(right := RemoveInternal(t.right, k))) == t;
        BalanceRestores(t);
      }
    }
  }

  // ---- SelectByRank and GetRank ----

  /** SelectByRankInternal: walk down by subtree counts to the rank-th key. */
  method SelectByRankInternal(t: Tree, rank: int) returns (r: Option<Key>)
    requires CachesCorrect(t)
    ensures 1 <= rank <= |Elements(t)| ==> r == Some(Elements(t)[rank - 1])
    ensures !(1 <= rank <= |Elements(t)|) ==> r == None
  {
    var node, rk := t, rank;
    while node.Node?
      invariant CachesCorrect(node)
      invariant 1 <= rank <= |Elements(t)| ==>
        1 <= rk <= |Elements(node)| && Elements(node)[rk - 1] == Elements(t)[rank - 1]
      invariant !(1 <= rank <= |Elements(t)|) ==> !(1 <= rk <= |Elements(node)|)
      decreases node
    {
      CachedSizes(node.left);
      var leftSize := Size(node.left);
      if rk == leftSize + 1 {
        return Some(node.key);
      }
      if rk <= leftSize {
        node := node.left;
      } else {
        rk := rk - (leftSize + 1);
        node := node.right;
      }
    }
    r := None;
  }

  /** GetRank: walk down by the comparator, adding the left subtree count
      plus one at every step to the right; the key's 1-based rank, or
      NodeNotFound when it is not in the tree. */
  method RankOf(t: Tree, k: Key) returns (r: Result<int>)
    requires CachesCorrect(t) && Ordered(t)
    ensures r.Ok? <==> k in Keys(t)
    ensures r.Ok? ==> 1 <= r.value <= |Elements(t)| && Elements(t)[r.value - 1] == k
    ensures r.Ok? ==> r.value == 1 + CountBefore(Keys(t), k)
    ensures r.Err? ==> r.error == NodeNotFound
  {
    var rank, cur, pre, post := SearchPath(t, k);
    if cur.Nil? {
      NotFound(t, pre, post, k);
      return Err(NodeNotFound);
    }
    CachedSizes(cur.left);
    FoundAt(t, pre, cur, post);
    r := Ok(rank + Size(cur.left) + 1);
  }

  /** The descent loop of GetRank: it stops at the node holding k, or below a
      leaf; `rank` counts the keys left behind on the left, which with the
      keys left behind on the right surround the current subtree. */
  method SearchPath(t: Tree, k: Key) returns (rank: int, cur: Tree, ghost pre: seq<Key>, ghost post: seq<Key>)
    requires CachesCorrect(t) && Ordered(t)
    ensures CachesCorrect(cur) && Ordered(cur)
    ensures Elements(t) == pre + Elements(cur) + post && rank == |pre|
    ensures k !in pre && k !in post
    ensures cur.Node? ==> cur.key == k
  {
    rank, cur := 0, t;
    pre, post := [], [];
    while cur.Node? && Compare(k, cur.key) != 0
      invariant CachesCorrect(cur) && Ordered(cur)
      invariant Elements(t) == pre + Elements(cur) + post
      invariant rank == |pre|
      invariant k !in pre && k !in post
      decreases cur
    {
      CachedSizes(cur.left);
      Descend(cur, k);
      Regroup(pre, Elements(cur.left), cur.key, Elements(cur.right), post);
      if Compare(k, cur.key) < 0 {
        post := [cur.key] + Elements(cur.right) + post;
        cur := cur.left;
      } else {
        pre := pre + Elements(cur.left) + [cur.key];
        rank := rank + Size(cur.left) + 1;
        cur := cur.right;
      }
    }
  }

  /** The block of a node's elements can be split on either side of its key. */
  lemma Regroup(pre: seq<Key>, l: seq<Key>, k: Key, r: seq<Key>, post: seq<Key>)
    ensures pre + (l + [k] + r) + post == pre + l + ([k] + r + post)
    ensures pre + (l + [k] + r) + post == (pre + l + [k]) + r + post
  {
  }

  /** A node's key sits right after its left subtree in any listing that
      holds the node's elements as a block; in a whole ordered tree that
      position is the number of keys ranked before it. */
  lemma FoundAt(t: Tree, pre: seq<Key>, cur: Tree, post: seq<Key>)
    requires Ordered(t) && cur.Node?
    requires Elements(t) == pre + Elements(cur) + post
    ensures |pre| + |Elements(cur.left)| < |Elements(t)|
    ensures Elements(t)[|pre| + |Elements(cur.left)|] == cur.key
    ensures cur.key in Keys(t)
    ensures CountBefore(Keys(t), cur.key) == |pre| + |Elements(cur.left)|
  {
    assert Elements(cur)[|Elements(cur.left)|] == cur.key;
    OrderedIsSorted(t);
    ElementsAreKeys(t);
    PositionIsCountBefore(Elements(t), Keys(t), |pre| + |Elements(cur.left)|);
  }

  /** A key listed in neither block around an empty subtree is not in the tree. */
  lemma NotFound(t: Tree, pre: seq<Key>, post: seq<Key>, k: Key)
    requires Elements(t) == pre + Elements(Nil) + post
    requires k !in pre && k !in post
    ensures k !in Keys(t)
  {
    ElementsAreKeys(t);
  }

  /** In an ordered node, a key other than the node's own lies only on the
      side the comparator sends it to. */
  lemma Descend(t: Tree, k: Key)
    requires t.Node? && Ordered(t) && k != t.key
    ensures Before(k, t.key) ==> k !in [t.key] + Elements(t.right)
    ensures Before(t.key, k) ==> k !in Elements(t.left) + [t.key]
  {
    ElementsAreKeys(t.left);
    ElementsAreKeys(t.right);
  }

  /** The rank-th key and the rank of a key invert each other. */
  lemma SelectRankRoundTrip(t: Tree, rank: int, k: Key)
    requires Ordered(t) && 1 <= rank <= |Elements(t)|
    ensures Elements(t)[rank - 1] == k <==> k in Keys(t) && forall j | 0 <= j < |Elements(t)| && Elements(t)[j] == k :: j == rank - 1
  {
    OrderedIsSorted(t);
    ElementsAreKeys(t);
    var s := Elements(t);
    if s[rank - 1] == k {
      forall j | 0 <= j < |s| && s[j] == k
        ensures j == rank - 1
      {
        SortedDistinct(s, j, rank - 1);
      }
    }
  }

  // ---- The tree object ----

  /** OrderStatisticAvlTree: the root of a well-formed tree. A node handle
      is the key (CustomerId, Score) it carries, which is all Remove and
      GetRank read from it. */
  class OrderStatisticAvlTree {
    var root: Tree

    ghost predicate Valid()
      reads this
    {
      WellFormed(root)
    }

    constructor ()
      ensures Valid() && root == Nil
    {
      root := Nil;
    }

    /** Count: the root's SubtreeCount, or 0 for the empty tree. */
    function Count(): (n: int)
      reads this
      requires Valid()
      ensures n == |Elements(root)| == |Keys(root)|
    {
      CachedSizes(root);
      OrderedIsSorted(root);
      ElementsAreKeys(root);
      DistinctCount(Elements(root), Keys(root));
      Size(root)
    }

    method Insert(customerId: int, score: int) returns (node: Key)
      requires Valid() && Key(customerId, score) !in Keys(root)
      modifies this
      ensures Valid()
      ensures node == Key(customerId, score)
      ensures Keys(root) == old(Keys(root)) + {node}
      ensures Count() == old(Count()) + 1
    {
      node := Key(customerId, score);
      InsertBalanced(root, node);
      root := InsertInternal(root, node);
    }

    method Remove(node: Key)
      requires Valid()
      modifies this
      ensures Valid()
      ensures Keys(root) == old(Keys(root)) - {node}
      ensures node !in old(Keys(root)) ==> root == old(root)
    {
      RemoveBalanced(root, node);
      if node !in Keys(root) {
        RemoveAbsentUnchanged(root, node);
      }
      root := RemoveInternal(root, node);
    }

    method SelectByRank(rank: int) returns (r: Option<Key>)
      requires Valid()
      ensures 1 <= rank <= |Elements(root)| ==> r == Some(Elements(root)[rank - 1])
      ensures !(1 <= rank <= |Elements(root)|) ==> r == None
    {
      if rank <= 0 || rank > Count() {
        return None;
      }
      r := SelectByRankInternal(root, rank);
    }

    method GetRank(node: Key) returns (r: Result<int>)
      requires Valid()
      ensures r.Ok? <==> node in Keys(root)
      ensures r.Ok? ==> 1 <= r.value <= |Elements(root)| && Elements(root)[r.value - 1] == node
      ensures r.Ok? ==> r.value == 1 + CountBefore(Keys(root), node)
      ensures r.Err? ==> r.error == NodeNotFound
    {
      r := RankOf(root, node);
    }
  }
}
