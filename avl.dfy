/**
 * The generic AVL tree of allocator.rs (`AVLTree<K, V>` and its `Node`).
 * Keys are integers (the only instantiation in the program is `usize`).
 * The recursive helpers that rebuild subtrees are pure functions over the
 * `Tree` datatype; the `AVLTree` struct itself is the class `AvlTree`, whose
 * methods replace its `root` field.
 */
module Avl {
  import opened Wrappers

  /** `Option<Box<Node<K, V>>>`: an empty subtree or a node with its stored height. */
  datatype Tree<V> = Empty | Node(key: int, value: V, height: int, left: Tree<V>, right: Tree<V>)

  function Max(a: int, b: int): int { if a < b then b else a }

  /** `AVLTree::height`: the height stored in a node, -1 for an empty subtree. */
  function Height<V>(t: Tree<V>): int {
    match t
    case Empty => -1
    case Node(_, _, h, _, _) => h
  }

  /** The key/value pairs of a tree read left to right. */
  function InOrder<V>(t: Tree<V>): seq<(int, V)> {
    match t
    case Empty => []
    case Node(k, v, _, l, r) => InOrder(l) + [(k, v)] + InOrder(r)
  }

  /** The finite map a tree represents (on an ordered tree every key occurs once). */
  function Contents<V>(t: Tree<V>): map<int, V> {
    match t
    case Empty => map[]
    case Node(k, v, _, l, r) => Contents(l) + map[k := v] + Contents(r)
  }

  /** Binary-search-tree ordering: left keys below the node's key, right keys above. */
  ghost predicate Ordered<V>(t: Tree<V>) {
    match t
    case Empty => true
    case Node(k, _, _, l, r) =>
      && Ordered(l) && Ordered(r)
      && (forall x :: x in Contents(l) ==> x < k)
      && (forall x :: x in Contents(r) ==> k < x)
  }

  /** Every stored height is 1 + the larger child height, and sibling heights differ by at most one. */
  ghost predicate Balanced<V>(t: Tree<V>) {
    match t
    case Empty => true
    case Node(_, _, h, l, r) =>
      && Balanced(l) && Balanced(r)
      && h == 1 + Max(Height(l), Height(r))
      && -1 <= Height(l) - Height(r) <= 1
  }

  /** The invariant every tree built by `insert` and `remove` keeps. */
  ghost predicate IsAvl<V>(t: Tree<V>) {
    Ordered(t) && Balanced(t)
  }

  lemma BalancedHeight<V>(t: Tree<V>)
    requires Balanced(t)
    ensures Height(t) >= -1
    ensures t.Node? ==> Height(t) >= 0
  {
    if t.Node? {
      BalancedHeight(t.left);
      BalancedHeight(t.right);
    }
  }

  /** The number of edges on the longest path from the root down to a leaf, -1 for an empty tree. */
  function Depth<V>(t: Tree<V>): int {
    match t
    case Empty => -1
    case Node(_, _, _, l, r) => 1 + Max(Depth(l), Depth(r))
  }

  /** In a balanced tree the height `height` reads from a node is the length of its longest downward path. */
  lemma {:induction false} HeightIsDepth<V>(t: Tree<V>)
    requires Balanced(t)
    ensures Height(t) == Depth(t)
  {
    if t.Node? {
      HeightIsDepth(t.left);
      HeightIsDepth(t.right);
    }
  }

  /** `AVLTree::rotate_right`: the left child becomes the root of the subtree. */
  function RotateRight<V>(t: Tree<V>): (r: Tree<V>)
    requires t.Node? && t.left.Node?
    ensures r.Node? && r.key == t.left.key && r.left == t.left.left
    ensures r.right.Node? && r.right.key == t.key && r.right.left == t.left.right && r.right.right == t.right
    ensures InOrder(r) == InOrder(t)
    ensures Contents(r) == Contents(t)
  {
    var l := t.left;
    var n := Node(t.key, t.value, 1 + Max(Height(l.right), Height(t.right)), l.right, t.right);
    Node(l.key, l.value, 1 + Max(Height(l.left), Height(n)), l.left, n)
  }

  /** `AVLTree::rotate_left`: the right child becomes the root of the subtree. */
  function RotateLeft<V>(t: Tree<V>): (r: Tree<V>)
    requires t.Node? && t.right.Node?
    ensures r.Node? && r.key == t.right.key && r.right == t.right.right
    ensures r.left.Node? && r.left.key == t.key && r.left.left == t.left && r.left.right == t.right.left
    ensures InOrder(r) == InOrder(t)
    ensures Contents(r) == Contents(t)
  {
    var rt := t.right;
    var n := Node(t.key, t.value, 1 + Max(Height(t.left), Height(rt.left)), t.left, rt.left);
    Node(rt.key, rt.value, 1 + Max(Height(n), Height(rt.right)), n, rt.right)
  }

  /** The keys of a node are its own key and the keys of its two children. */
  lemma KeysOfNode<V>(t: Tree<V>)
    requires t.Node?
    ensures forall x :: x in Contents(t) <==> x in Contents(t.left) || x == t.key || x in Contents(t.right)
  {
  }

  /** Rotating right keeps the search-tree ordering. */
  lemma RotateRightOrdered<V>(t: Tree<V>)
    requires t.Node? && t.left.Node?
    ensures Ordered(t) ==> Ordered(RotateRight(t))
  {
    if Ordered(t) {
      var l := t.left;
      KeysOfNode(t);
      KeysOfNode(l);
      assert Ordered(l) && Ordered(l.right);
      var n := Node(t.key, t.value, 1 + Max(Height(l.right), Height(t.right)), l.right, t.right);
      KeysOfNode(n);
      assert Ordered(n);
      assert l.key in Contents(l) && l.key < t.key;
      forall x | x in Contents(n) ensures l.key < x {
        if x in Contents(l.right) {
          assert x in Contents(l);
        }
      }
    }
  }

  /** Rotating left keeps the search-tree ordering. */
  lemma RotateLeftOrdered<V>(t: Tree<V>)
    requires t.Node? && t.right.Node?
    ensures Ordered(t) ==> Ordered(RotateLeft(t))
  {
    if Ordered(t) {
      var rt := t.right;
      KeysOfNode(t);
      KeysOfNode(rt);
      assert Ordered(rt) && Ordered(rt.left);
      var n := Node(t.key, t.value, 1 + Max(Height(t.left), Height(rt.left)), t.left, rt.left);
      KeysOfNode(n);
      assert Ordered(n);
      assert rt.key in Contents(rt) && t.key < rt.key;
      forall x | x in Contents(n) ensures x < rt.key {
        if x in Contents(rt.left) {
          assert x in Contents(rt);
        }
      }
    }
  }

  /**
   * `AVLTree::balance`, corrected: a single or double rotation when the
   * children's heights differ by more than one, otherwise only the node's
   * height is recomputed. Unlike the source (see `BalanceAsWritten`), the
   * single rotation keeps the child it rotates into the root.
   */
  function Balance<V>(t: Tree<V>): (r: Tree<V>)
    requires t.Node? && Balanced(t.left) && Balanced(t.right)
    ensures r.Node?
    ensures InOrder(r) == InOrder(t)
    ensures Contents(r) == Contents(t)
    ensures Ordered(t) ==> Ordered(r)
  {
    BalancedHeight(t.left);
    BalancedHeight(t.right);
    var lh, rh := Height(t.left), Height(t.right);
    if lh - rh > 1 then
      var l := t.left;
      if Height(l.left) < Height(l.right) then
        BalancedHeight(l.left);
        RotateLeftOrdered(l);
        RotateRightOrdered(t.(left := RotateLeft(l)));
        RotateRight(t.(left := RotateLeft(l)))
      else
        RotateRightOrdered(t);
        RotateRight(t)
    else if rh - lh > 1 then
      var r := t.right;
      if Height(r.right) < Height(r.left) then
        BalancedHeight(r.right);
        RotateRightOrdered(r);
        RotateLeftOrdered(t.(right := RotateRight(r)));
        RotateLeft(t.(right := RotateRight(r)))
      else
        RotateLeftOrdered(t);
        RotateLeft(t)
    else
      t.(height := 1 + Max(lh, rh))
  }

  /**
   * `AVLTree::balance` as written, with `None` for a panic. In the left-heavy
   * case the left child is taken out of the node and put back only when a
   * double rotation rotates it first; otherwise `rotate_right` finds no left
   * child and its `unwrap` panics. The right-heavy case is the mirror image.
   * Wherever it does not panic it agrees with the corrected `Balance`.
   */
  function BalanceAsWritten<V>(t: Tree<V>): (r: Option<Tree<V>>)
    requires t.Node? && Balanced(t.left) && Balanced(t.right)
    ensures r.None? <==>
              || (Height(t.left) - Height(t.right) > 1 && t.left.Node?
                  && Height(t.left.left) >= Height(t.left.right))
              || (Height(t.left) - Height(t.right) <= 1 && Height(t.right) - Height(t.left) > 1 && t.right.Node?
                  && Height(t.right.right) >= Height(t.right.left))
    ensures r.Some? ==> r.value == Balance(t)
  {
    BalancedHeight(t.left);
    BalancedHeight(t.right);
    var lh, rh := Height(t.left), Height(t.right);
    if lh - rh > 1 then
      var l := t.left;
      if Height(l.left) < Height(l.right) then
        BalancedHeight(l.left);
        Some(RotateRight(t.(left := RotateLeft(l))))
      else
        None
    else if rh - lh > 1 then
      var r := t.right;
      if Height(r.right) < Height(r.left) then
        BalancedHeight(r.right);
        Some(RotateLeft(t.(right := RotateRight(r))))
      else
        None
    else
      Some(t.(height := 1 + Max(lh, rh)))
  }

  /** Inserting 2 into the one-node tree 3 needs no rotation, as written or corrected. */
  lemma InsertTwoBelowThree()
    ensures IsAvl(Node(3, 30, 0, Empty, Empty))
    ensures InsertNode(Node(3, 30, 0, Empty, Empty), 2, 20) == Node(3, 30, 1, Node(2, 20, 0, Empty, Empty), Empty)
    ensures BalanceAsWritten(Node(3, 30, 0, Node(2, 20, 0, Empty, Empty), Empty)) == Some(Node(3, 30, 1, Node(2, 20, 0, Empty, Empty), Empty))
  {
    var leaf2 := Node(2, 20, 0, Empty, Empty);
    assert InsertNode(Empty, 2, 20) == leaf2;
  }

  /** Inserting 1 into the one-node tree 2 needs no rotation, as written or corrected. */
  lemma InsertOneBelowTwo()
    ensures IsAvl(Node(2, 20, 0, Empty, Empty))
    ensures InsertNode(Node(2, 20, 0, Empty, Empty), 1, 10) == Node(2, 20, 1, Node(1, 10, 0, Empty, Empty), Empty)
    ensures BalanceAsWritten(Node(2, 20, 0, Node(1, 10, 0, Empty, Empty), Empty)) == Some(Node(2, 20, 1, Node(1, 10, 0, Empty, Empty), Empty))
  {
    var leaf1 := Node(1, 10, 0, Empty, Empty);
    assert InsertNode(Empty, 1, 10) == leaf1;
  }

  /**
   * Inserting 3, 2 and 1 into an empty tree with the code as written: the first
   * two insertions and the rebuilt node 2 need no rotation (the two lemmas
   * above), but node 3 is then rebuilt over the subtree 2-1 with a left child
   * two levels higher than its right, leaning left, so `balance` panics. The
   * corrected `Balance` rotates it into the tree with root 2.
   */
  lemma InsertDescendingPanics()
    ensures BalanceAsWritten(Node(3, 30, 1, Node(2, 20, 1, Node(1, 10, 0, Empty, Empty), Empty), Empty)) == None
    ensures Balance(Node(3, 30, 1, Node(2, 20, 1, Node(1, 10, 0, Empty, Empty), Empty), Empty)).key == 2
  {
    var t := Node(3, 30, 1, Node(2, 20, 1, Node(1, 10, 0, Empty, Empty), Empty), Empty);
    assert Height(t.left) - Height(t.right) == 2 && Height(t.left.left) >= Height(t.left.right);
    assert Balance(t) == RotateRight(t);
  }

  /** A right rotation of a node whose left child is two higher and leans left is balanced. */
  lemma RotateRightBalanced<V>(t: Tree<V>)
    requires t.Node? && t.left.Node? && Balanced(t.left) && Balanced(t.right)
    requires Height(t.left) - Height(t.right) == 2
    requires Height(t.left.left) >= Height(t.left.right)
    ensures Balanced(RotateRight(t))
    ensures Height(t.left) <= Height(RotateRight(t)) <= Height(t.left) + 1
  {
    var l, c := t.left, t.right;
    BalancedHeight(c);
    BalancedHeight(l.left);
    BalancedHeight(l.right);
    var n := Node(t.key, t.value, 1 + Max(Height(l.right), Height(c)), l.right, c);
    assert Balanced(n);
    assert RotateRight(t) == Node(l.key, l.value, 1 + Max(Height(l.left), Height(n)), l.left, n);
  }

  /** The left-right case of `Balance`: the left child leans right, so a double rotation. */
  lemma BalanceLeftRight<V>(t: Tree<V>)
    requires t.Node? && Balanced(t.left) && Balanced(t.right)
    requires Height(t.left) - Height(t.right) == 2
    requires t.left.Node? && Height(t.left.left) < Height(t.left.right)
    ensures Balanced(Balance(t))
    ensures Height(t.left) <= Height(Balance(t)) <= Height(t.left) + 1
  {
    var l, c := t.left, t.right;
    BalancedHeight(c);
    BalancedHeight(l.left);
    var a, lr := l.left, l.right;
    var b1, b2 := lr.left, lr.right;
    BalancedHeight(b1);
    BalancedHeight(b2);
    var m := Node(l.key, l.value, 1 + Max(Height(a), Height(b1)), a, b1);
    var n := Node(t.key, t.value, 1 + Max(Height(b2), Height(c)), b2, c);
    assert Balanced(m);
    assert Balanced(n);
    assert RotateLeft(l) == Node(lr.key, lr.value, 1 + Max(Height(m), Height(b2)), m, b2);
    assert Balance(t) == RotateRight(t.(left := RotateLeft(l)));
  }

  /** The left-left case of `Balance`: a single rotation to the right. */
  lemma BalanceLeftLeft<V>(t: Tree<V>)
    requires t.Node? && Balanced(t.left) && Balanced(t.right)
    requires Height(t.left) - Height(t.right) == 2
    requires t.left.Node? && Height(t.left.left) >= Height(t.left.right)
    ensures Balanced(Balance(t))
    ensures Height(t.left) <= Height(Balance(t)) <= Height(t.left) + 1
  {
    assert Balance(t) == RotateRight(t);
    RotateRightBalanced(t);
  }

  /** The left-heavy case of `Balance`: a single or a double rotation to the right. */
  lemma BalanceLeftHeavy<V>(t: Tree<V>)
    requires t.Node? && Balanced(t.left) && Balanced(t.right)
    requires Height(t.left) - Height(t.right) == 2
    ensures Balanced(Balance(t))
    ensures Height(t.left) <= Height(Balance(t)) <= Height(t.left) + 1
  {
    BalancedHeight(t.left);
    BalancedHeight(t.right);
    if Height(t.left.left) < Height(t.left.right) {
      BalanceLeftRight(t);
    } else {
      BalanceLeftLeft(t);
    }
  }

  /** A left rotation of a node whose right child is two higher and leans right is balanced. */
  lemma RotateLeftBalanced<V>(t: Tree<V>)
    requires t.Node? && t.right.Node? && Balanced(t.left) && Balanced(t.right)
    requires Height(t.right) - Height(t.left) == 2
    requires Height(t.right.right) >= Height(t.right.left)
    ensures Balanced(RotateLeft(t))
    ensures Height(t.right) <= Height(RotateLeft(t)) <= Height(t.right) + 1
  {
    var a, r := t.left, t.right;
    BalancedHeight(a);
    BalancedHeight(r.left);
    BalancedHeight(r.right);
    var m := Node(t.key, t.value, 1 + Max(Height(a), Height(r.left)), a, r.left);
    assert Balanced(m);
    assert RotateLeft(t) == Node(r.key, r.value, 1 + Max(Height(m), Height(r.right)), m, r.right);
  }

  /** The right-left case of `Balance`: the right child leans left, so a double rotation. */
  lemma BalanceRightLeft<V>(t: Tree<V>)
    requires t.Node? && Balanced(t.left) && Balanced(t.right)
    requires Height(t.right) - Height(t.left) == 2
    requires t.right.Node? && Height(t.right.right) < Height(t.right.left)
    ensures Balanced(Balance(t))
    ensures Height(t.right) <= Height(Balance(t)) <= Height(t.right) + 1
  {
    var a, r := t.left, t.right;
    BalancedHeight(a);
    BalancedHeight(r.right);
    var rl, d := r.left, r.right;
    var b1, b2 := rl.left, rl.right;
    BalancedHeight(b1);
    BalancedHeight(b2);
    var m := Node(t.key, t.value, 1 + Max(Height(a), Height(b1)), a, b1);
    var n := Node(r.key, r.value, 1 + Max(Height(b2), Height(d)), b2, d);
    assert Balanced(m);
    assert Balanced(n);
    assert RotateRight(r) == Node(rl.key, rl.value, 1 + Max(Height(b1), Height(n)), b1, n);
    assert Balance(t) == RotateLeft(t.(right := RotateRight(r)));
  }

  /** The right-right case of `Balance`: a single rotation to the left. */
  lemma BalanceRightRight<V>(t: Tree<V>)
    requires t.Node? && Balanced(t.left) && Balanced(t.right)
    requires Height(t.right) - Height(t.left) == 2
    requires t.right.Node? && Height(t.right.right) >= Height(t.right.left)
    ensures Balanced(Balance(t))
    ensures Height(t.right) <= Height(Balance(t)) <= Height(t.right) + 1
  {
    assert Balance(t) == RotateLeft(t);
    RotateLeftBalanced(t);
  }

  /** The right-heavy case of `Balance`: a single or a double rotation to the left. */
  lemma BalanceRightHeavy<V>(t: Tree<V>)
    requires t.Node? && Balanced(t.left) && Balanced(t.right)
    requires Height(t.right) - Height(t.left) == 2
    ensures Balanced(Balance(t))
    ensures Height(t.right) <= Height(Balance(t)) <= Height(t.right) + 1
  {
    BalancedHeight(t.left);
    BalancedHeight(t.right);
    if Height(t.right.right) < Height(t.right.left) {
      BalanceRightLeft(t);
    } else {
      BalanceRightRight(t);
    }
  }

  /**
   * Given balanced children whose heights differ by at most two, `Balance`
   * yields a balanced subtree whose height is the larger child height or one more;
   * when the children already differ by at most one it only fixes the height.
   */
  lemma BalanceRestoresBalance<V>(t: Tree<V>)
    requires t.Node? && Balanced(t.left) && Balanced(t.right)
    requires -2 <= Height(t.left) - Height(t.right) <= 2
    ensures Balanced(Balance(t))
    ensures Max(Height(t.left), Height(t.right)) <= Height(Balance(t)) <= Max(Height(t.left), Height(t.right)) + 1
    ensures -1 <= Height(t.left) - Height(t.right) <= 1 ==>
              Balance(t) == t.(height := 1 + Max(Height(t.left), Height(t.right)))
  {
    if Height(t.left) - Height(t.right) > 1 {
      BalanceLeftHeavy(t);
    } else if Height(t.right) - Height(t.left) > 1 {
      BalanceRightHeavy(t);
    }
  }

  lemma UpdateUnderLeft<V>(a: map<int, V>, b: map<int, V>, c: map<int, V>, key: int, value: V)
    requires key !in b && key !in c
    ensures a[key := value] + b + c == (a + b + c)[key := value]
  {
  }

  lemma UpdateUnderRight<V>(a: map<int, V>, b: map<int, V>, c: map<int, V>, key: int, value: V)
    ensures a + b + c[key := value] == (a + b + c)[key := value]
  {
  }

  /** Rebuilding a node over a left child that received the insertion keeps the tree an AVL tree with the entry added. */
  lemma InsertedLeft<V>(t: Tree<V>, key: int, value: V, l': Tree<V>)
    requires IsAvl(t) && t.Node? && key < t.key
    requires IsAvl(l') && Contents(l') == Contents(t.left)[key := value]
    requires Height(t.left) <= Height(l') <= Height(t.left) + 1
    ensures IsAvl(Balance(t.(left := l')))
    ensures Contents(Balance(t.(left := l'))) == Contents(t)[key := value]
    ensures Height(t) <= Height(Balance(t.(left := l'))) <= Height(t) + 1
  {
    KeysOfNode(t);
    BalancedHeight(t.left);
    BalancedHeight(t.right);
    var t' := t.(left := l');
    assert Ordered(t') by {
      forall x | x in Contents(l') ensures x < t.key {
        assert x in Contents(t.left) || x == key;
      }
    }
    UpdateUnderLeft(Contents(t.left), map[t.key := t.value], Contents(t.right), key, value);
    BalanceRestoresBalance(t');
  }

  /** Rebuilding a node over a right child that received the insertion keeps the tree an AVL tree with the entry added. */
  lemma InsertedRight<V>(t: Tree<V>, key: int, value: V, r': Tree<V>)
    requires IsAvl(t) && t.Node? && t.key < key
    requires IsAvl(r') && Contents(r') == Contents(t.right)[key := value]
    requires Height(t.right) <= Height(r') <= Height(t.right) + 1
    ensures IsAvl(Balance(t.(right := r')))
    ensures Contents(Balance(t.(right := r'))) == Contents(t)[key := value]
    ensures Height(t) <= Height(Balance(t.(right := r'))) <= Height(t) + 1
  {
    KeysOfNode(t);
    BalancedHeight(t.left);
    BalancedHeight(t.right);
    var t' := t.(right := r');
    assert Ordered(t') by {
      forall x | x in Contents(r') ensures t.key < x {
        assert x in Contents(t.right) || x == key;
      }
    }
    UpdateUnderRight(Contents(t.left), map[t.key := t.value], Contents(t.right), key, value);
    BalanceRestoresBalance(t');
  }

  lemma UpdateAtNode<V>(a: map<int, V>, key: int, v: V, c: map<int, V>, value: V)
    requires key !in c
    ensures a + map[key := value] + c == (a + map[key := v] + c)[key := value]
  {
  }

  /** Overwriting the value at the node holding the key keeps the shape and updates that one entry. */
  lemma InsertedHere<V>(t: Tree<V>, value: V)
    requires IsAvl(t) && t.Node?
    ensures IsAvl(t.(value := value))
    ensures Contents(t.(value := value)) == Contents(t)[t.key := value]
  {
    assert t.key !in Contents(t.right);
    UpdateAtNode(Contents(t.left), t.key, t.value, Contents(t.right), value);
  }

  /**
   * `AVLTree::insert_node` (with the revised start/end fields carried inside the
   * value): a new key is placed in a fresh leaf of height 0 and every node on the
   * way back up is rebalanced; an existing key only has its value overwritten.
   */
  function InsertNode<V>(t: Tree<V>, key: int, value: V): (r: Tree<V>)
    requires IsAvl(t)
    ensures IsAvl(r)
    ensures Contents(r) == Contents(t)[key := value]
    ensures Height(t) <= Height(r) <= Height(t) + 1
    decreases t
  {
    if t.Empty? then
      Node(key, value, 0, Empty, Empty)
    else if key < t.key then
      var l' := InsertNode(t.left, key, value);
      InsertedLeft(t, key, value, l');
      Balance(t.(left := l'))
    else if t.key < key then
      var rt' := InsertNode(t.right, key, value);
      InsertedRight(t, key, value, rt');
      Balance(t.(right := rt'))
    else
      InsertedHere(t, value);
      t.(value := value)
  }

  /**
   * The search for the in-order successor inside `remove_node`: follows `left`
   * links from the root of `t` to its leftmost node and returns its entry, the
   * smallest key of `t`.
   */
  method Leftmost<V>(t: Tree<V>) returns (key: int, value: V)
    requires t.Node? && Ordered(t)
    ensures key in Contents(t) && Contents(t)[key] == value
    ensures forall x :: x in Contents(t) ==> key <= x
  {
    var min := t;
    while min.left.Node?
      invariant min.Node? && Ordered(min)
      invariant forall x :: x in Contents(min) ==> x in Contents(t) && Contents(t)[x] == Contents(min)[x]
      invariant forall x :: x in Contents(t) && x !in Contents(min) ==> min.key < x
      decreases min
    {
      KeysOfNode(min);
      KeysOfNode(min.left);
      assert min.left.key in Contents(min.left);
      assert min.left.key < min.key;
      forall x | x in Contents(t) && x !in Contents(min.left) ensures min.left.key < x {
        if x in Contents(min) {
          assert x == min.key || x in Contents(min.right);
        }
      }
      min := min.left;
    }
    KeysOfNode(min);
    key, value := min.key, min.value;
  }

  /**
   * Heights after a removal below `t`: rebuilding `t` with children that are at
   * most one lower and rebalancing gives a balanced subtree at most one lower than
   * `t`, and gives `t` back when nothing below changed.
   */
  lemma RebalanceAfterRemoval<V>(t: Tree<V>, t': Tree<V>)
    requires t.Node? && Balanced(t) && t'.Node? && t'.height == t.height
    requires Balanced(t'.left) && Balanced(t'.right)
    requires Height(t.left) - 1 <= Height(t'.left) <= Height(t.left)
    requires Height(t.right) - 1 <= Height(t'.right) <= Height(t.right)
    ensures Balanced(Balance(t'))
    ensures Height(t) - 1 <= Height(Balance(t')) <= Height(t)
    ensures t' == t ==> Balance(t') == t
  {
    BalanceRestoresBalance(t');
  }

  lemma RemoveUnderLeft<V>(a: map<int, V>, b: map<int, V>, c: map<int, V>, key: int)
    requires key !in b && key !in c
    ensures (a - {key}) + b + c == (a + b + c) - {key}
  {
  }

  lemma RemoveUnderRight<V>(a: map<int, V>, b: map<int, V>, c: map<int, V>, key: int)
    requires key !in a && key !in b
    ensures a + b + (c - {key}) == (a + b + c) - {key}
  {
  }

  lemma ReplaceBySuccessor<V>(a: map<int, V>, k: int, v: V, c: map<int, V>, mk: int, mv: V)
    requires k !in a && k !in c && mk !in a && mk in c && c[mk] == mv
    ensures a + map[mk := mv] + (c - {mk}) == (a + map[k := v] + c) - {k}
  {
  }

  /** What removing `key` from the left subtree of `t` gives once `t` is rebuilt and rebalanced. */
  lemma RemovedFromLeft<V>(t: Tree<V>, key: int, l': Tree<V>)
    requires IsAvl(t) && t.Node? && key < t.key
    requires IsAvl(l') && Contents(l') == Contents(t.left) - {key}
    requires Height(t.left) - 1 <= Height(l') <= Height(t.left)
    requires key !in Contents(t.left) ==> l' == t.left
    ensures Balanced(t.right)
    ensures var r := Balance(t.(left := l'));
            && IsAvl(r) && Contents(r) == Contents(t) - {key}
            && Height(t) - 1 <= Height(r) <= Height(t)
            && (key !in Contents(t) ==> r == t)
  {
    var t' := t.(left := l');
    KeysOfNode(t);
    assert Ordered(t') by {
      forall x | x in Contents(l') ensures x < t.key {
        assert x in Contents(t.left);
      }
    }
    assert key !in Contents(t.right);
    RemoveUnderLeft(Contents(t.left), map[t.key := t.value], Contents(t.right), key);
    RebalanceAfterRemoval(t, t');
  }

  /** What removing `key` from the right subtree of `t` gives once `t` is rebuilt and rebalanced. */
  lemma RemovedFromRight<V>(t: Tree<V>, key: int, rt': Tree<V>)
    requires IsAvl(t) && t.Node? && t.key < key
    requires IsAvl(rt') && Contents(rt') == Contents(t.right) - {key}
    requires Height(t.right) - 1 <= Height(rt') <= Height(t.right)
    requires key !in Contents(t.right) ==> rt' == t.right
    ensures Balanced(t.left)
    ensures var r := Balance(t.(right := rt'));
            && IsAvl(r) && Contents(r) == Contents(t) - {key}
            && Height(t) - 1 <= Height(r) <= Height(t)
            && (key !in Contents(t) ==> r == t)
  {
    var t' := t.(right := rt');
    KeysOfNode(t);
    assert Ordered(t') by {
      forall x | x in Contents(rt') ensures t.key < x {
        assert x in Contents(t.right);
      }
    }
    assert key !in Contents(t.left);
    RemoveUnderRight(Contents(t.left), map[t.key := t.value], Contents(t.right), key);
    RebalanceAfterRemoval(t, t');
  }

  /**
   * What replacing the root of `t` by the smallest entry `(mk, mv)` of its right
   * subtree, removed from there, gives once rebalanced.
   */
  lemma ReplacedBySuccessor<V>(t: Tree<V>, mk: int, mv: V, rt': Tree<V>)
    requires IsAvl(t) && t.Node? && t.right.Node?
    requires mk in Contents(t.right) && Contents(t.right)[mk] == mv
    requires forall x :: x in Contents(t.right) ==> mk <= x
    requires IsAvl(rt') && Contents(rt') == Contents(t.right) - {mk}
    requires Height(t.right) - 1 <= Height(rt') <= Height(t.right)
    ensures Balanced(t.left)
    ensures var r := Balance(Node(mk, mv, t.height, t.left, rt'));
            && IsAvl(r) && Contents(r) == Contents(t) - {t.key}
            && Height(t) - 1 <= Height(r) <= Height(t)
  {
    var t' := Node(mk, mv, t.height, t.left, rt');
    KeysOfNode(t);
    assert Ordered(t') by {
      forall x | x in Contents(t.left) ensures x < mk {
        assert x < t.key;
      }
      forall x | x in Contents(rt') ensures mk < x {
        assert x in Contents(t.right);
      }
    }
    assert mk !in Contents(t.left) by {
      assert t.key < mk;
    }
    ReplaceBySuccessor(Contents(t.left), t.key, t.value, Contents(t.right), mk, mv);
    RebalanceAfterRemoval(t, t');
  }

  /**
   * `AVLTree::remove_node`: deletes `key`; a node with two children takes the key
   * and value of its in-order successor (the leftmost node of its right subtree),
   * which is then removed from the right subtree. Every rebuilt node on the path
   * is rebalanced, except that a node with at most one child is replaced by it.
   */
  method RemoveNode<V>(t: Tree<V>, key: int) returns (r: Tree<V>)
    requires IsAvl(t)
    ensures IsAvl(r)
    ensures Contents(r) == Contents(t) - {key}
    ensures Height(t) - 1 <= Height(r) <= Height(t)
    ensures key !in Contents(t) ==> r == t
    decreases t
  {
    if t.Empty? {
      return Empty;
    }
    KeysOfNode(t);
    if key < t.key {
      var l' := RemoveNode(t.left, key);
      RemovedFromLeft(t, key, l');
      r := Balance(t.(left := l'));
    } else if t.key < key {
      var rt' := RemoveNode(t.right, key);
      RemovedFromRight(t, key, rt');
      r := Balance(t.(right := rt'));
    } else if t.left.Empty? {
      BalancedHeight(t.right);
      r := t.right;
    } else if t.right.Empty? {
      BalancedHeight(t.left);
      r := t.left;
    } else {
      var mk, mv := Leftmost(t.right);
      var rt' := RemoveNode(t.right, mk);
      ReplacedBySuccessor(t, mk, mv, rt');
      r := Balance(Node(mk, mv, t.height, t.left, rt'));
    }
  }


  /**
   * The two-children case of `remove_node` as written: the right subtree is
   * taken out of the node before its leftmost entry `(mk, mv)` is swapped into
   * the node, so the recursive removal that follows runs on the now empty right
   * link, and the node is rebuilt with no right subtree at all, then passed to
   * `balance` as written (which panics, `None`, if the left subtree is two
   * levels higher and leans left). Every key of the right subtree except the
   * successor is lost.
   */
  function RemoveRootAsWritten<V>(t: Tree<V>, mk: int, mv: V): (r: Option<Tree<V>>)
    requires t.Node? && Balanced(t.left)
    ensures r.Some? ==> Contents(r.value) == Contents(t.left) + map[mk := mv]
    ensures Height(t.left) <= 0 ==> r.Some?
  {
    BalancedHeight(t.left);
    var rebuilt := Node(mk, mv, t.height, t.left, Empty);
    assert Contents(rebuilt) == Contents(t.left) + map[mk := mv];
    BalanceAsWritten(rebuilt)
  }

  /**
   * Removing the root key 2 from the AVL tree with keys 1, 2, 3, 4 (root 2,
   * right child 3 with right child 4) by the code as written loses key 4,
   * while the corrected `RemoveNode` keeps it.
   */
  lemma RemoveRootAsWrittenLosesKeys()
    ensures var t := Node(2, 20, 2, Node(1, 10, 0, Empty, Empty), Node(3, 30, 1, Empty, Node(4, 40, 0, Empty, Empty)));
            && IsAvl(t)
            && 4 in Contents(t) - {2}
            && RemoveRootAsWritten(t, 3, 30).Some?
            && 4 !in Contents(RemoveRootAsWritten(t, 3, 30).value)
  {
    var leaf4 := Node(4, 40, 0, Empty, Empty);
    var right := Node(3, 30, 1, Empty, leaf4);
    var left := Node(1, 10, 0, Empty, Empty);
    var t := Node(2, 20, 2, left, right);
    assert Contents(left) == map[1 := 10];
    assert Contents(right) == map[3 := 30, 4 := 40];
    assert Ordered(t) by {
      assert Ordered(right);
    }
    assert 4 in Contents(t);
  }

  /**
   * `AVLTree::remove` as written: it rebuilds the tree with `remove_node` and then
   * reports the value at the root of the rebuilt tree, not the removed value. When
   * `key` is absent from a non-empty tree it therefore reports the root's value
   * instead of `None`.
   */
  method RemoveAsWritten<V>(t: Tree<V>, key: int) returns (reported: Option<V>)
    requires IsAvl(t)
    ensures t.Empty? ==> reported == None
    ensures t.Node? && key !in Contents(t) ==> reported == Some(t.value)
  {
    var rebuilt := RemoveNode(t, key);
    reported := if rebuilt.Node? then Some(rebuilt.value) else None;
  }

  /** `AVLTree<K, V>`: the owner of the root of an AVL tree. */
  class AvlTree<V> {
    var root: Tree<V>

    ghost predicate Valid()
      reads this
    {
      IsAvl(root)
    }

    /** `AVLTree::new`: an empty tree. */
    constructor ()
      ensures Valid() && root == Empty && Contents(root) == map[]
    {
      root := Empty;
    }

    /** `AVLTree::insert`: maps `key` to `value`, overwriting an earlier value for `key`. */
    method Insert(key: int, value: V)
      requires Valid()
      modifies this
      ensures Valid()
      ensures Contents(root) == old(Contents(root))[key := value]
      ensures old(Height(root)) <= Height(root) <= old(Height(root)) + 1
    {
      root := InsertNode(root, key, value);
    }

    /**
     * `AVLTree::remove` with its evident intent: the tree no longer maps `key`, and
     * the value it mapped `key` to, if any, is returned.
     */
    method Remove(key: int) returns (removed: Option<V>)
      requires Valid()
      modifies this
      ensures Valid()
      ensures Contents(root) == old(Contents(root)) - {key}
      ensures removed == if key in old(Contents(root)) then Some(old(Contents(root))[key]) else None
      ensures key !in old(Contents(root)) ==> root == old(root)
    {
      removed := Search(key);
      root := RemoveNode(root, key);
    }

    /** `AVLTree::search`: walks from the root towards `key`, without changing the tree. */
    method Search(key: int) returns (found: Option<V>)
      requires Valid()
      ensures found == if key in Contents(root) then Some(Contents(root)[key]) else None
    {
      var current := root;
      while current.Node?
        invariant Ordered(current)
        invariant key in Contents(root) <==> key in Contents(current)
        invariant key in Contents(current) ==> Contents(current)[key] == Contents(root)[key]
        decreases current
      {
        KeysOfNode(current);
        if key < current.key {
          assert key !in Contents(current.right);
          current := current.left;
        } else if current.key < key {
          assert key !in Contents(current.left);
          current := current.right;
        } else {
          assert key !in Contents(current.right);
          return Some(current.value);
        }
      }
      return None;
    }
  }
}
