/** The customer index: an AVL tree keyed by customer id (`BSTNode`,
    `insertAVL`, `searchBST`, `inorderBST`). Nodes own their two children and
    cache the height of their subtree; the tree is a value here, and every
    C++ function that rebuilds a subtree and returns its new root is a
    function returning the new tree. */
module AvlIndex {

  datatype Tree =
    | Nil
    | Node(key: int, name: string, left: Tree, right: Tree, height: int)

  function Max(a: int, b: int): int { if a < b then b else a }

  /** `height(n)`: the cached height, 0 for an empty subtree. */
  function Height(t: Tree): int
  {
    if t.Nil? then 0 else t.height
  }

  /** `balanceFactor(n)`: left height minus right height, from the cached heights. */
  function BalanceFactor(t: Tree): int
  {
    if t.Nil? then 0 else Height(t.left) - Height(t.right)
  }

  /** The real height of a subtree, whatever is cached in it. */
  function TrueHeight(t: Tree): nat
  {
    if t.Nil? then 0 else 1 + Max(TrueHeight(t.left), TrueHeight(t.right))
  }

  function Size(t: Tree): nat
  {
    if t.Nil? then 0 else 1 + Size(t.left) + Size(t.right)
  }

  function Keys(t: Tree): set<int>
  {
    if t.Nil? then {} else Keys(t.left) + {t.key} + Keys(t.right)
  }

  /** The (id, name) pairs stored in a subtree. */
  function Entries(t: Tree): set<(int, string)>
  {
    if t.Nil? then {} else Entries(t.left) + {(t.key, t.name)} + Entries(t.right)
  }

  /** Every cached height equals the real height of its subtree. */
  ghost predicate HeightsOk(t: Tree)
  {
    t.Node? ==> t.height == TrueHeight(t) && HeightsOk(t.left) && HeightsOk(t.right)
  }

  /** Binary-search-tree order on `key`: smaller ids to the left, larger to the right. */
  ghost predicate Ordered(t: Tree)
  {
    t.Node? ==>
      (forall k :: k in Keys(t.left) ==> k < t.key) &&
      (forall k :: k in Keys(t.right) ==> t.key < k) &&
      Ordered(t.left) && Ordered(t.right)
  }

  /** The AVL condition: every balance factor is -1, 0 or 1. */
  ghost predicate Balanced(t: Tree)
  {
    t.Node? ==> -1 <= BalanceFactor(t) <= 1 && Balanced(t.left) && Balanced(t.right)
  }

  /** The invariant the index keeps between operations. */
  ghost predicate Valid(t: Tree)
  {
    Ordered(t) && HeightsOk(t) && Balanced(t)
  }

  /** `createNode`: a leaf of height 1. */
  function CreateNode(key: int, name: string): Tree
  {
    Node(key, name, Nil, Nil, 1)
  }

  /** `rightRotate(y)`: the left child x becomes the root, x's right subtree
      moves under y, and the heights of y and then x are recomputed. */
  function RightRotate(y: Tree): (r: Tree)
    requires y.Node? && y.left.Node?
    ensures r.Node? && Keys(r) == Keys(y) && Entries(r) == Entries(y)
    ensures Ordered(y) ==> Ordered(r)
    ensures HeightsOk(y.left) && HeightsOk(y.right) ==> HeightsOk(r)
  {
    var x := y.left;
    var t2 := x.right;
    var y' := Node(y.key, y.name, t2, y.right, Max(Height(t2), Height(y.right)) + 1);
    var r := Node(x.key, x.name, x.left, y', Max(Height(x.left), Height(y')) + 1);
    assert Keys(y') == Keys(t2) + {y.key} + Keys(y.right);
    assert Keys(x) == Keys(x.left) + {x.key} + Keys(t2);
    assert Entries(y') == Entries(t2) + {(y.key, y.name)} + Entries(y.right);
    assert Entries(x) == Entries(x.left) + {(x.key, x.name)} + Entries(t2);
    assert Ordered(y) ==> Ordered(x) && Ordered(t2) && Ordered(x.left) && Ordered(y.right);
    assert Ordered(y) ==> Ordered(y') && x.key < y.key;
    assert HeightsOk(y.left) ==> HeightsOk(x.left) && HeightsOk(t2);
    assert HeightsOk(y.left) && HeightsOk(y.right) ==> HeightsOk(y') && Height(y') == TrueHeight(y');
    r
  }

  /** `leftRotate(x)`: the mirror image of RightRotate. */
  function LeftRotate(x: Tree): (r: Tree)
    requires x.Node? && x.right.Node?
    ensures r.Node? && Keys(r) == Keys(x) && Entries(r) == Entries(x)
    ensures Ordered(x) ==> Ordered(r)
    ensures HeightsOk(x.left) && HeightsOk(x.right) ==> HeightsOk(r)
  {
    var y := x.right;
    var t2 := y.left;
    var x' := Node(x.key, x.name, x.left, t2, Max(Height(x.left), Height(t2)) + 1);
    var r := Node(y.key, y.name, x', y.right, Max(Height(x'), Height(y.right)) + 1);
    assert Keys(x') == Keys(x.left) + {x.key} + Keys(t2);
    assert Keys(y) == Keys(t2) + {y.key} + Keys(y.right);
    assert Entries(x') == Entries(x.left) + {(x.key, x.name)} + Entries(t2);
    assert Entries(y) == Entries(t2) + {(y.key, y.name)} + Entries(y.right);
    assert Ordered(x) ==> Ordered(y) && Ordered(t2) && Ordered(x.left) && Ordered(y.right);
    assert Ordered(x) ==> Ordered(x') && x.key < y.key;
    assert HeightsOk(x.right) ==> HeightsOk(y.right) && HeightsOk(t2);
    assert HeightsOk(x.left) && HeightsOk(x.right) ==> HeightsOk(x') && Height(x') == TrueHeight(x');
    r
  }

  /** The tail of `insertAVL` after the recursive call: n already carries the
      recomputed height; the four rotation cases are tried in the source's
      order, each selected by comparing the inserted key with a child's key. */
  function Rebalance(n: Tree, key: int): Tree
    requires n.Node? && HeightsOk(n.left) && HeightsOk(n.right)
    requires BalanceFactor(n) > 1 && key > n.left.key ==> n.left.right.Node?
    requires BalanceFactor(n) < -1 && key < n.right.key ==> n.right.left.Node?
  {
    var bf := BalanceFactor(n);
    if bf > 1 && key < n.left.key then RightRotate(n)
    else if bf < -1 && key > n.right.key then LeftRotate(n)
    else if bf > 1 && key > n.left.key then RightRotate(n.(left := LeftRotate(n.left)))
    else if bf < -1 && key < n.right.key then LeftRotate(n.(right := RightRotate(n.right)))
    else n
  }

  /** What one insertion guarantees about the subtree r it returns in place of t:
      the invariant, the new key set and entries (an existing name is kept),
      no change at all for a duplicate key, height growth of at most one, and,
      when the height did grow, which side the new key made heavier. */
  ghost predicate GrownFrom(r: Tree, t: Tree, key: int, name: string)
  {
    && Valid(r) && r.Node?
    && Keys(r) == Keys(t) + {key}
    && Entries(r) == (if key in Keys(t) then Entries(t) else Entries(t) + {(key, name)})
    && (key in Keys(t) ==> r == t)
    && Height(t) <= Height(r) <= Height(t) + 1
    && (t.Node? && Height(r) == Height(t) + 1 ==>
          r.key == t.key &&
          (key < t.key ==> BalanceFactor(r) == 1) &&
          (key > t.key ==> BalanceFactor(r) == -1))
  }

  /** `insertAVL(node, key, name)`. */
  function Insert(t: Tree, key: int, name: string): (r: Tree)
    requires Valid(t)
    ensures Valid(r) && r.Node?
    ensures Keys(r) == Keys(t) + {key}
    ensures Entries(r) == if key in Keys(t) then Entries(t) else Entries(t) + {(key, name)}
    ensures key in Keys(t) ==> r == t
    ensures Height(t) <= Height(r) <= Height(t) + 1
    ensures t.Node? && Height(r) == Height(t) + 1 ==>
              r.key == t.key &&
              (key < t.key ==> BalanceFactor(r) == 1) &&
              (key > t.key ==> BalanceFactor(r) == -1)
    decreases t
  {
    if t.Nil? then
      CreateNode(key, name)
    else if key < t.key then
      var l := Insert(t.left, key, name);
      InsertedLeft(t, l, key, name);
      Rebalance(WithLeft(t, l), key)
    else if key > t.key then
      var rt := Insert(t.right, key, name);
      InsertedRight(t, rt, key, name);
      Rebalance(WithRight(t, rt), key)
    else
      t
  }

  lemma ValidHeight(t: Tree)
    requires HeightsOk(t)
    ensures Height(t) == TrueHeight(t)
  {
  }

  /** The subtree `insertAVL` builds after a recursive insertion into the left
      child, before rebalancing (`node->left = ...; node->height = ...`). */
  function WithLeft(t: Tree, l: Tree): Tree
    requires t.Node?
  {
    t.(left := l, height := 1 + Max(Height(l), Height(t.right)))
  }

  /** The same after a recursive insertion into the right child. */
  function WithRight(t: Tree, rt: Tree): Tree
    requires t.Node?
  {
    t.(right := rt, height := 1 + Max(Height(t.left), Height(rt)))
  }

  /** After inserting into the left subtree, Rebalance restores every invariant. */
  lemma InsertedLeft(t: Tree, l: Tree, key: int, name: string)
    requires Valid(t) && t.Node? && key < t.key
    requires GrownFrom(l, t.left, key, name)
    ensures HeightsOk(WithLeft(t, l).left) && HeightsOk(WithLeft(t, l).right)
    ensures BalanceFactor(WithLeft(t, l)) >= -1
    ensures BalanceFactor(WithLeft(t, l)) > 1 && key > l.key ==> l.right.Node?
    ensures GrownFrom(Rebalance(WithLeft(t, l), key), t, key, name)
  {
    var n := WithLeft(t, l);
    ValidHeight(t.left);
    ValidHeight(t.right);
    ValidHeight(l);
    if key in Keys(t.left) {
      assert n == t;
    } else if BalanceFactor(n) <= 1 {
      LeftNoRotation(t, l, key, name);
    } else if key < l.key {
      LeftLeft(t, l, key, name);
    } else {
      LeftRight(t, l, key, name);
    }
  }

  /** The new key made the left side at most one taller than the right: no rotation. */
  lemma LeftNoRotation(t: Tree, l: Tree, key: int, name: string)
    requires Valid(t) && t.Node? && key < t.key && key !in Keys(t.left)
    requires GrownFrom(l, t.left, key, name)
    requires BalanceFactor(WithLeft(t, l)) <= 1
    ensures BalanceFactor(WithLeft(t, l)) >= -1
    ensures GrownFrom(Rebalance(WithLeft(t, l), key), t, key, name)
  {
    var n := WithLeft(t, l);
    ValidHeight(t.left);
    ValidHeight(t.right);
    ValidHeight(l);
    assert Rebalance(n, key) == n;
    assert HeightsOk(n);
    assert Ordered(n);
  }

  /** Left-left case: one right rotation at the node. */
  lemma LeftLeft(t: Tree, l: Tree, key: int, name: string)
    requires Valid(t) && t.Node? && key < t.key && key !in Keys(t.left)
    requires GrownFrom(l, t.left, key, name)
    requires BalanceFactor(WithLeft(t, l)) > 1 && key < l.key
    ensures GrownFrom(Rebalance(WithLeft(t, l), key), t, key, name)
  {
    var n := WithLeft(t, l);
    ValidHeight(t.left);
    ValidHeight(t.right);
    ValidHeight(l);
    var h := Height(t.right);
    assert Height(l) == h + 2 && Height(t.left) == h + 1 && t.left.Node?;
    assert l.key == t.left.key && BalanceFactor(l) == 1;
    ValidHeight(l.left);
    ValidHeight(l.right);
    assert Height(l.left) == h + 1 && Height(l.right) == h;
    var r := RightRotate(n);
    assert r == Rebalance(n, key);
    assert Ordered(n);
    assert Height(r.right) == h + 1;
    assert Balanced(r.right);
    assert Balanced(r);
    assert Height(r) == Height(t);
  }

  /** Left-right case: rotate the left child left, then the node right. */
  lemma LeftRight(t: Tree, l: Tree, key: int, name: string)
    requires Valid(t) && t.Node? && key < t.key && key !in Keys(t.left)
    requires GrownFrom(l, t.left, key, name)
    requires BalanceFactor(WithLeft(t, l)) > 1 && key >= l.key
    ensures l.right.Node?
    ensures GrownFrom(Rebalance(WithLeft(t, l), key), t, key, name)
  {
    var n := WithLeft(t, l);
    ValidHeight(t.left);
    ValidHeight(t.right);
    ValidHeight(l);
    var h := Height(t.right);
    assert Height(l) == h + 2 && Height(t.left) == h + 1 && t.left.Node?;
    assert l.key == t.left.key && key > l.key && BalanceFactor(l) == -1;
    ValidHeight(l.left);
    ValidHeight(l.right);
    assert Height(l.left) == h && Height(l.right) == h + 1;
    var z := l.right;
    assert Balanced(z) && HeightsOk(z) && Height(z) == h + 1;
    ValidHeight(z.left);
    ValidHeight(z.right);
    assert Height(z) == 1 + Max(Height(z.left), Height(z.right));
    assert h - 1 <= Height(z.left) <= h && h - 1 <= Height(z.right) <= h;
    var l2 := LeftRotate(l);
    var r := RightRotate(n.(left := l2));
    assert r == Rebalance(n, key);
    assert Ordered(n);
    assert Ordered(n.(left := l2));
    assert Height(r.left) == h + 1 && Height(r.right) == h + 1;
    assert Balanced(r.left) && Balanced(r.right);
    assert Balanced(r);
    assert Height(r) == Height(t);
  }

  /** After inserting into the right subtree, Rebalance restores every invariant. */
  lemma InsertedRight(t: Tree, rt: Tree, key: int, name: string)
    requires Valid(t) && t.Node? && key > t.key
    requires GrownFrom(rt, t.right, key, name)
    ensures HeightsOk(WithRight(t, rt).left) && HeightsOk(WithRight(t, rt).right)
    ensures BalanceFactor(WithRight(t, rt)) <= 1
    ensures BalanceFactor(WithRight(t, rt)) < -1 && key < rt.key ==> rt.left.Node?
    ensures GrownFrom(Rebalance(WithRight(t, rt), key), t, key, name)
  {
    var n := WithRight(t, rt);
    ValidHeight(t.left);
    ValidHeight(t.right);
    ValidHeight(rt);
    if key in Keys(t.right) {
      assert n == t;
    } else if BalanceFactor(n) >= -1 {
      RightNoRotation(t, rt, key, name);
    } else if key > rt.key {
      RightRight(t, rt, key, name);
    } else {
      RightLeft(t, rt, key, name);
    }
  }

  lemma RightNoRotation(t: Tree, rt: Tree, key: int, name: string)
    requires Valid(t) && t.Node? && key > t.key && key !in Keys(t.right)
    requires GrownFrom(rt, t.right, key, name)
    requires BalanceFactor(WithRight(t, rt)) >= -1
    ensures BalanceFactor(WithRight(t, rt)) <= 1
    ensures GrownFrom(Rebalance(WithRight(t, rt), key), t, key, name)
  {
    var n := WithRight(t, rt);
    ValidHeight(t.left);
    ValidHeight(t.right);
    ValidHeight(rt);
    assert Rebalance(n, key) == n;
    assert HeightsOk(n);
    assert Ordered(n);
  }

  /** Right-right case: one left rotation at the node. */
  lemma RightRight(t: Tree, rt: Tree, key: int, name: string)
    requires Valid(t) && t.Node? && key > t.key && key !in Keys(t.right)
    requires GrownFrom(rt, t.right, key, name)
    requires BalanceFactor(WithRight(t, rt)) < -1 && key > rt.key
    ensures GrownFrom(Rebalance(WithRight(t, rt), key), t, key, name)
  {
    var n := WithRight(t, rt);
    ValidHeight(t.left);
    ValidHeight(t.right);
    ValidHeight(rt);
    var h := Height(t.left);
    assert Height(rt) == h + 2 && Height(t.right) == h + 1 && t.right.Node?;
    assert rt.key == t.right.key && BalanceFactor(rt) == -1;
    ValidHeight(rt.left);
    ValidHeight(rt.right);
    assert Height(rt.right) == h + 1 && Height(rt.left) == h;
    var r := LeftRotate(n);
    assert r == Rebalance(n, key);
    assert Ordered(n);
    assert Height(r.left) == h + 1;
    assert Balanced(r.left);
    assert Balanced(r);
    assert Height(r) == Height(t);
  }

  /** Right-left case: rotate the right child right, then the node left. */
  lemma RightLeft(t: Tree, rt: Tree, key: int, name: string)
    requires Valid(t) && t.Node? && key > t.key && key !in Keys(t.right)
    requires GrownFrom(rt, t.right, key, name)
    requires BalanceFactor(WithRight(t, rt)) < -1 && key <= rt.key
    ensures rt.left.Node?
    ensures GrownFrom(Rebalance(WithRight(t, rt), key), t, key, name)
  {
    var n := WithRight(t, rt);
    ValidHeight(t.left);
    ValidHeight(t.right);
    ValidHeight(rt);
    var h := Height(t.left);
    assert Height(rt) == h + 2 && Height(t.right) == h + 1 && t.right.Node?;
    assert rt.key == t.right.key && key < rt.key && BalanceFactor(rt) == 1;
    ValidHeight(rt.left);
    ValidHeight(rt.right);
    assert Height(rt.right) == h && Height(rt.left) == h + 1;
    var z := rt.left;
    assert Balanced(z) && HeightsOk(z) && Height(z) == h + 1;
    ValidHeight(z.left);
    ValidHeight(z.right);
    assert Height(z) == 1 + Max(Height(z.left), Height(z.right));
    assert h - 1 <= Height(z.left) <= h && h - 1 <= Height(z.right) <= h;
    var r2 := RightRotate(rt);
    var r := LeftRotate(n.(right := r2));
    assert r == Rebalance(n, key);
    assert Ordered(n);
    assert Ordered(n.(right := r2));
    assert Height(r.left) == h + 1 && Height(r.right) == h + 1;
    assert Balanced(r.left) && Balanced(r.right);
    assert Balanced(r);
    assert Height(r) == Height(t);
  }

  /** `searchBST(root, key)`: the node holding `key`, or Nil for a null result. */
  function Search(t: Tree, key: int): (r: Tree)
    ensures r.Node? ==> r.key == key && (key, r.name) in Entries(t)
    ensures Ordered(t) ==> (r.Node? <==> key in Keys(t))
  {
    if t.Nil? then Nil
    else if key == t.key then t
    else if key < t.key then Search(t.left, key)
    else Search(t.right, key)
  }

  ghost predicate StrictlyAscending(s: seq<(int, string)>)
  {
    forall i, j :: 0 <= i < j < |s| ==> s[i].0 < s[j].0
  }

  lemma EntryKey(t: Tree, e: (int, string))
    requires e in Entries(t)
    ensures e.0 in Keys(t)
  {
    if e != (t.key, t.name) {
      if e in Entries(t.left) { EntryKey(t.left, e); } else { EntryKey(t.right, e); }
    }
  }

  /** `inorderBST(root)`: the visited (id, name) pairs, in visiting order. */
  function Inorder(t: Tree): (r: seq<(int, string)>)
    ensures |r| == Size(t)
    ensures forall e :: e in r <==> e in Entries(t)
    ensures Ordered(t) ==> StrictlyAscending(r)
  {
    if t.Nil? then []
    else
      var l := Inorder(t.left);
      var rt := Inorder(t.right);
      var r := l + [(t.key, t.name)] + rt;
      assert Ordered(t) ==> StrictlyAscending(r) by {
        if Ordered(t) {
          forall i, j | 0 <= i < j < |r| ensures r[i].0 < r[j].0 {
            if i < |l| { EntryKey(t.left, r[i]); }
            if j > |l| { EntryKey(t.right, r[j]); }
          }
        }
      }
      r
  }

  /** In an ordered tree an id is stored with one name only. */
  lemma {:induction false} NamesUnique(t: Tree, k: int, a: string, b: string)
    requires Ordered(t) && (k, a) in Entries(t) && (k, b) in Entries(t)
    ensures a == b
  {
    if (k, a) in Entries(t.left) { EntryKey(t.left, (k, a)); }
    if (k, b) in Entries(t.left) { EntryKey(t.left, (k, b)); }
    if (k, a) in Entries(t.right) { EntryKey(t.right, (k, a)); }
    if (k, b) in Entries(t.right) { EntryKey(t.right, (k, b)); }
    if k < t.key {
      NamesUnique(t.left, k, a, b);
    } else if k > t.key {
      NamesUnique(t.right, k, a, b);
    }
  }

  /** After an insertion, search finds the new id and every id found before;
      the name found for the inserted id is the new one only if the id was
      absent, and every other id keeps its name. */
  lemma SearchAfterInsert(t: Tree, key: int, name: string, k: int)
    requires Valid(t)
    ensures Search(Insert(t, key, name), k).Node? <==> (k == key || Search(t, k).Node?)
    ensures Search(Insert(t, key, name), key).name ==
              if Search(t, key).Node? then Search(t, key).name else name
    ensures k != key && Search(t, k).Node? ==>
              Search(Insert(t, key, name), k).name == Search(t, k).name
  {
    var r := Insert(t, key, name);
    var found := Search(r, key);
    if Search(t, key).Node? {
      assert r == t;
    } else {
      assert (key, found.name) in Entries(r) && (key, name) in Entries(r);
      NamesUnique(r, key, found.name, name);
    }
    if k != key && Search(t, k).Node? {
      var before, after := Search(t, k), Search(r, k);
      assert (k, after.name) in Entries(r) && (k, before.name) in Entries(r);
      NamesUnique(r, k, after.name, before.name);
    }
  }

  function KeysOf(xs: seq<(int, string)>): set<int>
  {
    set i | 0 <= i < |xs| :: xs[i].0
  }

  /** The index the program builds: `customerBST = insertAVL(customerBST, id, name)`
      for each registered customer in turn, starting from an empty tree. */
  function BuildIndex(xs: seq<(int, string)>): (r: Tree)
    ensures Valid(r)
    ensures Keys(r) == KeysOf(xs)
  {
    if xs == [] then Nil
    else
      var prev := BuildIndex(xs[..|xs| - 1]);
      var last := xs[|xs| - 1];
      assert KeysOf(xs) == KeysOf(xs[..|xs| - 1]) + {last.0} by {
        forall k | k in KeysOf(xs) ensures k in KeysOf(xs[..|xs| - 1]) + {last.0} {
          var i :| 0 <= i < |xs| && xs[i].0 == k;
          if i < |xs| - 1 { assert xs[..|xs| - 1][i] == xs[i]; }
        }
      }
      Insert(prev, last.0, last.1)
  }

  /** Searching the built index finds exactly the ids that were inserted, and
      each with the name it was FIRST inserted with (later duplicates are no-ops). */
  lemma {:induction false} BuildIndexKeepsFirst(xs: seq<(int, string)>, i: int)
    requires 0 <= i < |xs|
    requires forall j :: 0 <= j < i ==> xs[j].0 != xs[i].0
    ensures Search(BuildIndex(xs), xs[i].0).Node?
    ensures Search(BuildIndex(xs), xs[i].0).name == xs[i].1
  {
    var prefix := xs[..|xs| - 1];
    var prev := BuildIndex(prefix);
    var last := xs[|xs| - 1];
    var k := xs[i].0;
    assert BuildIndex(xs) == Insert(prev, last.0, last.1);
    if i == |xs| - 1 {
      assert forall j :: 0 <= j < |prefix| ==> prefix[j] == xs[j];
      assert k !in KeysOf(prefix);
      SearchAfterInsert(prev, last.0, last.1, k);
    } else {
      assert prefix[i] == xs[i];
      BuildIndexKeepsFirst(prefix, i);
      SearchAfterInsert(prev, last.0, last.1, k);
    }
  }

  /** The index built from three customers is three insertions into the
      empty tree. */
  lemma BuildThree()
    ensures BuildIndex([(10, "A"), (20, "B"), (30, "C")]) == Insert(Insert(Insert(Nil, 10, "A"), 20, "B"), 30, "C")
  {
    assert [(10, "A"), (20, "B"), (30, "C")][..2] == [(10, "A"), (20, "B")];
    assert [(10, "A"), (20, "B")][..1] == [(10, "A")];
    assert [(10, "A")][..0] == [];
  }

  /** The leaves of the scenario below. */
  function Leaf10(): Tree { CreateNode(10, "A") }
  function Leaf20(): Tree { CreateNode(20, "B") }
  function Leaf30(): Tree { CreateNode(30, "C") }

  lemma InsertSecond()
    ensures Insert(Insert(Nil, 10, "A"), 20, "B") == Node(10, "A", Nil, Leaf20(), 2)
  {
    assert Insert(Nil, 10, "A") == Leaf10();
    assert Insert(Nil, 20, "B") == Leaf20();
    var n := WithRight(Leaf10(), Leaf20());
    assert n == Node(10, "A", Nil, Leaf20(), 2);
    assert Rebalance(n, 20) == n;
  }

  lemma InsertThird()
    ensures Insert(Node(10, "A", Nil, Leaf20(), 2), 30, "C") == Node(20, "B", Leaf10(), Leaf30(), 2)
  {
    assert Insert(Nil, 30, "C") == Leaf30();
    var m := WithRight(Leaf20(), Leaf30());
    assert m == Node(20, "B", Nil, Leaf30(), 2);
    assert Rebalance(m, 30) == m;
    assert Insert(Leaf20(), 30, "C") == m;
    var n := WithRight(Node(10, "A", Nil, Leaf20(), 2), m);
    assert n == Node(10, "A", Nil, m, 3);
    assert BalanceFactor(n) == -2;
    assert Rebalance(n, 30) == LeftRotate(n);
  }

  /** Scenario: ids 10, 20, 30 inserted in that order trigger one left
      rotation; 20 ends at the root with 10 and 30 as its children. */
  lemma RotationScenario()
    ensures var t := BuildIndex([(10, "A"), (20, "B"), (30, "C")]);
      t.Node? && t.left.Node? && t.right.Node? &&
      t.key == 20 && t.left.key == 10 && t.right.key == 30 &&
      t.left.left.Nil? && t.left.right.Nil? && t.right.left.Nil? && t.right.right.Nil?
  {
    BuildThree();
    InsertSecond();
    InsertThird();
  }

  function Pow2(n: nat): nat
  {
    if n == 0 then 1 else 2 * Pow2(n - 1)
  }

  lemma {:induction false} Pow2Monotonic(a: nat, b: nat)
    requires a <= b
    ensures Pow2(a) <= Pow2(b)
  {
    if a < b { Pow2Monotonic(a, b - 1); }
  }

  /** The balance invariant bounds the height logarithmically:
      a valid tree of height h holds at least 2^(h/2) - 1 customers. */
  lemma {:induction false} HeightIsLogarithmic(t: Tree)
    requires Valid(t)
    ensures Size(t) + 1 >= Pow2(Height(t) / 2)
  {
    if t.Node? {
      ValidHeight(t);
      ValidHeight(t.left);
      ValidHeight(t.right);
      HeightIsLogarithmic(t.left);
      HeightIsLogarithmic(t.right);
      var h := Height(t);
      if h >= 2 {
        var lo := (h - 2) / 2;
        assert Height(t.left) >= h - 2 && Height(t.right) >= h - 2;
        Pow2Monotonic(lo, Height(t.left) / 2);
        Pow2Monotonic(lo, Height(t.right) / 2);
        assert h / 2 == lo + 1;
      }
    }
  }
}
