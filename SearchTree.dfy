/**
 * The binary search tree of lab9/BSTNode.py and lab9/BSTSet.py: integer
 * keys in nodes whose `left` and `right` pointers `put` updates in place,
 * the three traversals, and the iterator that queues the nodes in order.
 *
 * Each node carries a ghost `tree`, the value of the subtree below it, and
 * the traversals and insertion are stated on that value first.
 */
module SearchTree {
  import opened Util
  import Seqs

  datatype Tree = Empty | Node(left: Tree, key: int, right: Tree)

  function Keys(t: Tree): set<int>
  {
    match t
    case Empty => {}
    case Node(l, k, r) => Keys(l) + {k} + Keys(r)
  }

  /** Every key on the left of a node is smaller than its key, every key on the right larger. */
  ghost predicate IsBST(t: Tree)
  {
    match t
    case Empty => true
    case Node(l, k, r) =>
      IsBST(l) && IsBST(r) && (forall x :: x in Keys(l) ==> x < k) && (forall x :: x in Keys(r) ==> k < x)
  }

  /** `put` on a tree value: a key already present changes nothing, a new one becomes a leaf; exactly the key is added. */
  function Insert(t: Tree, x: int): (r: Tree)
    ensures Keys(r) == Keys(t) + {x}
  {
    match t
    case Empty => Node(Empty, x, Empty)
    case Node(l, k, r) =>
      if x == k then t
      else if x < k then Node(Insert(l, x), k, r)
      else Node(l, k, Insert(r, x))
  }

  /** Left subtree, key, right subtree. */
  function InOrderOf(t: Tree): seq<int>
  {
    match t
    case Empty => []
    case Node(l, k, r) => InOrderOf(l) + [k] + InOrderOf(r)
  }

  /** Key, left subtree, right subtree. */
  function PreOrderOf(t: Tree): seq<int>
  {
    match t
    case Empty => []
    case Node(l, k, r) => [k] + PreOrderOf(l) + PreOrderOf(r)
  }

  /** Left subtree, right subtree, key. */
  function PostOrderOf(t: Tree): seq<int>
  {
    match t
    case Empty => []
    case Node(l, k, r) => PostOrderOf(l) + PostOrderOf(r) + [k]
  }

  /** Insertion keeps the search-tree order. */
  lemma {:induction false} InsertBST(t: Tree, x: int)
    requires IsBST(t)
    ensures IsBST(Insert(t, x))
  {
    match t
    case Empty =>
    case Node(l, k, r) =>
      if x < k {
        InsertBST(l, x);
      } else if x > k {
        InsertBST(r, x);
      }
  }

  /** In a search tree, putting a key already present changes nothing. */
  lemma {:induction false} InsertPresent(t: Tree, x: int)
    requires IsBST(t) && x in Keys(t)
    ensures Insert(t, x) == t
  {
    match t
    case Node(l, k, r) =>
      if x < k {
        InsertPresent(l, x);
      } else if x > k {
        InsertPresent(r, x);
      }
  }

  predicate StrictlyIncreasing(s: seq<int>)
  {
    forall i, j :: 0 <= i < j < |s| ==> s[i] < s[j]
  }

  /** The in-order traversal of a search tree lists its keys in strictly increasing order. */
  lemma {:induction false} InOrderSorted(t: Tree)
    requires IsBST(t)
    ensures StrictlyIncreasing(InOrderOf(t))
  {
    match t
    case Empty =>
    case Node(l, k, r) =>
      InOrderSorted(l);
      InOrderSorted(r);
      InOrderKeys(l);
      InOrderKeys(r);
      var s := InOrderOf(t);
      forall i, j | 0 <= i < j < |s|
        ensures s[i] < s[j]
      {
        var a, b := |InOrderOf(l)|, |InOrderOf(l)| + 1;
        if j < a {
        } else if i < a {
          assert s[i] == InOrderOf(l)[i] && s[i] in Keys(l);
          if j > a {
            assert s[j] == InOrderOf(r)[j - b] && s[j] in Keys(r);
          }
        } else if i == a {
          assert s[j] == InOrderOf(r)[j - b] && s[j] in Keys(r);
        } else {
          assert s[i] == InOrderOf(r)[i - b] && s[j] == InOrderOf(r)[j - b];
        }
      }
  }

  /** The in-order traversal lists exactly the keys of the tree. */
  lemma {:induction false} InOrderKeys(t: Tree)
    ensures forall x :: x in InOrderOf(t) <==> x in Keys(t)
  {
    match t
    case Empty =>
    case Node(l, k, r) =>
      InOrderKeys(l);
      InOrderKeys(r);
      assert forall x :: x in InOrderOf(t) <==> x in InOrderOf(l) || x == k || x in InOrderOf(r);
  }

  /** The three traversals list the same keys, each as often as the others. */
  lemma {:induction false} TraversalsAgree(t: Tree)
    ensures multiset(PreOrderOf(t)) == multiset(InOrderOf(t)) == multiset(PostOrderOf(t))
  {
    match t
    case Empty =>
    case Node(l, k, r) =>
      TraversalsAgree(l);
      TraversalsAgree(r);
  }

  /** The tree seen in a mirror. */
  function Mirror(t: Tree): Tree
  {
    match t
    case Empty => Empty
    case Node(l, k, r) => Node(Mirror(r), k, Mirror(l))
  }

  /** Post-order is pre-order of the mirror image, read backwards: the key comes after both subtrees. */
  lemma {:induction false} PostOrderMirrorsPreOrder(t: Tree)
    ensures PostOrderOf(t) == Seqs.Reverse(PreOrderOf(Mirror(t)))
  {
    match t
    case Empty =>
    case Node(l, k, r) =>
      PostOrderMirrorsPreOrder(l);
      PostOrderMirrorsPreOrder(r);
      calc {
        Seqs.Reverse(PreOrderOf(Mirror(t)));
        Seqs.Reverse([k] + PreOrderOf(Mirror(r)) + PreOrderOf(Mirror(l)));
        { Seqs.ReverseConcat([k] + PreOrderOf(Mirror(r)), PreOrderOf(Mirror(l)));
          Seqs.ReverseConcat([k], PreOrderOf(Mirror(r))); }
        PostOrderOf(l) + (PostOrderOf(r) + Seqs.Reverse([k]));
      }
  }

  /** The tree a sequence of `put` calls builds from an empty set. */
  function InsertAll(t: Tree, xs: seq<int>): Tree
    decreases |xs|
  {
    if xs == [] then t else InsertAll(Insert(t, xs[0]), xs[1..])
  }

  class BSTNode {
    const key: int
    var left: BSTNode?
    var right: BSTNode?
    /** The subtree rooted here. */
    ghost var tree: Tree
    ghost var Repr: set<object>

    ghost predicate Valid()
      reads this, Repr
      decreases Repr
    {
      && this in Repr
      && (left != null ==> left in Repr && left.Repr <= Repr && this !in left.Repr && left.Valid())
      && (right != null ==> right in Repr && right.Repr <= Repr && this !in right.Repr && right.Valid())
      && (left != null && right != null ==> left.Repr !! right.Repr)
      && tree == Node(if left == null then Empty else left.tree, key, if right == null then Empty else right.tree)
      && IsBST(tree)
    }

    /** `BSTNode(key)`: a leaf. */
    constructor(key: int)
      ensures Valid() && fresh(Repr) && tree == Node(Empty, key, Empty)
    {
      this.key := key;
      left, right := null, null;
      tree := Node(Empty, key, Empty);
      Repr := {this};
    }

    /**
     * `put`: down the left pointers for a smaller key and the right ones
     * for a larger key, and a new leaf where the pointer is null; the same
     * key stops the descent.
     */
    method Put(x: int)
      requires Valid()
      modifies Repr
      ensures Valid() && fresh(Repr - old(Repr))
      ensures tree == Insert(old(tree), x)
      decreases Repr, 1
    {
      if x < key {
        PutLeft(x);
      } else if x > key {
        PutRight(x);
      }
    }

    /** `put` of a key smaller than this node's, which goes to the left subtree. */
    method PutLeft(x: int)
      requires Valid() && x < key
      modifies Repr
      ensures Valid() && fresh(Repr - old(Repr))
      ensures tree == Insert(old(tree), x)
      decreases Repr, 0
    {
      if left == null {
        left := new BSTNode(x);
      } else {
        left.Put(x);
      }
      Repr := Repr + left.Repr;
      InsertBST(tree, x);
      tree := Node(left.tree, key, if right == null then Empty else right.tree);
    }

    /** `put` of a key larger than this node's, which goes to the right subtree. */
    method PutRight(x: int)
      requires Valid() && x > key
      modifies Repr
      ensures Valid() && fresh(Repr - old(Repr))
      ensures tree == Insert(old(tree), x)
      decreases Repr, 0
    {
      if right == null {
        right := new BSTNode(x);
      } else {
        right.Put(x);
      }
      Repr := Repr + right.Repr;
      InsertBST(tree, x);
      tree := Node(if left == null then Empty else left.tree, key, right.tree);
    }

    /** `in_order`: the keys below, smaller ones first. */
    function InOrder(): (r: seq<int>)
      requires Valid()
      reads Repr
      ensures r == InOrderOf(tree)
      decreases Repr
    {
      (if left == null then [] else left.InOrder()) + [key] + (if right == null then [] else right.InOrder())
    }

    /** `pre_order`: each key before its subtrees. */
    function PreOrder(): (r: seq<int>)
      requires Valid()
      reads Repr
      ensures r == PreOrderOf(tree)
      decreases Repr
    {
      [key] + (if left == null then [] else left.PreOrder()) + (if right == null then [] else right.PreOrder())
    }

    /** `post_order`: each key after its subtrees. */
    function PostOrder(): (r: seq<int>)
      requires Valid()
      reads Repr
      ensures r == PostOrderOf(tree)
      decreases Repr
    {
      (if left == null then [] else left.PostOrder()) + (if right == null then [] else right.PostOrder()) + [key]
    }
  }

  /** The keys of a queue of nodes. */
  function KeysOf(q: seq<BSTNode>): (r: seq<int>)
    ensures |r| == |q| && forall i :: 0 <= i < |q| ==> r[i] == q[i].key
  {
    if q == [] then [] else [q[0].key] + KeysOf(q[1..])
  }

  lemma KeysOfConcat(a: seq<BSTNode>, b: seq<BSTNode>)
    ensures KeysOf(a + b) == KeysOf(a) + KeysOf(b)
  {
  }

  /** `BSTNodeIterator`: the whole subtree queued in order up front, then handed out one key per call. */
  class BSTNodeIterator {
    var queue: seq<BSTNode>
    var counter: int

    constructor(node: BSTNode)
      requires node.Valid()
      ensures KeysOf(queue) == InOrderOf(node.tree) && counter == 0
    {
      queue := [];
      counter := 0;
      new;
      Enqueue(node);
    }

    /** The iterator's own `in_order`: the nodes below `node`, in order, join the queue. */
    method Enqueue(node: BSTNode)
      requires node.Valid() && this !in node.Repr
      modifies this
      ensures KeysOf(queue) == KeysOf(old(queue)) + InOrderOf(node.tree) && counter == old(counter)
      decreases node.Repr
    {
      ghost var lt := if node.left == null then Empty else node.left.tree;
      ghost var rt := if node.right == null then Empty else node.right.tree;
      ghost var before := KeysOf(queue);
      ghost var all := InOrderOf(node.tree);
      assert all == InOrderOf(lt) + [node.key] + InOrderOf(rt);
      if node.left != null {
        Enqueue(node.left);
      }
      assert KeysOf(queue) == before + InOrderOf(lt);
      KeysOfConcat(queue, [node]);
      queue := queue + [node];
      assert KeysOf(queue) == before + InOrderOf(lt) + [node.key];
      if node.right != null {
        Enqueue(node.right);
      }
      assert KeysOf(queue) == before + InOrderOf(lt) + [node.key] + InOrderOf(rt);
      Seqs.Regroup(before, InOrderOf(lt), [node.key], InOrderOf(rt));
    }

    /** `__next__`: the next queued key, or None where the source raises StopIteration. */
    method Next() returns (r: Option<int>)
      modifies this
      ensures queue == old(queue)
      ensures 0 <= old(counter) < |queue| ==> r == Some(queue[old(counter)].key) && counter == old(counter) + 1
      ensures !(0 <= old(counter) < |queue|) ==> r == None && counter == old(counter)
    {
      if 0 <= counter < |queue| {
        counter := counter + 1;
        return Some(queue[counter - 1].key);
      }
      r := None;
    }
  }

  class BSTSet {
    var head: BSTNode?
    ghost var Repr: set<object>

    ghost predicate Valid()
      reads this, Repr
    {
      this in Repr && (head != null ==> head in Repr && head.Repr <= Repr && this !in head.Repr && head.Valid())
    }

    /** The keys as a tree value. */
    ghost function Contents(): Tree
      reads this, Repr
      requires Valid()
    {
      if head == null then Empty else head.tree
    }

    constructor()
      ensures Valid() && fresh(Repr) && Contents() == Empty
    {
      head := null;
      Repr := {this};
    }

    /** `put`: the first key becomes the root; later ones go to the root's `put`. */
    method Put(x: int)
      requires Valid()
      modifies Repr
      ensures Valid() && fresh(Repr - old(Repr))
      ensures Contents() == Insert(old(Contents()), x) && IsBST(Contents())
    {
      if head == null {
        head := new BSTNode(x);
      } else {
        head.Put(x);
      }
      Repr := Repr + head.Repr;
    }

    /** `in_order`: the keys in order; a ValueError on an empty tree. */
    function InOrder(): (r: Result<seq<int>>)
      requires Valid()
      reads Repr
      ensures head == null ==> r == Err(ValueError)
      ensures head != null ==> r == Ok(InOrderOf(Contents())) && StrictlyIncreasing(r.value)
    {
      if head == null then Err(ValueError)
      else
        InOrderSorted(head.tree);
        Ok(head.InOrder())
    }

    /** `pre_order`: nothing for an empty tree. */
    function PreOrder(): (r: seq<int>)
      requires Valid()
      reads Repr
      ensures r == PreOrderOf(Contents())
    {
      if head == null then [] else head.PreOrder()
    }

    /** `post_order`: nothing for an empty tree. */
    function PostOrder(): (r: seq<int>)
      requires Valid()
      reads Repr
      ensures r == PostOrderOf(Contents())
    {
      if head == null then [] else head.PostOrder()
    }

    /**
     * `list(iter(s))`: a ValueError on an empty tree; otherwise a
     * `BSTNodeIterator` drained until it stops, which yields the in-order
     * traversal.
     */
    method Iterate() returns (r: Result<seq<int>>)
      requires Valid()
      ensures head == null ==> r == Err(ValueError)
      ensures head != null ==> r == Ok(InOrderOf(Contents()))
    {
      if head == null {
        return Err(ValueError);
      }
      var it := new BSTNodeIterator(head);
      var out := Drain(it);
      r := Ok(out);
    }
  }

  /** Calls `__next__` until the iterator stops, collecting the keys. */
  method Drain(it: BSTNodeIterator) returns (out: seq<int>)
    requires it.counter == 0
    modifies it
    ensures out == KeysOf(it.queue)
    ensures it.queue == old(it.queue)
  {
    out := [];
    var stopped := false;
    while !stopped
      invariant it.queue == old(it.queue) && 0 <= it.counter <= |it.queue|
      invariant out == KeysOf(it.queue)[..it.counter]
      invariant stopped ==> it.counter == |it.queue|
      decreases |it.queue| - it.counter, !stopped
    {
      var x := it.Next();
      if x.None? {
        stopped := true;
      } else {
        out := out + [x.value];
      }
    }
  }

  /** Putting 0, 1, 2, 3 builds a chain to the right: pre-order 0, 1, 2, 3 and post-order 3, 2, 1, 0. */
  method RightChain() returns (pre: seq<int>, post: seq<int>)
    ensures pre == [0, 1, 2, 3] && post == [3, 2, 1, 0]
  {
    var s := new BSTSet();
    s.Put(0);
    s.Put(1);
    s.Put(2);
    s.Put(3);
    RightChainTree();
    pre := s.PreOrder();
    post := s.PostOrder();
  }

  /** The tree of `RightChain`, and its traversals. */
  lemma RightChainTree()
    ensures var t := Node(Empty, 0, Node(Empty, 1, Node(Empty, 2, Node(Empty, 3, Empty))));
      Insert(Insert(Insert(Insert(Empty, 0), 1), 2), 3) == t &&
      PreOrderOf(t) == [0, 1, 2, 3] && PostOrderOf(t) == [3, 2, 1, 0]
  {
  }

  /** Putting 3, 1, 0, 2, 5, 4, 6 builds the balanced tree of seven keys. */
  lemma Balanced()
    ensures var t := InsertAll(Empty, [3, 1, 0, 2, 5, 4, 6]);
      InOrderOf(t) == [0, 1, 2, 3, 4, 5, 6] && PreOrderOf(t) == [3, 1, 0, 2, 5, 4, 6] && PostOrderOf(t) == [0, 2, 1, 4, 6, 5, 3]
  {
    BalancedShape();
    BalancedTraversals(InsertAll(Empty, [3, 1, 0, 2, 5, 4, 6]));
  }

  /** The traversals of the balanced tree of seven keys. */
  lemma BalancedTraversals(t: Tree)
    requires t == Node(Node(Node(Empty, 0, Empty), 1, Node(Empty, 2, Empty)), 3, Node(Node(Empty, 4, Empty), 5, Node(Empty, 6, Empty)))
    ensures InOrderOf(t) == [0, 1, 2, 3, 4, 5, 6] && PreOrderOf(t) == [3, 1, 0, 2, 5, 4, 6] && PostOrderOf(t) == [0, 2, 1, 4, 6, 5, 3]
  {
    var l := Node(Node(Empty, 0, Empty), 1, Node(Empty, 2, Empty));
    var r := Node(Node(Empty, 4, Empty), 5, Node(Empty, 6, Empty));
    assert InOrderOf(l) == [0, 1, 2] && InOrderOf(r) == [4, 5, 6];
    assert PreOrderOf(l) == [1, 0, 2] && PreOrderOf(r) == [5, 4, 6];
    assert PostOrderOf(l) == [0, 2, 1] && PostOrderOf(r) == [4, 6, 5];
  }

  lemma BalancedShape()
    ensures InsertAll(Empty, [3, 1, 0, 2, 5, 4, 6]) ==
      Node(Node(Node(Empty, 0, Empty), 1, Node(Empty, 2, Empty)), 3, Node(Node(Empty, 4, Empty), 5, Node(Empty, 6, Empty)))
  {
    var t3 := Node(Node(Node(Empty, 0, Empty), 1, Node(Empty, 2, Empty)), 3, Empty);
    assert InsertAll(Empty, [3, 1, 0, 2, 5, 4, 6]) == InsertAll(Node(Empty, 3, Empty), [1, 0, 2, 5, 4, 6]);
    assert InsertAll(Node(Empty, 3, Empty), [1, 0, 2, 5, 4, 6]) == InsertAll(Node(Node(Empty, 1, Empty), 3, Empty), [0, 2, 5, 4, 6]);
    assert InsertAll(Node(Node(Empty, 1, Empty), 3, Empty), [0, 2, 5, 4, 6]) == InsertAll(t3, [5, 4, 6]);
  }
}
