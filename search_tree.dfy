/** The bid index as the source builds it: heap nodes linked by left and
    right references, and a tree object holding the root.  Each node keeps a
    ghost footprint (Repr) and a ghost value (Model) of the subtree it roots;
    every method is proved against the matching function of module BidTree. */
module SearchTree {
  import opened StringOrder
  import opened BidTree

  class Node {
    var bid: Bid
    var left: Node?
    var right: Node?

    ghost var Repr: set<object>
    ghost var Model: Tree

    /** The subtree rooted here is a proper tree (no sharing, no cycles) and
        Model is its shape. */
    ghost predicate Valid()
      reads this, Repr
      decreases Repr
    {
      && this in Repr
      && (left != null ==>
            left in Repr && left.Repr <= Repr && this !in left.Repr && left.Valid())
      && (right != null ==>
            right in Repr && right.Repr <= Repr && this !in right.Repr && right.Valid())
      && (left != null && right != null ==> left.Repr !! right.Repr)
      && Model == Tree.Node(ModelOf(left), bid, ModelOf(right))
    }

    /** A node holding a copy of b, with no children. */
    constructor (b: Bid)
      ensures Valid() && fresh(Repr) && Repr == {this}
      ensures bid == b && left == null && right == null
      ensures Model == Tree.Node(Leaf, b, Leaf)
    {
      bid := b;
      left := null;
      right := null;
      Repr := {this};
      Model := Tree.Node(Leaf, b, Leaf);
    }

    /** Ghost bookkeeping after one of this node's links or its bid has been
        assigned: recomputes the footprint and the shape from the children. */
    ghost method Refresh()
      requires left != null ==> left.Valid() && this !in left.Repr
      requires right != null ==> right.Valid() && this !in right.Repr
      requires left != null && right != null ==> left.Repr !! right.Repr
      modifies this
      ensures left == old(left) && right == old(right) && bid == old(bid)
      ensures Valid()
      ensures Repr == {this} + ReprOf(left) + ReprOf(right)
      ensures Model == Tree.Node(ModelOf(left), bid, ModelOf(right))
    {
      Repr := {this} + ReprOf(left) + ReprOf(right);
      Model := Tree.Node(ModelOf(left), bid, ModelOf(right));
    }
  }

  /** The shape of the subtree a possibly absent node roots. */
  ghost function ModelOf(n: Node?): Tree
    reads n
  {
    if n == null then Leaf else n.Model
  }

  ghost function ReprOf(n: Node?): set<object>
    reads n
  {
    if n == null then {} else n.Repr
  }

  class BinarySearchTree {
    var root: Node?

    ghost var Repr: set<object>
    ghost var Model: Tree

    /** The object invariant: the nodes form a tree whose shape is Model, and
        that shape satisfies the ordering invariant. */
    ghost predicate Valid()
      reads this, Repr
    {
      && this in Repr
      && (root != null ==>
            root in Repr && root.Repr <= Repr && this !in root.Repr && root.Valid())
      && Model == ModelOf(root)
      && Ordered(Model)
    }

    /** An empty tree: the root is absent. */
    constructor ()
      ensures Valid() && fresh(Repr)
      ensures root == null && Model == Leaf
    {
      root := null;
      Repr := {this};
      Model := Leaf;
    }

    /** Inserts a copy of bid: on an empty tree it becomes the root, otherwise
        addNode attaches it below the root.  Duplicates are accepted. */
    method Insert(bid: Bid)
      requires Valid()
      modifies Repr
      ensures Valid() && fresh(Repr - old(Repr))
      ensures Model == Inserted(old(Model), bid)
      ensures old(root) == null ==>
                root != null && root.bid == bid && root.left == null && root.right == null
    {
      if root == null {
        root := new Node(bid);
      } else {
        AddNode(root, bid);
      }
      Repr := {this} + root.Repr;
      Model := root.Model;
      InsertedOrdered(old(Model), bid);
    }

    /** addNode: descend left when the node's key compares greater than
        bid's key, right otherwise, and attach a new node at the first absent
        child on the way. */
    method AddNode(node: Node, bid: Bid)
      requires node.Valid()
      modifies node.Repr
      ensures node.Valid() && fresh(node.Repr - old(node.Repr))
      ensures node.Model == Inserted(old(node.Model), bid)
      decreases node.Repr
    {
      if Compare(node.bid.bidId, bid.bidId) > 0 {
        if node.left == null {
          node.left := new Node(bid);
        } else {
          AddNode(node.left, bid);
        }
      } else {
        if node.right == null {
          node.right := new Node(bid);
        } else {
          AddNode(node.right, bid);
        }
      }
      node.Refresh();
    }

    /** Search: an iterative descent from the root.  It returns the bid of the
        first node whose key equals key, and a default bid (empty bidId,
        amount 0) when it reaches an absent child. */
    method Search(key: string) returns (b: Bid)
      requires Valid()
      ensures Lookup(Model, key).Some? ==> b == Lookup(Model, key).value
      ensures key in Keys(Model) ==> b.bidId == key && b in Bids(Model)
      ensures key !in Keys(Model) ==> b == DefaultBid
    {
      LookupComplete(Model, key);
      LookupFound(Model, key);
      var current := root;
      while current != null
        invariant current != null ==> current.Valid() && current.Repr <= Repr
        invariant Lookup(Model, key) == Lookup(ModelOf(current), key)
        decreases ReprOf(current)
      {
        if Compare(current.bid.bidId, key) == 0 {
          return current.bid;
        }
        if Compare(key, current.bid.bidId) < 0 {
          current := current.left;
        } else {
          current := current.right;
        }
      }
      b := DefaultBid;
    }

    /** InOrder: the bids in the order the left / visit / right walk meets
        them (the source prints each one; the model returns them). */
    method InOrder() returns (s: seq<Bid>)
      requires Valid()
      ensures s == InOrderBids(Model)
      ensures multiset(s) == Bids(Model)
      ensures NonDecreasing(s)
      ensures UniqueKeys(Model) ==> Increasing(s)
    {
      s := InOrderWalk(root);
      InOrderVisitsAll(Model);
      InOrderSorted(Model);
      if UniqueKeys(Model) {
        InOrderStrictlySorted(Model);
      }
    }

    /** inOrder: the recursive walk from one node. */
    method InOrderWalk(node: Node?) returns (s: seq<Bid>)
      requires node != null ==> node.Valid()
      ensures s == InOrderBids(ModelOf(node))
      decreases ReprOf(node)
    {
      if node == null {
        s := [];
      } else {
        var ls := InOrderWalk(node.left);
        var rs := InOrderWalk(node.right);
        s := ls + [node.bid] + rs;
      }
    }

    /** Remove with removeNode's result stored back into root, so that
        removing the root node leaves the tree pointing at its replacement. */
    method Remove(key: string)
      requires Valid()
      modifies Repr
      ensures Valid() && Repr <= old(Repr)
      ensures Model == Removed(old(Model), key)
    {
      root := RemoveNode(root, key);
      Repr := {this} + ReprOf(root);
      Model := ModelOf(root);
      RemovedOrdered(old(Model), key);
    }

    /** Remove as the source writes it: removeNode's result is discarded and
        root is never reassigned.  When the root holds key and has fewer than
        two children, root keeps pointing at the node removeNode freed; the
        model keeps that node's old contents. */
    method RemoveAsWritten(key: string)
      requires Valid()
      modifies Repr
      ensures Valid() && Repr <= old(Repr) && root == old(root)
      ensures Model == RemovedKeepingRoot(old(Model), key)
    {
      assert root != null ==> root.left != null ==> root.left.Valid();
      assert root != null ==> root.right != null ==> root.right.Valid();
      var _ := RemoveNode(root, key);
      Repr := {this} + ReprOf(root);
      Model := ModelOf(root);
      RemovedOrdered(old(Model), key);
    }

    /** removeNode: removes the node holding key from the subtree rooted at
        node and returns the new root of that subtree.  A node that keeps its
        place is returned itself; a removed node with one child is replaced by
        that child and left untouched. */
    method RemoveNode(node: Node?, key: string) returns (r: Node?)
      requires node != null ==> node.Valid()
      modifies ReprOf(node)
      ensures r != null ==> r.Valid() && r.Repr <= old(ReprOf(node))
      ensures ModelOf(r) == Removed(old(ModelOf(node)), key)
      ensures node != null ==>
                (r == node <==> !(old(node.bid.bidId) == key && (old(node.left) == null || old(node.right) == null)))
      ensures node != null && r != node ==>
                node.Valid() && node.Model == old(node.Model) && node.Repr == old(node.Repr)
      decreases ReprOf(node), 1
    {
      if node == null {
        return node;
      }
      r := node;
      if Compare(key, node.bid.bidId) < 0 {
        node.left := RemoveNode(node.left, key);
      } else if Compare(key, node.bid.bidId) > 0 {
        node.right := RemoveNode(node.right, key);
      } else {
        if node.left == null && node.right == null {
          r := null;
          return;
        } else if node.left != null && node.right == null {
          r := node.left;
          return;
        } else if node.left == null && node.right != null {
          r := node.right;
          return;
        } else {
          ReplaceWithSuccessor(node);
          return;
        }
      }
      node.Refresh();
    }

    /** The two-child case of removeNode: find the in-order successor (the
        leftmost node of the right subtree), copy its bid into node, and
        remove the successor's key from the right subtree. */
    method ReplaceWithSuccessor(node: Node)
      requires node.Valid() && node.left != null && node.right != null
      modifies node.Repr
      ensures old(node.Model.right) != Leaf
      ensures node.Valid() && node.Repr <= old(node.Repr)
      ensures node.Model ==
                Tree.Node(old(node.Model.left), Leftmost(old(node.Model.right)),
                          Removed(old(node.Model.right), Leftmost(old(node.Model.right)).bidId))
      decreases node.Repr, 0
    {
      var temp := node.right;
      while temp.left != null
        invariant temp != null && temp.Valid() && temp.Repr <= node.right.Repr
        invariant Leftmost(temp.Model) == Leftmost(node.right.Model)
        decreases temp.Repr
      {
        temp := temp.left;
      }
      node.bid := temp.bid;
      node.right := RemoveNode(node.right, temp.bid.bidId);
      node.Refresh();
    }
  }
}
