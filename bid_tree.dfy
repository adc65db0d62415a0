/** The value-level view of the bid index: bids, the tree they are stored in,
    and one function per tree operation describing what the in-place code in
    module SearchTree does to the tree's shape.  The lemmas here state the
    ordering invariant, the contents and the search results of each
    operation. */
module BidTree {
  import opened StringOrder

  datatype Option<T> = None | Some(value: T)

  /** One bid record.  The tree orders and identifies bids by bidId only;
      title, fund and amount are payload that it copies and never inspects. */
  datatype Bid = Bid(bidId: string, title: string, fund: string, amount: real)

  /** What a default-constructed Bid holds: empty strings and amount 0. */
  const DefaultBid := Bid("", "", "", 0.0)

  /** The shape of a tree of nodes: an absent child, or a node with its bid. */
  datatype Tree = Leaf | Node(left: Tree, bid: Bid, right: Tree)

  function Keys(t: Tree): set<string> {
    match t
    case Leaf => {}
    case Node(l, b, r) => Keys(l) + {b.bidId} + Keys(r)
  }

  /** The bids stored in the tree, one occurrence per node. */
  function Bids(t: Tree): multiset<Bid> {
    match t
    case Leaf => multiset{}
    case Node(l, b, r) => Bids(l) + multiset{b} + Bids(r)
  }

  /** The ordering invariant: every key in a left subtree sorts before the
      node's key, and every key in a right subtree does not, since an equal
      key is routed right. */
  ghost predicate Ordered(t: Tree) {
    match t
    case Leaf => true
    case Node(l, b, r) =>
      && Ordered(l) && Ordered(r)
      && (forall k :: k in Keys(l) ==> Less(k, b.bidId))
      && (forall k :: k in Keys(r) ==> !Less(k, b.bidId))
  }

  /** No key is held by two nodes. */
  ghost predicate UniqueKeys(t: Tree) {
    match t
    case Leaf => true
    case Node(l, b, r) =>
      && UniqueKeys(l) && UniqueKeys(r)
      && b.bidId !in Keys(l) && b.bidId !in Keys(r)
      && Keys(l) !! Keys(r)
  }

  /** Every stored bid contributes its key. */
  lemma {:induction false} BidsAndKeys(t: Tree)
    ensures forall x :: x in Bids(t) ==> x.bidId in Keys(t)
  {
    match t
    case Leaf =>
    case Node(l, b, r) =>
      BidsAndKeys(l);
      BidsAndKeys(r);
      assert b in Bids(t);
  }

  // ---------------------------------------------------------------------
  // Insert / addNode

  /** The tree after inserting b: descend left while the node's key compares
      greater than b's key, otherwise right, and attach a new leaf node at the
      first absent child.  On an empty tree the new node is the root. */
  function Inserted(t: Tree, b: Bid): (r: Tree)
    ensures r != Leaf
  {
    match t
    case Leaf => Node(Leaf, b, Leaf)
    case Node(l, x, rt) =>
      if Compare(x.bidId, b.bidId) > 0 then
        var l' := Inserted(l, b);
        Node(l', x, rt)
      else
        var r' := Inserted(rt, b);
        Node(l, x, r')
  }

  /** Inserting adds exactly one occurrence of b to the stored bids. */
  lemma {:induction false} InsertedBids(t: Tree, b: Bid)
    ensures Bids(Inserted(t, b)) == Bids(t) + multiset{b}
  {
    match t
    case Leaf =>
    case Node(l, x, r) =>
      if Compare(x.bidId, b.bidId) > 0 {
        InsertedBids(l, b);
      } else {
        InsertedBids(r, b);
      }
  }

  lemma {:induction false} InsertedKeys(t: Tree, b: Bid)
    ensures Keys(Inserted(t, b)) == Keys(t) + {b.bidId}
  {
    match t
    case Leaf =>
    case Node(l, x, r) =>
      if Compare(x.bidId, b.bidId) > 0 {
        InsertedKeys(l, b);
      } else {
        InsertedKeys(r, b);
      }
  }

  lemma {:induction false} InsertedOrdered(t: Tree, b: Bid)
    requires Ordered(t)
    ensures Ordered(Inserted(t, b))
  {
    match t
    case Leaf =>
    case Node(l, x, r) =>
      CompareAntisymmetric(x.bidId, b.bidId);
      if Compare(x.bidId, b.bidId) > 0 {
        InsertedOrdered(l, b);
        InsertedKeys(l, b);
      } else {
        InsertedOrdered(r, b);
        InsertedKeys(r, b);
      }
  }

  lemma {:induction false} InsertedUnique(t: Tree, b: Bid)
    requires UniqueKeys(t) && b.bidId !in Keys(t)
    ensures UniqueKeys(Inserted(t, b))
  {
    match t
    case Leaf =>
    case Node(l, x, r) =>
      if Compare(x.bidId, b.bidId) > 0 {
        InsertedUnique(l, b);
        InsertedKeys(l, b);
      } else {
        InsertedUnique(r, b);
        InsertedKeys(r, b);
      }
  }

  // ---------------------------------------------------------------------
  // Search

  /** The bid Search returns, if any: stop at the first node whose key equals
      k, otherwise go left when k sorts before the node's key and right
      otherwise. */
  function Lookup(t: Tree, k: string): Option<Bid> {
    match t
    case Leaf => None
    case Node(l, b, rt) =>
      if Compare(b.bidId, k) == 0 then Some(b)
      else if Compare(k, b.bidId) < 0 then Lookup(l, k)
      else Lookup(rt, k)
  }

  /** Whatever the search finds is a stored bid carrying the key searched for. */
  lemma {:induction false} LookupFound(t: Tree, k: string)
    ensures Lookup(t, k).Some? ==> Lookup(t, k).value.bidId == k && Lookup(t, k).value in Bids(t)
  {
    match t
    case Leaf =>
    case Node(l, b, r) =>
      LookupFound(l, k);
      LookupFound(r, k);
  }

  /** On an ordered tree the search finds a bid exactly when some node holds k. */
  lemma {:induction false} LookupComplete(t: Tree, k: string)
    requires Ordered(t)
    ensures Lookup(t, k).Some? <==> k in Keys(t)
  {
    match t
    case Leaf =>
    case Node(l, b, r) =>
      LookupComplete(l, k);
      LookupComplete(r, k);
      LessTrichotomous(k, b.bidId);
      if Less(k, b.bidId) {
        LessAsymmetric(k, b.bidId);
        assert k !in Keys(r);
      } else if k != b.bidId {
        if k in Keys(l) {
          LessTransitive(b.bidId, k, b.bidId);
          LessIrreflexive(b.bidId);
        }
      }
  }

  /** After inserting b into an ordered tree, searching for b's key finds a
      bid with that key; if no bid had that key before, it finds b itself. */
  lemma LookupInserted(t: Tree, b: Bid)
    requires Ordered(t)
    ensures Lookup(Inserted(t, b), b.bidId).Some?
    ensures b.bidId !in Keys(t) ==> Lookup(Inserted(t, b), b.bidId) == Some(b)
  {
    InsertedOrdered(t, b);
    InsertedKeys(t, b);
    InsertedBids(t, b);
    LookupComplete(Inserted(t, b), b.bidId);
    LookupFound(Inserted(t, b), b.bidId);
    BidsAndKeys(t);
  }

  /** A duplicate is shadowed: when a search for b's key already finds a bid,
      it finds that same bid after b is inserted, because insertion routes an
      equal key to the right of the node the search stops at. */
  lemma {:induction false} InsertedDuplicateShadowed(t: Tree, b: Bid)
    requires Lookup(t, b.bidId).Some?
    ensures Lookup(Inserted(t, b), b.bidId) == Lookup(t, b.bidId)
  {
    var Node(l, x, r) := t;
    CompareAntisymmetric(x.bidId, b.bidId);
    if x.bidId != b.bidId {
      if Compare(x.bidId, b.bidId) > 0 {
        InsertedDuplicateShadowed(l, b);
      } else {
        InsertedDuplicateShadowed(r, b);
      }
    }
  }

  // ---------------------------------------------------------------------
  // In-order walk

  /** The bids in the order the left / visit / right walk visits them. */
  function InOrderBids(t: Tree): seq<Bid> {
    match t
    case Leaf => []
    case Node(l, b, r) => InOrderBids(l) + [b] + InOrderBids(r)
  }

  /** The walk visits every node exactly once: its bids, counted with
      multiplicity, are the stored bids. */
  lemma {:induction false} InOrderVisitsAll(t: Tree)
    ensures multiset(InOrderBids(t)) == Bids(t)
  {
    match t
    case Leaf =>
    case Node(l, b, r) =>
      InOrderVisitsAll(l);
      InOrderVisitsAll(r);
      assert InOrderBids(t) == InOrderBids(l) + [b] + InOrderBids(r);
  }

  ghost predicate NonDecreasing(s: seq<Bid>) {
    forall i, j :: 0 <= i < j < |s| ==> !Less(s[j].bidId, s[i].bidId)
  }

  ghost predicate Increasing(s: seq<Bid>) {
    forall i, j :: 0 <= i < j < |s| ==> Less(s[i].bidId, s[j].bidId)
  }

  /** Every key the walk produces is a key of the tree. */
  lemma {:induction false} InOrderKeys(t: Tree)
    ensures forall i :: 0 <= i < |InOrderBids(t)| ==> InOrderBids(t)[i].bidId in Keys(t)
  {
    match t
    case Leaf =>
    case Node(l, b, r) =>
      InOrderKeys(l);
      InOrderKeys(r);
      var ls, rs := InOrderBids(l), InOrderBids(r);
      var s := InOrderBids(t);
      forall i | 0 <= i < |s| ensures s[i].bidId in Keys(t) {
        if i < |ls| {
          assert s[i] == ls[i];
        } else if i > |ls| {
          assert s[i] == rs[i - |ls| - 1];
        }
      }
  }

  /** Joining two non-decreasing runs around a pivot whose key is above the
      left run and not above the right run gives a non-decreasing run. */
  lemma JoinNonDecreasing(ls: seq<Bid>, b: Bid, rs: seq<Bid>)
    requires NonDecreasing(ls) && NonDecreasing(rs)
    requires forall i :: 0 <= i < |ls| ==> Less(ls[i].bidId, b.bidId)
    requires forall i :: 0 <= i < |rs| ==> !Less(rs[i].bidId, b.bidId)
    ensures NonDecreasing(ls + [b] + rs)
  {
    var s := ls + [b] + rs;
    forall i, j | 0 <= i < j < |s| ensures !Less(s[j].bidId, s[i].bidId) {
      if j < |ls| {
        assert s[i] == ls[i] && s[j] == ls[j];
      } else if i > |ls| {
        assert s[i] == rs[i - |ls| - 1] && s[j] == rs[j - |ls| - 1];
      } else if i == |ls| {
        assert s[i] == b && s[j] == rs[j - |ls| - 1];
      } else if j == |ls| {
        assert s[i] == ls[i] && s[j] == b;
        LessAsymmetric(s[i].bidId, b.bidId);
      } else {
        assert s[i] == ls[i] && s[j] == rs[j - |ls| - 1];
        if Less(s[j].bidId, s[i].bidId) {
          LessTransitive(s[j].bidId, s[i].bidId, b.bidId);
        }
      }
    }
  }

  /** The strict version: the pivot's key is below every key of the right run. */
  lemma JoinIncreasing(ls: seq<Bid>, b: Bid, rs: seq<Bid>)
    requires Increasing(ls) && Increasing(rs)
    requires forall i :: 0 <= i < |ls| ==> Less(ls[i].bidId, b.bidId)
    requires forall i :: 0 <= i < |rs| ==> Less(b.bidId, rs[i].bidId)
    ensures Increasing(ls + [b] + rs)
  {
    var s := ls + [b] + rs;
    forall i, j | 0 <= i < j < |s| ensures Less(s[i].bidId, s[j].bidId) {
      if j < |ls| {
        assert s[i] == ls[i] && s[j] == ls[j];
      } else if i > |ls| {
        assert s[i] == rs[i - |ls| - 1] && s[j] == rs[j - |ls| - 1];
      } else if i == |ls| {
        assert s[i] == b && s[j] == rs[j - |ls| - 1];
      } else if j == |ls| {
        assert s[i] == ls[i] && s[j] == b;
      } else {
        assert s[i] == ls[i] && s[j] == rs[j - |ls| - 1];
        LessTransitive(s[i].bidId, b.bidId, s[j].bidId);
      }
    }
  }

  /** On an ordered tree the walk yields keys in non-decreasing order. */
  lemma {:induction false} InOrderSorted(t: Tree)
    requires Ordered(t)
    ensures NonDecreasing(InOrderBids(t))
  {
    match t
    case Leaf =>
    case Node(l, b, r) =>
      InOrderSorted(l);
      InOrderSorted(r);
      InOrderKeys(l);
      InOrderKeys(r);
      JoinNonDecreasing(InOrderBids(l), b, InOrderBids(r));
  }

  /** With unique keys the order is strict. */
  lemma {:induction false} InOrderStrictlySorted(t: Tree)
    requires Ordered(t) && UniqueKeys(t)
    ensures Increasing(InOrderBids(t))
  {
    match t
    case Leaf =>
    case Node(l, b, r) =>
      InOrderStrictlySorted(l);
      InOrderStrictlySorted(r);
      InOrderKeys(l);
      InOrderKeys(r);
      var rs := InOrderBids(r);
      forall i | 0 <= i < |rs| ensures Less(b.bidId, rs[i].bidId) {
        LessTrichotomous(b.bidId, rs[i].bidId);
      }
      JoinIncreasing(InOrderBids(l), b, rs);
  }

  // ---------------------------------------------------------------------
  // removeNode

  /** The in-order successor search: the bid of the node reached by following
      left children from t's root until the left child is absent. */
  function Leftmost(t: Tree): Bid
    requires t != Leaf
  {
    if t.left == Leaf then t.bid else Leftmost(t.left)
  }

  lemma {:induction false} LeftmostStored(t: Tree)
    requires t != Leaf
    ensures Leftmost(t) in Bids(t) && Leftmost(t).bidId in Keys(t)
  {
    if t.left != Leaf {
      LeftmostStored(t.left);
    }
  }

  /** On an ordered tree the leftmost bid holds the minimum key. */
  lemma {:induction false} LeftmostIsMinimum(t: Tree)
    requires t != Leaf && Ordered(t)
    ensures forall k :: k in Keys(t) ==> !Less(k, Leftmost(t).bidId)
  {
    var m := Leftmost(t);
    if t.left != Leaf {
      LeftmostIsMinimum(t.left);
      LeftmostStored(t.left);
      forall k | k in Keys(t) ensures !Less(k, m.bidId) {
        if k == t.bid.bidId || k in Keys(t.right) {
          if Less(k, m.bidId) {
            LessAsymmetric(m.bidId, t.bid.bidId);
            if k == t.bid.bidId {
              LessAsymmetric(k, m.bidId);
            } else {
              LessTransitive(k, m.bidId, t.bid.bidId);
            }
          }
        }
      }
    } else {
      forall k | k in Keys(t) ensures !Less(k, m.bidId) {
        LessIrreflexive(k);
      }
    }
  }

  /** The tree left when the leftmost node is replaced by its right subtree
      (the zero- or one-child removal of a node with no left child). */
  function WithoutLeftmost(t: Tree): Tree
    requires t != Leaf
  {
    if t.left == Leaf then t.right
    else Node(WithoutLeftmost(t.left), t.bid, t.right)
  }

  lemma {:induction false} WithoutLeftmostBids(t: Tree)
    requires t != Leaf
    ensures Bids(WithoutLeftmost(t)) + multiset{Leftmost(t)} == Bids(t)
  {
    if t.left != Leaf {
      WithoutLeftmostBids(t.left);
    }
  }

  /** The subtree removeNode returns: descend left when k sorts before the
      node's key, right when it sorts after; at the node holding k, a leaf
      becomes absent, a node with one child becomes that child, and a node
      with two children takes the bid of its in-order successor, which is
      then removed from the right subtree. */
  function Removed(t: Tree, k: string): Tree {
    match t
    case Leaf => Leaf
    case Node(l, b, rt) =>
      if Compare(k, b.bidId) < 0 then Node(Removed(l, k), b, rt)
      else if Compare(k, b.bidId) > 0 then Node(l, b, Removed(rt, k))
      else if l == Leaf && rt == Leaf then Leaf
      else if l != Leaf && rt == Leaf then l
      else if l == Leaf && rt != Leaf then rt
      else
        var m := Leftmost(rt);
        Node(l, m, Removed(rt, m.bidId))
  }

  /** Removal never introduces a key. */
  lemma {:induction false} RemovedKeys(t: Tree, k: string)
    ensures Keys(Removed(t, k)) <= Keys(t)
  {
    match t
    case Leaf =>
    case Node(l, b, r) =>
      if Compare(k, b.bidId) < 0 {
        RemovedKeys(l, k);
      } else if Compare(k, b.bidId) > 0 {
        RemovedKeys(r, k);
      } else if l != Leaf && r != Leaf {
        RemovedKeys(r, Leftmost(r).bidId);
        LeftmostStored(r);
      }
  }

  /** Removing a key that no node holds leaves the tree as it was. */
  lemma {:induction false} RemovedAbsent(t: Tree, k: string)
    requires k !in Keys(t)
    ensures Removed(t, k) == t
  {
    match t
    case Leaf =>
    case Node(l, b, r) =>
      RemovedAbsent(l, k);
      RemovedAbsent(r, k);
  }

  /** In the two-child case the recursive removal of the successor's key ends
      at the leftmost node of the right subtree, which has no left child. */
  lemma {:induction false} RemovedLeftmost(t: Tree)
    requires t != Leaf && Ordered(t)
    ensures Removed(t, Leftmost(t).bidId) == WithoutLeftmost(t)
  {
    var m := Leftmost(t);
    if t.left == Leaf {
      assert Compare(m.bidId, t.bid.bidId) == 0;
    } else {
      LeftmostStored(t.left);
      assert m.bidId in Keys(t.left);
      assert Less(m.bidId, t.bid.bidId);
      RemovedLeftmost(t.left);
    }
  }

  lemma {:induction false} RemovedOrdered(t: Tree, k: string)
    requires Ordered(t)
    ensures Ordered(Removed(t, k))
  {
    match t
    case Leaf =>
    case Node(l, b, r) =>
      if Compare(k, b.bidId) < 0 {
        RemovedOrdered(l, k);
        RemovedKeys(l, k);
      } else if Compare(k, b.bidId) > 0 {
        RemovedOrdered(r, k);
        RemovedKeys(r, k);
      } else if l != Leaf && r != Leaf {
        var m := Leftmost(r);
        RemovedOrdered(r, m.bidId);
        RemovedKeys(r, m.bidId);
        LeftmostIsMinimum(r);
        LeftmostStored(r);
        forall x | x in Keys(l) ensures Less(x, m.bidId) {
          LessBeforeAtMost(x, b.bidId, m.bidId);
        }
      }
  }

  /** On an ordered tree, removing k removes exactly the bid that a search
      for k finds: adding that bid back gives the original contents. */
  lemma {:induction false} RemovedBids(t: Tree, k: string)
    requires Ordered(t) && Lookup(t, k).Some?
    ensures Bids(Removed(t, k)) + multiset{Lookup(t, k).value} == Bids(t)
  {
    var Node(l, b, r) := t;
    if Compare(k, b.bidId) < 0 {
      assert Lookup(t, k) == Lookup(l, k);
      RemovedBids(l, k);
      assert Removed(t, k) == Node(Removed(l, k), b, r);
      Regroup(Bids(Removed(l, k)), multiset{b}, Bids(r), multiset{Lookup(t, k).value});
    } else if Compare(k, b.bidId) > 0 {
      CompareAntisymmetric(k, b.bidId);
      assert Lookup(t, k) == Lookup(r, k);
      RemovedBids(r, k);
      assert Removed(t, k) == Node(l, b, Removed(r, k));
      Regroup(Bids(Removed(r, k)), Bids(l), multiset{b}, multiset{Lookup(t, k).value});
    } else if l != Leaf && r != Leaf {
      var m := Leftmost(r);
      RemovedLeftmost(r);
      WithoutLeftmostBids(r);
      assert Removed(t, k) == Node(l, m, WithoutLeftmost(r));
    }
  }

  /** Multiset regrouping for RemovedBids: the removed bid moves next to the
      subtree it was removed from. */
  lemma Regroup(a: multiset<Bid>, x: multiset<Bid>, c: multiset<Bid>, v: multiset<Bid>)
    ensures (a + x + c) + v == (a + v) + x + c
    ensures (x + c + a) + v == x + c + (a + v)
  {
  }

  /** When a search for k finds nothing, removing k is a no-op. */
  lemma RemovedNotFound(t: Tree, k: string)
    requires Ordered(t) && Lookup(t, k).None?
    ensures Removed(t, k) == t
  {
    LookupComplete(t, k);
    RemovedAbsent(t, k);
  }

  /** The traversal after removing a stored key is exactly one bid shorter. */
  lemma RemovedShrinks(t: Tree, k: string)
    requires Ordered(t) && k in Keys(t)
    ensures |InOrderBids(Removed(t, k))| == |InOrderBids(t)| - 1
  {
    LookupComplete(t, k);
    RemovedBids(t, k);
    InOrderVisitsAll(t);
    InOrderVisitsAll(Removed(t, k));
    assert |multiset(InOrderBids(Removed(t, k)))| == |multiset(InOrderBids(t))| - 1;
  }

  /** With unique keys, no node holds k after removing k. */
  lemma {:induction false} RemovedDropsKey(t: Tree, k: string)
    requires Ordered(t) && UniqueKeys(t)
    ensures k !in Keys(Removed(t, k))
  {
    match t
    case Leaf =>
    case Node(l, b, r) =>
      if Compare(k, b.bidId) < 0 {
        RemovedDropsKey(l, k);
        if k in Keys(r) {
          LessAsymmetric(k, b.bidId);
        }
      } else if Compare(k, b.bidId) > 0 {
        CompareAntisymmetric(k, b.bidId);
        RemovedDropsKey(r, k);
        if k in Keys(l) {
          LessAsymmetric(k, b.bidId);
        }
      } else if l != Leaf && r != Leaf {
        var m := Leftmost(r);
        LeftmostStored(r);
        RemovedKeys(r, m.bidId);
        assert m.bidId != k;
      }
  }

  /** Unique keys stay unique under removal. */
  lemma {:induction false} RemovedUnique(t: Tree, k: string)
    requires Ordered(t) && UniqueKeys(t)
    ensures UniqueKeys(Removed(t, k))
  {
    match t
    case Leaf =>
    case Node(l, b, r) =>
      if Compare(k, b.bidId) < 0 {
        RemovedUnique(l, k);
        RemovedKeys(l, k);
      } else if Compare(k, b.bidId) > 0 {
        RemovedUnique(r, k);
        RemovedKeys(r, k);
      } else if l != Leaf && r != Leaf {
        var m := Leftmost(r);
        RemovedUnique(r, m.bidId);
        RemovedDropsKey(r, m.bidId);
        RemovedKeys(r, m.bidId);
        LeftmostStored(r);
        LeftmostIsMinimum(r);
        if m.bidId in Keys(l) {
          LessBeforeAtMost(m.bidId, b.bidId, m.bidId);
          LessIrreflexive(m.bidId);
        }
      }
  }

  /** After removing a key from an ordered tree with unique keys, searching
      for that key finds nothing. */
  lemma LookupAfterRemoved(t: Tree, k: string)
    requires Ordered(t) && UniqueKeys(t)
    ensures Lookup(Removed(t, k), k) == None
  {
    RemovedOrdered(t, k);
    RemovedDropsKey(t, k);
    LookupComplete(Removed(t, k), k);
  }

  // ---------------------------------------------------------------------
  // Remove as written

  /** The shape a caller of Remove sees: Remove discards removeNode's result,
      so the tree keeps its old root pointer.  When the root itself is removed
      and has fewer than two children, removeNode frees that node and returns
      another one (or none), and the tree still points at the freed node; the
      model keeps that node's old contents. */
  function RemovedKeepingRoot(t: Tree, k: string): Tree {
    if t.Node? && t.bid.bidId == k && (t.left == Leaf || t.right == Leaf) then t
    else Removed(t, k)
  }

  /** Removing the only node of a tree: removeNode yields the empty tree, but
      the tree object as Remove leaves it still shows the node. */
  lemma SingleNodeRemovalKept(b: Bid)
    ensures Removed(Node(Leaf, b, Leaf), b.bidId) == Leaf
    ensures RemovedKeepingRoot(Node(Leaf, b, Leaf), b.bidId) == Node(Leaf, b, Leaf)
  {
  }

  /** Whenever the root holds the key and has at most one child, a search
      after Remove as written still finds the removed bid, while after the
      intended removal it finds nothing. */
  lemma RemovedRootStillFound(t: Tree, k: string)
    requires Ordered(t) && UniqueKeys(t)
    requires t.Node? && t.bid.bidId == k && (t.left == Leaf || t.right == Leaf)
    ensures Lookup(RemovedKeepingRoot(t, k), k) == Some(t.bid)
    ensures Lookup(Removed(t, k), k) == None
  {
    LookupAfterRemoved(t, k);
  }
}
