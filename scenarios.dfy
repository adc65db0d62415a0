/** Concrete runs of the bid index on short key lists: bids are inserted in
    the given order and the resulting shapes are computed with the functions
    of module BidTree.  Keys compare as strings, so "5" sorts after "10". */
module Scenarios {
  import opened BidTree

  /** A bid carrying only its key. */
  function BidFor(id: string): Bid {
    Bid(id, "", "", 0.0)
  }

  /** The tree left by inserting one bid per key, in order. */
  function InsertAll(t: Tree, ids: seq<string>): Tree
    decreases |ids|
  {
    if ids == [] then t else InsertAll(Inserted(t, BidFor(ids[0])), ids[1..])
  }

  function Single(id: string): Tree {
    Node(Leaf, BidFor(id), Leaf)
  }

  /** Removing the root 50 (two children) of the tree built from
      50, 30, 70, 20, 40, 60, 80 promotes its successor 60. */
  lemma TwoChildRemoval()
    ensures var r := Removed(InsertAll(Leaf, ["50", "30", "70", "20", "40", "60", "80"]), "50");
            r.Node? && r.bid.bidId == "60" &&
            InOrderBids(r) == [BidFor("20"), BidFor("30"), BidFor("40"), BidFor("60"), BidFor("70"), BidFor("80")]
  {
    var left := Node(Single("20"), BidFor("30"), Single("40"));
    var t3 := Node(Single("30"), BidFor("50"), Single("70"));
    assert InsertAll(Leaf, ["50", "30", "70", "20", "40", "60", "80"])
        == InsertAll(t3, ["20", "40", "60", "80"]);
    var t5 := Node(left, BidFor("50"), Single("70"));
    assert InsertAll(t3, ["20", "40", "60", "80"]) == InsertAll(t5, ["60", "80"]);
    var t := Node(left, BidFor("50"), Node(Single("60"), BidFor("70"), Single("80")));
    assert InsertAll(t5, ["60", "80"]) == t;
    var r := Removed(t, "50");
    assert Leftmost(t.right) == BidFor("60");
    assert Removed(t.right, "60") == Node(Leaf, BidFor("70"), Single("80"));
    assert r == Node(left, BidFor("60"), Node(Leaf, BidFor("70"), Single("80")));
    assert InOrderBids(left) == [BidFor("20"), BidFor("30"), BidFor("40")];
  }

  /** In the tree built from 10, 5, 15, the key "15" sorts before "5", so 15
      is the left child of 5.  Removing 5 (one child) leaves 10, 15; removing
      the leaf 15 leaves 10, 5. */
  lemma LeafRemoval()
    ensures InOrderBids(Removed(InsertAll(Leaf, ["10", "5", "15"]), "5")) == [BidFor("10"), BidFor("15")]
    ensures InOrderBids(Removed(InsertAll(Leaf, ["10", "5", "15"]), "15")) == [BidFor("10"), BidFor("5")]
  {
    var t := InsertAll(Leaf, ["10", "5", "15"]);
    assert t == Node(Leaf, BidFor("10"), Node(Single("15"), BidFor("5"), Leaf));
  }

  /** Removing 5 from the tree built from 10, 5, 3 leaves 3, 10; since "5" and
      "3" both sort after "10", node 3 ends up as the right child of 10. */
  lemma SingleChildRemoval()
    ensures var r := Removed(InsertAll(Leaf, ["10", "5", "3"]), "5");
            InOrderBids(r) == [BidFor("10"), BidFor("3")] &&
            r.Node? && r.left == Leaf && r.right.Node? && r.right.bid.bidId == "3"
  {
    var t := InsertAll(Leaf, ["10", "5", "3"]);
    assert t == Node(Leaf, BidFor("10"), Node(Single("3"), BidFor("5"), Leaf));
    var r := Removed(t, "5");
    assert r == Node(Leaf, BidFor("10"), Single("3"));
  }

  /** On an empty tree a search finds nothing and the walk is empty. */
  lemma EmptyTreeQueries(k: string)
    ensures Lookup(Leaf, k) == None && InOrderBids(Leaf) == []
  {
  }
}
