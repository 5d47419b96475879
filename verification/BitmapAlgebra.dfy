/** And, Or and AndNot of whole sets, whose tries may have different heights. */
module BitmapAlgebra {
  import opened Words
  import opened IdSpace
  import opened Shapes
  import opened BitmapNode
  import opened BitmapOps

  /** Drops the directory levels that only lead to child 0. */
  method Canonical(root: Node?) returns (r: Bitmap)
    requires root != null ==> root.Valid() && root.prefix == 0 && AllBacked(root.repr)
    ensures Canon(r) && (r == null <==> root == null) && Ids(r) == Ids(root) && Repr(r) <= Repr(root)
    ensures Canon(root) ==> r == root
  {
    hide Node.Valid, Node.Shape, DirShape, ChunkShape, Wrap, High;
    r := root;
    if r == null {
      return;
    }
    NodeFacts(r);
    while r.height > 0 && r.present == {0}
      invariant r != null && r.Valid() && r.prefix == 0 && r.ids == root.ids && r in root.repr && r.repr <= root.repr
      invariant Canon(root) ==> r == root
      decreases r.height
    {
      OnlyKid(r);
      NodeFacts(r.kids[0]);
      assert Backed(r);
      r := r.slots.items[0];
    }
  }

  /** One level down, along child 0: the ids that the lower level covers. */
  method Lower(n: Node) returns (k: Node?)
    requires n.Valid() && n.height > 0 && n.prefix == 0 && AllBacked(n.repr)
    ensures k == null ==> forall x :: x in n.ids ==> High(n.height - 1, x) != 0
    ensures k != null ==> k.Valid() && k.prefix == 0 && k.height + 1 == n.height && k.repr <= n.repr
    ensures k != null ==> forall x :: x in k.ids <==> x in n.ids && High(n.height - 1, x) == 0
  {
    hide Node.Valid, Node.Shape, DirShape, ChunkShape, Wrap, High, Slot, Rank;
    NodeFacts(n);
    forall x | x in n.ids
      ensures High(n.height - 1, x) == Slot(n.height, x) && Slot(n.height, x) in n.present
    {
      SlotDecides(n, x);
    }
    if 0 !in n.present {
      return null;
    }
    KidFacts(n, 0);
    KidIds(n, 0);
    ZeroRank(n.present);
    k := n.slots.items[0];
  }

  lemma ZeroRank(b: Bits)
    ensures Rank(b, 0) == 0
  {
    assert Below(b, 0) == {};
  }

  lemma {:induction false} HighZeroUp(h: nat, h': nat, x: nat)
    requires h <= h' && High(h, x) == 0
    ensures High(h', x) == 0
  {
    if h < h' {
      HighZeroUp(h, h' - 1, x);
    }
  }

  lemma AllLow(n: Node, h: nat)
    requires n.Valid() && n.prefix == 0 && n.height <= h
    ensures forall x :: x in n.ids ==> High(h, x) == 0
  {
    hide Node.Valid, Node.Shape, DirShape, ChunkShape, Wrap;
    NodeFacts(n);
    forall x | x in n.ids
      ensures High(h, x) == 0
    {
      HighZeroUp(n.height, h, x);
    }
  }

  /** A set as low as its ids allow is no taller than any set containing one of its tallest ids. */
  lemma SubsetLow(a: Node, b: Node)
    requires Canon(a) && b.Valid() && b.prefix == 0 && a.ids <= b.ids
    ensures a.height <= b.height
  {
    hide Node.Valid, Node.Shape;
    if b.height < a.height {
      var x := TallWitness(a);
      AllLow(b, a.height - 1);
      assert false;
    }
  }

  /** The intersection; a itself if a is a subset of b. */
  method And(a: Bitmap, b: Bitmap) returns (r: Bitmap)
    requires Canon(a) && Canon(b) && AllBacked(Repr(a)) && AllBacked(Repr(b))
    ensures Canon(r) && Ids(r) == Ids(a) * Ids(b)
    ensures FromOperands(Repr(r), Repr(a), Repr(b)) && AllBacked(Repr(r))
    ensures Ids(a) <= Ids(b) ==> r == a
  {
    hide Node.Valid, Node.Shape, High;
    if a == null || b == null {
      if b == null && Ids(a) <= Ids(b) {
        Emptiness(a);
      }
      return null;
    }
    var x: Node, y: Node := a, b;
    if a.ids <= b.ids {
      SubsetLow(a, b);
    }
    while x.height > y.height
      invariant y == b && x.Valid() && x.prefix == 0 && x.repr <= a.repr
      invariant x.ids * b.ids == a.ids * b.ids
      invariant a.ids <= b.ids ==> x == a && a.height <= b.height
      decreases x.height
    {
      AllLow(y, x.height - 1);
      var k := Lower(x);
      if k == null {
        assert forall z :: z in x.ids * b.ids ==> false;
        return null;
      }
      assert k.ids * b.ids == x.ids * b.ids;
      x := k;
    }
    while y.height > x.height
      invariant x.Valid() && x.prefix == 0 && x.repr <= a.repr
      invariant y.Valid() && y.prefix == 0 && y.repr <= b.repr
      invariant x.ids * y.ids == a.ids * b.ids && x.height <= y.height
      invariant a.ids <= b.ids ==> x == a && x.ids <= y.ids
      decreases y.height
    {
      AllLow(x, y.height - 1);
      var k := Lower(y);
      if k == null {
        assert forall z :: z in x.ids * y.ids ==> false;
        if a.ids <= b.ids {
          Emptiness(a);
        }
        return null;
      }
      assert x.ids * k.ids == x.ids * y.ids;
      assert x.ids <= y.ids ==> x.ids <= k.ids;
      y := k;
    }
    var root := AndNodes(x, y);
    r := Canonical(root);
  }

  lemma Emptiness(a: Bitmap)
    requires Canon(a)
    ensures Ids(a) == {} <==> a == null
  {
    if a != null {
      NodeFacts(a);
    }
  }

  /** Lifts a trie to a given height, under new roots of epoch 0. */
  method LiftTo(b: Node, height: nat) returns (r: Node)
    requires b.Valid() && b.prefix == 0 && height <= MAX_HEIGHT && AllBacked(b.repr)
    ensures r.Valid() && r.prefix == 0 && r.ids == b.ids && r.height == if b.height < height then height else b.height
    ensures b.repr <= r.repr && forall x :: x in r.repr ==> x in b.repr || (fresh(x) && fresh(x.slots) && x.epoch == 0)
    ensures b.height >= height ==> r == b
    ensures AllBacked(r.repr)
  {
    hide Node.Valid, Node.Shape, DirShape, ChunkShape, Wrap, High;
    r := b;
    while r.height < height
      invariant r.Valid() && r.prefix == 0 && r.ids == b.ids && b.height <= r.height && (r.height <= height || r == b)
      invariant b.repr <= r.repr
      invariant forall x :: x in r.repr ==> x in b.repr || (fresh(x) && fresh(x.slots) && x.epoch == 0)
      invariant b.height >= height ==> r == b
      invariant AllBacked(r.repr)
      decreases height - r.height
    {
      NodeFacts(r);
      LiftPart(r);
      var k := r;
      var slots := new KidArray([k]);
      r := new Node(0, k.height + 1, 0, k.count, NO_WORDS, {0}, slots, k.ids, k.repr);
      SingleDir(r, 0);
    }
  }

  /** The lower of two tries lifted to the height of the taller. */
  method Level(a: Node, b: Node) returns (x: Node, y: Node)
    requires a.Valid() && a.prefix == 0 && b.Valid() && b.prefix == 0 && AllBacked(a.repr) && AllBacked(b.repr)
    ensures Aligned(x, y) && x.prefix == 0 && x.ids == a.ids && y.ids == b.ids
    ensures forall z :: z in x.repr ==> z in a.repr || (fresh(z) && fresh(z.slots) && z.epoch == 0)
    ensures forall z :: z in y.repr ==> z in b.repr || (fresh(z) && fresh(z.slots) && z.epoch == 0)
    ensures a.height >= b.height ==> x == a
    ensures AllBacked(x.repr) && AllBacked(y.repr)
  {
    hide Node.Valid, Node.Shape, DirShape, ChunkShape, Wrap;
    NodeFacts(a);
    NodeFacts(b);
    x := LiftTo(a, b.height);
    y := LiftTo(b, x.height);
  }

  /** The union; a itself if a contains b. */
  method Or(a: Bitmap, b: Bitmap) returns (r: Bitmap)
    requires Canon(a) && Canon(b) && AllBacked(Repr(a)) && AllBacked(Repr(b))
    ensures Canon(r) && Ids(r) == Ids(a) + Ids(b)
    ensures FromOperands(Repr(r), Repr(a), Repr(b)) && AllBacked(Repr(r))
    ensures Ids(b) <= Ids(a) ==> r == a
  {
    hide Node.Valid, Node.Shape, High;
    if a == null {
      if Ids(b) <= Ids(a) {
        Emptiness(b);
      }
      return b;
    }
    if b == null {
      return a;
    }
    if b.ids <= a.ids {
      SubsetLow(b, a);
    }
    var x, y := Level(a, b);
    var root := OrNodes(x, y);
    r := Canonical(root);
  }

  /** The difference; a itself if a and b have nothing in common. */
  method AndNot(a: Bitmap, b: Bitmap) returns (r: Bitmap)
    requires Canon(a) && Canon(b) && AllBacked(Repr(a)) && AllBacked(Repr(b))
    ensures Canon(r) && Ids(r) == Ids(a) - Ids(b)
    ensures FromOperands(Repr(r), Repr(a), Repr(b)) && AllBacked(Repr(r))
    ensures Ids(a) !! Ids(b) ==> r == a
  {
    hide Node.Valid, Node.Shape, High;
    if a == null || b == null {
      return a;
    }
    var y: Node := b;
    while y.height > a.height
      invariant y.Valid() && y.prefix == 0 && y.repr <= b.repr && y.ids <= b.ids
      invariant a.ids - y.ids == a.ids - b.ids
      decreases y.height
    {
      AllLow(a, y.height - 1);
      var k := Lower(y);
      if k == null {
        assert a.ids - y.ids == a.ids;
        return a;
      }
      assert a.ids - k.ids == a.ids - y.ids;
      y := k;
    }
    var x, z := Level(a, y);
    var root := AndNotNodes(x, z);
    r := Canonical(root);
  }
}
