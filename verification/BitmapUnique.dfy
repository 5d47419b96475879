/** Canonical form: however two sets were arrived at, if they hold the same ids they are the same trie. */
module BitmapUnique {
  import opened Words
  import opened IdSpace
  import opened Shapes
  import opened BitmapNode
  import opened BitmapOps
  import opened BitmapAlgebra
  import opened BitmapBuilder

  /** The same trie in every field except the ownership epochs. */
  ghost predicate SameTrie(a: Node, b: Node)
    requires a.Valid() && b.Valid()
    reads a, b, a.repr, b.repr
    decreases a.height
  {
    && a.height == b.height && a.count == b.count && a.words == b.words && a.present == b.present
    && |a.kids| == |b.kids|
    && forall i :: 0 <= i < |a.kids| ==> a.kids[i] in a.kids && b.kids[i] in b.kids && SameTrie(a.kids[i], b.kids[i])
  }

  lemma SamePresent(a: Node, b: Node)
    requires Aligned(a, b) && a.ids == b.ids && a.height > 0
    ensures a.present == b.present && |a.kids| == |b.kids| && a.words == b.words
  {
    hide Node.Valid, Node.Shape, DirShape, ChunkShape, Wrap;
    NodeFacts(a);
    NodeFacts(b);
    SubsetSlots(a, b);
    SubsetSlots(b, a);
  }

  lemma AlignedKids(a: Node, b: Node, i: nat)
    requires Aligned(a, b) && a.ids == b.ids && a.height > 0 && i < |a.kids|
    ensures i < |b.kids| && a.kids[i] in a.kids && b.kids[i] in b.kids
    ensures Aligned(a.kids[i], b.kids[i]) && a.kids[i].ids == b.kids[i].ids && a.kids[i].height + 1 == a.height
  {
    hide Node.Valid, Node.Shape, DirShape, ChunkShape, Wrap, High, Slot;
    SamePresent(a, b);
    NodeFacts(a);
    NodeFacts(b);
    var s := KidOf(a.present, a.kids, i);
    KidFacts(a, s);
    KidFacts(b, s);
    KidIds(a, s);
    KidIds(b, s);
    assert a.kids[i].ids == b.kids[i].ids;
  }

  lemma {:induction false} SameIdsSameTrie(a: Node, b: Node)
    requires Aligned(a, b) && a.ids == b.ids
    ensures SameTrie(a, b)
    decreases a.height
  {
    hide Node.Shape, DirShape, ChunkShape, Wrap;
    NodeFacts(a);
    NodeFacts(b);
    if a.height == 0 {
      ChunkUnique(a.prefix, a.words, a.ids, b.words, b.ids);
    } else {
      SamePresent(a, b);
      forall i | 0 <= i < |a.kids|
        ensures a.kids[i] in a.kids && b.kids[i] in b.kids && SameTrie(a.kids[i], b.kids[i])
      {
        AlignedKids(a, b, i);
        SameIdsSameTrie(a.kids[i], b.kids[i]);
      }
    }
  }

  /** Two sets are equal exactly if they are the same trie. */
  lemma CanonicalForm(a: Bitmap, b: Bitmap)
    requires Canon(a) && Canon(b)
    ensures Ids(a) == Ids(b) <==> (a == null && b == null) || (a != null && b != null && SameTrie(a, b))
  {
    hide Node.Shape;
    Emptiness(a);
    Emptiness(b);
    if a != null && b != null {
      if a.ids == b.ids {
        SubsetLow(a, b);
        SubsetLow(b, a);
        SameIdsSameTrie(a, b);
      }
      if SameTrie(a, b) {
        SameTrieSameIds(a, b);
      }
    }
  }

  lemma {:induction false} SameTrieSameIds(a: Node, b: Node)
    requires a.Valid() && b.Valid() && SameTrie(a, b) && a.prefix == b.prefix
    ensures a.ids == b.ids
    decreases a.height
  {
    hide Node.Shape, DirShape, ChunkShape, Wrap;
    NodeFacts(a);
    NodeFacts(b);
    if a.height == 0 {
      ChunkUnique(a.prefix, a.words, a.ids, b.words, b.ids);
    } else {
      forall s | s in a.present
        ensures Kid(a.present, a.kids, s).ids == Kid(b.present, b.kids, s).ids
      {
        KidFacts(a, s);
        KidFacts(b, s);
        SameTrieSameIds(Kid(a.present, a.kids, s), Kid(b.present, b.kids, s));
      }
      SameSlots(a, b);
    }
  }

  lemma SameSlots(a: Node, b: Node)
    requires Aligned(a, b) && a.height > 0 && a.present == b.present && |a.kids| == |a.present| == |b.kids|
    requires forall s :: s in a.present ==> Kid(a.present, a.kids, s).ids == Kid(b.present, b.kids, s).ids
    ensures a.ids == b.ids
  {
    hide Node.Valid, Node.Shape, DirShape, ChunkShape, Wrap, Kid;
    NodeFacts(a);
    NodeFacts(b);
    forall s | s in a.present
      ensures SlotsOf(a.present, a.kids)[s] == SlotsOf(b.present, b.kids)[s]
    {
      KidFacts(a, s);
      KidFacts(b, s);
    }
    assert SlotsOf(a.present, a.kids) == SlotsOf(b.present, b.kids);
    SameIds(a.height, a.prefix, SlotsOf(a.present, a.kids), a.ids, b.ids);
  }
}
