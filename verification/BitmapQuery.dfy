/** Reading a set: its size, membership and smallest id. */
module BitmapQuery {
  import opened Words
  import opened IdSpace
  import opened Shapes
  import opened BitmapNode

  /** The number of ids as the count field has it: exact unless the set is the whole id space. */
  method Len(b: Bitmap) returns (n: nat)
    requires Canon(b)
    ensures n == |Ids(b)| || (n == 0 && |Ids(b)| == UINT32)
    ensures n == |Ids(b)| <==> |Ids(b)| < UINT32
  {
    if b == null {
      return 0;
    }
    NodeFacts(b);
    CardBound(b.ids, UINT32);
    n := b.count;
  }

  /** The set of all ids has a count of zero. */
  lemma FullSetCount(b: Bitmap)
    requires Canon(b) && forall x: nat :: x in Ids(b) <==> x < UINT32
    ensures b != null && b.count == 0
  {
    assert 0 in Ids(b);
    NodeFacts(b);
    CardExact(b.ids, UINT32);
  }

  /** Whether id is in the set: one slot per level, found by rank, then one bit. */
  method Contains(b: Bitmap, id: nat) returns (r: bool)
    requires Canon(b) && AllBacked(Repr(b)) && id < UINT32
    ensures r <==> id in Ids(b)
  {
    hide Node.Valid, Node.Shape, DirShape, ChunkShape, High, Slot, Wrap, WordOf, BitOf;
    if b == null {
      return false;
    }
    NodeFacts(b);
    if Beyond(b.height, id) {
      return false;
    }
    NotBeyond(b.height, id);
    var n: Node := b;
    var h := n.height;
    while h > 0
      invariant h == n.height && n.Valid() && High(h, id) == n.prefix
      invariant n in b.repr && n.repr <= b.repr && (id in n.ids <==> id in b.ids)
    {
      assert Backed(n);
      SlotDecides(n, id);
      var slot := Slot(h, id);
      if slot !in n.present {
        return false;
      }
      KidFacts(n, slot);
      n := n.slots.items[Rank(n.present, slot)];
      h := h - 1;
    }
    BitDecides(n, id);
    r := BitOf(id) in n.words[WordOf(id)];
  }

  lemma LowestKid(n: Node)
    requires n.Valid() && n.height > 0
    ensures n.present != {} && TrailingZeros(n.present) in n.present && |n.kids| == |n.present|
    ensures Rank(n.present, TrailingZeros(n.present)) == 0
    ensures 0 < |n.kids| && Kid(n.present, n.kids, TrailingZeros(n.present)) == n.kids[0]
    ensures forall x, y :: x in n.kids[0].ids && y in n.ids && y !in n.kids[0].ids ==> x < y
  {
    hide Node.Valid, Node.Shape, DirShape, ChunkShape, High, Slot, Wrap;
    PresentNotEmpty(n);
    NodeFacts(n);
    var s := TrailingZeros(n.present);
    KidFacts(n, s);
    assert Below(n.present, s) == {};
    NodeFacts(n.kids[0]);
    forall x, y | x in n.kids[0].ids && y in n.ids && y !in n.kids[0].ids
      ensures x < y
    {
      SlotDecides(n, y);
      if y <= x {
        HighMono(n.height - 1, y, x);
      }
    }
  }

  /** The lowest bit of the first non-zero word is the smallest id of a chunk. */
  lemma LowestBit(n: Node, w: nat)
    requires n.Valid() && n.height == 0 && w < |n.words| == 4 && n.words[w] != {}
    requires forall v :: 0 <= v < w ==> n.words[v] == {}
    ensures Shl(0, n.prefix) + (64 * w + TrailingZeros(n.words[w])) in n.ids
    ensures forall y :: y in n.ids ==> Shl(0, n.prefix) + (64 * w + TrailingZeros(n.words[w])) <= y
  {
    hide Node.Valid, Node.Shape, High, WordOf, BitOf;
    NodeFacts(n);
    var b := TrailingZeros(n.words[w]);
    ChunkIdJoin(n.prefix, w, b);
    assert InChunk(n.prefix, n.words, ChunkId(n.prefix, w, b));
    forall y | y in n.ids
      ensures ChunkId(n.prefix, w, b) <= y
    {
      assert InChunk(n.prefix, n.words, y);
      ChunkIdSplit(y);
    }
  }

  /** The panic for an empty chunk in a tree cannot happen. */
  lemma ChunkNotEmpty(n: Node)
    requires n.Valid() && n.height == 0
    ensures |n.words| == 4 && exists w :: 0 <= w < 4 && n.words[w] != {}
  {
    hide Node.Valid, Node.Shape, WordOf, BitOf, High;
    NodeFacts(n);
    var x :| x in n.ids;
    assert InChunk(n.prefix, n.words, x);
  }

  /** The smallest id of the set. */
  method Min(b: Bitmap) returns (id: nat, ok: bool)
    requires Canon(b) && AllBacked(Repr(b))
    ensures ok <==> Ids(b) != {}
    ensures ok ==> id in Ids(b) && forall x :: x in Ids(b) ==> id <= x
  {
    hide Node.Valid, Node.Shape, DirShape, ChunkShape, High, Slot, Wrap, WordOf, BitOf;
    if b == null {
      return 0, false;
    }
    NodeFacts(b);
    ShlAdd(b.height, 0, 0);
    var n: Node := b;
    id := 0;
    var h := n.height;
    while h > 0
      invariant h == n.height && n.Valid() && id == Shl(h, n.prefix) && n in b.repr && n.repr <= b.repr
      invariant n.ids <= b.ids && forall x, y :: x in n.ids && y in b.ids && y !in n.ids ==> x < y
    {
      LowestKid(n);
      var s := TrailingZeros(n.present);
      KidFacts(n, s);
      ShlAdd(h - 1, 64 * n.prefix, s);
      id := id + Shl(h - 1, s);
      assert Backed(n);
      n := n.slots.items[0];
      h := h - 1;
    }
    NodeFacts(n);
    for w := 0 to 4
      invariant forall v :: 0 <= v < w ==> n.words[v] == {}
    {
      var word := n.words[w];
      if word != {} {
        LowestBit(n, w);
        var first := id + (64 * w + TrailingZeros(word));
        assert first in n.ids && first in b.ids;
        assert forall x :: x in b.ids ==> if x in n.ids then first <= x else first < x;
        return first, true;
      }
    }
    ChunkNotEmpty(n);
    assert false;
  }
}
