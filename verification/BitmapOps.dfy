/** Set algebra: And, Or and AndNot build their results from untouched operand subtrees wherever
    they can, and allocate a node only where the operands differ. */
module BitmapOps {
  import opened Words
  import opened IdSpace
  import opened Shapes
  import opened BitmapNode
  import opened BitmapBuilder

  /** Two subtrees for the same range of ids. */
  ghost predicate Aligned(a: Node, b: Node)
    reads a, b, a.repr, b.repr
  {
    a.Valid() && b.Valid() && a.height == b.height && a.prefix == b.prefix
  }

  /** The child of a slot holds the ids of the node that have that slot. */
  lemma KidIds(n: Node, s: nat)
    requires n.Valid() && n.height > 0 && s in n.present
    ensures |n.kids| == |n.present|
    ensures forall x :: x in Kid(n.present, n.kids, s).ids <==> x in n.ids && Slot(n.height, x) == s
  {
    hide Node.Valid, Node.Shape, DirShape, ChunkShape, Wrap, High, Rank, Kid;
    NodeFacts(n);
    KidFacts(n, s);
    var k := Kid(n.present, n.kids, s);
    NodeFacts(k);
    forall x
      ensures x in k.ids <==> x in n.ids && Slot(n.height, x) == s
    {
      if x in n.ids {
        SlotDecides(n, x);
      }
    }
  }

  /** Every id of a directory node has a slot that is present. */
  lemma SlotPresent(n: Node)
    requires n.Valid() && n.height > 0
    ensures forall x :: x in n.ids ==> Slot(n.height, x) in n.present
  {
    hide Node.Valid, Node.Shape, DirShape, ChunkShape, Wrap, High, Rank, Kid;
    NodeFacts(n);
    forall x | x in n.ids
      ensures Slot(n.height, x) in n.present
    {
      SlotDecides(n, x);
    }
  }

  method NewChunk(words: seq<Bits>, ghost prefix: nat, ghost ids: set<nat>) returns (r: Node)
    requires ChunkShape(prefix, words, ids) && ids != {} && forall x :: x in ids ==> x < UINT32
    ensures r.Valid() && fresh(r) && fresh(r.slots) && r.repr == {r} && r.epoch == 0 && Backed(r)
    ensures r.height == 0 && r.prefix == prefix && r.ids == ids
  {
    hide Node.Valid, Node.Shape, ChunkShape, Wrap;
    ChunkCount(prefix, words, ids);
    ChunkLength(prefix, words, ids);
    var slots := new KidArray([]);
    r := new Node(0, 0, prefix, Wrap(PopCount(words)), words, {}, slots, ids, {});
    ChunkValid(r);
  }

  lemma ChunkLength(prefix: nat, words: seq<Bits>, ids: set<nat>)
    requires ChunkShape(prefix, words, ids)
    ensures |words| == 4
  {
  }

  lemma EmptyWords(prefix: nat, words: seq<Bits>, ids: set<nat>)
    requires ChunkShape(prefix, words, ids)
    ensures words == NO_WORDS <==> ids == {}
  {
    hide WordOf, BitOf, High;
    assert ChunkShape(prefix, NO_WORDS, {});
    ChunkUnique(prefix, words, ids, NO_WORDS, {});
  }

  /** The case of And where both operands are chunks. */
  method AndChunk(a: Node, b: Node) returns (r: Node?)
    requires Aligned(a, b) && a.height == 0
    ensures r == null <==> a.ids * b.ids == {}
    ensures r != null ==> r.Valid() && r.height == 0 && r.prefix == a.prefix && r.ids == a.ids * b.ids
    ensures r != null ==> r == a || r == b || (fresh(r) && fresh(r.slots) && r.epoch == 0 && r.repr == {r} && Backed(r))
    ensures a.ids <= b.ids ==> r == a
  {
    hide Node.Valid, Node.Shape, ChunkShape, Wrap;
    NodeFacts(a);
    NodeFacts(b);
    ghost var ids := a.ids * b.ids;
    var w := Intersect(a.words, b.words);
    ChunkAlgebra(a.prefix, a.words, a.ids, b.words, b.ids);
    ChunkUnique(a.prefix, w, ids, a.words, a.ids);
    ChunkUnique(a.prefix, w, ids, b.words, b.ids);
    EmptyWords(a.prefix, w, ids);
    if w == NO_WORDS {
      return null;
    } else if w == a.words {
      return a;
    } else if w == b.words {
      return b;
    }
    r := NewChunk(w, a.prefix, ids);
  }

  /** The nodes of a result: those of the operands, and new ones in epoch 0. */
  twostate predicate FromOperands(new nodes: set<Node>, a: set<Node>, b: set<Node>)
  {
    forall x :: x in nodes ==> x in a || x in b || (fresh(x) && fresh(x.slots) && x.epoch == 0)
  }

  /** The builder holds the part of a result for the slots outside rest; if only, child for child what n has there. */
  ghost predicate Partial(out: Builder, n: Node, result: set<nat>, rest: Bits, only: bool)
    reads out, out.kids, out.repr, n, n.repr
  {
    && out.Valid() && n.Valid() && out.height == n.height && out.prefix == n.prefix && n.height > 0
    && (forall t, u :: t in out.present && u in rest ==> t < u)
    && (forall x :: x in out.ids <==> x in result && Slot(n.height, x) !in rest)
    && |n.kids| == |n.present|
    && (only ==>
      out.present == n.present - rest && forall t :: t in out.present ==>
        Kid(out.present, out.kids, t) == Kid(n.present, n.kids, t))
  }

  /** Ends the assembly of a result: one of the operands if the children are the same, else a new node. */
  method Settle(out: Builder, a: Node, b: Node, ghost result: set<nat>, ghost only: bool) returns (r: Node?)
    requires Aligned(a, b) && Partial(out, a, result, {}, only)
    requires AllBacked(a.repr) && AllBacked(b.repr) && AllBacked(out.repr)
    ensures r == null <==> result == {}
    ensures r != null ==> r.Valid() && r.height == a.height && r.prefix == a.prefix && r.ids == result
    ensures r == null || r == a || r == b || (fresh(r) && fresh(r.slots) && r.epoch == 0 && r.repr == {r} + out.repr)
    ensures r != null ==> AllBacked(r.repr)
    ensures only ==> r == a
  {
    hide Node.Valid, Node.Shape, DirShape, ChunkShape, Wrap, Rank, Kid, KidsValid, Slot;
    assert out.ids == result;
    NodeFacts(a);
    NodeFacts(b);
    if only {
      assert out.present == a.present;
      SameKids(a.present, out.kids, a.kids);
      SameIds(a.height, a.prefix, SlotsOf(a.present, a.kids), out.ids, a.ids);
    }
    var same := out.Is(a);
    if same {
      return a;
    }
    same := out.Is(b);
    if same {
      return b;
    }
    r := out.Build();
  }

  /** Adds the child of the lowest remaining slot to the result. */
  method AddResult(out: Builder, slot: nat, child: Node, n: Node, ghost result: set<nat>, ghost rest: Bits,
                   ghost only: bool)
    requires Partial(out, n, result, rest, only) && slot in rest && forall t :: t in rest ==> slot <= t
    requires child.Valid() && child.height + 1 == n.height && child.prefix == 64 * n.prefix + slot
    requires forall x :: x in child.ids <==> x in result && Slot(n.height, x) == slot
    requires only ==> slot in n.present && child == Kid(n.present, n.kids, slot)
    requires AllBacked(out.repr) && AllBacked(child.repr)
    modifies out
    ensures Partial(out, n, result, rest - {slot}, only)
    ensures out.repr == old(out.repr) + child.repr && AllBacked(out.repr)
  {
    hide Node.Valid, Node.Shape, DirShape, ChunkShape, Wrap, Rank, Kid, KidsValid, Slot, Builder.Valid;
    BothBacked(out.repr, child.repr);
    out.Add(slot, child);
  }

  lemma SkipResult(out: Builder, slot: nat, n: Node, result: set<nat>, rest: Bits, only: bool)
    requires Partial(out, n, result, rest, only) && slot in rest
    requires forall x :: x in result ==> Slot(n.height, x) != slot
    requires only ==> slot !in n.present
    ensures Partial(out, n, result, rest - {slot}, only)
  {
    hide Node.Valid, Node.Shape, DirShape, ChunkShape, Wrap, Rank, Kid, KidsValid, Slot;
  }

  /** The children of a subset are children, at the same slots, of the superset. */
  lemma SubsetSlots(a: Node, b: Node)
    requires Aligned(a, b) && a.height > 0 && a.ids <= b.ids
    ensures a.present <= b.present
  {
    hide Node.Valid, Node.Shape, DirShape, ChunkShape, Wrap, Rank, Kid, Slot, High;
    SlotPresent(b);
    forall s | s in a.present
      ensures s in b.present
    {
      KidFacts(a, s);
      KidIds(a, s);
      NodeFacts(Kid(a.present, a.kids, s));
      var x :| x in Kid(a.present, a.kids, s).ids;
    }
  }

  /** The intersection of two subtrees; the first operand itself if it is a subset of the second. */
  method AndNodes(a: Node, b: Node) returns (r: Node?)
    requires Aligned(a, b)
    requires AllBacked(a.repr) && AllBacked(b.repr)
    ensures r == null <==> a.ids * b.ids == {}
    ensures r != null ==> r.Valid() && r.height == a.height && r.prefix == a.prefix && r.ids == a.ids * b.ids
    ensures r != null ==> FromOperands(r.repr, a.repr, b.repr) && AllBacked(r.repr)
    ensures a.ids <= b.ids ==> r == a
    decreases a.height
  {
    hide Node.Valid, Node.Shape, DirShape, ChunkShape, Wrap, High, Slot, Rank, Kid, KidsValid, Partial, Builder.Valid;
    NodeFacts(a);
    NodeFacts(b);
    if a == b {
      assert a.ids * b.ids == a.ids;
      return a;
    }
    if a.height == 0 {
      r := AndChunk(a, b);
      return;
    }
    ghost var result, only := a.ids * b.ids, a.ids <= b.ids;
    var out := new Builder(a.height, a.prefix);
    var common := a.present * b.present;
    StartAnd(out, a, b);
    while common != {}
      invariant common <= a.present * b.present
      invariant fresh(out) && Partial(out, a, result, common, only)
      invariant FromOperands(out.repr, a.repr, b.repr) && AllBacked(out.repr)
      decreases common
    {
      var slot := TrailingZeros(common);
      var ak, bk := SlotKids(a, b, slot);
      assert only ==> ak.ids <= bk.ids;
      var child := AndNodes(ak, bk);
      if child != null {
        AddResult(out, slot, child, a, result, common, only);
      } else {
        assert forall x :: x in result && Slot(a.height, x) == slot ==> x in ak.ids * bk.ids;
        SkipResult(out, slot, a, result, common, only);
      }
      common := DropLowest(common);
    }
    r := Settle(out, a, b, result, only);
  }

  lemma StartAnd(out: Builder, a: Node, b: Node)
    requires Aligned(a, b) && a.height > 0 && out.Valid() && out.present == {} && out.ids == {}
    requires out.height == a.height && out.prefix == a.prefix
    ensures Partial(out, a, a.ids * b.ids, a.present * b.present, a.ids <= b.ids)
  {
    hide Node.Valid, Node.Shape, DirShape, ChunkShape, Wrap, High, Slot, Rank, Kid, KidsValid;
    NodeFacts(a);
    SlotPresent(a);
    SlotPresent(b);
    if a.ids <= b.ids {
      SubsetSlots(a, b);
    }
  }

  /** The children of two aligned nodes at a common slot. */
  method SlotKids(a: Node, b: Node, s: nat) returns (ak: Node, bk: Node)
    requires Aligned(a, b) && a.height > 0 && s in a.present && s in b.present
    requires AllBacked(a.repr) && AllBacked(b.repr)
    ensures |a.kids| == |a.present| && |b.kids| == |b.present|
    ensures ak == Kid(a.present, a.kids, s) && bk == Kid(b.present, b.kids, s)
    ensures Aligned(ak, bk) && ak.height + 1 == a.height && ak.prefix == 64 * a.prefix + s
    ensures ak.repr <= a.repr && bk.repr <= b.repr && AllBacked(ak.repr) && AllBacked(bk.repr)
    ensures forall x :: x in ak.ids <==> x in a.ids && Slot(a.height, x) == s
    ensures forall x :: x in bk.ids <==> x in b.ids && Slot(a.height, x) == s
  {
    hide Node.Valid, Node.Shape, DirShape, ChunkShape, Wrap, High, Slot;
    KidFacts(a, s);
    KidFacts(b, s);
    KidIds(a, s);
    KidIds(b, s);
    NodeFacts(a);
    NodeFacts(b);
    BackedAt(a, a.repr);
    BackedAt(b, b.repr);
    ak := a.slots.items[Rank(a.present, s)];
    bk := b.slots.items[Rank(b.present, s)];
    PartBacked(ak.repr, a.repr);
    PartBacked(bk.repr, b.repr);
  }

  // ---------------------------------------------------------------- union

  method OrChunk(a: Node, b: Node) returns (r: Node)
    requires Aligned(a, b) && a.height == 0
    ensures r.Valid() && r.height == 0 && r.prefix == a.prefix && r.ids == a.ids + b.ids
    ensures r == a || r == b || (fresh(r) && fresh(r.slots) && r.epoch == 0 && r.repr == {r} && Backed(r))
    ensures b.ids <= a.ids ==> r == a
  {
    hide Node.Valid, Node.Shape, ChunkShape, Wrap;
    NodeFacts(a);
    NodeFacts(b);
    ghost var ids := a.ids + b.ids;
    var w := Unite(a.words, b.words);
    ChunkAlgebra(a.prefix, a.words, a.ids, b.words, b.ids);
    ChunkUnique(a.prefix, w, ids, a.words, a.ids);
    ChunkUnique(a.prefix, w, ids, b.words, b.ids);
    if w == a.words {
      return a;
    } else if w == b.words {
      return b;
    }
    r := NewChunk(w, a.prefix, ids);
  }

  /** The child of one node at a slot, and what it holds. */
  method SlotKid(a: Node, s: nat) returns (ak: Node)
    requires a.Valid() && a.height > 0 && s in a.present && AllBacked(a.repr)
    ensures |a.kids| == |a.present| && ak == Kid(a.present, a.kids, s)
    ensures ak.Valid() && ak.height + 1 == a.height && ak.prefix == 64 * a.prefix + s && ak.repr <= a.repr
    ensures AllBacked(ak.repr)
    ensures forall x :: x in ak.ids <==> x in a.ids && Slot(a.height, x) == s
  {
    hide Node.Valid, Node.Shape, DirShape, ChunkShape, Wrap, High, Slot;
    KidFacts(a, s);
    KidIds(a, s);
    NodeFacts(a);
    BackedAt(a, a.repr);
    ak := a.slots.items[Rank(a.present, s)];
    PartBacked(ak.repr, a.repr);
  }

  lemma StartOr(out: Builder, a: Node, b: Node)
    requires Aligned(a, b) && a.height > 0 && out.Valid() && out.present == {} && out.ids == {}
    requires out.height == a.height && out.prefix == a.prefix
    ensures Partial(out, a, a.ids + b.ids, a.present + b.present, b.ids <= a.ids)
    ensures b.ids <= a.ids ==> b.present <= a.present
    ensures forall x :: x in a.ids ==> Slot(a.height, x) in a.present
    ensures forall x :: x in b.ids ==> Slot(a.height, x) in b.present
  {
    hide Node.Valid, Node.Shape, DirShape, ChunkShape, Wrap, High, Slot, Rank, Kid, KidsValid;
    NodeFacts(a);
    SlotPresent(a);
    SlotPresent(b);
    if b.ids <= a.ids {
      SubsetSlots(b, a);
    }
  }

  /** The child of the union at one slot: an operand's own child where the other has none. */
  method OrSlot(a: Node, b: Node, slot: nat) returns (child: Node)
    requires Aligned(a, b) && a.height > 0 && slot in a.present + b.present
    requires AllBacked(a.repr) && AllBacked(b.repr)
    ensures child.Valid() && child.height + 1 == a.height && child.prefix == 64 * a.prefix + slot
    ensures forall x :: x in child.ids <==> x in a.ids + b.ids && Slot(a.height, x) == slot
    ensures FromOperands(child.repr, a.repr, b.repr) && AllBacked(child.repr)
    ensures |a.kids| == |a.present|
    ensures slot in a.present && b.ids <= a.ids ==> child == Kid(a.present, a.kids, slot)
    decreases a.height, 0
  {
    hide Node.Valid, Node.Shape, DirShape, ChunkShape, Wrap, High, Slot, Rank, Kid;
    NodeFacts(a);
    SlotPresent(a);
    SlotPresent(b);
    if slot !in b.present {
      child := SlotKid(a, slot);
    } else if slot !in a.present {
      child := SlotKid(b, slot);
    } else {
      var ak, bk := SlotKids(a, b, slot);
      assert b.ids <= a.ids ==> bk.ids <= ak.ids;
      child := OrNodes(ak, bk);
    }
  }

  /** The union of two subtrees; the first operand itself if it contains the second. */
  method OrNodes(a: Node, b: Node) returns (r: Node)
    requires Aligned(a, b)
    requires AllBacked(a.repr) && AllBacked(b.repr)
    ensures r.Valid() && r.height == a.height && r.prefix == a.prefix && r.ids == a.ids + b.ids
    ensures FromOperands(r.repr, a.repr, b.repr) && AllBacked(r.repr)
    ensures b.ids <= a.ids ==> r == a
    decreases a.height, 2
  {
    hide Node.Valid, Node.Shape, DirShape, ChunkShape, Wrap, High, Slot, Rank, Kid, KidsValid, Partial, Builder.Valid;
    NodeFacts(a);
    NodeFacts(b);
    if a == b {
      assert a.ids + b.ids == a.ids;
      return a;
    }
    if a.height == 0 {
      r := OrChunk(a, b);
    } else {
      r := OrDirs(a, b);
    }
  }

  /** The union of two directories, slot by slot. */
  method OrDirs(a: Node, b: Node) returns (r: Node)
    requires Aligned(a, b) && a.height > 0 && a != b
    requires AllBacked(a.repr) && AllBacked(b.repr)
    ensures r.Valid() && r.height == a.height && r.prefix == a.prefix && r.ids == a.ids + b.ids
    ensures FromOperands(r.repr, a.repr, b.repr) && AllBacked(r.repr)
    ensures b.ids <= a.ids ==> r == a
    decreases a.height, 1
  {
    hide Node.Valid, Node.Shape, DirShape, ChunkShape, Wrap, High, Slot, Rank, Kid, KidsValid, Partial, Builder.Valid;
    NodeFacts(a);
    NodeFacts(b);
    ghost var result, only := a.ids + b.ids, b.ids <= a.ids;
    var out := new Builder(a.height, a.prefix);
    var rest := a.present + b.present;
    StartOr(out, a, b);
    while rest != {}
      invariant rest <= a.present + b.present
      invariant fresh(out) && Partial(out, a, result, rest, only)
      invariant FromOperands(out.repr, a.repr, b.repr) && AllBacked(out.repr)
      decreases rest
    {
      var slot := TrailingZeros(rest);
      var child := OrSlot(a, b, slot);
      AddResult(out, slot, child, a, result, rest, only);
      rest := DropLowest(rest);
    }
    r := Settle(out, a, b, result, only);
  }

  // ---------------------------------------------------------------- difference

  method AndNotChunk(a: Node, b: Node) returns (r: Node?)
    requires Aligned(a, b) && a.height == 0
    ensures r == null <==> a.ids - b.ids == {}
    ensures r != null ==> r.Valid() && r.height == 0 && r.prefix == a.prefix && r.ids == a.ids - b.ids
    ensures r != null ==> r == a || (fresh(r) && fresh(r.slots) && r.epoch == 0 && r.repr == {r} && Backed(r))
    ensures a.ids !! b.ids ==> r == a
  {
    hide Node.Valid, Node.Shape, ChunkShape, Wrap;
    NodeFacts(a);
    NodeFacts(b);
    ghost var ids := a.ids - b.ids;
    var w := Subtract(a.words, b.words);
    ChunkAlgebra(a.prefix, a.words, a.ids, b.words, b.ids);
    ChunkUnique(a.prefix, w, ids, a.words, a.ids);
    EmptyWords(a.prefix, w, ids);
    if w == NO_WORDS {
      return null;
    } else if w == a.words {
      return a;
    }
    r := NewChunk(w, a.prefix, ids);
  }

  /** The difference of two subtrees; the first operand itself if they have nothing in common. */
  method AndNotNodes(a: Node, b: Node) returns (r: Node?)
    requires Aligned(a, b)
    requires AllBacked(a.repr) && AllBacked(b.repr)
    ensures r == null <==> a.ids - b.ids == {}
    ensures r != null ==> r.Valid() && r.height == a.height && r.prefix == a.prefix && r.ids == a.ids - b.ids
    ensures r != null ==> FromOperands(r.repr, a.repr, b.repr) && AllBacked(r.repr)
    ensures a.ids !! b.ids ==> r == a
    decreases a.height
  {
    hide Node.Valid, Node.Shape, DirShape, ChunkShape, Wrap, High, Slot, Rank, Kid, KidsValid, Partial, Builder.Valid;
    NodeFacts(a);
    NodeFacts(b);
    if a == b {
      assert a.ids - b.ids == {};
      assert a.ids * b.ids == a.ids;
      return null;
    }
    if a.height == 0 {
      r := AndNotChunk(a, b);
      return;
    }
    ghost var result, only := a.ids - b.ids, a.ids !! b.ids;
    var out := new Builder(a.height, a.prefix);
    var rest := a.present;
    StartAndNot(out, a, b);
    while rest != {}
      invariant rest <= a.present
      invariant fresh(out) && Partial(out, a, result, rest, only)
      invariant FromOperands(out.repr, a.repr, b.repr) && AllBacked(out.repr)
      decreases rest
    {
      var slot := TrailingZeros(rest);
      if slot !in b.present {
        var ak := SlotKid(a, slot);
        AddResult(out, slot, ak, a, result, rest, only);
      } else {
        var ak, bk := SlotKids(a, b, slot);
        assert only ==> ak.ids !! bk.ids;
        var child := AndNotNodes(ak, bk);
        if child != null {
          AddResult(out, slot, child, a, result, rest, only);
        } else {
          assert forall x :: x in result && Slot(a.height, x) == slot ==> x in ak.ids - bk.ids;
          SkipResult(out, slot, a, result, rest, only);
        }
      }
      rest := DropLowest(rest);
    }
    r := Settle(out, a, a, result, only);
  }

  lemma StartAndNot(out: Builder, a: Node, b: Node)
    requires Aligned(a, b) && a.height > 0 && out.Valid() && out.present == {} && out.ids == {}
    requires out.height == a.height && out.prefix == a.prefix
    ensures Partial(out, a, a.ids - b.ids, a.present, a.ids !! b.ids)
    ensures forall x :: x in b.ids ==> Slot(a.height, x) in b.present
  {
    hide Node.Valid, Node.Shape, DirShape, ChunkShape, Wrap, High, Slot, Rank, Kid, KidsValid;
    NodeFacts(a);
    SlotPresent(a);
    SlotPresent(b);
  }
}
