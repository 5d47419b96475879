/** The Writer changes in place exactly the nodes carrying its epoch and copies all others. */
module BitmapWriter {
  import opened Words
  import opened Epochs
  import opened IdSpace
  import opened Shapes
  import opened BitmapNode
  import opened BitmapQuery

  /** r has taken the place of n: it covers all the nodes n had, and those it adds are owned. */
  ghost predicate Grown(before: set<Node>, r: Node, e: nat, last: nat)
    reads r, r.repr
  {
    r.epoch == e && before <= r.repr && Sealed(r.repr, e, last)
      && (forall x :: x in r.repr && x !in before ==> x.epoch == e)
  }

  class Writer {
    const counter: EpochCounter
    var epoch: nat

    constructor(counter: EpochCounter)
      ensures this.counter == counter && epoch == 0
    {
      this.counter := counter;
      epoch := 0;
    }

    method Freeze()
      modifies this
      ensures epoch == 0
    {
      epoch := 0;
    }

    method Begin()
      modifies this, counter
      ensures old(epoch) != 0 ==> epoch == old(epoch) && counter.last == old(counter.last)
      ensures old(epoch) == 0 ==> epoch == counter.last == old(counter.last) + 1
    {
      if epoch == 0 {
        epoch := counter.Add();
      }
    }

    /** n itself if this writer owns it, otherwise a copy that it does own. */
    method Own(n: Node) returns (c: Node)
      requires n.epoch <= counter.last && epoch <= counter.last && Backed(n)
      modifies this, counter
      ensures old(epoch) != 0 ==> epoch == old(epoch) && counter.last == old(counter.last)
      ensures old(epoch) == 0 ==> epoch == counter.last == old(counter.last) + 1
      ensures c.epoch == epoch != 0
      ensures n.epoch == epoch ==> c == n
      ensures n.epoch != epoch ==> fresh(c) && fresh(c.slots)
      ensures c.height == n.height && c.prefix == n.prefix && c.count == n.count && c.words == n.words
      ensures c.present == n.present && c.kids == n.kids && c.ids == n.ids
      ensures c.repr == n.repr + {c} || n.epoch == epoch
      ensures Backed(c)
    {
      Begin();
      if n.epoch == epoch {
        c := n;
      } else {
        var slots := new KidArray(n.slots.items);
        c := new Node(epoch, n.height, n.prefix, n.count, n.words, n.present, slots, n.ids, n.repr);
      }
    }

    /** A new subtree of the given height holding only id; the epoch must have been drawn. */
    method Branch(height: nat, id: nat, ghost prefix: nat) returns (n: Node)
      requires height <= MAX_HEIGHT && id < UINT32 && prefix == High(height, id)
      requires 0 != epoch <= counter.last
      ensures n.Valid() && fresh(n.repr) && Sealed(n.repr, epoch, counter.last)
      ensures forall x :: x in n.repr ==> x.epoch == epoch
      ensures n.epoch == epoch && n.height == height && n.prefix == prefix && n.ids == {id}
      ensures height > 0 ==> n.present == {Slot(height, id)}
      ensures AllBacked(n.repr) && forall x :: x in n.repr ==> fresh(x.slots)
      decreases height
    {
      hide Backed, AllBacked, Node.Valid, Node.Shape, PartOk, Wrap, High, ChunkShape, DirShape;
      if height == 0 {
        var slots := new KidArray([]);
        n := new Node(epoch, 0, prefix, 1, NO_WORDS[WordOf(id) := {BitOf(id)}], {}, slots, {id}, {});
        ChunkOf(n, id);
        OneBacked(n);
      } else {
        var k := Branch(height - 1, id, 64 * prefix + Slot(height, id));
        n := Stem(k, height, id, prefix);
      }
    }

    /** A directory with one child. */
    method Stem(k: Node, height: nat, id: nat, ghost prefix: nat) returns (n: Node)
      requires 0 < height <= MAX_HEIGHT && id < UINT32 && prefix == High(height, id) && 0 != epoch <= counter.last
      requires k.Valid() && Sealed(k.repr, epoch, counter.last) && AllBacked(k.repr)
      requires forall x :: x in k.repr ==> x.epoch == epoch
      requires k.height == height - 1 && k.prefix == 64 * prefix + Slot(height, id) && k.ids == {id}
      ensures n.Valid() && fresh(n) && fresh(n.slots) && n.repr == {n} + k.repr && Sealed(n.repr, epoch, counter.last)
      ensures n.epoch == epoch && n.height == height && n.prefix == prefix && n.ids == {id}
      ensures n.present == {Slot(height, id)} && AllBacked(n.repr)
    {
      hide Backed, AllBacked, Node.Valid, Node.Shape, PartOk, Wrap, High, ChunkShape, DirShape;
      var slot := Slot(height, id);
      NodeFacts(k);
      BackedAt(k, k.repr);
      var slots := new KidArray([k]);
      n := new Node(epoch, height, prefix, 1, NO_WORDS, {slot}, slots, {id}, k.repr);
      NodeFacts(k);
      NewPart(k, height, prefix, slot);
      SingleDir(n, slot);
      OneBacked(n);
      BothBacked({n}, k.repr);
    }

    /** Gives an owned directory node its new presence bits, children and count. */
    method Put(n: Node, present: Bits, edit: Edit, count: nat, ghost kids: seq<Node>, ghost ids: set<nat>,
               ghost below: set<Node>)
      requires Backed(n) && AllBacked(below) && Fitting(n.kids, edit) && kids == Edited(n.kids, edit)
      requires 0 < n.height <= MAX_HEIGHT && n.words == NO_WORDS && |kids| == |present|
      requires ids != {} && count == Wrap(|ids|) && forall x :: x in ids ==> x < UINT32
      requires DirShape(n.height, n.prefix, SlotsOf(present, kids), ids)
      requires Fits(n, kids, below) && Apart(kids, n.epoch)
      requires 0 != n.epoch == epoch <= counter.last && Sealed(below, epoch, counter.last) && Closed(below)
      modifies n, n.slots`items
      ensures n.Valid() && n.ids == ids && n.repr == {n} + below
      ensures Sealed(n.repr, epoch, counter.last) && AllBacked(n.repr)
      ensures n.present == present && n.kids == kids && unchanged(n`words)
    {
      hide Backed, AllBacked, Node.Shape, DirShape, Apart;
      OneBacked(n);
      BothBacked({n}, below);
      RestBacked({n} + below, {n}, epoch);
      ghost var parts, rest := SlotsOf(present, kids), {n} + below - {n};
      ghost var was := map x | x in below :: x.repr;
      n.slots.Change(edit);
      n.Assign(n.words, present, count, kids, ids, {n} + below);
      assert SlotsOf(n.present, n.kids) == parts;
      assert Fits(n, n.kids, n.repr);
      ClosedAbove(n, was);
      DirValid(n);
      SealedAbove(n, was, epoch, counter.last);
      Rewritten(n);
      BothBacked({n}, rest);
      assert {n} + rest == {n} + below;
    }

    /** Gives an owned chunk its new bits and count. */
    method PutBits(n: Node, words: seq<Bits>, count: nat, ghost ids: set<nat>)
      requires n.height == 0 && n in n.repr && n.present == {} && n.kids == [] && Closed(n.repr)
      requires ChunkShape(n.prefix, words, ids) && ids != {} && count == Wrap(|ids|)
      requires forall x :: x in ids ==> x < UINT32
      requires 0 != n.epoch == epoch <= counter.last && Sealed(n.repr, epoch, counter.last) && AllBacked(n.repr)
      modifies n
      ensures n.Valid() && n.ids == ids && n.repr == old(n.repr)
      ensures Sealed(n.repr, epoch, counter.last) && AllBacked(n.repr)
    {
      ghost var was := map x | x in n.repr :: x.repr;
      n.Assign(words, n.present, count, n.kids, ids, n.repr);
      ClosedAbove(n, was);
      ChunkValid(n);
      SealedAbove(n, was, epoch, counter.last);
    }

    /** Sets the bit of id in a chunk that lacks it. */
    method AddBit(n: Node, id: nat) returns (r: Node)
      requires n.Valid() && n.height == 0 && id < UINT32 && High(0, id) == n.prefix && id !in n.ids
      requires epoch <= counter.last && Sealed(n.repr, epoch, counter.last) && AllBacked(n.repr)
      modifies this, counter, Owned(n, epoch)
      ensures r.Valid() && r.height == n.height && r.prefix == n.prefix && r.ids == old(n.ids) + {id}
      ensures Drawn(old(epoch), old(counter.last), epoch, counter.last)
      ensures Grown(old(n.repr), r, epoch, counter.last)
      ensures forall x :: x in r.repr ==> x in old(n.repr) || (fresh(x) && fresh(x.slots))
      ensures if n.epoch == epoch then r == n else fresh(r) && fresh(r.slots)
      ensures AllBacked(r.repr)
    {
      hide Node.Shape, DirShape, ChunkShape;
      NodeFacts(n);
      ChunkAdd(n.prefix, n.words, n.ids, id);
      CountAdded(n.ids, id);
      r := Own(n);
      PutBits(r, r.words[WordOf(id) := r.words[WordOf(id)] + {BitOf(id)}], Wrap(r.count + 1), r.ids + {id});
    }

    /** Gives r, which is n or its copy, the new child k for the slot of id. */
    method PutBranch(n: Node, r: Node, k: Node, id: nat)
      requires n.Valid() && n.height > 0 && High(n.height, id) == n.prefix && id < UINT32 && id !in n.ids
      requires Slot(n.height, id) !in n.present
      requires 0 != r.epoch == epoch <= counter.last && Sealed(n.repr, epoch, counter.last) && AllBacked(n.repr)
      requires (r == n || r !in n.repr) && r.height == n.height && r.prefix == n.prefix && r.words == n.words
      requires r.kids == n.kids && Backed(r)
      requires k.Valid() && k.height + 1 == n.height && k.prefix == 64 * n.prefix + Slot(n.height, id) && k.ids == {id}
      requires k.repr !! n.repr && r !in k.repr && Sealed(k.repr, epoch, counter.last) && AllBacked(k.repr)
      modifies r, r.slots`items
      ensures r.Valid() && r.ids == old(n.ids) + {id} && r.repr == {r} + old(n.repr) + k.repr
      ensures Sealed(r.repr, epoch, counter.last) && AllBacked(r.repr)
    {
      hide Backed, AllBacked, Node.Valid, Node.Shape, DirShape, ChunkShape, Sealed, Guards, Fits, Apart, Inserted, Rank;
      hide Wrap, High, Slot, SlotsOf;
      NodeFacts(n);
      OneBacked(r);
      var slot := Slot(n.height, id);
      var idx := Rank(n.present, slot);
      CountAdded(n.ids, id);
      BothBacked(n.repr, k.repr);
      NewPart(k, n.height, n.prefix, slot);
      BranchFits(n, r, slot, k, epoch, counter.last);
      assert {r} + (n.repr + k.repr) == {r} + n.repr + k.repr;
      Put(r, n.present + {slot}, Open(idx, k), Wrap(n.count + 1), Inserted(n.kids, idx, k), n.ids + {id},
        n.repr + k.repr);
    }

    /** Opens an empty slot of a directory node: a chain of single-child nodes down to a new chunk. */
    method AddBranch(n: Node, id: nat) returns (r: Node)
      requires n.Valid() && n.height > 0 && id < UINT32 && High(n.height, id) == n.prefix
      requires Slot(n.height, id) !in n.present
      requires epoch <= counter.last && Sealed(n.repr, epoch, counter.last) && AllBacked(n.repr)
      modifies this, counter, Owned(n, epoch)
      ensures r.Valid() && r.height == n.height && r.prefix == n.prefix && r.ids == old(n.ids) + {id}
      ensures id !in old(n.ids)
      ensures Drawn(old(epoch), old(counter.last), epoch, counter.last)
      ensures Grown(old(n.repr), r, epoch, counter.last)
      ensures forall x :: x in r.repr ==> x in old(n.repr) || (fresh(x) && fresh(x.slots))
      ensures if n.epoch == epoch then r == n else fresh(r) && fresh(r.slots)
      ensures AllBacked(r.repr)
    {
      hide Backed, AllBacked, Node.Valid, Node.Shape, DirShape, ChunkShape, Sealed, Guards, Wrap, High, Slot, SlotsOf;
      NodeFacts(n);
      EpochPast(n, epoch, counter.last);
      SlotDecides(n, id);
      BackedAt(n, n.repr);
      r := Own(n);
      SealedDrawn(n, old(epoch), old(counter.last), epoch, counter.last);
      var k := Branch(n.height - 1, id, 64 * n.prefix + Slot(n.height, id));
      PutBranch(n, r, k, id);
    }

    /** Puts a changed child back into its slot: in n itself if this writer owns it, else in a copy. */
    method PutKid(n: Node, slot: nat, k: Node, count: nat, ghost ids: set<nat>, ghost parts: Parts) returns (r: Node)
      requires Graft(n, slot, k, parts, epoch, counter.last) && AllBacked(n.repr + k.repr)
      requires ids == n.ids - parts[slot].ids + k.ids && ids != {} && count == Wrap(|ids|)
      requires forall x :: x in ids ==> x < UINT32
      modifies this, counter, if n.epoch == epoch then {n, n.slots} else {}
      ensures epoch == old(epoch) && counter.last == old(counter.last)
      ensures r.Valid() && r.height == n.height && r.prefix == n.prefix && r.ids == ids
      ensures if n.epoch == epoch then r == n else fresh(r) && fresh(r.slots)
      ensures Grown(old(n.repr), r, epoch, counter.last)
      ensures forall x :: x in r.repr ==> x == r || x in old(n.repr) || x in old(k.repr)
      ensures AllBacked(r.repr)
    {
      hide SlotsOf, Backed, AllBacked, Node.Valid, Node.Shape, DirShape, ChunkShape, Sealed, Guards, Fits, Apart;
      hide Beside, KidsBeside, Rank, High, Slot, Wrap, Closed;
      var idx := Rank(n.present, slot);
      NewPart(k, n.height, n.prefix, slot);
      UpdatedSlots(n.height, n.prefix, n.present, n.kids, slot, k, parts, n.ids);
      UpdatedApart(n, idx, k, n.repr, epoch);
      BackedAt(n, n.repr + k.repr);
      r := Own(n);
      UpdatedFits(n, r, idx, k, n.repr, epoch);
      Put(r, n.present, Store(idx, k), count, n.kids[idx := k], ids, n.repr + k.repr);
    }

    /** In a chunk. */
    method SetBit(n: Node, id: nat) returns (r: Node, added: bool)
      requires n.Valid() && n.height == 0 && id < UINT32 && High(n.height, id) == n.prefix
      requires epoch <= counter.last && Sealed(n.repr, epoch, counter.last) && AllBacked(n.repr)
      modifies this, counter, Owned(n, epoch)
      ensures r.Valid() && r.height == n.height && r.prefix == n.prefix
      ensures r.ids == old(n.ids) + {id} && (added <==> id !in old(n.ids))
      ensures !added ==> r == n && epoch == old(epoch) && counter.last == old(counter.last) && unchanged(old(n.repr))
      ensures added ==> Drawn(old(epoch), old(counter.last), epoch, counter.last)
      ensures added ==>
        Grown(old(n.repr), r, epoch, counter.last) && forall x :: x in r.repr ==>
          x in old(n.repr) || (fresh(x) && fresh(x.slots))
      ensures added ==> if n.epoch == epoch then r == n else fresh(r) && fresh(r.slots)
      ensures AllBacked(r.repr)
    {
      hide Backed, AllBacked, Node.Valid, Node.Shape, ChunkShape, Sealed, Guards, High, Wrap;
      BitDecides(n, id);
      if BitOf(id) in n.words[WordOf(id)] {
        assert n.ids + {id} == n.ids;
        return n, false;
      }
      r := AddBit(n, id);
      added := true;
    }

    /** Adds id to a subtree: in place where this writer owns the node, in a copy elsewhere. */
    method SetIn(n: Node, id: nat) returns (r: Node, added: bool)
      requires n.Valid() && id < UINT32 && High(n.height, id) == n.prefix
      requires epoch <= counter.last && Sealed(n.repr, epoch, counter.last) && AllBacked(n.repr)
      modifies this, counter, Owned(n, epoch)
      ensures r.Valid() && r.height == n.height && r.prefix == n.prefix
      ensures r.ids == old(n.ids) + {id} && (added <==> id !in old(n.ids))
      ensures !added ==> r == n && epoch == old(epoch) && counter.last == old(counter.last) && unchanged(old(n.repr))
      ensures added ==> Drawn(old(epoch), old(counter.last), epoch, counter.last)
      ensures added ==>
        Grown(old(n.repr), r, epoch, counter.last) && forall x :: x in r.repr ==>
          x in old(n.repr) || (fresh(x) && fresh(x.slots))
      ensures added ==> if n.epoch == epoch then r == n else fresh(r) && fresh(r.slots)
      ensures AllBacked(r.repr)
      decreases n.height, 1
    {
      hide Backed, AllBacked, Node.Valid, Node.Shape, DirShape, ChunkShape, Sealed, Guards, Fits, Apart, Graft, Rank;
      hide High, Slot, Wrap, SlotsOf;
      NodeFacts(n);
      if n.height == 0 {
        r, added := SetBit(n, id);
        return;
      }
      SlotDecides(n, id);
      var slot := Slot(n.height, id);
      if slot !in n.present {
        r := AddBranch(n, id);
        return r, true;
      }
      EpochPast(n, epoch, counter.last);
      var child;
      ghost var parts;
      child, added, parts := SetBelow(n, id);
      if !added {
        assert n.ids + {id} == n.ids;
        return n, false;
      }
      CountAdded(n.ids, id);
      SwapAdds(n.ids, parts[slot].ids, child.ids, id);
      r := PutKid(n, slot, child, Wrap(n.count + 1), n.ids + {id}, parts);
    }

    /** The case of SetIn where the slot of id has a child: first the child, ... */
    method SetBelow(n: Node, id: nat) returns (child: Node, added: bool, ghost parts: Parts)
      requires n.Valid() && n.height > 0 && id < UINT32 && High(n.height, id) == n.prefix
      requires Slot(n.height, id) in n.present
      requires epoch <= counter.last && Sealed(n.repr, epoch, counter.last) && AllBacked(n.repr)
      modifies this, counter, Owned(n, epoch)
      ensures unchanged(n) && n in n.repr && n.height <= MAX_HEIGHT
      ensures added <==> id !in old(n.ids)
      ensures !added ==> epoch == old(epoch) && counter.last == old(counter.last) && unchanged(old(n.repr))
      ensures added ==> Drawn(old(epoch), old(counter.last), epoch, counter.last)
      ensures added ==> Graft(n, Slot(n.height, id), child, parts, epoch, counter.last)
      ensures !added ==> AllBacked(n.repr)
      ensures added ==> AllBacked(n.repr + child.repr)
      ensures added ==> forall x :: x in child.repr ==> x in n.repr || (fresh(x) && fresh(x.slots))
      ensures added ==>
        && Slot(n.height, id) in parts
        && parts[Slot(n.height, id)].ids <= n.ids
        && child.ids == parts[Slot(n.height, id)].ids + {id}
      decreases n.height, 0
    {
      hide Backed, AllBacked, Node.Valid, Node.Shape, DirShape, ChunkShape, Sealed, Guards, Fits, Apart, ApartSets;
      hide Beside, KidsBeside, Rank, High, Slot, Wrap;
      NodeFacts(n);
      SlotDecides(n, id);
      var slot := Slot(n.height, id);
      var idx := Rank(n.present, slot);
      KidFacts(n, slot);
      EpochPast(n, epoch, counter.last);
      ghost var repr, below := n.repr, n.kids[idx].repr;
      parts := SlotsOf(n.present, n.kids);
      ghost var reprs := ReprsOf(n.kids);
      BackedAt(n, repr);
      RestBacked(repr, below, epoch);
      BesideAll(n, slot, epoch, counter.last);
      child, added := SetIn(n.slots.items[idx], id);
      BothBacked(repr - below, child.repr);
      if !added {
        assert repr - below + below == repr;
        return;
      }
      assert repr - below + child.repr == repr + child.repr;
      forall j | 0 <= j < |n.kids| && j != idx
        ensures Beside(n, n.kids[j], repr) && n.kids[j].ids == old(n.kids[j].ids)
        ensures n.kids[j].repr == old(n.kids[j].repr)
      {
        assert old(Beside(n, n.kids[j], repr));
      }
      forall x | x in repr && x !in below
        ensures Guards(x, epoch, counter.last) && x.repr <= repr
      {
        assert old(Guards(x, epoch, counter.last) && x.repr <= repr);
        GuardsDrawn(x, old(epoch), old(counter.last), epoch, counter.last);
      }
      SealedJoin(repr, below, child.repr, epoch, counter.last);
      NodeFacts(child);
      ClosedJoin(repr, below, child.repr);
      forall t | t in n.present && t != slot
        ensures SlotsOf(n.present, n.kids)[t] == parts[t]
      {
        OtherRank(n.present, slot, t);
      }
      BesideAfter(n, idx, child, repr, reprs, old(epoch), old(counter.last), epoch);
    }

    /** Puts a whole trie under child 0 of a new root. */
    method Lift(b: Node) returns (r: Node)
      requires b.Valid() && b.prefix == 0 && b.height < MAX_HEIGHT
      requires 0 != epoch <= counter.last && Sealed(b.repr, epoch, counter.last) && AllBacked(b.repr)
      ensures r.Valid() && r.prefix == 0 && r.height == b.height + 1 && r.ids == b.ids
      ensures fresh(r) && fresh(r.slots) && r.epoch == epoch && r.repr == {r} + b.repr
      ensures Sealed(r.repr, epoch, counter.last) && AllBacked(r.repr)
    {
      hide Node.Valid, Node.Shape, DirShape, ChunkShape, Sealed, Guards, Wrap;
      NodeFacts(b);
      var slots := new KidArray([b]);
      r := new Node(epoch, b.height + 1, 0, b.count, NO_WORDS, {0}, slots, b.ids, b.repr);
      LiftPart(b);
      SingleDir(r, 0);
      ghost var was := map x | x in b.repr :: x.repr;
      SealedMap(b.repr, epoch, counter.last);
      SealedAbove(r, was, epoch, counter.last);
    }

    /** Raises the root until the trie covers id. */
    method Cover(b: Node, id: nat) returns (root: Node)
      requires b.Valid() && b.prefix == 0 && id < UINT32
      requires epoch <= counter.last && Sealed(b.repr, epoch, counter.last) && AllBacked(b.repr)
      modifies this, counter
      ensures root.Valid() && root.prefix == 0 && High(root.height, id) == 0 && root.ids == b.ids
      ensures epoch <= counter.last && Sealed(root.repr, epoch, counter.last) && AllBacked(root.repr)
      ensures b.repr <= root.repr
      ensures forall x :: x in root.repr ==> x in b.repr || (fresh(x) && fresh(x.slots) && x.epoch == epoch)
      ensures if !Beyond(b.height, id) then
          root == b && epoch == old(epoch) && counter.last == old(counter.last)
        else
          (fresh(root) && root.epoch == epoch && Drawn(old(epoch), old(counter.last), epoch, counter.last)
           && root.height > 0 && High(root.height - 1, id) != 0 && id !in b.ids)
    {
      hide Node.Valid, Node.Shape, DirShape, ChunkShape, Sealed, Guards, High, Slot, Wrap;
      NodeFacts(b);
      root := b;
      while Beyond(root.height, id)
        invariant root.Valid() && root.prefix == 0 && root.ids == b.ids && root.height <= MAX_HEIGHT
        invariant epoch <= counter.last && Sealed(root.repr, epoch, counter.last) && AllBacked(root.repr)
        invariant b.repr <= root.repr
        invariant forall x :: x in root.repr ==> x in b.repr || (fresh(x) && fresh(x.slots) && x.epoch == epoch)
        invariant root == b ==> epoch == old(epoch) && counter.last == old(counter.last)
        invariant root != b ==>
          fresh(root) && root.epoch == epoch && Drawn(old(epoch), old(counter.last), epoch, counter.last)
        invariant root != b ==> root.height > 0 && High(root.height - 1, id) != 0 && Beyond(b.height, id)
        decreases MAX_HEIGHT - root.height
      {
        ghost var e, last := epoch, counter.last;
        Begin();
        SealedDrawn(root, e, last, epoch, counter.last);
        root := Lift(root);
      }
      NotBeyond(root.height, id);
    }

    /** The set of one id, as low as the id allows. */
    method Single(id: nat) returns (r: Node)
      requires id < UINT32 && epoch <= counter.last
      modifies this, counter
      ensures Canon(r) && r.ids == {id} && r.epoch == epoch
      ensures Drawn(old(epoch), old(counter.last), epoch, counter.last) && Sealed(r.repr, epoch, counter.last)
      ensures AllBacked(r.repr) && forall x :: x in r.repr ==> fresh(x) && fresh(x.slots) && x.epoch == epoch
      ensures fresh(r)
    {
      hide Backed, AllBacked, Node.Valid, Node.Shape, DirShape, ChunkShape, Sealed, Guards, High, Slot, Wrap;
      var height := 0;
      while Beyond(height, id)
        invariant height <= MAX_HEIGHT
        invariant height > 0 ==> High(height - 1, id) != 0
        decreases MAX_HEIGHT - height
      {
        height := height + 1;
      }
      NotBeyond(height, id);
      Begin();
      r := Branch(height, id, 0);
      NodeFacts(r);
      if height > 0 {
        TopSlot(height, id);
      }
    }

    /** The set with id added, and whether it was absent before. */
    method Set(b: Bitmap, id: nat) returns (r: Bitmap, added: bool)
      requires Canon(b) && id < UINT32
      requires epoch <= counter.last && Sealed(Repr(b), epoch, counter.last) && AllBacked(Repr(b))
      modifies this, counter, if b == null then {} else Owned(b, epoch)
      ensures r != null && Canon(r) && r.ids == old(Ids(b)) + {id} && (added <==> id !in old(Ids(b)))
      ensures !added ==> r == b && epoch == old(epoch) && counter.last == old(counter.last) && unchanged(old(Repr(b)))
      ensures added ==> Drawn(old(epoch), old(counter.last), epoch, counter.last)
      ensures added ==>
        Grown(old(Repr(b)), r, epoch, counter.last) && forall x :: x in r.repr ==>
          x in old(Repr(b)) || (fresh(x) && fresh(x.slots))
      ensures r == b || fresh(r)
      ensures AllBacked(r.repr)
    {
      hide Backed, AllBacked, Node.Valid, Node.Shape, DirShape, ChunkShape, Sealed, Guards, High, Slot, Wrap;
      if b == null {
        r := Single(id);
        assert {} + {id} == {id};
        return r, true;
      }
      ghost var x := id;
      if b.height > 0 {
        x := TallWitness(b);
      }
      NodeFacts(b);
      var root := Cover(b, id);
      NodeFacts(root);
      EpochsPast(b.repr, old(epoch), old(counter.last));
      r, added := SetIn(root, id);
      NodeFacts(r);
      if root != b {
        x := id;
      }
      if r.height > 0 {
        TallPresent(r, x);
      }
    }

    /** Own, for a whole valid subtree. */
    method OwnValid(n: Node) returns (c: Node)
      requires n.Valid() && epoch <= counter.last && Sealed(n.repr, epoch, counter.last) && AllBacked(n.repr)
      modifies this, counter
      ensures Drawn(old(epoch), old(counter.last), epoch, counter.last)
      ensures c.Valid() && c.height == n.height && c.prefix == n.prefix && c.ids == n.ids
      ensures if n.epoch == epoch then c == n else fresh(c) && fresh(c.slots)
      ensures Grown(n.repr, c, epoch, counter.last) && c.repr == n.repr + {c} && AllBacked(c.repr)
    {
      hide Node.Valid, Node.Shape, DirShape, ChunkShape, Sealed, Guards, High, Slot, Wrap, Backed;
      NodeFacts(n);
      EpochPast(n, epoch, counter.last);
      SealedMap(n.repr, epoch, counter.last);
      c := Own(n);
      SealedDrawn(n, old(epoch), old(counter.last), epoch, counter.last);
      if n.epoch == epoch {
        assert n.repr + {c} == n.repr;
      } else {
        CopyValid(n, c, counter.last);
        ghost var was := map x | x in n.repr :: x.repr;
        SealedMap(n.repr, epoch, counter.last);
        SealedAbove(c, was, epoch, counter.last);
      }
    }

    /** Clears the bit of id in an owned chunk that holds more. */
    method DropBit(n: Node, id: nat)
      requires n.Valid() && n.height == 0 && id in n.ids && n.ids != {id}
      requires 0 != n.epoch == epoch <= counter.last && Sealed(n.repr, epoch, counter.last) && AllBacked(n.repr)
      modifies n, n.slots
      ensures n.Valid() && n.ids == old(n.ids) - {id} && n.repr == old(n.repr) && Sealed(n.repr, epoch, counter.last)
      ensures AllBacked(n.repr)
    {
      hide Node.Valid, Node.Shape, DirShape, ChunkShape, Sealed, Guards, High, Wrap, WordOf, BitOf;
      NodeFacts(n);
      CountRemoved(n.ids, id);
      OneLeft(n.ids, id);
      ChunkRemove(n.prefix, n.words, n.ids, id);
      PutBits(n, n.words[WordOf(id) := n.words[WordOf(id)] - {BitOf(id)}], Wrap(n.count - 1), n.ids - {id});
    }

    /** Closes the slot of an owned directory node whose child held nothing but id. */
    method DropKid(n: Node, slot: nat, id: nat)
      requires n.Valid() && n.height > 0 && slot in n.present && id in n.ids && n.ids != {id}
      requires |n.kids| == |n.present| && Kid(n.present, n.kids, slot).ids == {id}
      requires 0 != n.epoch == epoch <= counter.last && Sealed(n.repr, epoch, counter.last) && AllBacked(n.repr)
      modifies n, n.slots
      ensures n.Valid() && n.ids == old(n.ids) - {id} && n.repr == old(n.repr) && Sealed(n.repr, epoch, counter.last)
      ensures AllBacked(n.repr)
    {
      hide Node.Valid, Node.Shape, DirShape, ChunkShape, Sealed, Guards, Fits, Apart, Rank, High, Wrap;
      NodeFacts(n);
      CountRemoved(n.ids, id);
      OneLeft(n.ids, id);
      RemovalFits(n, slot);
      assert {n} + n.repr == n.repr;
      var idx := Rank(n.present, slot);
      Put(n, n.present - {slot}, Close(idx), Wrap(n.count - 1), Removed(n.kids, idx), n.ids - {id}, n.repr);
    }

    /** Removes id, known to be present, from a subtree; null if nothing is left. */
    method ClearIn(n: Node, id: nat) returns (r: Node?)
      requires n.Valid() && id in n.ids
      requires epoch <= counter.last && Sealed(n.repr, epoch, counter.last) && AllBacked(n.repr)
      modifies this, counter, Owned(n, epoch)
      ensures r == null <==> old(n.ids) == {id}
      ensures r == null ==> AllBacked(n.repr)
      ensures r != null ==> AllBacked(r.repr)
      ensures r == null ==> epoch == old(epoch) && counter.last == old(counter.last) && unchanged(old(n.repr))
      ensures r != null ==> r.Valid() && r.height == n.height && r.prefix == n.prefix && r.ids == old(n.ids) - {id}
      ensures r != null ==> Drawn(old(epoch), old(counter.last), epoch, counter.last)
      ensures r != null ==>
        Grown(old(n.repr), r, epoch, counter.last) && forall x :: x in r.repr ==>
          x in old(n.repr) || (fresh(x) && fresh(x.slots))
      ensures r != null ==> if n.epoch == epoch then r == n else fresh(r) && fresh(r.slots)
      decreases n.height, 2
    {
      hide Backed, AllBacked, Node.Valid, Node.Shape, DirShape, ChunkShape, Sealed, Guards, Fits, Apart, Graft, Rank;
      hide High, Slot, Wrap;
      NodeFacts(n);
      CountIsOne(n.ids, id);
      if n.count == 1 {
        return null;
      }
      EpochPast(n, epoch, counter.last);
      EpochsPast(n.repr, epoch, counter.last);
      var c := OwnValid(n);
      ClearOwned(c, id);
      r := c;
    }

    /** The case of ClearIn where more is left than nothing, in a node this writer owns. */
    method ClearOwned(n: Node, id: nat)
      requires n.Valid() && id in n.ids && n.ids != {id} && n.epoch == epoch != 0
      requires epoch <= counter.last && Sealed(n.repr, epoch, counter.last) && AllBacked(n.repr)
      modifies this, counter, Owned(n, epoch)
      ensures epoch == old(epoch) && counter.last == old(counter.last)
      ensures n.Valid() && n.ids == old(n.ids) - {id} && AllBacked(n.repr)
      ensures Grown(old(n.repr), n, epoch, counter.last)
      ensures forall x :: x in n.repr ==> x in old(n.repr) || (fresh(x) && fresh(x.slots))
      decreases n.height, 1
    {
      hide Backed, AllBacked, Node.Valid, Node.Shape, DirShape, ChunkShape, Sealed, Guards, Fits, Apart, Graft, Rank;
      hide High;
      hide Slot, Wrap;
      NodeFacts(n);
      CountRemoved(n.ids, id);
      ghost var ids := n.ids - {id};
      assert ids != {} by { OneLeft(n.ids, id); }
      if n.height == 0 {
        DropBit(n, id);
        return;
      }
      SlotDecides(n, id);
      var slot := Slot(n.height, id);
      var child;
      ghost var parts;
      child, parts := ClearBelow(n, id);
      if child != null {
        SwapRemoves(n.ids, parts[slot].ids, child.ids, id);
        var r := PutKid(n, slot, child, Wrap(n.count - 1), ids, parts);
      } else {
        DropKid(n, slot, id);
      }
    }

    /** The part of ClearIn below a node this writer owns: id is removed from the child in its slot. */
    method ClearBelow(n: Node, id: nat) returns (child: Node?, ghost parts: Parts)
      requires n.Valid() && n.height > 0 && id in n.ids && n.epoch == epoch != 0
      requires epoch <= counter.last && Sealed(n.repr, epoch, counter.last) && AllBacked(n.repr)
      modifies this, counter, Owned(n, epoch)
      ensures unchanged(n) && n in n.repr && n.height <= MAX_HEIGHT && |n.kids| == |n.present|
      ensures epoch == old(epoch) && counter.last == old(counter.last)
      ensures Slot(n.height, id) in n.present
      ensures child == null ==> unchanged(n.repr) && n.Valid() && Kid(n.present, n.kids, Slot(n.height, id)).ids == {id}
      ensures child != null ==> Graft(n, Slot(n.height, id), child, parts, epoch, counter.last)
      ensures child == null ==> AllBacked(n.repr)
      ensures child != null ==> AllBacked(n.repr + child.repr)
      ensures child != null ==> forall x :: x in child.repr ==> x in n.repr || (fresh(x) && fresh(x.slots))
      ensures child != null ==>
        Slot(n.height, id) in parts && id in parts[Slot(n.height, id)].ids && parts[Slot(n.height, id)].ids <= n.ids
      ensures child != null ==> child.ids == parts[Slot(n.height, id)].ids - {id}
      decreases n.height, 0
    {
      hide Backed, AllBacked, Node.Valid, Node.Shape, DirShape, ChunkShape, Sealed, Guards, Fits, Apart, ApartSets;
      hide Beside, KidsBeside, Rank, High, Slot, Wrap;
      NodeFacts(n);
      SlotDecides(n, id);
      var slot := Slot(n.height, id);
      var idx := Rank(n.present, slot);
      KidFacts(n, slot);
      EpochPast(n, epoch, counter.last);
      ghost var repr, below := n.repr, n.kids[idx].repr;
      parts := SlotsOf(n.present, n.kids);
      ghost var reprs := ReprsOf(n.kids);
      BackedAt(n, repr);
      RestBacked(repr, below, epoch);
      BesideAll(n, slot, epoch, counter.last);
      child := ClearIn(n.slots.items[idx], id);
      if child == null {
        BothBacked(repr - below, below);
        assert repr - below + below == repr;
        return;
      }
      BothBacked(repr - below, child.repr);
      assert repr - below + child.repr == repr + child.repr;
      forall j | 0 <= j < |n.kids| && j != idx
        ensures Beside(n, n.kids[j], repr) && n.kids[j].ids == old(n.kids[j].ids)
        ensures n.kids[j].repr == old(n.kids[j].repr)
      {
        assert old(Beside(n, n.kids[j], repr));
      }
      forall x | x in repr && x !in below
        ensures Guards(x, epoch, counter.last) && x.repr <= repr
      {
        assert old(Guards(x, epoch, counter.last) && x.repr <= repr);
      }
      SealedJoin(repr, below, child.repr, epoch, counter.last);
      NodeFacts(child);
      ClosedJoin(repr, below, child.repr);
      forall t | t in n.present && t != slot
        ensures SlotsOf(n.present, n.kids)[t] == parts[t]
      {
        OtherRank(n.present, slot, t);
      }
      BesideAfter(n, idx, child, repr, reprs, old(epoch), old(counter.last), epoch);
    }

    /** The set with id removed, and whether it was present. */
    method Clear(b: Bitmap, id: nat) returns (r: Bitmap, removed: bool)
      requires Canon(b) && id < UINT32
      requires epoch <= counter.last && Sealed(Repr(b), epoch, counter.last) && AllBacked(Repr(b))
      modifies this, counter, if b == null then {} else Owned(b, epoch)
      ensures Canon(r) && Ids(r) == old(Ids(b)) - {id} && (removed <==> id in old(Ids(b)))
      ensures !removed ==> r == b && epoch == old(epoch) && counter.last == old(counter.last) && unchanged(old(Repr(b)))
      ensures (epoch == old(epoch) && counter.last == old(counter.last))
        || Drawn(old(epoch), old(counter.last), epoch, counter.last)
      ensures Sealed(Repr(r), epoch, counter.last) && AllBacked(old(Repr(b)) + Repr(r))
      ensures forall x :: x in Repr(r) ==> x in old(Repr(b)) || (fresh(x) && fresh(x.slots) && x.epoch == epoch)
    {
      hide Node.Valid, Node.Shape, DirShape, ChunkShape, Sealed, Guards, High, Slot, Wrap;
      var present := Contains(b, id);
      if !present {
        assert Ids(b) - {id} == Ids(b) && Repr(b) + Repr(b) == Repr(b);
        return b, false;
      }
      removed := true;
      r := ClearIn(b, id);
      if r == null {
        SealedPart({}, old(Repr(b)), epoch, counter.last);
        assert old(Repr(b)) + Repr(r) == old(Repr(b));
        return;
      }
      ghost var all := r.repr;
      while r.height > 0 && r.present == {0}
        invariant r != null && r.Valid() && r.prefix == 0 && r.ids == old(b.ids) - {id}
        invariant Drawn(old(epoch), old(counter.last), epoch, counter.last)
        invariant Sealed(r.repr, epoch, counter.last) && AllBacked(all) && r.repr <= all && old(Repr(b)) <= all
        invariant forall x :: x in r.repr ==> x in old(Repr(b)) || (fresh(x) && fresh(x.slots) && x.epoch == epoch)
        decreases r.height
      {
        OnlyKid(r);
        SealedPart(r.kids[0].repr, r.repr, epoch, counter.last);
        NodeFacts(r);
        assert Backed(r);
        r := r.slots.items[0];
      }
    }
  }

  lemma OneLeft(ids: set<nat>, x: nat)
    requires x in ids && ids != {x}
    ensures ids - {x} != {}
  {
    assert ids == {x} + (ids - {x});
  }
}
