/** The builder of set-operation results: it assembles the children of a directory node and notices
    when the result is, child for child, one of the operands. */
module BitmapBuilder {
  import opened Words
  import opened IdSpace
  import opened Shapes
  import opened BitmapNode

  /** Every child is valid and one level below h, with its nodes in repr. */
  ghost predicate KidsValid(kids: seq<Node>, h: nat, repr: set<Node>)
    reads kids, repr
  {
    forall k :: k in kids ==> k in repr && k.repr <= repr && k.height + 1 == h && k.Valid()
  }

  class Builder {
    const height: nat
    ghost const prefix: nat
    var present: Bits
    var count: nat
    var kids: seq<Node>
    ghost var ids: set<nat>
    ghost var repr: set<Node>

    ghost predicate Valid()
      reads this, kids, repr
    {
      && 0 < height <= MAX_HEIGHT
      && |kids| == |present|
      && DirShape(height, prefix, SlotsOf(present, kids), ids)
      && count == Wrap(|ids|) && (forall x :: x in ids ==> x < UINT32)
      && KidsValid(kids, height, repr) && Closed(repr)
    }

    constructor(height: nat, ghost prefix: nat)
      requires 0 < height <= MAX_HEIGHT
      ensures Valid() && present == {} && ids == {} && repr == {}
      ensures this.height == height && this.prefix == prefix
    {
      this.height, this.prefix := height, prefix;
      present, count, kids := {}, 0, [];
      ids, repr := {}, {};
    }

    /** Appends the child of a slot above all slots so far. */
    method Add(slot: nat, child: Node)
      requires Valid() && slot < 64 && forall t :: t in present ==> t < slot
      requires child.Valid() && child.height + 1 == height && child.prefix == 64 * prefix + slot
      modifies this
      ensures Valid() && present == old(present) + {slot} && kids == old(kids) + [child]
      ensures ids == old(ids) + child.ids && repr == old(repr) + child.repr
      ensures Kid(present, kids, slot) == child
      ensures forall t :: t in old(present) ==> Kid(present, kids, t) == Kid(old(present), old(kids), t)
    {
      hide Node.Valid, Node.Shape, DirShape, Kid, Wrap, KidsValid;
      AddFacts(present, kids, height, prefix, ids, repr, slot, child);
      Assign(present + {slot}, Wrap(count + child.count), kids + [child], ids + child.ids, repr + child.repr);
    }

    method Assign(present: Bits, count: nat, kids: seq<Node>, ghost ids: set<nat>, ghost repr: set<Node>)
      modifies this
      ensures this.present == present && this.count == count && this.kids == kids
      ensures this.ids == ids && this.repr == repr
    {
      this.present, this.count, this.kids := present, count, kids;
      this.ids, this.repr := ids, repr;
    }

    /** Whether the assembled node equals n, child for child. */
    method Is(n: Node) returns (same: bool)
      requires Valid() && n.Valid() && n.height == height && n.prefix == prefix && Backed(n)
      ensures same <==> present == n.present && count == n.count && kids == n.kids
      ensures same ==> ids == n.ids
    {
      hide Node.Valid, Node.Shape, DirShape, Wrap, KidsValid;
      NodeFacts(n);
      if present != n.present || count != n.count {
        return false;
      }
      for i := 0 to |kids|
        invariant kids[..i] == n.kids[..i]
      {
        if kids[i] != n.slots.items[i] {
          return false;
        }
      }
      assert kids == kids[..|kids|] == n.kids[..|kids|] == n.kids;
      SameIds(height, prefix, SlotsOf(present, kids), ids, n.ids);
      return true;
    }

    /** The assembled node, in epoch 0, which no writer ever owns; nil without children. */
    method Build() returns (r: Node?)
      requires Valid() && AllBacked(repr)
      ensures r == null <==> ids == {}
      ensures r != null ==> r.Valid() && r.height == height && r.prefix == prefix && r.ids == ids
      ensures r != null ==> fresh(r) && fresh(r.slots) && r.epoch == 0 && r.repr == {r} + repr && AllBacked(r.repr)
    {
      hide Node.Valid, Node.Shape, DirShape, Wrap;
      Empty(present, kids, height, prefix, ids);
      if present == {} {
        return null;
      }
      var slots := new KidArray(kids);
      r := new Node(0, height, prefix, count, NO_WORDS, present, slots, ids, repr);
      DirValid(r);
    }
  }

  /** Two child lists over the same presence bits are equal if they agree slot by slot. */
  lemma SameKids<T>(present: Bits, kids: seq<T>, kids': seq<T>)
    requires |kids| == |kids'| == |present|
    requires forall t :: t in present ==> Kid(present, kids, t) == Kid(present, kids', t)
    ensures kids == kids'
  {
    forall i | 0 <= i < |kids|
      ensures kids[i] == kids'[i]
    {
      var t := KidOf(present, kids, i);
    }
  }

  lemma SameIds(h: nat, prefix: nat, parts: Parts, ids: set<nat>, ids': set<nat>)
    requires DirShape(h, prefix, parts, ids) && DirShape(h, prefix, parts, ids')
    ensures ids == ids'
  {
    forall x | x in ids ensures x in ids' { assert InPart(h, prefix, parts, x); }
    forall x | x in ids' ensures x in ids { assert InPart(h, prefix, parts, x); }
  }

  lemma Empty(present: Bits, kids: seq<Node>, h: nat, prefix: nat, ids: set<nat>)
    requires |kids| == |present| && DirShape(h, prefix, SlotsOf(present, kids), ids)
    ensures present == {} <==> ids == {}
  {
    var parts := SlotsOf(present, kids);
    if present == {} {
      assert parts == map[];
      assert forall x :: x in ids ==> InPart(h, prefix, parts, x);
    } else {
      var s :| s in present;
      assert PartOk(h, prefix, s, parts[s]);
    }
  }

  lemma KidAppended<T>(present: Bits, kids: seq<T>, s: nat, k: T)
    requires |kids| == |present| && s < 64 && forall t :: t in present ==> t < s
    ensures s !in present && Rank(present, s) == |kids| && Inserted(kids, Rank(present, s), k) == kids + [k]
    ensures |kids + [k]| == |present + {s}| && Kid(present + {s}, kids + [k], s) == k
    ensures forall t :: t in present ==> Kid(present + {s}, kids + [k], t) == Kid(present, kids, t)
  {
    assert Below(present, s) == present;
    assert Inserted(kids, |kids|, k) == kids + [k];
    KidInserted(present, kids, s, k);
  }

  lemma KidsJoin(kids: seq<Node>, h: nat, repr: set<Node>, k: Node)
    requires KidsValid(kids, h, repr) && k.Valid() && k.height + 1 == h
    ensures KidsValid(kids + [k], h, repr + k.repr)
  {
    hide Node.Valid;
    ValidSelf(k);
  }

  lemma SlotsAppended(present: Bits, kids: seq<Node>, h: nat, prefix: nat, ids: set<nat>, s: nat, k: Node)
    requires 0 < h && |kids| == |present| && DirShape(h, prefix, SlotsOf(present, kids), ids)
    requires s < 64 && forall t :: t in present ==> t < s
    requires PartOk(h, prefix, s, Part(k.prefix, k.ids))
    ensures |kids + [k]| == |present + {s}|
    ensures DirShape(h, prefix, SlotsOf(present + {s}, kids + [k]), ids + k.ids) && ids !! k.ids
  {
    hide DirShape, PartOk, Kid, Rank;
    KidAppended(present, kids, s, k);
    SlotsInserted(present, kids, s, k);
    DirUpdate(h, prefix, SlotsOf(present, kids), ids, s, Part(k.prefix, k.ids));
    assert ids - {} + k.ids == ids + k.ids;
  }

  lemma AddFacts(present: Bits, kids: seq<Node>, h: nat, prefix: nat, ids: set<nat>, repr: set<Node>, s: nat, k: Node)
    requires 0 < h && |kids| == |present| && DirShape(h, prefix, SlotsOf(present, kids), ids)
    requires KidsValid(kids, h, repr)
    requires s < 64 && forall t :: t in present ==> t < s
    requires k.Valid() && k.height + 1 == h && k.prefix == 64 * prefix + s
    ensures |kids + [k]| == |present + {s}|
    ensures DirShape(h, prefix, SlotsOf(present + {s}, kids + [k]), ids + k.ids)
    ensures KidsValid(kids + [k], h, repr + k.repr)
    ensures Wrap(Wrap(|ids|) + k.count) == Wrap(|ids + k.ids|) && forall x :: x in k.ids ==> x < UINT32
    ensures Closed(k.repr)
    ensures Kid(present + {s}, kids + [k], s) == k
    ensures forall t :: t in present ==> Kid(present + {s}, kids + [k], t) == Kid(present, kids, t)
  {
    hide Node.Valid, Node.Shape, DirShape, ChunkShape, PartOk, Kid, Rank, KidsValid, Wrap, High, SlotsOf;
    KidAppended(present, kids, s, k);
    NewPart(k, h, prefix, s);
    SlotsAppended(present, kids, h, prefix, ids, s, k);
    KidsJoin(kids, h, repr, k);
    NodeFacts(k);
    CountJoin(ids, k.ids);
  }

  lemma CountJoin(a: set<nat>, b: set<nat>)
    requires a !! b
    ensures Wrap(Wrap(|a|) + Wrap(|b|)) == Wrap(|a + b|)
  {
    WrapAdd(|a|, Wrap(|b|));
    WrapAdd(|b|, |a|);
  }
}
