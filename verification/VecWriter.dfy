/** The vector's Writer changes in place exactly the nodes carrying its epoch and copies all others. */
module VecWriter {
  import opened Epochs
  import opened IdSpace
  import opened VecShapes
  import opened VecNode
  import opened VecQuery

  /** What a change below a node has come to: all holds the nodes there were, and those it adds are owned. */
  ghost predicate Grown(before: set<Node>, all: set<Node>, e: nat, last: nat)
    reads all
  {
    before <= all && Sealed(all, e, last) && Closed(all) && forall x :: x in all && x !in before ==> x.epoch == e
  }

  /** All that is known of an owned directory node n when the child in a slot has become k, and before
      n itself is written; parts is what its slots held before. */
  ghost predicate Graft(n: Node, i: nat, v: Value, k: Node?, parts: VecParts, all: set<Node>, e: nat, last: nat)
    reads n, n.kids, n.repr, k, ReprOf(k), all
  {
    && 0 < n.height <= VEC_HEIGHT && n.vals == [] && n in n.repr && |n.kids| == 32
    && InnerShape(n.height, n.prefix, parts, n.m) && Above(n.height, i) == n.prefix
    && KidsBeside(n, Branch(n.height, i), k, n.repr, e)
    && (k != null ==>
      k.Valid() && k.height + 1 == n.height && n !in k.repr && k.prefix == 32 * n.prefix + Branch(n.height, i))
    && MapOf(k) == Put(PartAt(parts, Branch(n.height, i)), i, v)
    && (forall t :: 0 <= t < 32 && t != Branch(n.height, i) ==>
         (t in parts <==> n.kids[t] != null) && (t in parts ==> parts[t] == VecPart(n.kids[t].prefix, n.kids[t].m)))
    && 0 != e == n.epoch <= last && ReprOf(k) <= all && Grown(n.repr, all, e, last)
  }

  class Writer {
    const counter: EpochCounter
    var epoch: nat

    constructor(counter: EpochCounter)
      ensures this.counter == counter && epoch == 0
    {
      this.counter := counter;
      epoch := 0;
    }

    method Freeze()
      modifies this
      ensures epoch == 0
    {
      epoch := 0;
    }

    method Begin()
      modifies this, counter
      ensures Drawn(old(epoch), old(counter.last), epoch, counter.last)
    {
      if epoch == 0 {
        epoch := counter.Add();
      }
    }

    /** n itself if this writer owns it, otherwise a copy that it does own. */
    method Own(n: Node) returns (c: Node)
      requires n.Valid() && epoch <= counter.last && Sealed(n.repr, epoch, counter.last) && AllBacked(n.repr)
      modifies this, counter
      ensures Drawn(old(epoch), old(counter.last), epoch, counter.last)
      ensures c.Valid() && c.height == n.height && c.prefix == n.prefix && c.m == n.m
      ensures if n.epoch == epoch then c == n else fresh(c) && fresh(c.cells)
      ensures c.epoch == epoch <= counter.last && Sealed(c.repr, epoch, counter.last)
      ensures c.repr == n.repr + {c} && AllBacked(c.repr)
    {
      hide Backed, AllBacked, Node.Valid, Node.Shape, LeafShape, InnerShape, Sealed, Guards, Used;
      NodeFacts(n);
      BackedAt(n, n.repr);
      ghost var e, last := epoch, counter.last;
      Begin();
      SealedDrawn(n.repr, e, last, epoch, counter.last);
      if n.epoch == epoch {
        assert n.repr + {n} == n.repr;
        return n;
      }
      c := Copy(n);
    }

    /** A copy of a node, with an array of its own. */
    method Copy(n: Node) returns (c: Node)
      requires n.Valid() && 0 != epoch <= counter.last && Sealed(n.repr, epoch, counter.last) && AllBacked(n.repr)
      requires n.epoch != epoch
      ensures c.Valid() && c.height == n.height && c.prefix == n.prefix && c.m == n.m && fresh(c) && fresh(c.cells)
      ensures c.epoch == epoch && Sealed(c.repr, epoch, counter.last) && c.repr == n.repr + {c} && AllBacked(c.repr)
    {
      hide Backed, AllBacked, Node.Valid, Node.Shape, LeafShape, InnerShape, Sealed, Guards, Used, Apart;
      NodeFacts(n);
      BackedAt(n, n.repr);
      var cells := new Cells(n.cells.vals, n.cells.kids);
      c := new Node(epoch, n.height, n.prefix, n.used, cells, n.m, n.repr);
      OneBacked(c);
      BothBacked(n.repr, {c});
      CopyValid(n, c, counter.last);
      AsMap(n.repr, epoch, counter.last);
      OwnedAbove(c, map x | x in n.repr :: x.repr, epoch, counter.last);
    }

    /** A new subtree of the given height for one value; the epoch must have been drawn. */
    method NewPath(height: nat, i: nat, v: Value, ghost prefix: nat) returns (n: Node)
      requires height <= VEC_HEIGHT && i < UINT32 && prefix == Above(height, i) && v != Nil
      requires 0 != epoch <= counter.last
      ensures n.Valid() && fresh(n.repr) && Sealed(n.repr, epoch, counter.last)
      ensures forall x :: x in n.repr ==> x.epoch == epoch
      ensures n.epoch == epoch && n.height == height && n.prefix == prefix && n.m == map[i := v]
      ensures AllBacked(n.repr) && forall x :: x in n.repr ==> fresh(x.cells)
      decreases height
    {
      hide Backed, AllBacked, Node.Valid, Node.Shape, LeafShape, InnerShape, Above, Branch, Low, Used, Apart, Fits;
      UsedOne(i, v);
      if height == 0 {
        NewLeaf(i, v);
        assert i in map[i := v];
        var cells := new Cells(NO_VALS[Low(i) := v], []);
        n := new Node(epoch, 0, prefix, 1, cells, map[i := v], {});
        LeafValid(n);
        OneBacked(n);
        assert n.repr == {n};
      } else {
        var slot := Branch(height, i);
        var k := NewPath(height - 1, i, v, 32 * prefix + slot);
        NodeFacts(k);
        BackedAt(k, k.repr);
        var cells := new Cells([], NO_KIDS[slot := k]);
        n := new Node(epoch, height, prefix, k.used, cells, map[i := v], k.repr);
        NodeFacts(k);
        SingleInner(n, slot, k);
        OneBacked(n);
        BothBacked({n}, k.repr);
      }
    }

    /** Writes an owned leaf; one whose count has become zero is for the caller to drop. */
    method PutVals(n: Node, at: nat, v: Value, used: nat, ghost m: Contents)
      requires n.height == 0 && n in n.repr && n.kids == [] && Closed(n.repr)
      requires at < |n.vals| && LeafShape(n.prefix, n.vals[at := v], m) && used == Used(m)
      requires forall x :: x in m ==> x < UINT32
      requires 0 != n.epoch == epoch <= counter.last && Sealed(n.repr, epoch, counter.last) && AllBacked(n.repr)
      modifies n, n.cells`vals
      ensures n.used == used && n.m == m && n.repr == old(n.repr)
      ensures used != 0 ==> n.Valid()
      ensures Sealed(n.repr, epoch, counter.last) && Closed(n.repr) && AllBacked(n.repr)
    {
      hide Backed, AllBacked, Node.Shape, LeafShape;
      ghost var was := map x | x in n.repr :: x.repr;
      ghost var rest := n.repr - {n};
      BackedAt(n, n.repr);
      OneBacked(n);
      RestBacked(n.repr, {n}, epoch);
      n.StoreVal(at, v, used, m);
      OneBacked(n);
      BothBacked({n}, rest);
      assert {n} + rest == n.repr;
      OwnedAbove(n, was, epoch, counter.last);
      if used != 0 {
        LeafValid(n);
      }
    }

    /** Writes one child of an owned directory node; below has the nodes it then covers. */
    method WriteKid(n: Node, at: nat, k: Node?, used: nat, ghost m: Contents, ghost below: set<Node>)
      requires Backed(n) && AllBacked(below) && at < |n.kids| && n.epoch != 0
      modifies n, n.cells`kids
      ensures n.used == used && n.vals == old(n.vals) && n.kids == old(n.kids)[at := k] && n.m == m
      ensures n.repr == {n} + below && AllBacked(n.repr)
    {
      hide Backed, AllBacked;
      ghost var rest := {n} + below - {n};
      OneBacked(n);
      BothBacked({n}, below);
      RestBacked({n} + below, {n}, n.epoch);
      n.StoreKid(at, k, used, m, {n} + below);
      OneBacked(n);
      BothBacked({n}, rest);
      assert {n} + rest == {n} + below;
    }

    /** Writes an owned directory node; one whose count has become zero is for the caller to drop. */
    method PutKids(n: Node, at: nat, k: Node?, used: nat, ghost kids: seq<Node?>, ghost m: Contents,
                   ghost below: set<Node>)
      requires 0 < n.height <= VEC_HEIGHT && n.vals == [] && at < |n.kids| == 32 && kids == n.kids[at := k]
      requires used == Used(m) && forall x :: x in m ==> x < UINT32
      requires InnerShape(n.height, n.prefix, SlotsOf(kids), m)
      requires Fits(n, kids, below) && Apart(kids, n.epoch)
      requires 0 != n.epoch == epoch <= counter.last && Sealed(below, epoch, counter.last) && Closed(below)
      requires Backed(n) && AllBacked(below)
      modifies n, n.cells`kids
      ensures n.used == used && n.m == m && n.repr == {n} + below
      ensures used != 0 ==> n.Valid()
      ensures Sealed(n.repr, epoch, counter.last) && Closed(n.repr) && AllBacked(n.repr)
    {
      hide Backed, AllBacked, Node.Shape, InnerShape;
      ghost var parts := SlotsOf(kids);
      ghost var was := map x | x in below :: x.repr;
      WriteKid(n, at, k, used, m, below);

      assert SlotsOf(n.kids) == parts;
      assert Fits(n, n.kids, n.repr);
      OwnedAbove(n, was, epoch, counter.last);
      if used != 0 {
        InnerValid(n);
      }
    }

    /** Sets or unsets index i in a subtree; null if its count has become zero. */
    method SetIn(n: Node, height: nat, i: nat, v: Value) returns (r: Node?, ghost all: set<Node>)
      requires n.Valid() && n.height == height && i < UINT32 && Above(height, i) == n.prefix && (v == Nil ==> i in n.m)
      requires epoch <= counter.last && Sealed(n.repr, epoch, counter.last) && AllBacked(n.repr)
      modifies this, counter, Owned(n, epoch)
      ensures Drawn(old(epoch), old(counter.last), epoch, counter.last)
      ensures r == null <==> Used(Put(old(n.m), i, v)) == 0
      ensures r != null ==> r.Valid() && r.height == n.height && r.prefix == n.prefix && r.m == Put(old(n.m), i, v)
      ensures r != null ==> r.repr == all && if n.epoch == epoch then r == n else fresh(r) && fresh(r.cells)
      ensures Grown(old(n.repr), all, epoch, counter.last) && AllBacked(all)
      ensures forall x :: x in all ==> x in old(n.repr) || (fresh(x) && fresh(x.cells))
      decreases height, 2
    {
      hide UsedOf, Backed, AllBacked, Node.Valid, Node.Shape, LeafShape, InnerShape, Sealed, Guards, Fits, Apart;
      hide Graft, Above, Branch, Low, Used, Closed;
      NodeFacts(n);
      EpochsPast(n.repr, epoch, counter.last);
      var c := Own(n);
      NodeFacts(c);
      BackedAt(c, c.repr);
      if height == 0 {
        UsedExact(c.m, i, v);
        LeafPut(c.prefix, c.vals, c.m, i, v);
        var slot := Low(i);
        PutVals(c, slot, v, UsedAfter(c.used, c.cells.vals[slot] != Nil, v != Nil), Put(c.m, i, v));
      } else {
        var slot := Branch(height, i);
        var before := UsedOf(c.cells.kids[slot]);
        var child;
        ghost var parts;
        child, parts, all := SetBelow(c, height, i, v);
        BackedAt(c, all);
        PutKid(c, height, i, v, child, Wrap(c.used + UsedOf(child) - before), parts, all);
      }
      all := c.repr;
      r := if c.used == 0 then null else c;
    }

    /** The part of SetIn below a directory node this writer owns: the child in the slot of i changes. */
    method SetBelow(n: Node, height: nat, i: nat, v: Value)
      returns (k: Node?, ghost parts: VecParts, ghost all: set<Node>)
      requires n.Valid() && 0 < height == n.height && i < UINT32 && Above(height, i) == n.prefix
      requires (v == Nil ==> i in n.m)
      requires 0 != n.epoch == epoch <= counter.last && Sealed(n.repr, epoch, counter.last) && AllBacked(n.repr)
      modifies this, counter, Owned(n, epoch)
      ensures unchanged(n) && epoch == old(epoch) && counter.last == old(counter.last)
      ensures Graft(n, i, v, k, parts, all, epoch, counter.last)
      ensures n.repr <= all && AllBacked(all)
      ensures forall x :: x in all ==> x in n.repr || (fresh(x) && fresh(x.cells))
      ensures |n.kids| == 32
      ensures Wrap(n.used + UsedOf(k) - old(UsedOf(n.kids[Branch(height, i)]))) == Used(Put(n.m, i, v))
      decreases height, 1
    {
      hide UsedOf, Put, PartAt, Wrap, Backed, AllBacked, Node.Valid, Node.Shape, LeafShape, InnerShape, Sealed, Guards;
      hide Fits, Apart, ApartSets, Beside, KidsBeside, Above, Branch, Low, Used;
      NodeFacts(n);
      SlotDecides(n, i);
      var slot := Branch(height, i);
      KidFacts(n, slot);
      ghost var repr, below := n.repr, ReprOf(n.kids[slot]);
      parts := SlotsOf(n.kids);
      ghost var reprs := ReprsOf(n.kids);
      BesideAll(n, slot, epoch, counter.last);
      KidPut(n, i, v);
      k, all := SetSlot(n, height, i, v, repr);
      forall j | 0 <= j < 32 && j != slot
        ensures Beside(n, n.kids[j], repr) && MapOf(n.kids[j]) == old(MapOf(n.kids[j])) && ReprOf(n.kids[j]) == reprs[j]
      {
        assert old(Beside(n, n.kids[j], repr));
      }
      forall x | x in repr && x !in below
        ensures x.epoch <= counter.last && Guards(x, epoch, counter.last) && x.repr <= repr
      {
        assert old(Guards(x, epoch, counter.last) && x.repr <= repr);
      }
      Join(repr, below, all, epoch, counter.last);
      BesideAfter(n, slot, k, repr, reprs, epoch, counter.last, epoch);
      all := repr + all;
    }

    /** The child in the slot of i of an owned directory node, changed or created. */
    method SetSlot(n: Node, height: nat, i: nat, v: Value, ghost nodes: set<Node>)
      returns (k: Node?, ghost all: set<Node>)
      requires n.Valid() && 0 < height == n.height && i < UINT32 && Above(height, i) == n.prefix
      requires (v == Nil ==> i in n.m)
      requires 0 != n.epoch == epoch <= counter.last && |n.kids| == 32
      requires Sealed(ReprOf(n.kids[Branch(height, i)]), epoch, counter.last)
      requires AllBacked(nodes) && n in nodes && ReprOf(n.kids[Branch(height, i)]) <= nodes
      modifies this, counter, Owned(n.kids[Branch(height, i)], epoch)
      ensures epoch == old(epoch) && counter.last == old(counter.last)
      ensures k != null ==>
        k.Valid() && k.height + 1 == height && k.prefix == 32 * n.prefix + Branch(height, i) && n !in k.repr
      ensures MapOf(k) == Put(old(MapOf(n.kids[Branch(height, i)])), i, v) && UsedOf(k) == Used(MapOf(k))
      ensures ReprOf(k) <= all && Grown(old(ReprOf(n.kids[Branch(height, i)])), all, epoch, counter.last)
      ensures forall x :: x in all ==> x in old(ReprOf(n.kids[Branch(height, i)])) || (fresh(x) && fresh(x.cells))
      ensures AllBacked(nodes + all)
      decreases height, 0
    {
      hide Backed, AllBacked, Node.Valid, Node.Shape, LeafShape, InnerShape, Sealed, Guards, Above, Branch, Low, Used;
      NodeFacts(n);
      SlotDecides(n, i);
      var slot := Branch(height, i);
      KidFacts(n, slot);
      KidPut(n, i, v);
      BackedAt(n, nodes);
      ghost var below := ReprOf(n.kids[slot]);
      RestBacked(nodes, below, epoch);
      if n.cells.kids[slot] == null {
        k := NewPath(height - 1, i, v, 32 * n.prefix + slot);
        NodeFacts(k);
        all := k.repr;
      } else {
        k, all := SetIn(n.cells.kids[slot], height - 1, i, v);
        if k == null {
          UsedNone();
        } else {
          NodeFacts(k);
        }
      }
      BothBacked(nodes - below, all);
      assert nodes - below + all == nodes + all;
    }

    /** Puts a changed child back into its slot of an owned node. */
    method PutKid(n: Node, height: nat, i: nat, v: Value, k: Node?, used: nat, ghost parts: VecParts,
                  ghost all: set<Node>)
      requires n.height == height && i < UINT32 && forall x :: x in n.m ==> x < UINT32
      requires Graft(n, i, v, k, parts, all, epoch, counter.last) && used == Used(Put(n.m, i, v))
      requires Backed(n) && AllBacked(all)
      modifies n, n.cells`kids
      ensures n.used == used && n.m == Put(old(n.m), i, v) && n.repr == all && old(n.repr) <= all
      ensures used != 0 ==> n.Valid()
      ensures Sealed(n.repr, epoch, counter.last) && Closed(n.repr) && AllBacked(n.repr)
      ensures forall x :: x in all && x !in old(n.repr) ==> x.epoch == epoch
    {
      hide Node.Valid, Node.Shape, LeafShape, InnerShape, Sealed, Guards, Apart, Beside, KidsBeside, Above, Branch;
      hide Low, Used;
      var slot := Branch(height, i);
      UpdatedSlots(n, i, v, k, parts);
      UpdatedApart(n, slot, k, n.repr, epoch);
      UpdatedFits(n, n, slot, k, n.repr, epoch);
      assert {n} + all == all;
      PutKids(n, slot, k, used, n.kids[slot := k], Put(n.m, i, v), all);
    }

    /** Puts a whole vector under child 0 of a new root. */
    method Lift(b: Node) returns (r: Node)
      requires b.Valid() && b.prefix == 0 && b.height < VEC_HEIGHT
      requires 0 != epoch <= counter.last && Sealed(b.repr, epoch, counter.last) && AllBacked(b.repr)
      ensures r.Valid() && r.prefix == 0 && r.height == b.height + 1 && r.m == b.m
      ensures fresh(r) && fresh(r.cells) && AllBacked(r.repr) && r.epoch == epoch && r.repr == {r} + b.repr
      ensures Sealed(r.repr, epoch, counter.last)
    {
      hide Backed, AllBacked, Node.Valid, Node.Shape, LeafShape, InnerShape, Sealed, Guards, Used;
      NodeFacts(b);
      BackedAt(b, b.repr);
      var cells := new Cells([], NO_KIDS[0 := b]);
      r := new Node(epoch, b.height + 1, 0, b.used, cells, b.m, b.repr);
      OneBacked(r);
      BothBacked({r}, b.repr);
      SingleInner(r, 0, b);
      AsMap(b.repr, epoch, counter.last);
      OwnedAbove(r, map x | x in b.repr :: x.repr, epoch, counter.last);
    }

    /** Raises the root until the vector covers index i; the old root becomes child 0. */
    method Cover(b: Node, height: nat, i: nat) returns (root: Node, h: nat)
      requires b.Valid() && b.prefix == 0 && b.height == height && i < UINT32
      requires epoch <= counter.last && Sealed(b.repr, epoch, counter.last) && AllBacked(b.repr)
      modifies this, counter
      ensures root.Valid() && root.prefix == 0 && root.height == h && Above(h, i) == 0 && root.m == b.m
      ensures epoch <= counter.last && Sealed(root.repr, epoch, counter.last) && AllBacked(root.repr)
      ensures b.repr <= root.repr
      ensures forall x :: x in root.repr ==> x in b.repr || (fresh(x) && fresh(x.cells) && x.epoch == epoch)
      ensures if !Outside(height, i) then
          root == b && epoch == old(epoch) && counter.last == old(counter.last)
        else
          fresh(root) && root.epoch == epoch && Drawn(old(epoch), old(counter.last), epoch, counter.last)
    {
      hide Node.Valid, Node.Shape, LeafShape, InnerShape, Sealed, Guards, Above, Used;
      NodeFacts(b);
      root, h := b, height;
      while Outside(h, i)
        invariant root.Valid() && root.prefix == 0 && root.height == h <= VEC_HEIGHT && root.m == b.m
        invariant epoch <= counter.last && Sealed(root.repr, epoch, counter.last) && AllBacked(root.repr)
        invariant b.repr <= root.repr
        invariant forall x :: x in root.repr ==> x in b.repr || (fresh(x) && fresh(x.cells) && x.epoch == epoch)
        invariant root == b ==> h == height && epoch == old(epoch) && counter.last == old(counter.last)
        invariant root != b ==>
          fresh(root) && root.epoch == epoch && Drawn(old(epoch), old(counter.last), epoch, counter.last)
        invariant root != b ==> Outside(height, i)
        decreases VEC_HEIGHT - h
      {
        ghost var e, last := epoch, counter.last;
        Begin();
        SealedDrawn(root.repr, e, last, epoch, counter.last);
        root := Lift(root);
        h := h + 1;
      }
      InsideTop(i, h);
    }

    /** The vector with index i replaced; Nil unsets it. Should all 2^32 indexes come to be set, the
        counter of the root wraps to zero and the result is the empty vector. */
    method Set(v: Vector, i: nat, val: Value) returns (r: Vector)
      requires Ok(v) && i < UINT32
      requires epoch <= counter.last && Sealed(ReprOf(v.root), epoch, counter.last) && AllBacked(ReprOf(v.root))
      modifies this, counter, Owned(v.root, epoch)
      ensures Ok(r)
      ensures ContentsOf(r) ==
        (if Used(Put(old(ContentsOf(v)), i, val)) == 0 then map[] else Put(old(ContentsOf(v)), i, val))
      ensures r.root == null ==> r == EMPTY
      ensures val == Nil && i !in old(ContentsOf(v)) ==>
        r == v && epoch == old(epoch) && counter.last == old(counter.last) && unchanged(old(ReprOf(v.root)))
      ensures val != Nil || i in old(ContentsOf(v)) ==> Drawn(old(epoch), old(counter.last), epoch, counter.last)
      ensures epoch <= counter.last && Sealed(ReprOf(r.root), epoch, counter.last)
      ensures AllBacked(old(ReprOf(v.root)) + ReprOf(r.root))
      ensures forall x :: x in ReprOf(r.root) ==>
        x in old(ReprOf(v.root)) || (fresh(x) && fresh(x.cells) && x.epoch == epoch)
      ensures val != Nil || i in old(ContentsOf(v)) ==>
        r.root == null || fresh(r.root) || r.root in old(Owned(v.root, epoch))
    {
      hide Backed, AllBacked, Node.Valid, Node.Shape, LeafShape, InnerShape, Sealed, Guards, Above, Used;
      ghost var m, area := ContentsOf(v), Area(ReprOf(v.root));
      RootFacts(v);
      if val == Nil {
        var was := Get(v, i);
        if was == Nil {
          assert Put(m, i, val) == m && ReprOf(v.root) + ReprOf(v.root) == ReprOf(v.root);
          return v;
        }
      } else if v.root == null {
        var h := v.height;
        while Outside(h, i)
          invariant h <= VEC_HEIGHT
          decreases VEC_HEIGHT - h
        {
          h := h + 1;
        }
        InsideTop(i, h);
        Begin();
        UsedOne(i, val);
        assert Put(m, i, val) == map[i := val];
        var root := NewPath(h, i, val, 0);
        NodeFacts(root);
        assert {} + root.repr == root.repr;
        return Vector(root, h);
      }
      NodeFacts(v.root);
      var root, h := v.root, v.height;
      if val != Nil {
        root, h := Cover(v.root, v.height, i);
      }
      EpochsPast(v.root.repr, old(epoch), old(counter.last));
      ghost var all;
      root, all := SetIn(root, h, i, val);
      if root == null {
        SealedPart({}, all, epoch, counter.last);
        PartBacked(old(ReprOf(v.root)) + {}, all);
        return EMPTY;
      }
      assert root.used != 0 by { NodeFacts(root); }
      assert old(ReprOf(v.root)) + root.repr == all;
      r := Vector(root, h);
    }
  }

  lemma NewLeaf(i: nat, v: Value)
    ensures LeafShape(Above(0, i), NO_VALS[Low(i) := v], if v == Nil then map[] else map[i := v])
  {
    hide Above, Low;
    assert LeafShape(Above(0, i), NO_VALS, map[]);
    LeafPut(Above(0, i), NO_VALS, map[], i, v);
  }

  /** What changing the child in the slot of i comes to, in a node and in its child. */
  lemma KidPut(n: Node, i: nat, v: Value)
    requires n.Valid() && n.height > 0 && i < UINT32 && Above(n.height, i) == n.prefix && (v == Nil ==> i in n.m)
    ensures |n.kids| == 32
    ensures var was := MapOf(n.kids[Branch(n.height, i)]);
      && was == PartAt(SlotsOf(n.kids), Branch(n.height, i)) && (v == Nil ==> i in was)
      && (Used(Put(was, i, v)) == 0 <==> Put(was, i, v) == map[])
      && Wrap(n.used + Used(Put(was, i, v)) - Used(was)) == Used(Put(n.m, i, v))
      && UsedOf(n.kids[Branch(n.height, i)]) == Used(was)
  {
    hide Node.Valid, Node.Shape, LeafShape, InnerShape, Above, Branch, Used, Put;
    NodeFacts(n);
    SlotDecides(n, i);
    var slot := Branch(n.height, i);
    KidFacts(n, slot);
    UsedThrough(n.m, MapOf(n.kids[slot]), i, v);
    assert Above(n.height - 1, i) == 32 * n.prefix + slot;
    if n.kids[slot] == null {
      UsedNone();
      PutNotFull(map[], n.height - 1, 32 * n.prefix + slot, i, v);
    } else {
      KidNotFull(n.kids[slot], n.height - 1, i, v);
    }
  }

  lemma KidNotFull(k: Node, h: nat, i: nat, v: Value)
    requires k.Valid() && k.height == h < VEC_HEIGHT && i < UINT32 && Above(h, i) == k.prefix
    ensures Used(Put(k.m, i, v)) == 0 <==> Put(k.m, i, v) == map[]
    ensures k.used == Used(k.m)
  {
    hide Node.Valid, Node.Shape, LeafShape, InnerShape, Above, Branch, Used, Put;
    NodeFacts(k);
    PutNotFull(k.m, h, k.prefix, i, v);
  }

  lemma PutNotFull(m: Contents, h: nat, prefix: nat, i: nat, v: Value)
    requires h < VEC_HEIGHT && forall x :: x in m ==> x < UINT32 && Above(h, x) == prefix
    requires i < UINT32 && Above(h, i) == prefix
    ensures Used(Put(m, i, v)) == 0 <==> Put(m, i, v) == map[]
  {
    hide Above, Used;
    NotFull(Put(m, i, v), h, prefix);
    UsedZero(Put(m, i, v));
  }
}
