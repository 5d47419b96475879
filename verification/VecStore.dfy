/** The row vector a write transaction works on. Whatever has been handed out after a Freeze is in
    `frozen`, and nothing in `frozen` ever changes. */
module VecStore {
  import opened Epochs
  import opened IdSpace
  import opened VecShapes
  import opened VecNode
  import opened VecQuery
  import W = VecWriter

  /** Nodes that no writer can reach any more. */
  ghost predicate Settled(frozen: set<Node>, e: nat, last: nat)
    reads frozen
  {
    Closed(frozen) && forall x :: x in frozen ==> x.epoch <= last && (x.epoch != e || e == 0)
  }

  ghost predicate Holds(v: Vector, m: Contents)
    reads v.root, ReprOf(v.root)
  {
    Ok(v) && ContentsOf(v) == m
  }

  /** v has been handed out: it holds m, in nodes that never change. */
  ghost predicate HandedOut(v: Vector, m: Contents, frozen: set<Node>)
    reads v.root, ReprOf(v.root)
  {
    Holds(v, m) && ReprOf(v.root) <= frozen
  }

  /** A vector without a root is one without rows. */
  lemma HoldsNothing(v: Vector, m: Contents)
    requires Holds(v, m)
    ensures v.root == null <==> m == map[]
  {
    hide Node.Shape;
    if v.root != null {
      NodeFacts(v.root);
    }
  }

  lemma HoldsClosed(v: Vector, m: Contents)
    requires Holds(v, m)
    ensures Closed(ReprOf(v.root)) && (v.root != null ==> v.root in ReprOf(v.root))
  {
    hide Node.Shape;
    if v.root != null {
      NodeFacts(v.root);
    }
  }

  lemma SettledSealed(v: Vector, m: Contents, frozen: set<Node>, e: nat, last: nat)
    requires HandedOut(v, m, frozen) && Settled(frozen, e, last)
    ensures Sealed(ReprOf(v.root), e, last)
  {
    hide Node.Valid, Node.Shape;
    HoldsClosed(v, m);
    forall x | x in ReprOf(v.root)
      ensures Guards(x, e, last)
    {
      assert x.repr <= ReprOf(v.root);
    }
  }

  lemma SealedFrozen(nodes: set<Node>, e: nat, last: nat)
    requires Sealed(nodes, e, last)
    ensures Sealed(nodes, 0, last) && forall x :: x in nodes ==> x.epoch <= last
  {
    forall x | x in nodes
      ensures Guards(x, 0, last)
    {
      assert Guards(x, e, last);
    }
  }

  class Rows {
    const writer: W.Writer
    var vec: Vector
    ghost var nodes: set<Node>
    ghost var frozen: set<Node>
    ghost var arrays: set<Cells>

    ghost predicate Valid()
      reads this, writer, writer.counter, nodes, frozen, arrays
    {
      && writer.epoch <= writer.counter.last
      && (vec.root != null ==> vec.root in nodes) && nodes == ReprOf(vec.root)
      && Ok(vec) && Sealed(ReprOf(vec.root), writer.epoch, writer.counter.last)
      && Settled(frozen, writer.epoch, writer.counter.last)
      && Housed(frozen + ReprOf(vec.root), arrays)
    }

    constructor (counter: EpochCounter)
      ensures Valid() && fresh(writer) && writer.counter == counter && vec == EMPTY
      ensures Contents() == map[] && frozen == {}
      ensures Reach() == {}
    {
      writer := new W.Writer(counter);
      vec, nodes, frozen, arrays := EMPTY, {}, {}, {};
    }

    ghost function Contents(): Contents
      reads this, vec.root
    {
      ContentsOf(vec)
    }

    /** What the writer may change: nodes and their arrays. */
    ghost function Reach(): (r: set<object>)
      reads this, writer, vec.root
      ensures forall o: object :: o in r ==> o is Node || o is Cells
    {
      Owned(vec.root, writer.epoch)
    }

    /** Set on the vector. Where a vector has been handed out, the change shows in a new root. */
    method Set(i: nat, val: Value)
      requires Valid() && i < UINT32
      modifies this`vec, this`nodes, this`arrays, writer, writer.counter, Reach()
      ensures Valid()
      ensures Contents() == (if Used(Put(old(Contents()), i, val)) == 0 then map[] else Put(old(Contents()), i, val))
      ensures val != Nil || i in old(Contents()) ==> vec.root == null || fresh(vec.root) || vec.root in old(Reach())
      ensures forall x :: x in Reach() ==> x in old(Reach()) || fresh(x)
    {
      hide Housed, Node.Valid, Node.Shape, Sealed, Guards, Closed, Used, Put, Ok, Settled;
      var v := Write(i, val);
      vec, nodes, arrays := v, ReprOf(v.root), arrays + Arrays(ReprOf(v.root));
    }

    /** The part of Set that concerns the nodes. */
    method Write(i: nat, val: Value) returns (v: Vector)
      requires Valid() && i < UINT32
      modifies writer, writer.counter, Reach()
      ensures writer.epoch <= writer.counter.last && Ok(v) && Sealed(ReprOf(v.root), writer.epoch, writer.counter.last)
      ensures ContentsOf(v) == if Used(Put(old(Contents()), i, val)) == 0 then map[] else Put(old(Contents()), i, val)
      ensures Settled(frozen, writer.epoch, writer.counter.last)
      ensures Housed(frozen + ReprOf(v.root), arrays + Arrays(ReprOf(v.root)))
      ensures v.root != null ==> v.root in ReprOf(v.root)
      ensures val != Nil || i in old(Contents()) ==> v.root == null || fresh(v.root) || v.root in old(Reach())
      ensures forall x :: x in Owned(v.root, writer.epoch) ==> x in old(Reach()) || fresh(x)
    {
      hide Backed, AllBacked, Node.Valid, Node.Shape, Sealed, Guards, Closed, Used, Put, Ok;
      ghost var e, last, before, all := writer.epoch, writer.counter.last, ReprOf(vec.root), frozen + ReprOf(vec.root);
      ghost var rest := all - before;
      assert Reach() !! frozen;
      SealedFrozen(before, e, last);
      RestBacked(all, before, e);
      v := writer.Set(vec, i, val);
      assert old(Closed(frozen));
      assert Closed(frozen);
      BothBacked(rest, before + ReprOf(v.root));
      assert rest + (before + ReprOf(v.root)) == all + ReprOf(v.root);
      HousedMore(all, ReprOf(v.root), arrays);
      HousedPart(frozen + ReprOf(v.root), all + ReprOf(v.root), arrays + Arrays(ReprOf(v.root)));
      HoldsClosed(v, ContentsOf(v));
    }

    method Freeze()
      requires Valid()
      modifies this`frozen, writer
      ensures Valid() && writer.epoch == 0 && frozen == old(frozen) + ReprOf(vec.root)
      ensures HandedOut(vec, Contents(), frozen)
    {
      hide Housed, Node.Valid, Node.Shape, Sealed, Guards, Ok;
      ghost var last := writer.counter.last;
      HoldsClosed(vec, Contents());
      SealedFrozen(ReprOf(vec.root), writer.epoch, last);
      writer.Freeze();
      frozen := frozen + ReprOf(vec.root);
      assert old(Ok(vec) && Sealed(ReprOf(vec.root), 0, last));
    }

    method Load(v: Vector, ghost m: Contents)
      requires Valid() && HandedOut(v, m, frozen)
      modifies this`vec, this`nodes
      ensures Valid() && vec == v && Contents() == m && Reach() == {}
    {
      hide Housed, Node.Valid, Node.Shape, Sealed, Guards, Ok;
      SettledSealed(v, m, frozen, writer.epoch, writer.counter.last);
      HousedPart(frozen + ReprOf(v.root), frozen + ReprOf(vec.root), arrays);
      HoldsClosed(v, m);
      vec, nodes := v, ReprOf(v.root);
    }
  }
}
