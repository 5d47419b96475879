/** Row sets: what Where and AllRows return, how they are combined, and the rows they yield. */
module RowSets {
  import opened IdSpace
  import opened VecShapes
  import opened RowModel
  import opened BitmapWorld
  import BI = BitmapIterator
  import BN = BitmapNode
  import BQ = BitmapQuery
  import VN = VecNode
  import VQ = VecQuery

  /** A set of rows of one table, as one version of the table has them. */
  datatype RowSet = RowSet(table: string, vec: VQ.Vector, bits: BN.Bitmap)

  /** The check that two sets are of the same table and the same state of it. */
  predicate With(s: RowSet, o: RowSet)
  {
    s.table == o.table && s.vec.root == o.vec.root
  }

  /** And, Or or AndNot with one other set; not ok is the source's panic. */
  method Combine(op: Op, s: RowSet, o: RowSet) returns (r: RowSet, ok: bool)
    requires BN.Canon(s.bits) && BN.Canon(o.bits) && BN.AllBacked(BN.Repr(s.bits)) && BN.AllBacked(BN.Repr(o.bits))
    ensures ok <==> s.table == o.table && s.vec.root == o.vec.root
    ensures !ok ==> r == s
    ensures ok ==> r.table == s.table && r.vec == s.vec && Holds(r.bits, Algebra(op, BN.Ids(s.bits), BN.Ids(o.bits)))
    ensures forall x :: x in BN.Repr(r.bits) ==>
      x in BN.Repr(s.bits) || x in BN.Repr(o.bits) || (fresh(x) && x.epoch == 0)
    ensures BN.AllBacked(BN.Repr(r.bits))
  {
    hide BN.Canon, BN.Backed;
    r, ok := s, With(s, o);
    if ok {
      var bits := CombineSets(op, s.bits, o.bits);
      r := s.(bits := bits);
    }
  }

  /** The ids of a set in ascending order. */
  ghost function Ascend(ids: set<nat>): seq<nat>
  {
    if ids == {} then [] else [Least(ids)] + Ascend(ids - {Least(ids)})
  }

  /** What a vector has under the ids of a set, in ascending order of the ids. */
  ghost function RowsIn(m: Contents, ids: set<nat>): (rows: seq<Value>)
    ensures |rows| == |Ascend(ids)| && forall i :: 0 <= i < |rows| ==> rows[i] == VQ.At(m, Ascend(ids)[i])
  {
    seq(|Ascend(ids)|, i requires 0 <= i < |Ascend(ids)| => VQ.At(m, Ascend(ids)[i]))
  }

  lemma {:induction false} AscendFacts(ids: set<nat>)
    ensures BI.Ascending(Ascend(ids)) && |Ascend(ids)| == |ids| && forall x :: x in Ascend(ids) <==> x in ids
  {
    if ids != {} {
      var m := Least(ids);
      var rest := Ascend(ids - {m});
      AscendFacts(ids - {m});
      forall j | 0 <= j < |rest|
        ensures m < rest[j]
      {
        assert rest[j] in rest;
      }
    }
  }

  /** There is only one way to list a set in ascending order. */
  lemma {:induction false} AscendIs(ids: set<nat>, listed: seq<nat>)
    requires BI.Ascending(listed) && forall x :: x in listed <==> x in ids
    ensures listed == Ascend(ids)
    decreases |listed|
  {
    if listed != [] {
      var first, rest := listed[0], listed[1..];
      assert first in ids;
      LeastIs(first, ids);
      forall x
        ensures x in rest <==> x in ids - {first}
      {
        assert x in listed <==> x == first || x in rest;
      }
      AscendIs(ids - {first}, rest);
    } else {
      assert ids == {} by { assert forall x :: x in ids ==> x in listed; }
    }
  }

  /** The rows of a set in ascending order of their ids, read through a cursor. */
  method Rows(s: RowSet) returns (rows: seq<Value>)
    requires BN.Canon(s.bits) && VQ.Ok(s.vec) && BN.AllBacked(BN.Repr(s.bits)) && VN.AllBacked(VN.ReprOf(s.vec.root))
    ensures rows == RowsIn(VQ.ContentsOf(s.vec), BN.Ids(s.bits))
  {
    hide BN.Node.Valid, BN.Node.Shape, BI.Iterator.Todo, BI.Listed, VQ.At, BN.Backed, VN.Backed;
    var cursor := new VQ.Cursor(s.vec);
    var it := new BI.Iterator.Iterate(s.bits);
    ghost var ids;
    rows, ids := Drain(s, it, cursor);
    AscendIs(BN.Ids(s.bits), ids);
  }

  method Drain(s: RowSet, it: BI.Iterator, cursor: VQ.Cursor) returns (rows: seq<Value>, ghost ids: seq<nat>)
    requires BN.Canon(s.bits) && it.Valid() && it.Todo() == BN.Ids(s.bits) && cursor.Valid() && cursor.v == s.vec
    requires it.nodes == BN.Repr(s.bits) && BN.AllBacked(it.nodes) && VN.AllBacked(VN.ReprOf(s.vec.root))
    modifies it, cursor
    ensures BI.Ascending(ids) && |ids| == |BN.Ids(s.bits)| && (forall x :: x in ids <==> x in BN.Ids(s.bits))
    ensures |rows| == |ids| && forall i :: 0 <= i < |rows| ==> rows[i] == VQ.At(VQ.ContentsOf(s.vec), ids[i])
  {
    hide BN.Node.Valid, BN.Node.Shape, BN.Canon, BI.Iterator.Valid, BI.Iterator.Todo, BI.Listed, VQ.At, BN.Backed;
    hide VN.Backed, BI.Ascending, VQ.Ok;
    Below(s.bits);
    rows, ids := [], [];
    ghost var all := BN.Ids(s.bits);
    ghost var todo := all;
    BI.NothingListed(todo);
    while true
      invariant it.Valid() && it.Todo() == todo <= all == BN.Ids(s.bits) && BI.Listed(ids, todo, all)
      invariant cursor.Valid() && cursor.v == s.vec && it.nodes == old(it.nodes)
      invariant BN.AllBacked(it.nodes) && VN.AllBacked(VN.ReprOf(s.vec.root))
      invariant |rows| == |ids| && forall i :: 0 <= i < |rows| ==> rows[i] == VQ.At(VQ.ContentsOf(s.vec), ids[i])
      decreases todo
    {
      var id, ok := it.Next();
      if !ok {
        BI.AllListed(ids, todo, all);
        return;
      }
      BI.OneListed(ids, todo, all, id);
      var row := cursor.Get(id);
      rows, ids, todo := rows + [row], ids + [id], todo - {id};
    }
  }

  lemma Below(b: BN.Bitmap)
    requires BN.Canon(b)
    ensures forall x :: x in BN.Ids(b) ==> x < UINT32
  {
    hide BN.Node.Shape;
    if b != null {
      BN.NodeFacts(b);
    }
  }

  /** The number of rows of a set, without visiting them. */
  method Len(s: RowSet) returns (n: nat)
    requires BN.Canon(s.bits) && |BN.Ids(s.bits)| < UINT32
    ensures n == |BN.Ids(s.bits)|
  {
    n := BQ.Len(s.bits);
  }
}
