/** The row vector and how it is read, directly and through a cursor. */
module VecQuery {
  import opened IdSpace
  import opened VecShapes
  import opened VecNode

  /** An immutable vector of values indexed by uint32; the zero value is the empty vector. */
  datatype Vector = Vector(root: Node?, height: nat)

  const EMPTY := Vector(null, 0)

  ghost function ContentsOf(v: Vector): Contents
    reads v.root
  {
    MapOf(v.root)
  }

  ghost predicate Ok(v: Vector)
    reads v.root, ReprOf(v.root)
  {
    if v.root == null then v.height == 0
    else v.root.Valid() && v.root.prefix == 0 && v.root.height == v.height && v.root.used != 0
  }

  function At(m: Contents, i: nat): Value
  {
    if i in m then m[i] else Nil
  }

  /** The leaf that holds index i, or null. */
  method Leaf(v: Vector, i: nat) returns (leaf: Node?)
    requires Ok(v) && AllBacked(ReprOf(v.root)) && i < UINT32
    ensures leaf == null ==> At(ContentsOf(v), i) == Nil
    ensures leaf != null ==>
      leaf.Valid() && leaf.height == 0 && leaf.prefix == Above(0, i) && leaf.repr <= ReprOf(v.root)
    ensures leaf != null ==> leaf in ReprOf(v.root)
    ensures leaf != null ==> forall j :: Above(0, j) == Above(0, i) ==> At(leaf.m, j) == At(ContentsOf(v), j)
    ensures leaf == null ==> forall j :: Above(0, j) == Above(0, i) ==> At(ContentsOf(v), j) == Nil
  {
    hide Node.Valid, Node.Shape, LeafShape, InnerShape, Above, Branch, Used;
    var n := v.root;
    if n == null {
      return null;
    }
    NodeFacts(n);
    if Outside(v.height, i) {
      forall j | Above(0, j) == Above(0, i)
        ensures j !in n.m
      {
        SameAbove(v.height, i, j);
      }
      return null;
    }
    InsideTop(i, v.height);
    var h := v.height;
    while h > 0 && n != null
      invariant n != null ==>
        n.Valid() && n.height == h && n.prefix == Above(h, i) && n in v.root.repr && n.repr <= v.root.repr
      invariant forall j :: Above(0, j) == Above(0, i) ==> At(MapOf(n), j) == At(v.root.m, j)
    {
      forall j | Above(0, j) == Above(0, i)
        ensures Above(h, j) == Above(h, i) && Branch(h, j) == Branch(h, i)
      {
        SameAbove(h, i, j);
        SameAbove(h - 1, i, j);
      }
      KidFacts(n, Branch(h, i));
      forall j | Above(0, j) == Above(0, i)
        ensures At(MapOf(n.kids[Branch(h, i)]), j) == At(n.m, j)
      {
        SlotDecides(n, j);
      }
      assert Backed(n);
      NodeFacts(n);
      n := n.cells.kids[Branch(h, i)];
      h := h - 1;
    }
    leaf := n;
  }

  lemma {:induction false} SameAbove(h: nat, i: nat, j: nat)
    requires Above(0, j) == Above(0, i)
    ensures Above(h, j) == Above(h, i)
  {
    if h > 0 {
      SameAbove(h - 1, i, j);
    }
  }

  lemma LeafAt(n: Node, i: nat)
    requires n.Valid() && n.height == 0 && n.prefix == Above(0, i)
    ensures |n.vals| == 16 && n.vals[Low(i)] == At(n.m, i)
  {
    hide Node.Valid, Node.Shape, Above, Low;
    NodeFacts(n);
  }

  /** The value at index i, or nil. */
  method Get(v: Vector, i: nat) returns (val: Value)
    requires Ok(v) && AllBacked(ReprOf(v.root)) && i < UINT32
    ensures val == At(ContentsOf(v), i)
  {
    hide Node.Valid, Node.Shape, Above, Low;
    var leaf := Leaf(v, i);
    if leaf == null {
      return Nil;
    }
    LeafAt(leaf, i);
    assert Backed(leaf);
    val := leaf.cells.vals[Low(i)];
  }

  /** Reads a vector at clustered indexes, remembering the last leaf. */
  class Cursor {
    const v: Vector
    var leaf: Node?
    var base: nat
    var ok: bool

    ghost predicate Valid()
      reads this, v.root, ReprOf(v.root), leaf, ReprOf(leaf)
    {
      && Ok(v)
      && (ok && leaf == null ==> forall j :: 16 * Above(0, j) == base ==> At(ContentsOf(v), j) == Nil)
      && (ok && leaf != null ==>
        leaf.Valid() && leaf.height == 0 && 16 * leaf.prefix == base && leaf in ReprOf(v.root)
          && leaf.repr <= ReprOf(v.root)
        && forall j :: 16 * Above(0, j) == base ==> At(leaf.m, j) == At(ContentsOf(v), j))
    }

    constructor (v: Vector)
      requires Ok(v)
      ensures Valid() && this.v == v
    {
      this.v, leaf, base, ok := v, null, 0, false;
    }

    /** As Get, in whatever order the indexes come. */
    method Get(i: nat) returns (val: Value)
      requires Valid() && AllBacked(ReprOf(v.root)) && i < UINT32
      modifies this
      ensures Valid() && val == At(ContentsOf(v), i)
    {
      hide Node.Valid, Node.Shape, Above, Low;
      var b := i - Low(i);
      assert b == 16 * Above(0, i);
      if !ok || b != base {
        leaf := Leaf(v, i);
        base, ok := b, true;
      }
      if leaf == null {
        return Nil;
      }
      LeafAt(leaf, i);
      assert Backed(leaf);
      val := leaf.cells.vals[Low(i)];
    }
  }

  lemma RootFacts(v: Vector)
    requires Ok(v)
    ensures forall i :: i in ContentsOf(v) ==> ContentsOf(v)[i] != Nil && Above(v.height, i) == 0
    ensures v.root != null ==> v.height <= VEC_HEIGHT && Used(ContentsOf(v)) != 0
    ensures v.root == null ==> v == EMPTY && ContentsOf(v) == map[]
  {
    hide Node.Valid, Node.Shape, LeafShape, InnerShape, Above, Branch, Used;
    if v.root != null {
      NodeFacts(v.root);
    }
  }
}
