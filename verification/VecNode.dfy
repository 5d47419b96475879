/** The nodes of the persistent row vector on the heap, what makes a subtree valid, and which of its
    nodes a writer of a given epoch may change. */
module VecNode {
  import opened IdSpace
  import opened VecShapes

  const NO_VALS: seq<Value> := seq(16, i => Nil)
  const NO_KIDS: seq<Node?> := seq(32, i => null)

  /** What the children say each slot holds; a null child is an empty range. */
  ghost function SlotsOf(kids: seq<Node?>): VecParts
    reads kids
    requires |kids| == 32
  {
    map s: nat | s < 32 && kids[s] != null :: VecPart(kids[s].prefix, kids[s].m)
  }

  ghost predicate Closed(nodes: set<Node>)
    reads nodes
  {
    forall x :: x in nodes ==> x.repr <= nodes
  }

  /** The subtrees in a child list share no node of the given non-zero epoch. */
  ghost predicate Apart(kids: seq<Node?>, e: nat)
    reads kids
  {
    forall i, j, x {:trigger x in kids[i].repr, x in kids[j].repr} ::
      0 <= i < j < |kids| && kids[i] != null && kids[j] != null && x in kids[i].repr && x in kids[j].repr ==>
        (x.epoch != e || e == 0)
  }

  /** The array that a node is allocated with: the values of a leaf, or the children of a directory node. A writer
      changes its elements in place. It belongs to the node it was first given to. */
  class Cells {
    var vals: seq<Value>
    var kids: seq<Node?>
    ghost var owner: Node?

    constructor (vals: seq<Value>, kids: seq<Node?>)
      ensures this.vals == vals && this.kids == kids && owner == null
    {
      this.vals, this.kids, owner := vals, kids, null;
    }

    method StoreVal(i: nat, v: Value)
      requires i < |vals|
      modifies this`vals
      ensures vals == old(vals)[i := v]
    {
      vals := vals[i := v];
    }

    method StoreKid(i: nat, k: Node?)
      requires i < |kids|
      modifies this`kids
      ensures kids == old(kids)[i := k]
    {
      kids := kids[i := k];
    }
  }

  ghost function Arrays(nodes: set<Node>): set<Cells>
  {
    set x | x in nodes :: x.cells
  }

  /** The nodes and their arrays. */
  ghost function Area(nodes: set<Node>): (r: set<object>)
    ensures forall o: object :: o in r ==> o is Node || o is Cells
  {
    nodes + Arrays(nodes)
  }

  /** The array of a node is its own and holds its values and children. */
  ghost predicate Backed(x: Node)
    reads x, x.cells
  {
    x.cells.owner == x && x.cells.vals == x.vals && x.cells.kids == x.kids
  }

  ghost predicate AllBacked(nodes: set<Node>)
    reads Area(nodes)
  {
    forall x :: x in nodes ==> Backed(x)
  }

  /** Different nodes have different arrays. */
  lemma ArraysApart(nodes: set<Node>, x: Node, y: Node)
    requires AllBacked(nodes) && x in nodes && y in nodes && x.cells == y.cells
    ensures x == y
  {
    assert Backed(x) && Backed(y);
  }

  /** A leaf (height 0) or a directory node. Its values or children are in the array `cells`; vals and kids are what
      they are, m what the subtree holds, repr (at least) the nodes it is made of, and prefix the high bits its indexes
      share. */
  class Node {
    const epoch: nat
    const cells: Cells
    ghost const height: nat
    ghost const prefix: nat
    var used: nat
    ghost var vals: seq<Value>
    ghost var kids: seq<Node?>
    ghost var m: Contents
    ghost var repr: set<Node>

    /** A node takes an array that no other node has. */
    constructor (epoch: nat, ghost height: nat, ghost prefix: nat, used: nat, cells: Cells, ghost m: Contents,
                 ghost below: set<Node>)
      requires cells.owner == null
      modifies cells`owner
      ensures this.epoch == epoch && this.height == height && this.prefix == prefix && this.used == used
      ensures this.cells == cells && vals == cells.vals && kids == cells.kids && this.m == m
      ensures this.repr == {this} + below
      ensures Backed(this)
    {
      this.epoch, this.height, this.prefix, this.used := epoch, height, prefix, used;
      this.cells, this.vals, this.kids := cells, cells.vals, cells.kids;
      this.m, this.repr := m, {this} + below;
      new;
      cells.owner := this;
    }

    /** The in-place changes of a node: one value of a leaf, one child of a directory node. */
    method StoreVal(i: nat, v: Value, used: nat, ghost m: Contents)
      requires Backed(this) && i < |vals|
      modifies this, cells`vals
      ensures this.used == used && vals == old(vals)[i := v] && kids == old(kids) && this.m == m && repr == old(repr)
      ensures Backed(this)
    {
      cells.StoreVal(i, v);
      this.used, vals, this.m := used, vals[i := v], m;
    }

    method StoreKid(i: nat, k: Node?, used: nat, ghost m: Contents, ghost repr: set<Node>)
      requires Backed(this) && i < |kids|
      modifies this, cells`kids
      ensures this.used == used && vals == old(vals) && kids == old(kids)[i := k] && this.m == m && this.repr == repr
      ensures Backed(this)
    {
      cells.StoreKid(i, k);
      this.used, kids, this.m, this.repr := used, kids[i := k], m, repr;
    }

    ghost predicate Shape()
      reads this, kids
    {
      && m != map[] && (forall x :: x in m ==> x < UINT32)
      && used == Used(m)
      && if height == 0 then
           kids == [] && LeafShape(prefix, vals, m)
         else
           vals == [] && |kids| == 32 && InnerShape(height, prefix, SlotsOf(kids), m)
    }

    ghost predicate Valid()
      reads this, repr
      decreases height
    {
      && this in repr
      && height <= VEC_HEIGHT
      && (forall k :: k in kids && k != null ==>
        k in repr && k.repr <= repr && this !in k.repr && k.height + 1 == height && k.Valid())
      && Apart(kids, epoch)
      && Closed(repr)
      && Shape()
    }
  }

  ghost function MapOf(n: Node?): Contents
    reads n
  {
    if n == null then map[] else n.m
  }

  ghost function ReprOf(n: Node?): set<Node>
    reads n
  {
    if n == null then {} else n.repr
  }

  /** What a writer with epoch e may change in a subtree: the nodes of its epoch and their arrays. Epoch 0 owns
      nothing. */
  ghost function Owned(n: Node?, e: nat): set<object>
    reads n
  {
    OwnedIn(ReprOf(n), e)
  }

  ghost function OwnedIn(nodes: set<Node>, e: nat): (r: set<object>)
    ensures forall o: object :: o in r ==> o is Node || o is Cells
  {
    (set x | x in nodes && x.epoch == e && e != 0) + (set x | x in nodes && x.epoch == e && e != 0 :: x.cells)
  }

  /** What a writer may change in a part of the nodes is out of reach of the other nodes and their arrays. */
  lemma RestBacked(nodes: set<Node>, part: set<Node>, e: nat)
    requires AllBacked(nodes) && part <= nodes
    ensures AllBacked(nodes - part) && AllBacked(part) && Area(nodes - part) !! OwnedIn(part, e)
  {
    forall x, y | x in nodes - part && y in part
      ensures x.cells != y.cells
    {
      assert Backed(x) && Backed(y);
    }
  }

  lemma BothBacked(a: set<Node>, b: set<Node>)
    requires AllBacked(a) && AllBacked(b)
    ensures AllBacked(a + b)
  {
    hide Backed;
  }

  lemma PartBacked(part: set<Node>, nodes: set<Node>)
    requires AllBacked(nodes) && part <= nodes
    ensures AllBacked(part)
  {
    hide Backed;
  }

  /** The arrays of the nodes are among the given ones, and each is its node's own. */
  ghost predicate Housed(nodes: set<Node>, arrays: set<Cells>)
    reads nodes, arrays
  {
    Arrays(nodes) <= arrays && AllBacked(nodes)
  }

  lemma HousedMore(nodes: set<Node>, more: set<Node>, arrays: set<Cells>)
    requires Arrays(nodes) <= arrays && AllBacked(nodes + more)
    ensures Housed(nodes + more, arrays + Arrays(more))
  {
    hide AllBacked;
  }

  lemma HousedPart(part: set<Node>, nodes: set<Node>, arrays: set<Cells>)
    requires Housed(nodes, arrays) && part <= nodes
    ensures Housed(part, arrays)
  {
    PartBacked(part, nodes);
    hide AllBacked;
  }

  lemma OneBacked(x: Node)
    requires Backed(x)
    ensures AllBacked({x}) && x.cells.owner == x && x.cells.vals == x.vals && x.cells.kids == x.kids
  {
  }

  lemma BackedAt(x: Node, nodes: set<Node>)
    requires AllBacked(nodes) && x in nodes
    ensures Backed(x) && x.cells.vals == x.vals && x.cells.kids == x.kids && x in Area(nodes)
  {
  }

  /** No node outside epoch e leads to one of epoch e, and no epoch lies in the future. */
  ghost predicate Sealed(nodes: set<Node>, e: nat, last: nat)
    reads nodes
  {
    forall x :: x in nodes ==> x.epoch <= last && Guards(x, e, last)
  }

  ghost predicate Guards(x: Node, e: nat, last: nat)
    reads x
  {
    forall y :: y in x.repr ==> y.epoch <= last && (y.epoch == e && e != 0 ==> x.epoch == e)
  }

  lemma NodeFacts(n: Node)
    requires n.Valid()
    ensures n in n.repr && n.height <= VEC_HEIGHT && Closed(n.repr)
    ensures n.m != map[] && n.used == Used(n.m)
    ensures forall x :: x in n.m ==> x < UINT32 && Above(n.height, x) == n.prefix && n.m[x] != Nil
    ensures n.height == 0 ==> n.kids == [] && |n.vals| == 16 && LeafShape(n.prefix, n.vals, n.m)
    ensures n.height > 0 ==> n.vals == [] && |n.kids| == 32 && InnerShape(n.height, n.prefix, SlotsOf(n.kids), n.m)
  {
    if n.height == 0 {
    } else {
      var parts := SlotsOf(n.kids);
      forall x | x in n.m
        ensures Above(n.height, x) == n.prefix && n.m[x] != Nil
      {
        assert InVecPart(n.height, n.prefix, parts, n.m, x);
        PartDecides(n.height, n.prefix, parts, n.m, x);
      }
    }
  }

  /** What a directory node holds at an index is what the child in its slot holds there. */
  lemma SlotDecides(n: Node, i: nat)
    requires n.Valid() && n.height > 0 && Above(n.height, i) == n.prefix
    ensures |n.kids| == 32
    ensures var k := n.kids[Branch(n.height, i)];
      && (i in n.m <==> i in MapOf(k)) && (i in n.m ==> n.m[i] == MapOf(k)[i])
      && PartAt(SlotsOf(n.kids), Branch(n.height, i)) == MapOf(k)
  {
    NodeFacts(n);
    hide Node.Shape;
    PartDecides(n.height, n.prefix, SlotsOf(n.kids), n.m, i);
  }

  lemma KidFacts(n: Node, s: nat)
    requires n.Valid() && n.height > 0 && s < 32
    ensures |n.kids| == 32
    ensures n.kids[s] != null ==> var k := n.kids[s];
      k.Valid() && k.height + 1 == n.height && k.repr <= n.repr && k in n.repr && n !in k.repr
        && k.prefix == 32 * n.prefix + s
      && k.m.Keys <= n.m.Keys
  {
    NodeFacts(n);
    hide Node.Shape;
    if n.kids[s] != null {
      var parts := SlotsOf(n.kids);
      assert parts[s] == VecPart(n.kids[s].prefix, n.kids[s].m);
      assert VecPartOk(n.height, n.prefix, s, parts[s]);
      assert n.kids[s] in n.kids;
    }
  }

  // ---------------------------------------------------------------- one step of a change

  lemma LeafValid(n: Node)
    requires n.height == 0 && n in n.repr && n.kids == [] && Closed(n.repr)
    requires LeafShape(n.prefix, n.vals, n.m) && n.m != map[] && n.used == Used(n.m)
    requires forall x :: x in n.m ==> x < UINT32
    ensures n.Valid()
  {
    hide LeafShape;
  }

  /** kids can be the children of n, with the nodes below them taken from repr. */
  ghost predicate Fits(n: Node, kids: seq<Node?>, repr: set<Node>)
    reads kids, repr
  {
    forall k :: k in kids && k != null ==>
      k in repr && k.repr <= repr && n !in k.repr && k.height + 1 == n.height && k.Valid()
  }

  lemma InnerValid(n: Node)
    requires 0 < n.height <= VEC_HEIGHT && n in n.repr && n.vals == [] && |n.kids| == 32
    requires InnerShape(n.height, n.prefix, SlotsOf(n.kids), n.m) && n.m != map[] && n.used == Used(n.m)
    requires forall x :: x in n.m ==> x < UINT32
    requires Fits(n, n.kids, n.repr) && Apart(n.kids, n.epoch) && Closed(n.repr)
    ensures n.Valid()
  {
    assert n.Shape() by { hide InnerShape; }
    hide Node.Shape, InnerShape, Apart;
  }

  lemma OwnedApart(n: Node, e: nat, last: nat)
    requires n.Valid() && Sealed(n.repr, e, last)
    ensures Apart(n.kids, e)
  {
    hide Node.Shape;
    forall i, j, x | 0 <= i < j < |n.kids| && n.kids[i] != null && n.kids[j] != null && x in n.kids[i].repr
      && x in n.kids[j].repr
      ensures x.epoch != e || e == 0
    {
      assert n.kids[i] in n.kids;
      assert Guards(n, e, last);
    }
  }

  lemma EpochsPast(nodes: set<Node>, e: nat, last: nat)
    requires Sealed(nodes, e, last)
    ensures forall x :: x in nodes ==> x.epoch <= last
  {
  }

  lemma SealedPart(nodes: set<Node>, all: set<Node>, e: nat, last: nat)
    requires Sealed(all, e, last) && nodes <= all
    ensures Sealed(nodes, e, last)
  {
  }

  /** Drawing an epoch keeps everything sealed: a fresh epoch owns nothing yet. */
  lemma SealedDrawn(nodes: set<Node>, e: nat, last: nat, e': nat, last': nat)
    requires Sealed(nodes, e, last)
    requires (e' == e && last' == last) || (e' == last' == last + 1)
    ensures Sealed(nodes, e', last')
  {
    forall x | x in nodes
      ensures Guards(x, e', last')
    {
      assert Guards(x, e, last);
    }
  }

  /** Once an owned node r covers a sealed and closed set of nodes, nothing else having changed, all is again. */
  lemma OwnedAbove(r: Node, was: map<Node, set<Node>>, e: nat, last: nat)
    requires forall x, y :: x in was && y in was[x] ==> y.epoch <= last && (y.epoch == e && e != 0 ==> x.epoch == e)
    requires forall x :: x in was ==> was[x] <= was.Keys && x.epoch <= last && (x != r ==> x.repr == was[x])
    requires r.repr == {r} + was.Keys && 0 != r.epoch == e <= last
    ensures Sealed(r.repr, e, last) && Closed(r.repr)
  {
    forall x | x in was && x != r
      ensures Guards(x, e, last)
    {
      assert forall y :: y in x.repr ==> y in was[x];
    }
    assert Guards(r, e, last);
  }

  /** Sealed and Closed, for the node sets the nodes have at some moment. */
  lemma AsMap(nodes: set<Node>, e: nat, last: nat)
    requires Sealed(nodes, e, last) && Closed(nodes)
    ensures var was := map x | x in nodes :: x.repr;
      forall x, y :: x in was && y in was[x] ==>
        x.epoch <= last && y.epoch <= last && (y.epoch == e && e != 0 ==> x.epoch == e)
    ensures forall x :: x in nodes ==> x.epoch <= last && x.repr <= nodes
  {
    forall x, y | x in nodes && y in x.repr
      ensures y.epoch <= last && (y.epoch == e && e != 0 ==> x.epoch == e)
    {
      assert Guards(x, e, last);
    }
  }

  /** A child beside the path of a change: nothing the writer does there can reach it. */
  ghost predicate Beside(n: Node, k: Node?, repr: set<Node>)
    reads k, ReprOf(k)
  {
    k != null ==> k in repr && k.repr <= repr && n !in k.repr && k.height + 1 == n.height && k.Valid()
  }

  lemma BesideKid(n: Node, i: nat, j: nat, e: nat, last: nat)
    requires n.Valid() && Sealed(n.repr, e, last) && i < |n.kids| && j < |n.kids| && i != j
    ensures Beside(n, n.kids[j], n.repr)
    ensures n.kids[j] != null ==> ({n.kids[j]} + n.kids[j].repr) !! Owned(n.kids[i], e)
  {
    hide Node.Shape, Guards, Sealed;
    OwnedApart(n, e, last);
    if n.kids[j] != null && n.kids[i] != null {
      assert n.kids[j] in n.kids && n.kids[i] in n.kids;
      assert n.kids[j] in n.kids[j].repr;
      forall x | x in n.kids[i].repr && x in n.kids[j].repr
        ensures x.epoch != e || e == 0
      {
        if i < j { } else { }
      }
    } else if n.kids[j] != null {
      assert n.kids[j] in n.kids;
    }
  }

  ghost predicate ApartSets(reprs: seq<set<Node>>, e: nat)
  {
    forall i, j, x {:trigger x in reprs[i], x in reprs[j]} ::
      0 <= i < j < |reprs| && x in reprs[i] && x in reprs[j] ==> (x.epoch != e || e == 0)
  }

  ghost function ReprsOf(kids: seq<Node?>): (r: seq<set<Node>>)
    reads kids
    ensures |r| == |kids| && forall i :: 0 <= i < |kids| ==> r[i] == ReprOf(kids[i])
  {
    seq(|kids|, i requires 0 <= i < |kids| reads kids => ReprOf(kids[i]))
  }

  lemma ApartNow(kids: seq<Node?>, e: nat)
    requires Apart(kids, e)
    ensures ApartSets(ReprsOf(kids), e)
  {
  }

  /** Before a change below slot i: everything else is in order and out of the writer's reach. */
  lemma BesideAll(n: Node, i: nat, e: nat, last: nat)
    requires n.Valid() && n.height > 0 && Sealed(n.repr, e, last) && i < 32
    ensures |n.kids| == 32 && Sealed(ReprOf(n.kids[i]), e, last) && ReprOf(n.kids[i]) <= n.repr
    ensures forall x :: x in n.repr ==> x.epoch <= last
    ensures forall x :: x in n.repr && x !in ReprOf(n.kids[i]) ==> Guards(x, e, last) && x.repr <= n.repr
    ensures forall j :: 0 <= j < 32 && j != i ==>
      Beside(n, n.kids[j], n.repr) && (n.kids[j] != null ==> ({n.kids[j]} + n.kids[j].repr) !! Owned(n.kids[i], e))
    ensures ApartSets(ReprsOf(n.kids), e)
  {
    hide Node.Shape;
    NodeFacts(n);
    KidFacts(n, i);
    OwnedApart(n, e, last);
    ApartNow(n.kids, e);
    SealedPart(ReprOf(n.kids[i]), n.repr, e, last);
    forall j | 0 <= j < 32 && j != i
      ensures Beside(n, n.kids[j], n.repr)
      ensures (n.kids[j] != null ==> ({n.kids[j]} + n.kids[j].repr) !! Owned(n.kids[i], e))
    {
      BesideKid(n, i, j, e, last);
    }
  }

  /** The children of n beside index i are as the parent left them, and out of reach of the new child k. */
  ghost predicate KidsBeside(n: Node, i: nat, k: Node?, repr: set<Node>, e: nat)
    reads n, n.kids, repr, k
    requires i < |n.kids|
  {
    && (forall j :: 0 <= j < |n.kids| && j != i && n.kids[j] != null ==>
      n.kids[j] in repr && n.kids[j].repr <= repr && Beside(n, n.kids[j], repr))
    && (forall a, b, x {:trigger x in ReprOf(n.kids[a]), x in ReprOf(n.kids[b])} ::
      0 <= a < b < |n.kids| && a != i && b != i && x in ReprOf(n.kids[a]) && x in ReprOf(n.kids[b]) ==>
        (x.epoch != e || e == 0))
    && (forall a, x {:trigger x in ReprOf(n.kids[a])} ::
      0 <= a < |n.kids| && a != i && x in ReprOf(n.kids[a]) && x in ReprOf(k) ==> (x.epoch != e || e == 0))
  }

  /** After a change below child i that turned it into k, under the same epoch or a new one. */
  lemma BesideAfter(n: Node, i: nat, k: Node?, repr: set<Node>, reprs: seq<set<Node>>, e: nat, last: nat, e': nat)
    requires i < |n.kids| == |reprs| && ApartSets(reprs, e)
    requires e' == e || e' == last + 1
    requires forall x :: x in repr ==> x.epoch <= last
    requires forall j :: 0 <= j < |n.kids| && j != i ==> Beside(n, n.kids[j], repr) && ReprOf(n.kids[j]) == reprs[j]
    requires forall x :: x in ReprOf(k) ==> x in reprs[i] || x !in repr
    ensures KidsBeside(n, i, k, repr, e')
  {
    hide Node.Valid;
  }

  lemma UpdatedFits(n: Node, r: Node, i: nat, k: Node?, repr: set<Node>, e: nat)
    requires i < |n.kids| && n.height == r.height && (r !in repr || r == n)
    requires KidsBeside(n, i, k, repr, e)
    requires k != null ==> k.Valid() && k.height + 1 == n.height && r !in k.repr
    ensures Fits(r, n.kids[i := k], repr + ReprOf(k))
  {
    hide Node.Valid;
    if k != null {
      ValidSelf(k);
    }
    var kids := n.kids[i := k];
    forall j | 0 <= j < |kids| && kids[j] != null
      ensures kids[j] in repr + ReprOf(k) && kids[j].repr <= repr + ReprOf(k) && r !in kids[j].repr
      ensures kids[j].height + 1 == n.height && kids[j].Valid()
    {
      if j != i {
        assert Beside(n, n.kids[j], repr);
      }
    }
  }

  lemma ValidSelf(n: Node)
    requires n.Valid()
    ensures n in n.repr
  {
  }

  lemma UpdatedApart(n: Node, i: nat, k: Node?, repr: set<Node>, e: nat)
    requires i < |n.kids| && KidsBeside(n, i, k, repr, e)
    ensures Apart(n.kids[i := k], e)
  {
    hide Node.Valid;
    var now := n.kids[i := k];
    forall a, b, x | 0 <= a < b < |now| && now[a] != null && now[b] != null && x in now[a].repr && x in now[b].repr
      ensures x.epoch != e || e == 0
    {
      if a == i {
        assert x in ReprOf(n.kids[b]);
      } else if b == i {
        assert x in ReprOf(n.kids[a]);
      } else {
        assert x in ReprOf(n.kids[a]) && x in ReprOf(n.kids[b]);
      }
    }
  }

  /** A sealed and closed part has grown to above; the rest of the nodes are as they were. */
  lemma Join(nodes: set<Node>, part: set<Node>, above: set<Node>, e: nat, last: nat)
    requires Sealed(above, e, last) && Closed(above) && part <= above
    requires forall x :: x in nodes && x !in part ==> x.epoch <= last && Guards(x, e, last) && x.repr <= nodes
    ensures Sealed(nodes + above, e, last) && Closed(nodes + above)
  {
    forall x | x in nodes + above
      ensures x.repr <= nodes + above
    {
    }
  }

  lemma NewPart(k: Node, h: nat, prefix: nat, s: nat)
    requires k.Valid() && k.height + 1 == h && k.prefix == 32 * prefix + s
    ensures VecPartOk(h, prefix, s, VecPart(k.prefix, k.m))
  {
    hide Node.Valid, Node.Shape, InnerShape, LeafShape, Above, Used;
    NodeFacts(k);
    assert h - 1 == k.height;
  }

  /** The slots of a node one of whose children is replaced, from the slots it had. */
  lemma UpdatedSlots(n: Node, i: nat, v: Value, k: Node?, parts: VecParts)
    requires n.height > 0 && |n.kids| == 32 && InnerShape(n.height, n.prefix, parts, n.m)
    requires Above(n.height, i) == n.prefix
    requires forall t :: 0 <= t < 32 && t != Branch(n.height, i) ==>
      (t in parts <==> n.kids[t] != null) && (t in parts ==> parts[t] == VecPart(n.kids[t].prefix, n.kids[t].m))
    requires MapOf(k) == Put(PartAt(parts, Branch(n.height, i)), i, v)
    requires k != null ==> k.Valid() && k.height + 1 == n.height && k.prefix == 32 * n.prefix + Branch(n.height, i)
    ensures InnerShape(n.height, n.prefix, SlotsOf(n.kids[Branch(n.height, i) := k]), Put(n.m, i, v))
  {
    hide InnerShape, VecPartOk, Above, Branch, Node.Valid;
    var s := Branch(n.height, i);
    PutSplit(n.height, n.prefix, parts, n.m, i, v);
    if k == null {
      InnerDrop(n.height, n.prefix, parts, n.m, s);
      assert SlotsOf(n.kids[s := k]) == parts - {s};
      assert (n.m - PartAt(parts, s).Keys) + MapOf(k) == n.m - PartAt(parts, s).Keys;
    } else {
      NewPart(k, n.height, n.prefix, s);
      InnerReplace(n.height, n.prefix, parts, n.m, s, VecPart(k.prefix, k.m));
      assert SlotsOf(n.kids[s := k]) == parts[s := VecPart(k.prefix, k.m)];
    }
  }

  lemma CopyValid(n: Node, c: Node, last: nat)
    requires n.Valid() && Sealed(n.repr, c.epoch, last) && c !in n.repr && n.epoch != c.epoch
    requires c.height == n.height && c.prefix == n.prefix && c.used == n.used && c.vals == n.vals
    requires c.kids == n.kids && c.m == n.m && c.repr == n.repr + {c}
    ensures c.Valid()
  {
    OwnedApart(n, c.epoch, last);
    assert c.Shape() by { hide LeafShape, InnerShape; }
    hide Node.Shape, Sealed, Guards;
  }

  /** A directory node over a single child holds what the child holds. */
  lemma SingleInner(n: Node, s: nat, k: Node)
    requires s < 32 && 0 < n.height <= VEC_HEIGHT && n.vals == [] && n.kids == NO_KIDS[s := k]
    requires k.Valid() && k.height + 1 == n.height && k.prefix == 32 * n.prefix + s
    requires n.m == k.m && n.used == Used(n.m) && n.repr == {n} + k.repr && n !in k.repr
    ensures n.Valid()
  {
    hide Node.Valid, Node.Shape, VecPartOk, InnerShape, Above, Branch, Used, Fits, Apart;
    NodeFacts(k);
    NewPart(k, n.height, n.prefix, s);
    SingleKid(n, s, k);
    SingleSlots(n.height, n.prefix, s, VecPart(k.prefix, k.m));
    assert SlotsOf(n.kids) == map[s := VecPart(k.prefix, k.m)];
    InnerValid(n);
  }

  lemma SingleKid(n: Node, s: nat, k: Node)
    requires s < 32 && n.kids == NO_KIDS[s := k] && k.Valid() && k.height + 1 == n.height
    requires n.repr == {n} + k.repr && n !in k.repr
    ensures Fits(n, n.kids, n.repr) && Apart(n.kids, n.epoch) && Closed(n.repr)
  {
    hide Node.Shape;
  }

  lemma SingleSlots(h: nat, prefix: nat, s: nat, k: VecPart)
    requires h > 0 && s < 32 && VecPartOk(h, prefix, s, k)
    ensures InnerShape(h, prefix, map[s := k], k.m)
  {
    hide VecPartOk, Above, Branch;
    assert InnerShape(h, prefix, map[], map[]);
    InnerReplace(h, prefix, map[], map[], s, k);
    assert (map[] - PartAt(map[], s).Keys) + k.m == k.m;
  }

  /** `before` and `after`: a child's count, zero for none. */
  function UsedOf(n: Node?): nat
    reads n
  {
    if n == null then 0 else n.used
  }
}
