/** The nodes of the persistent bitmap on the heap, what makes a subtree valid, and which of its
    nodes a writer of a given epoch may change. */
module BitmapNode {
  import opened Words
  import opened IdSpace
  import opened Shapes

  /** What the presence bits and the children say each slot holds. */
  ghost function SlotsOf(present: Bits, kids: seq<Node>): Parts
    reads kids
    requires |kids| == |present|
  {
    map s | s in present :: (KidIn(present, kids, s); Part(Kid(present, kids, s).prefix, Kid(present, kids, s).ids))
  }

  /** The subtrees in a child list share no node of the given non-zero epoch. */
  ghost predicate Apart(kids: seq<Node>, e: nat)
    reads kids
  {
    forall i, j, x {:trigger x in kids[i].repr, x in kids[j].repr} ::
      0 <= i < j < |kids| && x in kids[i].repr && x in kids[j].repr ==> (x.epoch != e || e == 0)
  }

  /** Apart, for the node sets the subtrees have at some moment. */
  ghost predicate ApartSets(reprs: seq<set<Node>>, e: nat)
  {
    forall i, j, x {:trigger x in reprs[i], x in reprs[j]} ::
      0 <= i < j < |reprs| && x in reprs[i] && x in reprs[j] ==> (x.epoch != e || e == 0)
  }

  ghost function ReprsOf(kids: seq<Node>): (r: seq<set<Node>>)
    reads kids
    ensures |r| == |kids| && forall i :: 0 <= i < |kids| ==> r[i] == kids[i].repr
  {
    seq(|kids|, i requires 0 <= i < |kids| reads kids => kids[i].repr)
  }

  /** kids can be the children of n, with the nodes below them taken from repr. */
  ghost predicate Fits(n: Node, kids: seq<Node>, repr: set<Node>)
    reads kids, repr
  {
    forall k :: k in kids ==> k in repr && k.repr <= repr && n !in k.repr && k.height + 1 == n.height && k.Valid()
  }

  /** Whatever a node of the set is made of is in the set. */
  ghost predicate Closed(nodes: set<Node>)
    reads nodes
  {
    forall x :: x in nodes ==> x.repr <= nodes
  }

  /** How a writer changes the child slice of a node it owns: one child for another, a new one, one less. */
  datatype Edit = Store(at: nat, kid: Node) | Open(at: nat, kid: Node) | Close(at: nat)

  ghost predicate Fitting(kids: seq<Node>, e: Edit)
  {
    match e
    case Store(i, _) => i < |kids|
    case Open(i, _) => i <= |kids|
    case Close(i) => i < |kids|
  }

  ghost function Edited(kids: seq<Node>, e: Edit): seq<Node>
    requires Fitting(kids, e)
  {
    match e
    case Store(i, k) => kids[i := k]
    case Open(i, k) => Inserted(kids, i, k)
    case Close(i) => Removed(kids, i)
  }

  /** The memory behind the child slice of a node, which a writer changes in place. It belongs to the node it was
      first given to. */
  class KidArray {
    var items: seq<Node>
    ghost var owner: Node?

    constructor (items: seq<Node>)
      ensures this.items == items && owner == null
    {
      this.items, owner := items, null;
    }

    method Change(e: Edit)
      requires Fitting(items, e)
      modifies this`items
      ensures items == Edited(old(items), e)
    {
      match e
      case Store(i, k) => items := items[i := k];
      case Open(i, k) => items := Inserted(items, i, k);
      case Close(i) => items := Removed(items, i);
    }
  }

  ghost function Arrays(nodes: set<Node>): set<KidArray>
  {
    set x | x in nodes :: x.slots
  }

  /** The child array of a node is its own and holds its children. */
  ghost predicate Backed(x: Node)
    reads x, x.slots
  {
    x.slots.owner == x && x.slots.items == x.kids
  }

  /** The nodes and their child arrays. */
  ghost function Area(nodes: set<Node>): (r: set<object>)
    ensures forall o: object :: o in r ==> o is Node || o is KidArray
  {
    nodes + Arrays(nodes)
  }

  ghost predicate AllBacked(nodes: set<Node>)
    reads Area(nodes)
  {
    forall x :: x in nodes ==> Backed(x)
  }

  /** Different nodes have different child arrays: writing one changes the children of no other node. */
  lemma ArraysApart(nodes: set<Node>, x: Node, y: Node)
    requires AllBacked(nodes) && x in nodes && y in nodes && x.slots == y.slots
    ensures x == y
  {
    assert Backed(x) && Backed(y);
  }

  /** A chunk (height 0) or a directory node. Its children are in the array `slots`; kids is what they are, ids what
      the subtree holds, repr (at least) the nodes it is made of, and prefix the high bits its ids share. */
  class Node {
    const epoch: nat
    const height: nat
    const slots: KidArray
    ghost const prefix: nat
    var count: nat
    var words: seq<Bits>
    var present: Bits
    ghost var kids: seq<Node>
    ghost var ids: set<nat>
    ghost var repr: set<Node>

    /** A node takes an array that no other node has. */
    constructor (epoch: nat, height: nat, ghost prefix: nat, count: nat, words: seq<Bits>, present: Bits,
                 slots: KidArray,
                 ghost ids: set<nat>, ghost below: set<Node>)
      requires slots.owner == null
      modifies slots`owner
      ensures this.epoch == epoch && this.height == height && this.prefix == prefix && this.count == count
      ensures this.words == words && this.present == present && this.slots == slots && kids == slots.items
      ensures this.ids == ids && this.repr == {this} + below
      ensures Backed(this)
    {
      this.epoch, this.height, this.prefix, this.count := epoch, height, prefix, count;
      this.words, this.present, this.slots, this.kids := words, present, slots, slots.items;
      this.ids, this.repr := ids, {this} + below;
      new;
      slots.owner := this;
    }

    /** The in-place change of a node: whatever a writer changes, it changes in nodes it owns. */
    method Assign(words: seq<Bits>, present: Bits, count: nat, ghost kids: seq<Node>, ghost ids: set<nat>,
                  ghost repr: set<Node>)
      modifies this
      ensures this.words == words && this.present == present && this.kids == kids && this.count == count
      ensures this.ids == ids && this.repr == repr
    {
      this.words, this.present, this.count := words, present, count;
      this.kids, this.ids, this.repr := kids, ids, repr;
    }

    /** The structural invariant of one node, given its children's. */
    ghost predicate Shape()
      reads this, kids
    {
      && ids != {}
      && (forall x :: x in ids ==> x < UINT32)
      && count == Wrap(|ids|)
      && |kids| == |present|
      && if height == 0 then
           present == {} && ChunkShape(prefix, words, ids)
         else
           words == NO_WORDS && DirShape(height, prefix, SlotsOf(present, kids), ids)
    }

    /** The children are valid, one level lower, and in repr. Children of one node never share a
        node of that node's own epoch. */
    ghost predicate Valid()
      reads this, repr
      decreases height
    {
      && this in repr
      && height <= MAX_HEIGHT
      && (forall k :: k in kids ==>
        k in repr && k.repr <= repr && this !in k.repr && k.height + 1 == height && k.Valid())
      && Apart(kids, epoch)
      && Closed(repr)
      && Shape()
    }
  }

  /** What a writer with epoch e may change in a subtree: the nodes of its epoch and their child arrays. Epoch 0 owns
      nothing. */
  ghost function Owned(n: Node, e: nat): set<object>
    reads n
  {
    OwnedIn(n.repr, e)
  }

  ghost function OwnedIn(nodes: set<Node>, e: nat): (r: set<object>)
    ensures forall o: object :: o in r ==> o is Node || o is KidArray
  {
    (set x | x in nodes && x.epoch == e && e != 0) + (set x | x in nodes && x.epoch == e && e != 0 :: x.slots)
  }

  /** What a writer may change in a part of the nodes is out of reach of the other nodes and their child arrays. */
  lemma RestBacked(nodes: set<Node>, part: set<Node>, e: nat)
    requires AllBacked(nodes) && part <= nodes
    ensures AllBacked(nodes - part) && AllBacked(part) && Area(nodes - part) !! OwnedIn(part, e)
  {
    forall x, y | x in nodes - part && y in part
      ensures x.slots != y.slots
    {
      assert Backed(x) && Backed(y);
    }
  }

  lemma BothBacked(a: set<Node>, b: set<Node>)
    requires AllBacked(a) && AllBacked(b)
    ensures AllBacked(a + b)
  {
    hide Backed;
  }

  lemma PartBacked(part: set<Node>, nodes: set<Node>)
    requires AllBacked(nodes) && part <= nodes
    ensures AllBacked(part)
  {
    hide Backed;
  }

  /** The arrays of the nodes are among the given ones, and each is its node's own. */
  ghost predicate Housed(nodes: set<Node>, arrays: set<KidArray>)
    reads nodes, arrays
  {
    Arrays(nodes) <= arrays && AllBacked(nodes)
  }

  lemma HousedMore(nodes: set<Node>, more: set<Node>, arrays: set<KidArray>)
    requires Arrays(nodes) <= arrays && AllBacked(nodes + more)
    ensures Housed(nodes + more, arrays + Arrays(more))
  {
    hide AllBacked;
  }

  lemma HousedBoth(nodes: set<Node>, more: set<Node>, arrays: set<KidArray>)
    requires Housed(nodes, arrays) && AllBacked(more)
    ensures Housed(nodes + more, arrays + Arrays(more))
  {
    hide Backed;
  }

  lemma HousedPart(part: set<Node>, nodes: set<Node>, arrays: set<KidArray>)
    requires Housed(nodes, arrays) && part <= nodes
    ensures Housed(part, arrays)
  {
    PartBacked(part, nodes);
    hide AllBacked;
  }

  lemma OneBacked(x: Node)
    requires Backed(x)
    ensures AllBacked({x}) && x.slots.owner == x && x.slots.items == x.kids
  {
  }

  lemma Rewritten(x: Node)
    requires x.slots.owner == x && x.slots.items == x.kids
    ensures AllBacked({x})
  {
  }

  lemma BackedAt(x: Node, nodes: set<Node>)
    requires AllBacked(nodes) && x in nodes
    ensures Backed(x) && x.slots.items == x.kids && x in Area(nodes)
  {
  }

  /** No node outside epoch e leads to one of epoch e, and no epoch lies in the future. */
  ghost predicate Sealed(nodes: set<Node>, e: nat, last: nat)
    reads nodes
  {
    forall x :: x in nodes ==> x.epoch <= last && Guards(x, e, last)
  }

  ghost predicate Guards(x: Node, e: nat, last: nat)
    reads x
  {
    forall y :: y in x.repr ==> y.epoch <= last && (y.epoch == e && e != 0 ==> x.epoch == e)
  }

  // ---------------------------------------------------------------- single nodes

  lemma NodeFacts(n: Node)
    requires n.Valid()
    ensures n in n.repr && n.height <= MAX_HEIGHT && Closed(n.repr)
    ensures n.ids != {} && n.count == Wrap(|n.ids|) && |n.kids| == |n.present|
    ensures forall x :: x in n.ids ==> x < UINT32 && High(n.height, x) == n.prefix
    ensures n.height == 0 ==> n.present == {} && |n.words| == 4 && ChunkShape(n.prefix, n.words, n.ids)
    ensures n.height > 0 ==> n.words == NO_WORDS && DirShape(n.height, n.prefix, SlotsOf(n.present, n.kids), n.ids)
  {
    if n.height == 0 {
      assert forall x :: x in n.ids ==> InChunk(n.prefix, n.words, x);
    } else {
      assert forall x :: x in n.ids ==> InPart(n.height, n.prefix, SlotsOf(n.present, n.kids), x);
    }
  }

  /** The child in a slot: valid, one level lower, and holding the ids of its slot. */
  lemma KidFacts(n: Node, s: nat)
    requires n.Valid() && n.height > 0 && s in n.present
    ensures |n.kids| == |n.present| && Rank(n.present, s) < |n.kids|
    ensures Kid(n.present, n.kids, s) == n.kids[Rank(n.present, s)]
    ensures var k := Kid(n.present, n.kids, s);
      && k in n.kids && k.Valid() && k.height + 1 == n.height && k.repr <= n.repr && k in n.repr && n !in k.repr
      && k.prefix == 64 * n.prefix + s && k.ids <= n.ids
      && (forall x :: x in n.ids && High(n.height - 1, x) == k.prefix ==> x in k.ids)
  {
    NodeFacts(n);
    KidIn(n.present, n.kids, s);
    assert Rank(n.present, s) < |n.kids| by { RankOrder(n.present); }
    hide Node.Shape;
    var k := Kid(n.present, n.kids, s);
    var parts := SlotsOf(n.present, n.kids);
    assert parts[s] == Part(k.prefix, k.ids) && PartOk(n.height, n.prefix, s, parts[s]);
    forall x | x in n.ids && High(n.height - 1, x) == k.prefix
      ensures x in k.ids
    {
      assert InPart(n.height, n.prefix, parts, x);
    }
  }

  /** Does a directory node hold id? Only if the slot of id is present, and then its child does. */
  lemma SlotDecides(n: Node, id: nat)
    requires n.Valid() && n.height > 0 && High(n.height, id) == n.prefix
    ensures |n.kids| == |n.present|
    ensures id in n.ids <==> Slot(n.height, id) in n.present && id in Kid(n.present, n.kids, Slot(n.height, id)).ids
    ensures High(n.height - 1, id) == 64 * n.prefix + Slot(n.height, id)
  {
    NodeFacts(n);
    var s := Slot(n.height, id);
    if s in n.present {
      KidFacts(n, s);
    }
    hide Node.Shape;
    if id in n.ids {
      assert InPart(n.height, n.prefix, SlotsOf(n.present, n.kids), id);
    }
  }

  lemma BitDecides(n: Node, id: nat)
    requires n.Valid() && n.height == 0 && High(0, id) == n.prefix
    ensures |n.words| == 4
    ensures id in n.ids <==> BitOf(id) in n.words[WordOf(id)]
  {
    NodeFacts(n);
    hide Node.Shape;
    assert InChunk(n.prefix, n.words, id) <==> id in n.ids by { hide BitOf, WordOf, High; }
  }

  lemma ChunkValid(n: Node)
    requires n.height == 0 && n in n.repr && n.present == {} && n.kids == [] && Closed(n.repr)
    requires ChunkShape(n.prefix, n.words, n.ids) && n.ids != {} && n.count == Wrap(|n.ids|)
    requires forall x :: x in n.ids ==> x < UINT32
    ensures n.Valid()
  {
    hide ChunkShape;
  }

  lemma DirValid(n: Node)
    requires 0 < n.height <= MAX_HEIGHT && n in n.repr && n.words == NO_WORDS && |n.kids| == |n.present|
    requires DirShape(n.height, n.prefix, SlotsOf(n.present, n.kids), n.ids) && n.ids != {} && n.count == Wrap(|n.ids|)
    requires forall x :: x in n.ids ==> x < UINT32
    requires Fits(n, n.kids, n.repr) && Apart(n.kids, n.epoch) && Closed(n.repr)
    ensures n.Valid()
  {
    assert n.Shape() by { hide DirShape; }
    hide Node.Shape, DirShape, Apart;
  }

  lemma FitsInserted(n: Node, kids: seq<Node>, repr: set<Node>, i: nat, k: Node)
    requires Fits(n, kids, repr) && i <= |kids|
    requires k.Valid() && k.height + 1 == n.height && n !in k.repr
    ensures Fits(n, Inserted(kids, i, k), repr + k.repr)
  {
    hide Node.Shape;
    assert k in k.repr;
  }

  lemma ApartInserted(kids: seq<Node>, e: nat, i: nat, k: Node)
    requires i <= |kids|
    requires Apart(kids, e)
    requires forall a, x {:trigger x in kids[a].repr} :: 0 <= a < |kids| && x in kids[a].repr && x in k.repr ==>
      x.epoch != e || e == 0
    ensures Apart(Inserted(kids, i, k), e)
  {
    var more := Inserted(kids, i, k);
    forall a, b, x | 0 <= a < b < |more| && x in more[a].repr && x in more[b].repr
      ensures x.epoch != e || e == 0
    {
      var a', b' := if a < i then a else a - 1, if b < i then b else b - 1;
      if a == i {
        assert more[b] == kids[b'];
      } else if b == i {
        assert more[a] == kids[a'];
      } else {
        assert more[a] == kids[a'] && more[b] == kids[b'];
      }
    }
  }

  lemma SlotsInserted(present: Bits, kids: seq<Node>, s: nat, k: Node)
    requires |kids| == |present| && s < 64 && s !in present
    ensures Rank(present, s) <= |kids| && |Inserted(kids, Rank(present, s), k)| == |present + {s}|
    ensures SlotsOf(present + {s}, Inserted(kids, Rank(present, s), k)) ==
      SlotsOf(present, kids)[s := Part(k.prefix, k.ids)]
  {
    KidInserted(present, kids, s, k);
  }

  lemma SlotsUpdated(present: Bits, kids: seq<Node>, s: nat, k: Node)
    requires |kids| == |present| && s in present
    ensures Rank(present, s) < |kids|
    ensures SlotsOf(present, kids[Rank(present, s) := k]) == SlotsOf(present, kids)[s := Part(k.prefix, k.ids)]
  {
    KidUpdated(present, kids, s, k);
  }

  lemma GuardsDrawn(x: Node, e: nat, last: nat, e': nat, last': nat)
    requires Guards(x, e, last)
    requires (e' == e && last' == last) || (e' == last' == last + 1)
    ensures Guards(x, e', last')
  {
  }

  /** A child beside the path of a change: nothing the writer does there can reach it. */
  ghost predicate Beside(n: Node, k: Node, repr: set<Node>)
    reads k, k.repr
  {
    k in repr && k.repr <= repr && n !in k.repr && k.height + 1 == n.height && k.Valid()
  }

  lemma BesideKid(n: Node, i: nat, j: nat, e: nat, last: nat)
    requires n.Valid() && Sealed(n.repr, e, last) && i < |n.kids| && j < |n.kids| && i != j
    ensures Beside(n, n.kids[j], n.repr)
    ensures ({n.kids[j]} + n.kids[j].repr) !! Owned(n.kids[i], e)
  {
    hide Node.Shape, Guards, Sealed;
    OwnedApart(n, e, last);
    assert n.kids[j] in n.kids && n.kids[i] in n.kids;
    assert n.kids[j] in n.kids[j].repr;
    forall x | x in n.kids[i].repr && x in n.kids[j].repr
      ensures x.epoch != e || e == 0
    {
      if i < j { } else { }
    }
  }

  lemma RemovedFits(n: Node, kids: seq<Node>, repr: set<Node>, i: nat)
    requires Fits(n, kids, repr) && i < |kids|
    ensures Fits(n, Removed(kids, i), repr)
  {
    hide Node.Valid;
    var less := Removed(kids, i);
    assert forall k :: k in less ==> k in kids;
  }

  lemma RemovedApart(kids: seq<Node>, i: nat, e: nat)
    requires i < |kids| && Apart(kids, e)
    ensures Apart(Removed(kids, i), e)
  {
    hide Node.Valid;
    var less := Removed(kids, i);
    forall a, b, x | 0 <= a < b < |less| && x in less[a].repr && x in less[b].repr
      ensures x.epoch != e || e == 0
    {
      var a', b' := if a < i then a else a + 1, if b < i then b else b + 1;
      assert less[a] == kids[a'] && less[b] == kids[b'];
      assert x in kids[a'].repr && x in kids[b'].repr;
    }
  }

  lemma SlotsRemoved(present: Bits, kids: seq<Node>, s: nat)
    requires |kids| == |present| && s in present
    ensures Rank(present, s) < |kids| && |Removed(kids, Rank(present, s))| == |present - {s}|
    ensures SlotsOf(present - {s}, Removed(kids, Rank(present, s))) == SlotsOf(present, kids) - {s}
  {
    KidRemoved(present, kids, s);
  }

  /** What dropping the child of slot s does to a directory node, before it is written. */
  lemma RemovalFits(n: Node, s: nat)
    requires n.Valid() && n.height > 0 && s in n.present
    ensures |n.kids| == |n.present| && Rank(n.present, s) < |n.kids|
    ensures var kids := Removed(n.kids, Rank(n.present, s));
      && |kids| == |n.present - {s}|
      && DirShape(n.height, n.prefix, SlotsOf(n.present - {s}, kids), n.ids - Kid(n.present, n.kids, s).ids)
      && Fits(n, kids, n.repr) && Apart(kids, n.epoch)
  {
    hide Node.Shape, DirShape;
    NodeFacts(n);
    SlotsRemoved(n.present, n.kids, s);
    var i := Rank(n.present, s);
    DirRemove(n.height, n.prefix, SlotsOf(n.present, n.kids), n.ids, s);
    RemovedFits(n, n.kids, n.repr, i);
    RemovedApart(n.kids, i, n.epoch);
  }

  /** A copy of a valid node under an epoch that owns none of its nodes is valid. */
  lemma CopyValid(n: Node, c: Node, last: nat)
    requires n.Valid() && Sealed(n.repr, c.epoch, last) && c !in n.repr && n.epoch != c.epoch
    requires c.height == n.height && c.prefix == n.prefix && c.count == n.count && c.words == n.words
    requires c.present == n.present && c.kids == n.kids && c.ids == n.ids && c.repr == n.repr + {c}
    ensures c.Valid()
  {
    OwnedApart(n, c.epoch, last);
    CopyShape(n, c);
    hide Node.Shape, Sealed, Guards;
  }

  lemma CopyShape(n: Node, c: Node)
    requires n.Valid()
    requires c.height == n.height && c.prefix == n.prefix && c.count == n.count && c.words == n.words
    requires c.present == n.present && c.kids == n.kids && c.ids == n.ids
    ensures c.Shape()
  {
    hide DirShape, ChunkShape;
  }

  lemma OtherRank(b: Bits, s: nat, t: nat)
    requires s in b && t in b && s != t
    ensures Rank(b, s) != Rank(b, t) && Rank(b, t) < |b|
  {
    RankOrder(b);
    if s < t { } else { }
  }

  /** Before a change below slot s: everything else is in order and out of the writer's reach. */
  lemma BesideAll(n: Node, s: nat, e: nat, last: nat)
    requires n.Valid() && n.height > 0 && Sealed(n.repr, e, last) && s in n.present
    ensures |n.kids| == |n.present| && Rank(n.present, s) < |n.kids|
    ensures var i := Rank(n.present, s);
      && Sealed(n.kids[i].repr, e, last) && (forall x :: x in n.repr ==> x.epoch <= last)
      && (forall x :: x in n.repr && x !in n.kids[i].repr ==> x.epoch <= last && Guards(x, e, last) && x.repr <= n.repr)
      && (forall j :: 0 <= j < |n.kids| && j != i ==>
        Beside(n, n.kids[j], n.repr) && ({n.kids[j]} + n.kids[j].repr) !! Owned(n.kids[i], e))
      && ApartSets(ReprsOf(n.kids), e)
  {
    hide Node.Shape;
    KidFacts(n, s);
    OwnedApart(n, e, last);
    ApartNow(n.kids, e);
    var i := Rank(n.present, s);
    forall j | 0 <= j < |n.kids| && j != i
      ensures Beside(n, n.kids[j], n.repr) && ({n.kids[j]} + n.kids[j].repr) !! Owned(n.kids[i], e)
    {
      BesideKid(n, i, j, e, last);
    }
  }

  lemma ApartNow(kids: seq<Node>, e: nat)
    requires Apart(kids, e)
    ensures ApartSets(ReprsOf(kids), e)
  {
  }

  /** After a change below child i that turned it into k, under the same epoch or a new one. */
  lemma BesideAfter(n: Node, i: nat, k: Node, repr: set<Node>, reprs: seq<set<Node>>, e: nat, last: nat, e': nat)
    requires i < |n.kids| == |reprs| && ApartSets(reprs, e)
    requires e' == e || e' == last + 1
    requires forall x :: x in repr ==> x.epoch <= last
    requires forall j :: 0 <= j < |n.kids| && j != i ==> Beside(n, n.kids[j], repr) && n.kids[j].repr == reprs[j]
    requires forall x :: x in k.repr ==> x in reprs[i] || x !in repr
    ensures KidsBeside(n, i, k, repr, e')
  {
    hide Node.Valid;
  }

  lemma UpdatedFits(n: Node, r: Node, i: nat, k: Node, repr: set<Node>, e: nat)
    requires i < |n.kids| && n.height == r.height && (r !in repr || r == n)
    requires KidsBeside(n, i, k, repr, e)
    requires k.Valid() && k.height + 1 == n.height && r !in k.repr
    ensures Fits(r, n.kids[i := k], repr + k.repr)
  {
    hide Node.Valid;
    ValidSelf(k);
    var kids := n.kids[i := k];
    forall j | 0 <= j < |kids|
      ensures kids[j] in repr + k.repr && kids[j].repr <= repr + k.repr && r !in kids[j].repr
      ensures kids[j].height + 1 == n.height && kids[j].Valid()
    {
      if j != i {
        assert Beside(n, n.kids[j], repr);
      }
    }
  }

  lemma UpdatedApart(n: Node, i: nat, k: Node, repr: set<Node>, e: nat)
    requires i < |n.kids| && KidsBeside(n, i, k, repr, e)
    ensures Apart(n.kids[i := k], e)
  {
    hide Node.Valid;
    var now := n.kids[i := k];
    forall a, b, x | 0 <= a < b < |now| && x in now[a].repr && x in now[b].repr
      ensures x.epoch != e || e == 0
    {
      if a == i {
        assert x in n.kids[b].repr;
      } else if b == i {
        assert x in n.kids[a].repr;
      } else {
        assert x in n.kids[a].repr && x in n.kids[b].repr;
      }
    }
  }

  /** The old children of n beside index i are as the parent left them, and out of reach of the new child k. */
  ghost predicate KidsBeside(n: Node, i: nat, k: Node, repr: set<Node>, e: nat)
    reads n, n.kids, repr, k
    requires i < |n.kids|
  {
    && (forall j :: 0 <= j < |n.kids| && j != i ==>
      n.kids[j] in repr && n.kids[j].repr <= repr && Beside(n, n.kids[j], repr))
    && (forall a, b, x {:trigger x in n.kids[a].repr, x in n.kids[b].repr} ::
      0 <= a < b < |n.kids| && a != i && b != i && x in n.kids[a].repr && x in n.kids[b].repr ==>
        (x.epoch != e || e == 0))
    && (forall a, x {:trigger x in n.kids[a].repr} ::
      0 <= a < |n.kids| && a != i && x in n.kids[a].repr && x in k.repr ==> (x.epoch != e || e == 0))
  }

  /** All that is known of a directory node n when the child in a slot has become k, and before n
      itself is written; parts is what its slots held before. */
  ghost predicate Graft(n: Node, slot: nat, k: Node, parts: Parts, e: nat, last: nat)
    reads n, n.kids, n.repr, k, k.repr
  {
    && 0 < n.height <= MAX_HEIGHT && n.words == NO_WORDS && n in n.repr
    && |n.kids| == |n.present| && slot in n.present && Rank(n.present, slot) < |n.kids|
    && KidsBeside(n, Rank(n.present, slot), k, n.repr, e)
    && k.Valid() && k.height + 1 == n.height && n !in k.repr && k.prefix == 64 * n.prefix + slot
    && parts.Keys == n.present && DirShape(n.height, n.prefix, parts, n.ids)
    && (forall t :: t in n.present && t != slot ==> SlotsOf(n.present, n.kids)[t] == parts[t])
    && 0 != e <= last && n.epoch <= last && Sealed(n.repr + k.repr, e, last) && Closed(n.repr + k.repr)
    && (forall x :: x in k.repr && x !in n.repr ==> x.epoch == e)
  }

  /** The slots of a node one of whose children is replaced, from the slots it had. */
  lemma UpdatedSlots(h: nat, prefix: nat, present: Bits, kids: seq<Node>, s: nat, k: Node, parts: Parts, ids: set<nat>)
    requires |kids| == |present| && s in present && parts.Keys == present
    requires DirShape(h, prefix, parts, ids) && PartOk(h, prefix, s, Part(k.prefix, k.ids))
    requires forall t :: t in present && t != s ==> SlotsOf(present, kids)[t] == parts[t]
    ensures Rank(present, s) < |kids|
    ensures DirShape(h, prefix, SlotsOf(present, kids[Rank(present, s) := k]), ids - parts[s].ids + k.ids)
  {
    hide DirShape, PartOk;
    SlotsUpdated(present, kids, s, k);
    DirUpdate(h, prefix, parts, ids, s, Part(k.prefix, k.ids));
    assert SlotsOf(present, kids)[s := Part(k.prefix, k.ids)] == parts[s := Part(k.prefix, k.ids)];
  }

  lemma SwapAdds(ids: set<nat>, was: set<nat>, now: set<nat>, x: nat)
    requires was <= ids && now == was + {x}
    ensures ids - was + now == ids + {x}
  {
  }

  lemma SwapRemoves(ids: set<nat>, was: set<nat>, now: set<nat>, x: nat)
    requires was <= ids && now == was - {x} && x in was
    ensures ids - was + now == ids - {x}
  {
  }

  lemma NewPart(k: Node, h: nat, prefix: nat, s: nat)
    requires k.Valid() && k.height + 1 == h && k.prefix == 64 * prefix + s
    ensures PartOk(h, prefix, s, Part(k.prefix, k.ids))
  {
    NodeFacts(k);
    hide Node.Valid, Node.Shape, DirShape, ChunkShape;
  }

  lemma ValidSelf(n: Node)
    requires n.Valid()
    ensures n in n.repr
  {
  }

  /** Drawing an epoch keeps everything sealed: a fresh epoch owns nothing yet. */
  lemma SealedDrawn(n: Node, e: nat, last: nat, e': nat, last': nat)
    requires Sealed(n.repr, e, last)
    requires (e' == e && last' == last) || (e' == last' == last + 1)
    ensures Sealed(n.repr, e', last')
  {
  }

  lemma SealedPart(nodes: set<Node>, all: set<Node>, e: nat, last: nat)
    requires Sealed(all, e, last) && nodes <= all
    ensures Sealed(nodes, e, last)
  {
  }

  /** A sealed part has grown to above; the rest of the nodes are as they were. */
  lemma SealedJoin(nodes: set<Node>, part: set<Node>, above: set<Node>, e: nat, last: nat)
    requires Sealed(above, e, last) && part <= above
    requires forall x :: x in nodes && x !in part ==> x.epoch <= last && Guards(x, e, last)
    ensures Sealed(nodes + above, e, last)
  {
  }

  lemma ClosedJoin(nodes: set<Node>, part: set<Node>, above: set<Node>)
    requires Closed(above) && part <= above
    requires forall x :: x in nodes && x !in part ==> x.repr <= nodes
    ensures Closed(nodes + above)
  {
    forall x | x in nodes + above
      ensures x.repr <= nodes + above
    {
    }
  }

  lemma ClosedAbove(r: Node, was: map<Node, set<Node>>)
    requires forall x :: x in was ==> was[x] <= was.Keys && (x != r ==> x.repr == was[x])
    requires r.repr == {r} + was.Keys
    ensures Closed(r.repr)
  {
  }

  lemma EpochsPast(nodes: set<Node>, e: nat, last: nat)
    requires Sealed(nodes, e, last)
    ensures forall x :: x in nodes ==> x.epoch <= last
  {
  }

  lemma EpochPast(n: Node, e: nat, last: nat)
    requires n in n.repr && Sealed(n.repr, e, last)
    ensures n.epoch <= last
  {
  }

  lemma OwnedApart(n: Node, e: nat, last: nat)
    requires n.Valid() && Sealed(n.repr, e, last)
    ensures Apart(n.kids, e)
  {
    hide Node.Shape;
    forall i, j, x | 0 <= i < j < |n.kids| && x in n.kids[i].repr && x in n.kids[j].repr
      ensures x.epoch != e || e == 0
    {
      assert n.kids[i] in n.kids;
    }
  }

  lemma SealedMap(nodes: set<Node>, e: nat, last: nat)
    requires Sealed(nodes, e, last)
    ensures var was := map x | x in nodes :: x.repr;
      forall x, y :: x in was && y in was[x] ==>
        x.epoch <= last && y.epoch <= last && (y.epoch == e && e != 0 ==> x.epoch == e)
    ensures forall x :: x in nodes ==> x.epoch <= last
  {
    forall x, y | x in nodes && y in x.repr
      ensures y.epoch <= last && (y.epoch == e && e != 0 ==> x.epoch == e)
    {
      assert Guards(x, e, last);
    }
  }

  lemma LiftPart(b: Node)
    requires b.Valid() && b.prefix == 0
    ensures PartOk(b.height + 1, 0, 0, Part(b.prefix, b.ids))
  {
    hide Node.Valid, Node.Shape, DirShape, ChunkShape, Wrap;
    NodeFacts(b);
  }

  /** Once an owned node r covers a sealed set of nodes, nothing else having changed, all is sealed again. */
  lemma SealedAbove(r: Node, was: map<Node, set<Node>>, e: nat, last: nat)
    requires forall x, y :: x in was && y in was[x] ==> y.epoch <= last && (y.epoch == e && e != 0 ==> x.epoch == e)
    requires forall x :: x in was ==> x.epoch <= last && (x != r ==> x.repr == was[x])
    requires r.repr == {r} + was.Keys && 0 != r.epoch == e <= last
    ensures Sealed(r.repr, e, last)
  {
    forall x | x in was && x != r
      ensures Guards(x, e, last)
    {
      assert forall y :: y in x.repr ==> y in was[x];
    }
    assert Guards(r, e, last);
  }

  /** What a new child in slot s does to a directory node, before anything is written. */
  lemma BranchFits(n: Node, r: Node, s: nat, k: Node, e: nat, last: nat)
    requires n.Valid() && 0 < n.height == r.height && Sealed(n.repr, e, last) && s < 64 && s !in n.present
    requires r !in n.repr || r == n
    requires k.Valid() && k.height + 1 == n.height && k.repr !! n.repr && r !in k.repr
    requires PartOk(n.height, n.prefix, s, Part(k.prefix, k.ids)) && Sealed(k.repr, e, last)
    ensures |n.kids| == |n.present| && Rank(n.present, s) <= |n.kids|
    ensures var kids := Inserted(n.kids, Rank(n.present, s), k);
      && |kids| == |n.present + {s}|
      && DirShape(n.height, n.prefix, SlotsOf(n.present + {s}, kids), n.ids + k.ids)
      && Fits(r, kids, n.repr + k.repr) && Apart(kids, e) && Sealed(n.repr + k.repr, e, last) && Closed(n.repr + k.repr)
    ensures n.ids !! k.ids
  {
    hide Node.Shape, DirShape, PartOk, Guards, Sealed, Apart, Rank;
    NodeFacts(n);
    NodeFacts(k);
    UnionSealed(n.repr, k.repr, e, last);
    var idx := Rank(n.present, s);
    SlotsInserted(n.present, n.kids, s, k);
    var parts := SlotsOf(n.present, n.kids);
    DirUpdate(n.height, n.prefix, parts, n.ids, s, Part(k.prefix, k.ids));
    assert n.ids - {} + k.ids == n.ids + k.ids;
    FitsInserted(r, n.kids, n.repr, idx, k);
    OwnedApart(n, e, last);
    ApartInserted(n.kids, e, idx, k);
  }

  lemma UnionSealed(a: set<Node>, b: set<Node>, e: nat, last: nat)
    requires Sealed(a, e, last) && Sealed(b, e, last)
    ensures Sealed(a + b, e, last)
  {
    hide Guards;
  }

  lemma ChunkOf(n: Node, id: nat)
    requires n.height == 0 && n.count == 1 && n.present == {} && n.kids == []
    requires n.words == NO_WORDS[WordOf(id) := {BitOf(id)}]
    requires n.prefix == High(0, id) && n.ids == {id} && id < UINT32 && n.repr == {n}
    ensures n.Valid()
  {
    SingleChunk(id);
    assert n.Shape();
  }

  /** A node over one child holds what the child holds. */
  lemma SingleDir(n: Node, s: nat)
    requires s < 64 && 0 < n.height <= MAX_HEIGHT && n.words == NO_WORDS && n.present == {s}
    requires |n.kids| == 1 && n.kids[0].Valid() && n.kids[0].height + 1 == n.height
    requires n.ids == n.kids[0].ids && n.count == Wrap(|n.ids|)
    requires PartOk(n.height, n.prefix, s, Part(n.kids[0].prefix, n.ids))
    requires forall x :: x in n.ids ==> x < UINT32
    requires n.repr == {n} + n.kids[0].repr && n !in n.kids[0].repr
    ensures n.Valid()
  {
    hide Node.Shape, PartOk;
    SingleShape(n, s);
  }

  lemma SingleShape(n: Node, s: nat)
    requires s < 64 && 0 < n.height && n.words == NO_WORDS && n.present == {s}
    requires |n.kids| == 1 && n.ids == n.kids[0].ids && n.count == Wrap(|n.ids|)
    requires PartOk(n.height, n.prefix, s, Part(n.kids[0].prefix, n.ids))
    requires forall x :: x in n.ids ==> x < UINT32
    ensures n.Shape()
  {
    var k := Part(n.kids[0].prefix, n.ids);
    assert |n.present| == 1;
    SingleSlot(s, n.kids);
    DirEmpty(n.height, n.prefix);
    DirUpdate(n.height, n.prefix, map[], {}, s, k);
    assert {} - {} + n.ids == n.ids;
    assert SlotsOf(n.present, n.kids) == map[s := k];
  }

  lemma SingleSlot(s: nat, kids: seq<Node>)
    requires s < 64 && |kids| == 1
    ensures Kid({s}, kids, s) == kids[0]
  {
    assert Below({s}, s) == {};
  }

  // ---------------------------------------------------------------- whole sets

  /** A set of ids is the root of its trie, or null when empty. */
  type Bitmap = Node?

  ghost function Ids(b: Bitmap): set<nat>
    reads if b == null then {} else {b}
  {
    if b == null then {} else b.ids
  }

  ghost function Repr(b: Bitmap): set<Node>
    reads if b == null then {} else {b}
  {
    if b == null then {} else b.repr
  }

  /** A well-formed set: a valid trie over the whole id space, as low as its ids allow. */
  ghost predicate Canon(b: Bitmap)
    reads b, Repr(b)
  {
    b != null ==> b.Valid() && b.prefix == 0 && (b.height > 0 ==> b.present != {0})
  }

  /** A root of height above 0 leads somewhere besides child 0 exactly if some id needs its height. */
  lemma TallWitness(b: Node) returns (x: nat)
    requires b.Valid() && b.prefix == 0 && b.height > 0 && b.present != {0}
    ensures x in b.ids && High(b.height - 1, x) != 0
  {
    hide Node.Valid, Node.Shape, DirShape, ChunkShape, Kid, Wrap, High;
    PresentNotEmpty(b);
    var s :| s in b.present;
    if s == 0 {
      assert b.present == {0} + (b.present - {0});
      s :| s in b.present - {0};
    }
    KidFacts(b, s);
    NodeFacts(Kid(b.present, b.kids, s));
    x :| x in Kid(b.present, b.kids, s).ids;
  }

  lemma TallPresent(b: Node, x: nat)
    requires b.Valid() && b.prefix == 0 && b.height > 0 && x in b.ids && High(b.height - 1, x) != 0
    ensures b.present != {0}
  {
    hide Node.Valid, Node.Shape, DirShape, ChunkShape, Wrap;
    NodeFacts(b);
    SlotDecides(b, x);
  }

  lemma PresentNotEmpty(b: Node)
    requires b.Valid() && b.height > 0
    ensures b.present != {}
  {
    NodeFacts(b);
    hide Node.Shape;
    var x :| x in b.ids;
    SlotDecides(b, x);
  }

  /** A root that only leads to child 0 can be dropped: the child is the same set. */
  lemma OnlyKid(n: Node)
    requires n.Valid() && n.height > 0 && n.present == {0} && n.prefix == 0
    ensures |n.kids| == 1
    ensures n.kids[0].Valid() && n.kids[0].prefix == 0 && n.kids[0].height + 1 == n.height
    ensures n.kids[0].ids == n.ids && n.kids[0].repr <= n.repr
  {
    hide Node.Valid, Node.Shape, DirShape, ChunkShape, Wrap, High;
    NodeFacts(n);
    KidFacts(n, 0);
    SingleSlot(0, n.kids);
    forall x | x in n.ids
      ensures x in n.kids[0].ids
    {
      SlotDecides(n, x);
    }
  }
}
