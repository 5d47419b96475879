/** The row-id sets a write transaction works on: the ids in use, the free ids, and one set per value of
    a bitmap index. They are bitmaps on the heap that one writer changes in place; whatever has been
    handed out after a Freeze is in `frozen`, and nothing in `frozen` ever changes. */
module SetStore {
  import opened Epochs
  import opened IdSpace
  import opened TableSchema
  import opened BitmapNode
  import opened BitmapWorld
  import J = Juuri
  import W = BitmapWriter

  /** Where a set is stored: `tableRows.all`, `tableRows.free`, or the tree of a bitmap index under a value. */
  datatype Place = AllIds | FreeIds | ValueSet(index: nat, key: Bytes)

  function SetAt(sets: map<Place, set<nat>>, p: Place): set<nat>
  {
    if p in sets then sets[p] else {}
  }

  /** One set, with respect to the writer: well-formed, made of the store's nodes, and sealed. */
  ghost predicate InStore(b: Bitmap, ids: set<nat>, nodes: set<Node>, e: nat, last: nat)
    reads b, Repr(b)
  {
    Holds(b, ids) && (b != null ==> b in nodes) && Repr(b) <= nodes && Sealed(Repr(b), e, last)
  }

  /** Nodes that no writer can reach any more. */
  ghost predicate Settled(frozen: set<Node>, e: nat, last: nat)
    reads frozen
  {
    Closed(frozen) && Past(frozen, last) && Free(frozen, e)
  }

  /** A set of frozen nodes and of nodes that no writer owns is settled. */
  lemma SettledMore(frozen: set<Node>, part: set<Node>, more: set<Node>, e: nat, last: nat)
    requires Settled(frozen, e, last) && Closed(part) && part <= frozen + more
    requires forall x :: x in more ==> x.epoch == 0
    ensures Settled(frozen + part, e, last)
  {
  }

  /** Every node of every set. */
  ghost function NodesIn(sets: map<Place, Bitmap>): set<Node>
    reads set p | p in sets && sets[p] != null :: sets[p]
  {
    set p, x | p in sets && x in Repr(sets[p]) :: x
  }

  /** b has been handed out: it holds ids, in nodes that never change. */
  ghost predicate HandedOut(b: Bitmap, ids: set<nat>, frozen: set<Node>)
    reads b, Repr(b)
  {
    Holds(b, ids) && Repr(b) <= frozen
  }

  /** What adding or removing one id makes of the sets; a value whose set becomes empty goes away. */
  function Changed(sets: map<Place, set<nat>>, p: Place, id: nat, add: bool): map<Place, set<nat>>
  {
    var now := if add then SetAt(sets, p) + {id} else SetAt(sets, p) - {id};
    if now == {} && p.ValueSet? then sets - {p} else sets[p := now]
  }

  lemma StoredLater(b: Bitmap, ids: set<nat>, nodes: set<Node>, nodes': set<Node>, e: nat, last: nat, e': nat,
                    last': nat)
    requires InStore(b, ids, nodes, e, last) && Later(e, last, e', last') && nodes <= nodes'
    ensures InStore(b, ids, nodes', e', last')
  {
    hide Node.Valid, Holds;
    forall x | x in Repr(b)
      ensures x.epoch <= last' && Guards(x, e', last')
    {
      assert Guards(x, e, last);
    }
  }

  lemma SettledLater(frozen: set<Node>, e: nat, last: nat, e': nat, last': nat)
    requires Settled(frozen, e, last) && Later(e, last, e', last')
    ensures Settled(frozen, e', last')
  {
  }

  lemma NoShareLater(a: set<Node>, b: set<Node>, e: nat, last: nat, e': nat, last': nat)
    requires NoShare(a, b, e) && Later(e, last, e', last') && Past(b, last)
    ensures NoShare(a, b, e')
  {
  }

  /** A changed set shares no owned node with any other. */
  lemma NoShareChanged(r: set<Node>, was: set<Node>, other: set<Node>, e: nat, last: nat, e': nat, last': nat)
    requires NoShare(was, other, e) && Later(e, last, e', last') && Past(other, last)
    requires forall x :: x in r && x in other ==> x in was
    ensures NoShare(r, other, e') && NoShare(other, r, e')
  {
  }

  /** The sets beside the one at p, as they were under the old epoch: out of reach of was, which p had, and
      of now, which it has. */
  ghost predicate Others(sets: map<Place, Bitmap>, ids: map<Place, set<nat>>, p: Place, was: set<Node>, now: set<Node>,
                         nodes: set<Node>, e: nat, last: nat)
    reads set q | q in sets && sets[q] != null :: sets[q]
    reads set q, x | q in sets && sets[q] != null && x in sets[q].repr :: x
  {
    && (forall q :: q in sets && q != p ==> q in ids && InStore(sets[q], ids[q], nodes, e, last))
    && (forall q, t :: q in sets && t in sets && q != t && q != p && t != p ==>
      NoShare(Repr(sets[q]), Repr(sets[t]), e))
    && (forall q :: q in sets && q != p ==> NoShare(was, Repr(sets[q]), e) && Past(Repr(sets[q]), last))
    && (forall q, x :: q in sets && q != p && x in now && x in Repr(sets[q]) ==> x in was)
  }

  lemma OthersSame(sets: map<Place, Bitmap>, ids: map<Place, set<nat>>, sets': map<Place, Bitmap>, ids': map<Place,
                   set<nat>>,
                   p: Place, was: set<Node>, now: set<Node>, now': set<Node>, nodes: set<Node>, e: nat, last: nat)
    requires Others(sets, ids, p, was, now, nodes, e, last) && now' <= now
    requires sets' - {p} == sets - {p} && ids' - {p} == ids - {p}
    ensures Others(sets', ids', p, was, now', nodes, e, last)
  {
    hide InStore, NoShare, Past;
    forall q | q in sets' && q != p
      ensures q in sets && sets[q] == sets'[q] && (q in ids ==> q in ids' && ids[q] == ids'[q])
    {
      assert q in sets' - {p};
      if q in ids { assert q in ids - {p}; }
    }
  }

  /** A change at one place is one there only. */
  lemma OnlyThere(sets: map<Place, Bitmap>, sets': map<Place, Bitmap>, ids: map<Place, set<nat>>, p: Place, r: Bitmap,
                  id: nat, add: bool)
    requires sets.Keys == ids.Keys
    requires r == null <==> (if add then SetAt(ids, p) + {id} else SetAt(ids, p) - {id}) == {}
    requires sets' == if r == null && p.ValueSet? then sets - {p} else sets[p := r]
    ensures var ids' := Changed(ids, p, id, add);
      && sets' - {p} == sets - {p} && ids' - {p} == ids - {p} && sets'.Keys == ids'.Keys
      && (p in sets' ==> sets'[p] == r && ids'[p] == if add then SetAt(ids, p) + {id} else SetAt(ids, p) - {id})
      && (p !in sets' ==> r == null)
  {
    hide SetAt;
  }

  /** A tree that has been handed out: it holds the given ids, in nodes that never change. */
  ghost predicate TreeOut(t: J.Tree<Place, Bitmap>, ids: map<Place, set<nat>>, frozen: set<Node>)
    reads t, set p | p in t.contents && t.contents[p] != null :: t.contents[p]
    reads set p, x | p in t.contents && t.contents[p] != null && x in t.contents[p].repr :: x
  {
    t.contents.Keys == ids.Keys && forall p :: p in t.contents ==> HandedOut(t.contents[p], ids[p], frozen)
  }

  class Sets {
    const writer: W.Writer
    const txn: J.Txn<Place, Bitmap>
    ghost var sets: map<Place, Bitmap>
    ghost var ids: map<Place, set<nat>>
    ghost var nodes: set<Node>
    ghost var frozen: set<Node>
    ghost var arrays: set<KidArray>

    /** What holds of the sets and their nodes. */
    ghost predicate Sound()
      reads this, writer, writer.counter, nodes, frozen
    {
      && writer.epoch <= writer.counter.last && Past(nodes, writer.counter.last)
      && sets.Keys == ids.Keys
      && (forall p :: p in sets ==> sets[p] != null ==> sets[p] in nodes && sets[p].repr <= nodes)
      && (forall p :: p in sets ==> InStore(sets[p], ids[p], nodes, writer.epoch, writer.counter.last))
      && (forall p, q :: p in sets && q in sets && p != q ==> NoShare(Repr(sets[p]), Repr(sets[q]), writer.epoch))
      && Settled(frozen, writer.epoch, writer.counter.last)
    }

    ghost predicate Valid()
      reads this, writer, writer.counter, txn, txn.tree, nodes, frozen, arrays
    {
      Sound() && txn.Valid() && txn.Contents() == sets && Housed(frozen + nodes, arrays)
    }

    constructor (counter: EpochCounter, ghost home: nat)
      ensures Valid() && fresh(writer) && writer.counter == counter
      ensures sets == map[] && ids == map[] && frozen == {} && nodes == {}
      ensures fresh(txn) && fresh(txn.tree) && txn.home == home && Reach() == {}
    {
      writer := new W.Writer(counter);
      txn := new J.Txn<Place, Bitmap>(home);
      sets, ids, nodes, frozen, arrays := map[], map[], {}, {}, {};
    }

    /** What a write may change: nodes, their child arrays, and the tree. */
    ghost function Reach(): (r: set<object>)
      reads this, writer, txn
      ensures forall o: object :: o in r ==> o is Node || o is KidArray || o is J.Tree<Place, Bitmap>
    {
      OwnedIn(nodes, writer.epoch) + txn.Reach()
    }

    ghost function At(p: Place): Bitmap
      reads this
    {
      if p in sets then sets[p] else null
    }

    /** What is known of one place before it is changed: nothing else can be reached from there. */
    lemma Ready(p: Place)
      requires Sound()
      ensures Holds(At(p), SetAt(ids, p)) && Sealed(Repr(At(p)), writer.epoch, writer.counter.last)
      ensures Repr(At(p)) <= nodes && (At(p) != null ==> At(p) in nodes)
      ensures forall q :: q in sets && q != p ==>
        NoShare(Repr(At(p)), Repr(sets[q]), writer.epoch) && Past(Repr(sets[q]), writer.counter.last)
      ensures forall q :: q in sets && q != p && sets[q] != null ==> sets[q] in Repr(sets[q])
      ensures forall q :: q in sets && q != p && At(p) != null ==> Repr(sets[q]) !! Owned(At(p), writer.epoch)
      ensures At(p) != null ==> Owned(At(p), writer.epoch) <= OwnedIn(nodes, writer.epoch)
      ensures At(p) != null ==> Owned(At(p), writer.epoch) !! frozen
      ensures frozen !! OwnedIn(nodes, writer.epoch)
    {
      hide Node.Valid, Canon, Node.Shape, Guards;
      if p !in sets {
        EmptyHolds();
      } else {
        assert InStore(sets[p], ids[p], nodes, writer.epoch, writer.counter.last);
      }
      forall q | q in sets && q != p
        ensures NoShare(Repr(At(p)), Repr(sets[q]), writer.epoch) && Past(Repr(sets[q]), writer.counter.last)
        ensures sets[q] != null ==> sets[q] in Repr(sets[q])
        ensures At(p) != null ==> Repr(sets[q]) !! Owned(At(p), writer.epoch)
      {
        assert InStore(sets[q], ids[q], nodes, writer.epoch, writer.counter.last);
        HoldsSelf(sets[q], ids[q]);
      }
    }

    /** Set or Clear on the set at p. */
    method Change(p: Place, id: nat, add: bool)
      requires Valid() && id < UINT32
      modifies this`sets, this`ids, this`nodes, this`arrays, writer, writer.counter, txn`tree, txn`dirty, Reach()
      ensures Valid() && ids == Changed(old(ids), p, id, add)
      ensures forall x :: x in Reach() ==> x in old(Reach()) || fresh(x)
    {
      hide J.Txn.Valid, Sets.Sound, Backed, AllBacked, Holds, SetAt, Canon, Node.Valid, Changed, OwnedIn, Arrays;
      ghost var all := frozen + nodes;
      var r := ChangeSet(p, id, add);
      assert frozen + nodes == all + Repr(r);
      HousedMore(all, Repr(r), old(arrays));
      Store(p, r, r == null && p.ValueSet?);
    }

    /** The part of Change that concerns the nodes. */
    method ChangeSet(p: Place, id: nat, add: bool) returns (r: Bitmap)
      requires Sound() && id < UINT32 && txn.Contents() == sets && AllBacked(frozen + nodes)
      modifies this`sets, this`ids, this`nodes, this`arrays, writer, writer.counter, OwnedIn(nodes, writer.epoch)
      ensures Sound() && ids == Changed(old(ids), p, id, add) && nodes == old(nodes) + Repr(r)
      ensures arrays == old(arrays) + Arrays(Repr(r))
      ensures sets == if r == null && p.ValueSet? then old(sets) - {p} else old(sets)[p := r]
      ensures AllBacked(frozen + old(nodes) + Repr(r))
      ensures forall x :: x in OwnedIn(nodes, writer.epoch) ==> x in old(OwnedIn(nodes, writer.epoch)) || fresh(x)
    {
      hide Node.Valid, Node.Shape, Sealed, Guards, Canon, Free, NoShare, Past, Holds, Later, Closed, Settled, SetAt;
      hide Backed;
      hide AllBacked, OwnedIn, InStore, Others, Changed;
      ghost var e, last, before := writer.epoch, writer.counter.last, nodes;
      ghost var was;
      r, was := WriteSet(p, id, add);
      ghost var now, area := writer.epoch, Area(frozen + nodes + Repr(r));
      Put(p, id, add, r, was, e, last);
      OwnedLater(before, Repr(r), e, last, now, writer.counter.last);
    }

    /** Writes the nodes of one set; what is known of the others is what it was. */
    method WriteSet(p: Place, id: nat, add: bool) returns (r: Bitmap, ghost was: set<Node>)
      requires Sound() && id < UINT32 && txn.Contents() == sets && AllBacked(frozen + nodes)
      modifies writer, writer.counter, OwnedIn(nodes, writer.epoch)
      ensures Later(old(writer.epoch), old(writer.counter.last), writer.epoch, writer.counter.last)
      ensures writer.epoch <= writer.counter.last && sets.Keys == ids.Keys && Past(nodes, old(writer.counter.last))
      ensures Others(sets, ids, p, was, Repr(r), nodes, old(writer.epoch), old(writer.counter.last))
      ensures Holds(r, if add then SetAt(ids, p) + {id} else SetAt(ids, p) - {id})
      ensures Sealed(Repr(r), writer.epoch, writer.counter.last)
      ensures Settled(frozen, old(writer.epoch), old(writer.counter.last))
      ensures AllBacked(frozen + nodes + Repr(r))
      ensures forall x :: x in Repr(r) ==> x in nodes || (fresh(x) && fresh(x.slots))
    {
      hide Node.Valid, Node.Shape, Sealed, Guards, Canon, Free, NoShare, Past, Holds, Later, Closed, Settled, SetAt;
      hide Backed;
      hide AllBacked, OwnedIn, Arrays, Area, InStore;
      Ready(p);
      var b := if p in txn.tree.contents then txn.tree.contents[p] else null;
      was := Repr(b);
      ghost var e, last, all := writer.epoch, writer.counter.last, frozen + nodes;
      r := Write(writer, b, id, add, SetAt(ids, p), e, last, all);
      forall q | q in sets && q != p
        ensures InStore(sets[q], ids[q], nodes, e, last) && Repr(sets[q]) == old(Repr(sets[q]))
      {
        assert old(InStore(sets[q], ids[q], nodes, e, last));
      }
      forall q, t | q in sets && t in sets && q != t && q != p && t != p
        ensures NoShare(Repr(sets[q]), Repr(sets[t]), e)
      {
        assert old(NoShare(Repr(sets[q]), Repr(sets[t]), e));
      }
      assert old(Settled(frozen, e, last)) && old(Past(nodes, last));
      assert all + Repr(r) == frozen + nodes + Repr(r);
    }

    /** Records the changed set; one that has become empty goes away. */
    ghost method Put(p: Place, id: nat, add: bool, r: Bitmap, was: set<Node>, e: nat, last: nat)
      requires Later(e, last, writer.epoch, writer.counter.last) && writer.epoch <= writer.counter.last
      requires sets.Keys == ids.Keys && Past(nodes, last)
      requires Others(sets, ids, p, was, Repr(r), nodes, e, last)
      requires Holds(r, if add then SetAt(ids, p) + {id} else SetAt(ids, p) - {id})
      requires Sealed(Repr(r), writer.epoch, writer.counter.last) && Settled(frozen, e, last)
      modifies this`sets, this`ids, this`nodes, this`arrays
      ensures Sound() && ids == Changed(old(ids), p, id, add) && nodes == old(nodes) + Repr(r)
      ensures arrays == old(arrays) + Arrays(Repr(r))
      ensures sets == if r == null && p.ValueSet? then old(sets) - {p} else old(sets)[p := r]
    {
      hide Node.Valid, Node.Shape, Sealed, Guards, Canon, Free, NoShare, Past, Holds, Later, Closed, Settled, SetAt;
      hide InStore, Others, OwnedIn, Arrays, Changed;
      var now, all := if add then SetAt(ids, p) + {id} else SetAt(ids, p) - {id}, nodes;
      Emptied(r, now);
      PastMore(nodes, Repr(r), e, last, writer.epoch, writer.counter.last);
      var sets0, ids0 := sets, ids;
      nodes, arrays := nodes + Repr(r), arrays + Arrays(Repr(r));
      Stored(r, now, nodes, writer.epoch, writer.counter.last);
      sets := if r == null && p.ValueSet? then sets - {p} else sets[p := r];
      ids := Changed(ids, p, id, add);
      OnlyThere(sets0, sets, ids0, p, r, id, add);
      OthersSame(sets0, ids0, sets, ids, p, was, Repr(r), Repr(At(p)), all, e, last);
      StillValid(p, was, all, e, last);
    }

    /** Writes the tree. A set that was changed in place is in it already. */
    method Store(p: Place, r: Bitmap, gone: bool)
      requires txn.Valid()
      modifies txn`tree, txn`dirty, txn.Reach()
      ensures txn.Valid() && txn.Contents() == if gone then old(txn.Contents()) - {p} else old(txn.Contents())[p := r]
      ensures forall x :: x in txn.Reach() ==> x in old(txn.Reach()) || fresh(x)
    {
      if gone {
        txn.Delete(p);
      } else if p !in txn.tree.contents || txn.tree.contents[p] != r {
        txn.Insert(p, r);
      } else {
        assert txn.Contents()[p := r] == txn.Contents();
      }
    }

    /** As a writer without an epoch sees the store: nothing is owned. */
    lemma FrozenFacts()
      requires Sound()
      ensures forall p :: p in sets ==>
        InStore(sets[p], ids[p], nodes, 0, writer.counter.last) && Repr(sets[p]) <= NodesIn(sets)
      ensures Settled(frozen + NodesIn(sets), 0, writer.counter.last)
    {
      hide Node.Valid, Node.Shape, Sealed, Guards, Free, NoShare, Past, Holds, Later, Closed, Settled, InStore;
      var e, last := writer.epoch, writer.counter.last;
      Frozen(e, last);
      SettledLater(frozen, e, last, 0, last);
      forall p | p in sets
        ensures InStore(sets[p], ids[p], nodes, 0, last) && Settled(Repr(sets[p]), 0, last)
        ensures Repr(sets[p]) <= NodesIn(sets)
      {
        StoredLater(sets[p], ids[p], nodes, nodes, e, last, 0, last);
        StoredSettles(sets[p], ids[p], nodes, last);
      }
      SettledAll(sets, frozen, last);
    }

    /** From here on the writer copies what it would have changed: the sets can be handed out. */
    method Freeze()
      requires Valid()
      modifies this`frozen, writer
      ensures Valid() && writer.epoch == 0 && frozen == old(frozen) + NodesIn(sets)
      ensures forall p :: p in sets ==> HandedOut(sets[p], ids[p], frozen)
      ensures Reach() == txn.Reach()
    {
      hide Sets.Sound, Housed, NodesIn, HandedOut, J.Txn.Valid;
      ghost var all := frozen + nodes;
      FreezeNodes();
      HousedPart(frozen + nodes, all, arrays);
    }

    /** The part of Freeze that concerns the nodes. */
    method FreezeNodes()
      requires Sound()
      modifies this`frozen, writer
      ensures Sound() && writer.epoch == 0 && frozen == old(frozen) + NodesIn(sets) && NodesIn(sets) <= nodes
      ensures forall p :: p in sets ==> HandedOut(sets[p], ids[p], frozen)
    {
      hide Node.Valid, Node.Shape, Sealed, Guards, Free, Past, Holds, Later, Closed, Settled;
      FrozenFacts();
      ghost var last := writer.counter.last;
      writer.Freeze();
      frozen := frozen + NodesIn(sets);
      forall p | p in sets
        ensures InStore(sets[p], ids[p], nodes, 0, last) && Repr(sets[p]) <= frozen
      {
        assert old(InStore(sets[p], ids[p], nodes, 0, last));
      }
      assert old(Settled(frozen + NodesIn(sets), 0, last));
    }

    /** Hands out the tree of the sets, which have been frozen: it will not follow later writes. */
    method FreezeTree() returns (t: J.Tree<Place, Bitmap>)
      requires Valid() && forall p :: p in sets ==> HandedOut(sets[p], ids[p], frozen)
      modifies txn`dirty, txn`frozen
      ensures Valid() && t == txn.tree && TreeOut(t, ids, frozen) && !txn.dirty && txn.frozen == old(txn.frozen) + {t}
      ensures forall x :: x in Reach() ==> x in old(Reach())
    {
      hide Node.Valid, Node.Shape, Sealed, Guards, Free, Past, Holds, NoShare, Closed, Housed, InStore, Settled;
      txn.Freeze();
      t := txn.tree;
    }

    /** Starts from a tree that has been handed out. */
    method Load(t: J.Tree<Place, Bitmap>, ghost ids: map<Place, set<nat>>)
      requires Valid() && t in txn.frozen && TreeOut(t, ids, frozen)
      modifies this`sets, this`ids, this`nodes, this`arrays, txn`tree, txn`dirty
      ensures Valid() && this.ids == ids && nodes <= frozen && Reach() == {} && txn.tree == t
    {
      hide Sets.Sound, J.Txn.Valid, Housed, HandedOut, NodesIn, OwnedIn;
      ghost var all := frozen + nodes;
      LoadNodes(t.contents, ids);
      txn.Load(t);
      HousedPart(frozen + nodes, all, arrays);
    }

    /** The part of Load that concerns the nodes. */
    ghost method LoadNodes(sets: map<Place, Bitmap>, ids: map<Place, set<nat>>)
      requires Sound() && sets.Keys == ids.Keys && forall p :: p in sets ==> HandedOut(sets[p], ids[p], frozen)
      modifies this`sets, this`ids, this`nodes
      ensures Sound() && this.sets == sets && this.ids == ids && nodes <= frozen && OwnedIn(nodes, writer.epoch) == {}
    {
      hide Node.Valid, Node.Shape, Sealed, Guards, Free, NoShare, Past, Holds, Later, Closed, Settled, InStore;
      var e, last := writer.epoch, writer.counter.last;
      this.sets, this.ids, nodes := sets, ids, NodesIn(sets);
      assert Past(nodes, last) by { PartPast(nodes, frozen, e, last); }
      forall p | p in sets
        ensures InStore(sets[p], ids[p], nodes, e, last) && (sets[p] != null ==> sets[p] in Repr(sets[p]))
      {
        KeptStored(sets[p], ids[p], frozen, nodes, e, last);
      }
      forall p, q | p in sets && q in sets && p != q
        ensures NoShare(Repr(sets[p]), Repr(sets[q]), e)
      {
        KeptApart(Repr(sets[p]), Repr(sets[q]), frozen, e, last);
      }
      OutOfReach(nodes, frozen, e, last);
    }

    /** A set computed from kept ones is kept as well. */
    ghost method Keep(b: Bitmap, held: set<nat>, more: set<Node>)
      requires Valid() && Holds(b, held) && Repr(b) <= frozen + more
      requires AllBacked(more) && forall x :: x in more ==> x.epoch == 0
      modifies this`frozen, this`arrays
      ensures Valid() && frozen == old(frozen) + Repr(b) && HandedOut(b, held, frozen)
    {
      hide Sets.Sound, Housed, AllBacked, Holds, J.Txn.Valid;
      var all, house := frozen + nodes + more, arrays + Arrays(more);
      HousedBoth(frozen + nodes, more, arrays);
      KeepNodes(b, held, more);
      HousedPart(frozen + nodes, all, house);
    }

    ghost method KeepNodes(b: Bitmap, held: set<nat>, more: set<Node>)
      requires Sound() && Holds(b, held) && Repr(b) <= frozen + more && forall x :: x in more ==> x.epoch == 0
      modifies this`frozen, this`arrays
      ensures Sound() && frozen == old(frozen) + Repr(b) && arrays == old(arrays) + Arrays(more)
    {
      hide Node.Valid, Node.Shape, Sealed, Guards, NoShare, Later, Holds, Closed, Free, Past, Settled;
      HoldsClosed(b, held);
      SettledMore(frozen, Repr(b), more, writer.epoch, writer.counter.last);
      frozen, arrays := frozen + Repr(b), arrays + Arrays(more);
    }

    /** After a change of the set at p: all is in order under the writer's new epoch. */
    lemma StillValid(p: Place, was: set<Node>, all: set<Node>, e: nat, last: nat)
      requires Later(e, last, writer.epoch, writer.counter.last) && writer.epoch <= writer.counter.last
      requires sets.Keys == ids.Keys && all <= nodes && Past(nodes, writer.counter.last)
      requires Others(sets, ids, p, was, Repr(At(p)), all, e, last)
      requires p in sets ==> InStore(sets[p], ids[p], nodes, writer.epoch, writer.counter.last)
      requires Settled(frozen, e, last)
      ensures Sound()
    {
      hide Node.Valid, Node.Shape, Sealed, Guards, Canon, Free, NoShare, Past, Holds, Later, Closed, Settled;
      var e', last' := writer.epoch, writer.counter.last;
      forall q | q in sets && q != p
        ensures InStore(sets[q], ids[q], nodes, e', last')
      {
        StoredLater(sets[q], ids[q], all, nodes, e, last, e', last');
      }
      forall q, t | q in sets && t in sets && q != t
        ensures NoShare(Repr(sets[q]), Repr(sets[t]), e')
      {
        if q == p {
          NoShareChanged(Repr(At(p)), was, Repr(sets[t]), e, last, e', last');
        } else if t == p {
          NoShareChanged(Repr(At(p)), was, Repr(sets[q]), e, last, e', last');
        } else {
          NoShareLater(Repr(sets[q]), Repr(sets[t]), e, last, e', last');
        }
      }
      SettledLater(frozen, e, last, e', last');
    }
  }

  lemma Frozen(e: nat, last: nat)
    ensures Later(e, last, 0, last)
  {
  }

  lemma HoldsClosed(b: Bitmap, ids: set<nat>)
    requires Holds(b, ids)
    ensures Closed(Repr(b)) && (b != null ==> b in Repr(b))
  {
    hide Node.Shape;
    if b != null {
      NodeFacts(b);
    }
  }

  lemma StoredSettles(b: Bitmap, ids: set<nat>, nodes: set<Node>, last: nat)
    requires InStore(b, ids, nodes, 0, last)
    ensures Settled(Repr(b), 0, last) && Holds(b, ids)
  {
    hide Node.Valid, Node.Shape, Guards, Holds;
    HoldsClosed(b, ids);
  }

  lemma SettledAll(sets: map<Place, Bitmap>, frozen: set<Node>, last: nat)
    requires Settled(frozen, 0, last) && forall p :: p in sets ==> Settled(Repr(sets[p]), 0, last)
    ensures Settled(frozen + NodesIn(sets), 0, last)
  {
    forall x | x in frozen + NodesIn(sets)
      ensures x.epoch <= last && x.repr <= frozen + NodesIn(sets)
    {
      if x in NodesIn(sets) {
        var p :| p in sets && x in Repr(sets[p]);
        assert Settled(Repr(sets[p]), 0, last);
        assert x.repr <= Repr(sets[p]) <= NodesIn(sets);
      }
    }
  }

  lemma KeptStored(b: Bitmap, ids: set<nat>, frozen: set<Node>, nodes: set<Node>, e: nat, last: nat)
    requires HandedOut(b, ids, frozen) && Settled(frozen, e, last) && Repr(b) <= nodes
    ensures InStore(b, ids, nodes, e, last) && (b != null ==> b in Repr(b))
  {
    hide Node.Valid, Node.Shape, Canon;
    HoldsClosed(b, ids);
    SealedFree(b, e, last);
  }

  lemma OutOfReach(nodes: set<Node>, frozen: set<Node>, e: nat, last: nat)
    requires nodes <= frozen && Settled(frozen, e, last)
    ensures forall x :: x in nodes && x.epoch == e ==> e == 0
  {
  }

  lemma PartPast(nodes: set<Node>, frozen: set<Node>, e: nat, last: nat)
    requires nodes <= frozen && Settled(frozen, e, last)
    ensures Past(nodes, last)
  {
  }

  lemma KeptApart(a: set<Node>, b: set<Node>, frozen: set<Node>, e: nat, last: nat)
    requires a <= frozen && b <= frozen && Settled(frozen, e, last)
    ensures NoShare(a, b, e)
  {
  }

  /** A newly drawn epoch owns none of the nodes there were. */
  lemma OwnedLater(nodes: set<Node>, more: set<Node>, e: nat, last: nat, e': nat, last': nat)
    requires Past(nodes, last) && Later(e, last, e', last')
    ensures OwnedIn(nodes + more, e') <= OwnedIn(nodes, e) + Area(more - nodes)
  {
  }

  lemma PastMore(nodes: set<Node>, more: set<Node>, e: nat, last: nat, e': nat, last': nat)
    requires Past(nodes, last) && Later(e, last, e', last') && Sealed(more, e', last')
    ensures Past(nodes + more, last')
  {
    hide Guards;
  }

  lemma Stored(b: Bitmap, ids: set<nat>, nodes: set<Node>, e: nat, last: nat)
    requires Holds(b, ids) && Repr(b) <= nodes && Sealed(Repr(b), e, last)
    ensures InStore(b, ids, nodes, e, last)
  {
    HoldsSelf(b, ids);
  }

  lemma EmptyHolds()
    ensures Holds(null, {})
  {
  }

  lemma Emptied(b: Bitmap, ids: set<nat>)
    requires Holds(b, ids)
    ensures b == null <==> ids == {}
  {
    hide Node.Shape;
    if b != null {
      NodeFacts(b);
    }
  }
}
