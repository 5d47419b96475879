/** The row bookkeeping of a table under a write transaction: primary key to row id, row id to row, and the
    row-id sets, on the persistent structures that the transaction's writers change in place. */
module RowBook {
  import opened Epochs
  import opened IdSpace
  import opened VecShapes
  import opened TableSchema
  import opened RowModel
  import J = Juuri
  import S = SetStore
  import V = VecStore
  import BN = BitmapNode
  import BQ = BitmapQuery
  import BW = BitmapWorld
  import VN = VecNode
  import VQ = VecQuery

  /** The two panics of the source are outcomes here. */
  datatype Outcome = Done | NoRowId | OutOfIds

  /** Every id the bookkeeping mentions is below next. */
  ghost predicate Bounded(b: Books)
  {
    && b.next < UINT32
    && (forall k :: k in b.ids ==> b.ids[k] < b.next)
    && (forall id :: id in Unused(b) ==> id < b.next)
    && (forall id :: id in b.vec ==> id < b.next)
    && (forall k :: k in b.ids ==> b.ids[k] in InUse(b))
    && NoneEmpty(b.sets)
  }

  lemma BoundedIds(b: Books)
    requires Bounded(b)
    ensures b.next < UINT32 && (forall l :: l in b.ids ==> b.ids[l] < b.next && b.ids[l] in InUse(b))
    ensures forall x :: x in Unused(b) ==> x < b.next
  {
  }

  /** The set at p after the old values in `keys` that are not in `but` have been left. */
  function Left(s: set<nat>, p: S.Place, i: nat, id: nat, keys: seq<Bytes>, but: seq<Bytes>): set<nat>
  {
    if p.ValueSet? && p.index == i && p.key in keys && p.key !in but then s - {id} else s
  }

  /** The set at p after the new values in `keys` that are not in `but` have been joined. */
  function Joined(s: set<nat>, p: S.Place, i: nat, id: nat, keys: seq<Bytes>, but: seq<Bytes>): set<nat>
  {
    if p.ValueSet? && p.index == i && p.key in keys && p.key !in but then s + {id} else s
  }

  /** Only values of indexes below n have been moved. */
  function MovedBelow(s: set<nat>, p: S.Place, n: nat, id: nat, olds: seq<seq<Bytes>>, news: seq<seq<Bytes>>): set<nat>
    requires |olds| == |news|
  {
    if p.ValueSet? && p.index < n then MovedAt(s, p, id, olds, news) else s
  }

  lemma ChangeLeaves(sets: map<S.Place, set<nat>>, was: map<S.Place, set<nat>>, i: nat, id: nat, olds: seq<Bytes>,
                     j: nat, but: seq<Bytes>)
    requires j < |olds| && NoneEmpty(sets)
    requires forall p :: S.SetAt(sets, p) == Left(S.SetAt(was, p), p, i, id, olds[..j], but)
    ensures var place := S.ValueSet(i, olds[j]);
      var now := if olds[j] in but || place !in sets then sets else S.Changed(sets, place, id, false);
      NoneEmpty(now) && (forall p :: S.SetAt(now, p) == Left(S.SetAt(was, p), p, i, id, olds[..j + 1], but))
      && (forall p :: p in now ==> p in sets)
  {
    assert olds[..j + 1] == olds[..j] + [olds[j]];
  }

  lemma ChangeJoins(sets: map<S.Place, set<nat>>, was: map<S.Place, set<nat>>, i: nat, id: nat, news: seq<Bytes>,
                    j: nat, but: seq<Bytes>)
    requires j < |news| && NoneEmpty(sets)
    requires forall p :: S.SetAt(sets, p) == Joined(S.SetAt(was, p), p, i, id, news[..j], but)
    ensures var now := if news[j] in but then sets else S.Changed(sets, S.ValueSet(i, news[j]), id, true);
      NoneEmpty(now) && (forall p :: S.SetAt(now, p) == Joined(S.SetAt(was, p), p, i, id, news[..j + 1], but))
      && (forall p :: p in now && p.ValueSet? ==> p in sets || p.index == i)
  {
    assert news[..j + 1] == news[..j] + [news[j]];
  }

  /** The part of a write that concerns the ids. */
  ghost predicate Numbered(ids: map<Bytes, nat>, sets: map<S.Place, set<nat>>, next: nat, k: Bytes, obj: Value,
                           existed: bool,
                           id: nat, ids': map<Bytes, nat>, sets': map<S.Place, set<nat>>, next': nat)
  {
    var used, unused := S.SetAt(sets, S.AllIds), S.SetAt(sets, S.FreeIds);
    && (existed ==> k in ids)
    && id == (if existed then ids[k] else NextId(unused, next))
    && ids' == (if obj == Nil then ids - {k} else ids[k := id])
    && next' == (if existed || unused != {} then next else next + 1)
    && ((existed && obj != Nil) || S.SetAt(sets', S.AllIds) == (if obj == Nil then used - {id} else used + {id}))
    && ((existed && obj != Nil) || S.SetAt(sets', S.FreeIds) == (if obj == Nil then unused + {id} else unused - {id}))
    && (existed && obj != Nil ==> sets' == sets)
    && sets' - {S.AllIds, S.FreeIds} == sets - {S.AllIds, S.FreeIds}
  }

  /** One immutable version of the bookkeeping: `tableRows`, and the trees of the bitmap indexes. */
  datatype Version = Version(ids: J.Tree<Bytes, nat>, sets: J.Tree<S.Place, BN.Bitmap>, vec: VQ.Vector, next: nat)

  /** All that has been handed out and never changes: nodes of sets, nodes of the row vector, and trees. */
  datatype Frozen = Frozen(sets: set<BN.Node>, rows: set<VN.Node>, ids: set<J.Tree<Bytes, nat>>,
                           trees: set<J.Tree<S.Place, BN.Bitmap>>)

  ghost predicate Within(z: Frozen, z': Frozen)
  {
    z.sets <= z'.sets && z.rows <= z'.rows && z.ids <= z'.ids && z.trees <= z'.trees
  }

  /** The version has been handed out: it says what b says, in trees and nodes that never change. */
  ghost predicate Describes(v: Version, b: Books, z: Frozen)
    reads v.ids, v.sets, v.vec.root, VN.ReprOf(v.vec.root)
    reads set p | p in v.sets.contents && v.sets.contents[p] != null :: v.sets.contents[p]
    reads set p, x | p in v.sets.contents && v.sets.contents[p] != null && x in v.sets.contents[p].repr :: x
  {
    && v.ids in z.ids && v.ids.contents == b.ids && v.next == b.next
    && v.sets in z.trees && S.TreeOut(v.sets, b.sets, z.sets)
    && V.HandedOut(v.vec, b.vec, z.rows)
  }

  lemma DescribesMore(v: Version, b: Books, z: Frozen, z': Frozen)
    requires Describes(v, b, z) && Within(z, z')
    ensures Describes(v, b, z')
  {
    hide BW.Holds, V.Holds;
  }

  class Book {
    const sets: S.Sets
    const rows: V.Rows
    const txn: J.Txn<Bytes, nat>
    ghost var ids: map<Bytes, nat>
    var next: nat

    ghost predicate Valid()
      reads this, sets, sets.writer, sets.writer.counter, sets.txn, sets.txn.tree, sets.nodes, sets.frozen, sets.arrays
      reads rows, rows.writer, rows.writer.counter, rows.nodes, rows.frozen, rows.arrays
      reads txn, txn.tree
    {
      sets.Valid() && rows.Valid() && sets.writer.counter != rows.writer.counter && IdsStored()
    }

    /** The id tree holds the ids. */
    ghost predicate IdsStored()
      reads this, txn, txn.tree
    {
      txn.Valid() && txn.Contents() == ids
    }

    ghost function State(): Books
      reads this, sets, rows, rows.vec.root
    {
      Books(ids, rows.Contents(), sets.ids, next)
    }

    ghost function Kept(): Frozen
      reads sets, sets.txn, rows, txn
    {
      Frozen(sets.frozen, rows.frozen, txn.frozen, sets.txn.frozen)
    }

    /** What a write may change: the objects, the nodes the two writers own, and the trees. */
    ghost function Reach(): set<object>
      reads this, sets, sets.writer, sets.txn, rows, rows.writer, rows.vec.root, txn
    {
      {this, sets, sets.writer, sets.writer.counter, sets.txn, rows, rows.writer, rows.writer.counter, txn}
      + sets.Reach() + rows.Reach() + txn.Reach()
    }

    constructor ()
      ensures Valid() && State() == NO_BOOKS && rows.vec == VQ.EMPTY
      ensures fresh(Reach())
    {
      hide S.Sets.Valid, V.Rows.Valid, S.Sets.Reach, V.Rows.Reach, J.Txn.Valid, V.Rows.Contents;
      var t, r := Empty();
      var m := new J.Txn<Bytes, nat>(1);
      sets, rows, txn, ids, next := t, r, m, map[], 0;
    }

    static method Empty() returns (t: S.Sets, r: V.Rows)
      ensures t.Valid() && t.ids == map[] && r.Valid() && r.vec == VQ.EMPTY && r.Contents() == map[]
      ensures t.writer.counter != r.writer.counter && t.Reach() == {} && r.Reach() == {}
      ensures fresh(t) && fresh(t.writer) && fresh(t.writer.counter) && fresh(t.txn)
      ensures fresh(r) && fresh(r.writer) && fresh(r.writer.counter)
    {
      hide S.Sets.Valid, V.Rows.Valid, S.Sets.Reach, V.Rows.Reach, VN.MapOf, VQ.ContentsOf;
      var c := new EpochCounter();
      var d := new EpochCounter();
      r := new V.Rows(d);
      t := new S.Sets(c, 0);
    }

    /** Moves a row from its old values in one bitmap index to its new ones. Values it keeps are not touched. */
    method MoveValues(i: nat, id: nat, olds: seq<Bytes>, news: seq<Bytes>)
      requires sets.Valid() && id < UINT32 && NoneEmpty(sets.ids)
      modifies sets`sets, sets`ids, sets`nodes, sets`arrays, sets.writer, sets.writer.counter, sets.txn`tree
      modifies sets.txn`dirty, sets.Reach()
      ensures sets.Valid() && NoneEmpty(sets.ids)
      ensures forall p ::
        S.SetAt(sets.ids, p) == Joined(Left(S.SetAt(old(sets.ids), p), p, i, id, olds, news), p, i, id, news, olds)
      ensures forall p :: p in sets.ids && p.ValueSet? ==> p in old(sets.ids) || p.index == i
      ensures forall x :: x in sets.Reach() ==> x in old(sets.Reach()) || fresh(x)
    {
      hide S.Sets.Reach, V.Rows.Reach, S.Sets.Valid, S.Changed, S.SetAt, NoneEmpty, Left, Joined;
      ghost var was := sets.ids;
      NothingLeft(was, i, id, news);
      var j := 0;
      while j < |olds|
        invariant j <= |olds| && sets.Valid() && NoneEmpty(sets.ids)
        invariant forall p :: S.SetAt(sets.ids, p) == Left(S.SetAt(was, p), p, i, id, olds[..j], news)
        invariant forall p :: p in sets.ids ==> p in was
        invariant forall x :: x in sets.Reach() ==> x in old(sets.Reach()) || fresh(x)
      {
        ChangeLeaves(sets.ids, was, i, id, olds, j, news);
        var place := S.ValueSet(i, olds[j]);
        SameKeys();
        if olds[j] !in news && place in sets.txn.tree.contents {
          sets.Change(place, id, false);
        }
        j := j + 1;
      }
      assert olds[..j] == olds;
      ghost var mid := sets.ids;
      NothingJoined(mid, i, id, olds);
      j := 0;
      while j < |news|
        invariant j <= |news| && sets.Valid() && NoneEmpty(sets.ids)
        invariant forall p :: S.SetAt(sets.ids, p) == Joined(S.SetAt(mid, p), p, i, id, news[..j], olds)
        invariant forall p :: p in sets.ids && p.ValueSet? ==> p in was || p.index == i
        invariant forall x :: x in sets.Reach() ==> x in old(sets.Reach()) || fresh(x)
      {
        ChangeJoins(sets.ids, mid, i, id, news, j, olds);
        if news[j] !in olds {
          sets.Change(S.ValueSet(i, news[j]), id, true);
        }
        j := j + 1;
      }
      assert news[..j] == news;
    }

    /** The values of every bitmap index in turn. */
    method MoveAll(id: nat, olds: seq<seq<Bytes>>, news: seq<seq<Bytes>>)
      requires sets.Valid() && id < UINT32 && NoneEmpty(sets.ids) && |olds| == |news|
      modifies sets`sets, sets`ids, sets`nodes, sets`arrays, sets.writer, sets.writer.counter, sets.txn`tree
      modifies sets.txn`dirty, sets.Reach()
      ensures sets.Valid() && NoneEmpty(sets.ids)
      ensures Moved(old(sets.ids), sets.ids, id, olds, news)
      ensures S.SetAt(sets.ids, S.AllIds) == old(S.SetAt(sets.ids, S.AllIds))
      ensures S.SetAt(sets.ids, S.FreeIds) == old(S.SetAt(sets.ids, S.FreeIds))
      ensures forall p :: p in sets.ids && p.ValueSet? ==> p in old(sets.ids) || p.index < |news|
      ensures forall x :: x in sets.Reach() ==> x in old(sets.Reach()) || fresh(x)
    {
      hide S.Sets.Reach, V.Rows.Reach, S.Sets.Valid, S.Changed, S.SetAt, NoneEmpty, Left, Joined, MovedBelow;
      ghost var was := sets.ids;
      BelowNothing(was, id, olds, news);
      var i := 0;
      while i < |news|
        invariant i <= |news| && sets.Valid() && NoneEmpty(sets.ids)
        invariant forall p :: S.SetAt(sets.ids, p) == MovedBelow(S.SetAt(was, p), p, i, id, olds, news)
        invariant forall p :: p in sets.ids && p.ValueSet? ==> p in was || p.index < i
        invariant forall x :: x in sets.Reach() ==> x in old(sets.Reach()) || fresh(x)
      {
        if news[i] != [] || olds[i] != [] {
          MoveValues(i, id, olds[i], news[i]);
        } else {
          NothingLeft(sets.ids, i, id, []);
          NothingJoined(sets.ids, i, id, []);
        }
        forall p: S.Place
          ensures Joined(Left(MovedBelow(S.SetAt(was, p), p, i, id, olds, news), p, i, id, olds[i], news[i]), p, i, id,
            news[i], olds[i])
            == MovedBelow(S.SetAt(was, p), p, i + 1, id, olds, news)
        {
          OneIndex(S.SetAt(was, p), p, i, id, olds, news);
        }
        i := i + 1;
      }
      AllBelow(was, sets.ids, id, olds, news);
    }

    /** The id of a deleted row goes from the ids in use to the free ones. */
    method GiveBack(id: nat)
      requires sets.Valid() && id < UINT32
      modifies sets`sets, sets`ids, sets`nodes, sets`arrays, sets.writer, sets.writer.counter, sets.txn`tree
      modifies sets.txn`dirty, sets.Reach()
      ensures sets.Valid()
      ensures S.SetAt(sets.ids, S.AllIds) == old(S.SetAt(sets.ids, S.AllIds)) - {id}
      ensures S.SetAt(sets.ids, S.FreeIds) == old(S.SetAt(sets.ids, S.FreeIds)) + {id}
      ensures sets.ids - {S.AllIds, S.FreeIds} == old(sets.ids) - {S.AllIds, S.FreeIds}
      ensures forall x :: x in sets.Reach() ==> x in old(sets.Reach()) || fresh(x)
    {
      hide S.Sets.Reach, V.Rows.Reach, S.Sets.Valid, S.Changed, S.SetAt;
      ChangedBook(sets.ids, S.AllIds, id, false);
      sets.Change(S.AllIds, id, false);
      ChangedBook(sets.ids, S.FreeIds, id, true);
      sets.Change(S.FreeIds, id, true);
    }

    /** The id of a new row: the least free one, or the next one, unless the ids have run out. */
    method Take() returns (id: nat, ok: bool)
      requires sets.Valid() && next < UINT32 && forall x :: x in S.SetAt(sets.ids, S.FreeIds) ==> x < next
      modifies this`next, sets`sets, sets`ids, sets`nodes, sets`arrays, sets.writer, sets.writer.counter, sets.txn`tree
      modifies sets.txn`dirty, sets.Reach()
      ensures sets.Valid()
      ensures ok <==> old(S.SetAt(sets.ids, S.FreeIds)) != {} || old(next) + 1 < UINT32
      ensures ok ==> id == NextId(old(S.SetAt(sets.ids, S.FreeIds)), old(next)) && id < next < UINT32
      ensures ok ==> next == (if old(S.SetAt(sets.ids, S.FreeIds)) != {} then old(next) else old(next) + 1)
      ensures ok ==> S.SetAt(sets.ids, S.AllIds) == old(S.SetAt(sets.ids, S.AllIds)) + {id}
      ensures ok ==> S.SetAt(sets.ids, S.FreeIds) == old(S.SetAt(sets.ids, S.FreeIds)) - {id}
      ensures sets.ids - {S.AllIds, S.FreeIds} == old(sets.ids) - {S.AllIds, S.FreeIds}
      ensures forall x :: x in sets.Reach() ==> x in old(sets.Reach()) || fresh(x)
    {
      hide S.Sets.Reach, V.Rows.Reach, S.Sets.Valid, S.Changed, S.SetAt, BN.Canon;
      FreeSet();
      ghost var unused := S.SetAt(sets.ids, S.FreeIds);
      var min;
      var free := if S.FreeIds in sets.txn.tree.contents then sets.txn.tree.contents[S.FreeIds] else null;
      min, ok := BQ.Min(free);
      if ok {
        id := min;
        LeastIs(id, unused);
        ChangedBook(sets.ids, S.FreeIds, id, false);
        sets.Change(S.FreeIds, id, false);
      } else {
        id := next;
        if next + 1 == UINT32 {
          return;
        }
        ok, next := true, next + 1;
        assert unused - {id} == unused;
      }
      ChangedBook(sets.ids, S.AllIds, id, true);
      sets.Change(S.AllIds, id, true);
    }

    /** Maps a primary key to a row id. */
    method MapId(k: Bytes, id: nat)
      requires IdsStored()
      modifies this`ids, txn`tree, txn`dirty, txn.Reach()
      ensures IdsStored() && ids == old(ids)[k := id]
      ensures forall x :: x in txn.Reach() ==> x in old(txn.Reach()) || fresh(x)
    {
      txn.Insert(k, id);
      ids := ids[k := id];
    }

    method UnmapId(k: Bytes)
      requires IdsStored()
      modifies this`ids, txn`tree, txn`dirty, txn.Reach()
      ensures IdsStored() && ids == old(ids) - {k}
      ensures forall x :: x in txn.Reach() ==> x in old(txn.Reach()) || fresh(x)
    {
      txn.Delete(k);
      ids := ids - {k};
    }

    /** The row id of a write; the primary key is mapped to it, or no longer for a delete. */
    method Number(k: Bytes, obj: Value, existed: bool) returns (id: nat, res: Outcome)
      requires sets.Valid() && next < UINT32 && (forall x :: x in S.SetAt(sets.ids, S.FreeIds) ==> x < next)
      requires (forall l :: l in ids ==> ids[l] < next) && (!existed ==> obj != Nil) && IdsStored()
      modifies this, sets`sets, sets`ids, sets`nodes, sets`arrays, sets.writer, sets.writer.counter, sets.txn`tree
      modifies sets.txn`dirty, sets.Reach()
      modifies txn`tree, txn`dirty, txn.Reach()
      ensures sets.Valid() && IdsStored()
      ensures forall x :: x in sets.Reach() ==> x in old(sets.Reach()) || fresh(x)
      ensures forall x :: x in txn.Reach() ==> x in old(txn.Reach()) || fresh(x)
      ensures res == (if existed && k !in old(ids) then NoRowId
                      else if !existed && old(S.SetAt(sets.ids, S.FreeIds)) == {}
                        && old(next) + 1 == UINT32 then OutOfIds else Done)
      ensures res.Done? ==> id < next < UINT32
      ensures res.Done? ==> Numbered(old(ids), old(sets.ids), old(next), k, obj, existed, id, ids, sets.ids, next)
    {
      hide S.Sets.Reach, V.Rows.Reach, S.Sets.Valid, S.SetAt, J.Txn.Valid;
      if existed {
        if k !in txn.tree.contents {
          return 0, NoRowId;
        }
        id := txn.tree.contents[k];
        if obj == Nil {
          UnmapId(k);
          GiveBack(id);
        } else {
          assert ids[k := id] == ids;
        }
      } else {
        var ok;
        id, ok := Take();
        if !ok {
          return id, OutOfIds;
        }
        MapId(k, id);
      }
      res := Done;
    }

    /** What `freezeRows` does: from here on the writers and the id tree copy what they would change. */
    method FreezeRows()
      requires Valid()
      modifies sets`frozen, sets.writer, rows`frozen, rows.writer, txn`dirty, txn`frozen
      ensures Valid() && State() == old(State()) && Within(old(Kept()), Kept())
      ensures sets.txn.frozen == old(sets.txn.frozen)
      ensures txn.tree in txn.frozen && V.HandedOut(rows.vec, rows.Contents(), rows.frozen) && rows.Reach() == {}
      ensures forall p :: p in sets.sets ==> S.HandedOut(sets.sets[p], sets.ids[p], sets.frozen)
      ensures forall x :: x in Reach() ==> x in old(Reach())
    {
      hide S.NodesIn, J.Txn.Valid, S.Sets.Valid, V.Rows.Valid, VN.Node.Valid, BN.Canon;
      sets.Freeze();
      assert sets.Valid();
      assert old(rows.Valid());
      rows.Freeze();
      txn.Freeze();
      assert sets.Valid();
    }

    /** The current state as a version to hand out: no tree of it, and no node, will follow a later write. */
    method Freeze() returns (v: Version)
      requires Valid()
      modifies sets`frozen, sets.writer, sets.txn`dirty, sets.txn`frozen, rows`frozen, rows.writer, txn`dirty
      modifies txn`frozen
      ensures Valid() && State() == old(State()) && Within(old(Kept()), Kept())
      ensures Describes(v, State(), Kept()) && v.vec == rows.vec
      ensures forall x :: x in Reach() ==> x in old(Reach())
    {
      hide S.HandedOut, V.HandedOut, S.Sets.Sound, V.Rows.Valid, BN.Housed, VN.Housed;
      FreezeRows();
      var t := sets.FreezeTree();
      v := Version(txn.tree, t, rows.vec, next);
    }

    /** Starts from a version that has been handed out. */
    method Load(v: Version, ghost b: Books)
      requires Valid() && Describes(v, b, Kept())
      modifies this, sets`sets, sets`ids, sets`nodes, sets`arrays, sets.txn`tree, sets.txn`dirty
      modifies rows`vec, rows`nodes, txn`tree, txn`dirty
      ensures Valid() && State() == b && rows.vec == v.vec && Kept() == old(Kept())
      ensures sets.Reach() == {} && rows.Reach() == {} && txn.Reach() == {}
      ensures forall x :: x in Reach() ==> x in old(Reach())
    {
      hide S.TreeOut, V.Holds, S.Sets.Valid, V.Rows.Valid, S.Sets.Reach, V.Rows.Reach, IdsStored, VN.MapOf;
      LoadIds(v);
      ghost var root := rows.vec.root;
      sets.Load(v.sets, b.sets);
      rows.Load(v.vec, b.vec);
    }

    method LoadIds(v: Version)
      requires IdsStored() && v.ids in txn.frozen
      modifies this`ids, this`next, txn`tree, txn`dirty
      ensures IdsStored() && ids == v.ids.contents && next == v.next && txn.Reach() == {}
    {
      txn.Load(v.ids);
      ids, next := v.ids.contents, v.next;
    }

    /** A set computed from frozen ones is frozen as well. */
    ghost method Keep(b: BN.Bitmap, held: set<nat>)
      requires Valid() && BW.Holds(b, held) && BN.AllBacked(BN.Repr(b))
      requires forall x :: x in BN.Repr(b) ==> x in Kept().sets || x.epoch == 0
      modifies sets`frozen, sets`arrays
      ensures Valid() && State() == old(State()) && rows.vec == old(rows.vec)
      ensures Within(old(Kept()), Kept()) && S.HandedOut(b, held, Kept().sets)
      ensures Reach() == old(Reach())
    {
      hide S.Sets.Valid, V.Rows.Valid, IdsStored, BW.Holds, BN.AllBacked, BN.Backed, VN.MapOf;
      var more := BN.Repr(b) - sets.frozen;
      BN.PartBacked(more, BN.Repr(b));
      sets.Keep(b, held, more);
    }

    /** Brings the bookkeeping and the bitmap indexes in line with a write: obj (Nil for a delete) takes the
        place of the row there was under key k, if there was one. olds and news are the values the two
        rows have in each bitmap index. */
    method Apply(k: Bytes, obj: Value, existed: bool, olds: seq<seq<Bytes>>, news: seq<seq<Bytes>>)
      returns (res: Outcome)
      requires Valid() && Bounded(State()) && |olds| == |news| && (!existed ==> obj != Nil)
      modifies this, sets`sets, sets`ids, sets`nodes, sets`arrays, sets.writer, sets.writer.counter, sets.txn`tree
      modifies sets.txn`dirty
      modifies rows`vec, rows`nodes, rows`arrays, rows.writer, rows.writer.counter, txn`tree, txn`dirty
      modifies sets.Reach(), rows.Reach(), txn.Reach()
      ensures Valid()
      ensures res == (if existed && k !in old(ids) then NoRowId
                      else if !existed && Unused(old(State())) == {} && old(next) + 1 == UINT32 then OutOfIds else Done)
      ensures res.Done? ==> Applied(old(State()), State(), k, obj, existed, olds, news)
      ensures Kept() == old(Kept())
      ensures forall x :: x in Reach() ==> x in old(Reach()) || fresh(x)
      ensures res.Done? && (obj != Nil || (k in old(ids) && old(ids)[k] in old(rows.Contents()))) ==>
        rows.vec.root == null || fresh(rows.vec.root) || rows.vec.root in old(rows.Reach())
    {
      hide S.Sets.Reach, V.Rows.Reach, S.Sets.Valid, V.Rows.Valid, S.SetAt, Applied, Numbered, IdsStored, J.Txn.Reach;
      hide Bounded, VN.MapOf, Book.Kept, NextId;
      ghost var b := State();
      var id;
      id, res := Identify(k, obj, existed);
      if res.Done? {
        Settle(k, obj, existed, id, olds, news, b);
      }
    }

    /** The part of Apply that concerns the ids: the row vector is not touched. */
    method Identify(k: Bytes, obj: Value, existed: bool) returns (id: nat, res: Outcome)
      requires Valid() && Bounded(State()) && (!existed ==> obj != Nil)
      modifies this, sets`sets, sets`ids, sets`nodes, sets`arrays, sets.writer, sets.writer.counter, sets.txn`tree
      modifies sets.txn`dirty, sets.Reach()
      modifies txn`tree, txn`dirty, txn.Reach()
      ensures Valid() && rows.Contents() == old(rows.Contents()) && rows.Reach() == old(rows.Reach())
      ensures Kept() == old(Kept())
      ensures forall x :: x in sets.Reach() ==> x in old(sets.Reach()) || fresh(x)
      ensures forall x :: x in txn.Reach() ==> x in old(txn.Reach()) || fresh(x)
      ensures res == (if existed && k !in old(ids) then NoRowId
                      else if !existed && Unused(old(State())) == {} && old(next) + 1 == UINT32 then OutOfIds else Done)
      ensures res.Done? ==> id < next < UINT32
      ensures res.Done? ==> Numbered(old(ids), old(sets.ids), old(next), k, obj, existed, id, ids, sets.ids, next)
    {
      hide S.Sets.Reach, V.Rows.Reach, S.Sets.Valid, V.Rows.Valid, S.SetAt, Numbered, IdsStored, J.Txn.Reach, Bounded;
      hide VN.MapOf;
      ghost var b := State();
      assert Unused(b) == S.SetAt(sets.ids, S.FreeIds);
      BoundedIds(b);
      id, res := Number(k, obj, existed);
    }

    /** The part of Apply after the id is known. */
    method Settle(k: Bytes, obj: Value, existed: bool, id: nat, olds: seq<seq<Bytes>>, news: seq<seq<Bytes>>,
                  ghost b: Books)
      requires Valid() && Bounded(b) && |olds| == |news| && id < next < UINT32 && rows.Contents() == b.vec
      requires Numbered(b.ids, b.sets, b.next, k, obj, existed, id, ids, sets.ids, next)
      modifies sets`sets, sets`ids, sets`nodes, sets`arrays, sets.writer, sets.writer.counter, sets.txn`tree
      modifies sets.txn`dirty, sets.Reach()
      modifies rows`vec, rows`nodes, rows`arrays, rows.writer, rows.writer.counter, rows.Reach()
      ensures Valid() && (existed ==> k in b.ids) && Applied(b, State(), k, obj, existed, olds, news)
      ensures Kept() == old(Kept())
      ensures forall x :: x in sets.Reach() ==> x in old(sets.Reach()) || fresh(x)
      ensures forall x :: x in rows.Reach() ==> x in old(rows.Reach()) || fresh(x)
      ensures obj != Nil || id in old(rows.Contents()) ==>
        rows.vec.root == null || fresh(rows.vec.root) || rows.vec.root in old(rows.Reach())
      ensures existed ==> id == b.ids[k]
    {
      hide S.Sets.Reach, V.Rows.Reach, S.Sets.Valid, V.Rows.Valid, S.SetAt, NoneEmpty, Put, Moved, Applied, Numbered;
      hide Bounded, IdsStored;
      ghost var mid, m, n := sets.ids, ids, next;
      BoundedIds(b);
      NumberedFacts(b, k, obj, existed, id, m, mid, n);
      Move(id, obj, olds, news);
      Assembled(b, k, obj, existed, olds, news, id, m, mid, n, State());
    }

    /** The row of an id, and its place in the bitmap indexes. */
    method Move(id: nat, obj: Value, olds: seq<seq<Bytes>>, news: seq<seq<Bytes>>)
      requires Valid() && |olds| == |news| && NoneEmpty(sets.ids)
      requires id < next < UINT32 && forall x :: x in rows.Contents() ==> x < next
      modifies sets`sets, sets`ids, sets`nodes, sets`arrays, sets.writer, sets.writer.counter, sets.txn`tree
      modifies sets.txn`dirty, sets.Reach()
      modifies rows`vec, rows`nodes, rows`arrays, rows.writer, rows.writer.counter, rows.Reach()
      ensures Valid() && NoneEmpty(sets.ids) && Moved(old(sets.ids), sets.ids, id, olds, news)
      ensures S.SetAt(sets.ids, S.AllIds) == old(S.SetAt(sets.ids, S.AllIds))
      ensures S.SetAt(sets.ids, S.FreeIds) == old(S.SetAt(sets.ids, S.FreeIds))
      ensures forall p :: p in sets.ids && p.ValueSet? ==> p in old(sets.ids) || p.index < |news|
      ensures rows.Contents() == Put(old(rows.Contents()), id, obj)
      ensures forall x :: x in sets.Reach() ==> x in old(sets.Reach()) || fresh(x)
      ensures forall x :: x in rows.Reach() ==> x in old(rows.Reach()) || fresh(x)
      ensures obj != Nil || id in old(rows.Contents()) ==>
        rows.vec.root == null || fresh(rows.vec.root) || rows.vec.root in old(rows.Reach())
    {
      hide S.Sets.Reach, V.Rows.Reach, S.Sets.Valid, V.Rows.Valid, S.SetAt, NoneEmpty, Put, Moved;
      SetRow(id, obj);
      ghost var root, reach := rows.vec.root, rows.Reach();
      MoveAll(id, olds, news);
      assert rows.vec.root == root && rows.Reach() == reach;
    }

    method SetRow(id: nat, obj: Value)
      requires rows.Valid() && id < next < UINT32 && forall x :: x in rows.Contents() ==> x < next
      modifies rows`vec, rows`nodes, rows`arrays, rows.writer, rows.writer.counter, rows.Reach()
      ensures rows.Valid() && rows.Contents() == Put(old(rows.Contents()), id, obj)
      ensures obj != Nil || id in old(rows.Contents()) ==>
        rows.vec.root == null || fresh(rows.vec.root) || rows.vec.root in old(rows.Reach())
      ensures forall x :: x in rows.Reach() ==> x in old(rows.Reach()) || fresh(x)
    {
      hide V.Rows.Valid, Put, Used;
      NeverFull(rows.Contents(), id, obj, next);
      rows.Set(id, obj);
    }

    /** The bitmap of the free ids. */
    lemma FreeSet()
      requires sets.Valid()
      ensures BN.Canon(sets.At(S.FreeIds)) && BN.Ids(sets.At(S.FreeIds)) == S.SetAt(sets.ids, S.FreeIds)
      ensures BN.AllBacked(BN.Repr(sets.At(S.FreeIds))) && sets.txn.Contents() == sets.sets
    {
      hide S.InStore, BN.Canon;
      if S.FreeIds in sets.sets {
        HoldsThere();
      } else {
        S.EmptyHolds();
      }
    }

    lemma HoldsThere()
      requires sets.Valid() && S.FreeIds in sets.sets
      ensures BW.Holds(sets.sets[S.FreeIds], sets.ids[S.FreeIds])
    {
      assert S.InStore(sets.sets[S.FreeIds], sets.ids[S.FreeIds], sets.nodes, sets.writer.epoch,
        sets.writer.counter.last);
      hide BW.Holds;
    }

    lemma SameKeys()
      requires sets.Valid()
      ensures sets.sets.Keys == sets.ids.Keys && sets.txn.Contents() == sets.sets
    {
    }
  }

  lemma NothingLeft(sets: map<S.Place, set<nat>>, i: nat, id: nat, but: seq<Bytes>)
    ensures forall p :: S.SetAt(sets, p) == Left(S.SetAt(sets, p), p, i, id, [], but)
  {
  }

  lemma NothingJoined(sets: map<S.Place, set<nat>>, i: nat, id: nat, but: seq<Bytes>)
    ensures forall p :: S.SetAt(sets, p) == Joined(S.SetAt(sets, p), p, i, id, [], but)
  {
  }

  lemma ChangedBook(sets: map<S.Place, set<nat>>, p: S.Place, id: nat, add: bool)
    requires !p.ValueSet?
    ensures var now := S.Changed(sets, p, id, add);
      && S.SetAt(now, p) == (if add then S.SetAt(sets, p) + {id} else S.SetAt(sets, p) - {id})
      && (forall q :: q != p ==> S.SetAt(now, q) == S.SetAt(sets, q))
      && now - {S.AllIds, S.FreeIds} == sets - {S.AllIds, S.FreeIds}
  {
  }

  lemma SameValues(was: map<S.Place, set<nat>>, now: map<S.Place, set<nat>>)
    requires now - {S.AllIds, S.FreeIds} == was - {S.AllIds, S.FreeIds}
    ensures NoneEmpty(was) ==> NoneEmpty(now)
    ensures forall p: S.Place :: p.ValueSet? ==> S.SetAt(now, p) == S.SetAt(was, p) && (p in now <==> p in was)
  {
    forall p: S.Place | p.ValueSet?
      ensures (p in now <==> p in was) && (p in was ==> was[p] == now[p])
    {
      assert p in now <==> p in now - {S.AllIds, S.FreeIds};
      assert p in was <==> p in was - {S.AllIds, S.FreeIds};
      if p in was {
        assert (was - {S.AllIds, S.FreeIds})[p] == was[p];
      }
    }
  }

  lemma SameMoves(b: map<S.Place, set<nat>>, mid: map<S.Place, set<nat>>, now: map<S.Place, set<nat>>, id: nat,
                  olds: seq<seq<Bytes>>, news: seq<seq<Bytes>>)
    requires |olds| == |news| && Moved(mid, now, id, olds, news)
    requires forall p: S.Place :: p.ValueSet? ==> S.SetAt(mid, p) == S.SetAt(b, p)
    ensures Moved(b, now, id, olds, news)
  {
    hide MovedAt;
  }

  lemma NumberedFacts(b: Books, k: Bytes, obj: Value, existed: bool, id: nat, ids: map<Bytes, nat>, sets: map<S.Place,
                      set<nat>>, next: nat)
    requires Bounded(b) && Numbered(b.ids, b.sets, b.next, k, obj, existed, id, ids, sets, next)
    ensures NoneEmpty(sets) && b.next <= next && forall x :: x in b.vec ==> x < next
    ensures existed ==> k in b.ids && id == b.ids[k]
  {
    SameValues(b.sets, sets);
  }

  lemma Assembled(b: Books, k: Bytes, obj: Value, existed: bool, olds: seq<seq<Bytes>>, news: seq<seq<Bytes>>,
                  id: nat, ids: map<Bytes, nat>, mid: map<S.Place, set<nat>>, next: nat, b': Books)
    requires |olds| == |news| && (existed && obj != Nil ==> k in b.ids && b.ids[k] in InUse(b))
    requires Numbered(b.ids, b.sets, b.next, k, obj, existed, id, ids, mid, next)
    requires b'.ids == ids && b'.next == next && b'.vec == Put(b.vec, id, obj)
    requires Moved(mid, b'.sets, id, olds, news) && NoneEmpty(b'.sets)
    requires S.SetAt(b'.sets, S.AllIds) == S.SetAt(mid, S.AllIds)
    requires S.SetAt(b'.sets, S.FreeIds) == S.SetAt(mid, S.FreeIds)
    requires forall p :: p in b'.sets && p.ValueSet? ==> p in mid || p.index < |news|
    ensures Applied(b, b', k, obj, existed, olds, news)
  {
    hide Moved, NoneEmpty, Put;
    SameValues(b.sets, mid);
    SameMoves(b.sets, mid, b'.sets, id, olds, news);
    if existed && obj != Nil {
      assert InUse(b) + {id} == InUse(b);
    }
  }

  /** There are fewer rows than ids, so the vector never has all 2^32 indexes set. */
  lemma NeverFull(m: Contents, id: nat, v: Value, n: nat)
    requires id < n < UINT32 && forall x :: x in m ==> x < n
    ensures Used(Put(m, id, v)) == 0 ==> Put(m, id, v) == map[]
  {
    CardBound(Put(m, id, v).Keys, n);
    assert |Put(m, id, v)| == |Put(m, id, v).Keys|;
    UsedZero(Put(m, id, v));
  }

  lemma OneIndex(s: set<nat>, p: S.Place, i: nat, id: nat, olds: seq<seq<Bytes>>, news: seq<seq<Bytes>>)
    requires i < |olds| == |news|
    ensures Joined(Left(MovedBelow(s, p, i, id, olds, news), p, i, id, olds[i], news[i]), p, i, id, news[i], olds[i])
      == MovedBelow(s, p, i + 1, id, olds, news)
  {
  }

  lemma BelowNothing(sets: map<S.Place, set<nat>>, id: nat, olds: seq<seq<Bytes>>, news: seq<seq<Bytes>>)
    requires |olds| == |news|
    ensures forall p :: S.SetAt(sets, p) == MovedBelow(S.SetAt(sets, p), p, 0, id, olds, news)
  {
  }

  lemma AllBelow(was: map<S.Place, set<nat>>, now: map<S.Place, set<nat>>, id: nat, olds: seq<seq<Bytes>>,
                 news: seq<seq<Bytes>>)
    requires |olds| == |news|
    requires forall p :: S.SetAt(now, p) == MovedBelow(S.SetAt(was, p), p, |news|, id, olds, news)
    ensures Moved(was, now, id, olds, news)
    ensures S.SetAt(now, S.AllIds) == S.SetAt(was, S.AllIds) && S.SetAt(now, S.FreeIds) == S.SetAt(was, S.FreeIds)
  {
  }
}
