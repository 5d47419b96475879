/** Insert, Delete and the bulk deletes of a write transaction on one table. */
module TableTxn {
  import opened VecShapes
  import opened TableSchema
  import opened RowModel
  import opened OrdinaryIndex
  import opened RowLine
  import opened RowBook
  import opened TableModel
  import opened PrefixModel
  import opened IndexTrees
  import J = Juuri
  import S = SetStore
  import V = VecStore
  import BN = BitmapNode
  import BW = BitmapWorld

  /** Builds all keys before any index is touched. */
  method BuildKeys(indexes: seq<Index>, obj: Value, existing: Value, k: Bytes, skip: int)
    returns (ok: bool, news: seq<seq<Bytes>>, olds: seq<seq<Bytes>>)
    ensures ok <==> !RefusedBy(indexes, obj, existing, skip)
    ensures ok <==> forall i :: 0 <= i < |indexes| && i != skip ==>
      && (obj != Nil ==> indexes[i].values(obj) != Failed)
      && (obj != Nil && !indexes[i].allowMissing ==> indexes[i].values(obj) != Missing)
      && (existing != Nil ==> indexes[i].values(existing) != Failed)
    ensures ok ==> news == AllKeys(indexes, obj, k, skip) && olds == AllKeys(indexes, existing, k, skip)
  {
    news, olds := [], [];
    var i := 0;
    while i < |indexes|
      invariant i <= |indexes| && |news| == |olds| == i
      invariant forall j :: 0 <= j < i && j != skip ==> !Refuses(indexes[j], obj, existing)
      invariant forall j :: 0 <= j < i ==>
        news[j] == AllKeys(indexes, obj, k, skip)[j] && olds[j] == AllKeys(indexes, existing, k, skip)[j]
    {
      if i == skip {
        news, olds := news + [[]], olds + [[]];
      } else if Refuses(indexes[i], obj, existing) {
        return false, [], [];
      } else {
        news := news + [KeysAt(indexes[i], obj, k)];
        olds := olds + [KeysAt(indexes[i], existing, k)];
      }
      i := i + 1;
    }
    ok := true;
  }

  /** The values of the new row and of the one it replaces in every bitmap index. */
  method BuildValues(indexes: seq<Index>, obj: Value, existing: Value)
    returns (ok: bool, news: seq<seq<Bytes>>, olds: seq<seq<Bytes>>)
    ensures ok <==> !RefusedBy(indexes, obj, existing, -1)
    ensures ok <==> forall i :: 0 <= i < |indexes| ==>
      && (obj != Nil ==> indexes[i].values(obj) != Failed)
      && (obj != Nil && !indexes[i].allowMissing ==> indexes[i].values(obj) != Missing)
      && (existing != Nil ==> indexes[i].values(existing) != Failed)
    ensures ok ==> news == ValuesOf(indexes, obj) && olds == ValuesOf(indexes, existing)
  {
    news, olds := [], [];
    var i := 0;
    while i < |indexes|
      invariant i <= |indexes| && |news| == |olds| == i
      invariant forall j :: 0 <= j < i ==> !Refuses(indexes[j], obj, existing)
      invariant forall j :: 0 <= j < i ==>
        news[j] == ValuesOf(indexes, obj)[j] && olds[j] == ValuesOf(indexes, existing)[j]
    {
      if Refuses(indexes[i], obj, existing) {
        return false, [], [];
      }
      news := news + [if obj == Nil then [] else ListOf(indexes[i].values(obj))];
      olds := olds + [if existing == Nil then [] else ListOf(indexes[i].values(existing))];
      i := i + 1;
    }
    ok := true;
  }

  class Txn {
    const name: string
    const schema: Schema
    const book: Book
    const trees: Trees
    var tracking: bool
    var changes: seq<Change>
    /** How the row bookkeeping has come to be what it is. */
    ghost var line: Line

    /** What holds even after a call that has stopped half way through. */
    ghost predicate Sound()
      reads this, trees, trees.idx, trees.handles
      reads book, book.sets, book.sets.writer, book.sets.writer.counter, book.sets.txn, book.sets.txn.tree
      reads book.sets.nodes, book.sets.frozen, book.sets.arrays
      reads book.rows, book.rows.writer, book.rows.writer.counter, book.rows.nodes, book.rows.frozen, book.rows.arrays
      reads book.txn, book.txn.tree
    {
      book.Valid() && trees.Valid() && |trees.ordinary| == |schema.ordinary|
    }

    /** What holds as long as no call has panicked. That the row bookkeeping agrees with the table is not part of it. */
    ghost predicate Usable()
      reads this, trees, trees.idx, trees.handles
      reads book, book.sets, book.sets.writer, book.sets.writer.counter, book.sets.txn, book.sets.txn.tree
      reads book.sets.nodes, book.sets.frozen, book.sets.arrays
      reads book.rows, book.rows.writer, book.rows.writer.counter, book.rows.nodes, book.rows.frozen, book.rows.arrays
      reads book.rows.vec.root, book.txn, book.txn.tree
    {
      Sound() && Traced(line, book.State())
    }

    ghost function State(): Table
      reads this, trees, book, book.sets, book.rows, book.rows.vec.root
    {
      Table(trees.primary, trees.ordinary, book.State(), line, changes)
    }

    constructor (name: string, schema: Schema)
      ensures Usable() && this.name == name && this.schema == schema
      ensures fresh(book) && fresh(book.Reach()) && fresh(trees.Reach())
      ensures trees.primary == map[] && book.State() == NO_BOOKS && !tracking && changes == [] && line == NEW_LINE
      ensures book.rows.vec.root == null
      ensures forall i :: 0 <= i < |trees.ordinary| ==> trees.ordinary[i] == map[]
    {
      hide Loose, Book.Valid, Trees.Valid, Book.Reach, Trees.Reach;
      this.name, this.schema := name, schema;
      var t := new Trees(|schema.ordinary|);
      var b := new Book();
      book, trees := b, t;
      tracking, changes, line := false, [], NEW_LINE;
      new;
      NewLoose();
    }

    /** Nothing that has been handed out is in reach of the writes, and nothing new has come into their reach that is
        not newly allocated. */
    twostate predicate Contained()
      reads trees, trees.idx, book, book.sets, book.sets.writer, book.sets.txn, book.rows, book.rows.writer
      reads book.rows.vec.root, book.txn
    {
      && book.Kept() == old(book.Kept()) && old(trees.Kept()) <= trees.Kept()
      && (forall x :: x in book.Reach() ==> x in old(book.Reach()) || fresh(x))
      && (forall x :: x in trees.Reach() ==> x in old(trees.Reach()) || fresh(x))
    }

    /** A change of the row bookkeeping shows in the root of the row vector. */
    twostate predicate Rerooted(changed: bool)
      reads book, book.rows, book.rows.vec.root
    {
      if schema.bitmaps == [] || !changed then book.rows.vec == old(book.rows.vec)
      else book.rows.vec.root == null || fresh(book.rows.vec.root) || book.rows.vec.root in old(book.Reach())
    }

    /** The row bookkeeping is as it was. */
    twostate predicate SameBook()
      reads book, book.sets, book.sets.writer, book.sets.writer.counter, book.sets.txn, book.sets.txn.tree
      reads book.sets.nodes, book.sets.frozen, book.sets.arrays
      reads book.rows, book.rows.writer, book.rows.writer.counter, book.rows.nodes, book.rows.frozen, book.rows.arrays
      reads book.rows.vec.root, book.txn, book.txn.tree
    {
      && (old(book.Valid()) ==> book.Valid()) && book.State() == old(book.State()) && book.Kept() == old(book.Kept())
      && book.rows.vec == old(book.rows.vec) && book.Reach() == old(book.Reach())
    }

    /** The index trees are as they were. */
    twostate predicate SameTrees()
      reads trees, trees.idx, trees.handles
    {
      && (old(trees.Valid()) ==> trees.Valid())
      && trees.primary == old(trees.primary) && trees.ordinary == old(trees.ordinary)
      && trees.Kept() == old(trees.Kept()) && trees.Reach() == old(trees.Reach())
    }

    /** The objects of the row bookkeeping, and those of the index trees. */
    lemma Apart()
      ensures this !in book.Reach() && this !in trees.Reach()
      ensures forall o: object :: o in book.Reach() ==>
        !(o is J.Tree<Bytes, Row>) && !(o is J.Txn<Bytes, Row>) && !(o is Trees)
    {
      hide S.Sets.Reach, V.Rows.Reach, Trees.Reach;
    }

    /** Brings the bookkeeping in line with a write of the row under key k, where it stands in for existing. A row that
        was there and has no row id is one of the code's two panics here, the end of the ids the other. */
    method ApplyBitmaps(k: Bytes, obj: Value, existing: Value, olds: seq<seq<Bytes>>, news: seq<seq<Bytes>>)
      returns (ok: bool)
      requires schema.bitmaps != [] && book.Valid() && Loose(book.State()) && (obj == Nil ==> existing != Nil)
      requires olds == ValuesOf(schema.bitmaps, existing) && news == ValuesOf(schema.bitmaps, obj)
      modifies book.Reach()
      ensures book.Valid() && book.Kept() == old(book.Kept())
      ensures !ok <==>
        LacksRowId(schema, old(book.State()), k, existing) || OutOfRowIds(schema, old(book.State()), existing)
      ensures ok ==> BooksAfter(schema, existing, old(book.State()), book.State(), k, obj)
      ensures forall x :: x in book.Reach() ==> x in old(book.Reach()) || fresh(x)
      ensures ok ==> Rerooted(true)
    {
      hide Applied, Book.Valid, Bounded, ValuesOf, Loose;
      LooseBounded(book.State());
      var res := book.Apply(k, obj, existing != Nil, olds, news);
      ok := res.Done?;
    }

    /** The same for any table: without a bitmap index there is no bookkeeping. */
    method ApplyBook(k: Bytes, obj: Value, existing: Value, olds: seq<seq<Bytes>>, news: seq<seq<Bytes>>)
      returns (ok: bool)
      requires book.Valid() && Traced(line, book.State()) && (obj == Nil ==> existing != Nil)
      requires schema.bitmaps != [] ==>
        olds == ValuesOf(schema.bitmaps, existing) && news == ValuesOf(schema.bitmaps, obj)
      modifies this`line, book.Reach()
      ensures book.Valid() && book.Kept() == old(book.Kept())
      ensures !ok <==>
        LacksRowId(schema, old(book.State()), k, existing) || OutOfRowIds(schema, old(book.State()), existing)
      ensures ok ==> BooksAfter(schema, existing, old(book.State()), book.State(), k, obj)
      ensures ok ==> Traced(line, book.State())
      ensures ok ==> line == LineAfter(schema, existing, old(line), book.State(), k, obj)
      ensures forall x :: x in book.Reach() ==> x in old(book.Reach()) || fresh(x)
      ensures SameTrees() && (ok ==> Rerooted(true))
    {
      hide BooksAfter, Traced, Loose, LineAfter, Book.Valid, Book.Reach, Book.Kept, Trees.Valid, Trees.Reach, ValuesOf;
      Apart();
      ghost var b := book.State();
      TracedLoose(line, b);
      ok := true;
      if schema.bitmaps != [] {
        ok := ApplyBitmaps(k, obj, existing, olds, news);
      } else {
        NoBooks(schema, existing, b, k, obj);
      }
      if ok {
        LineGoesOn(schema, existing, line, b, book.State(), k, obj);
        line := LineAfter(schema, existing, line, book.State(), k, obj);
      }
    }

    /** Brings every ordinary index in line with a write. */
    method WriteIndexes(k: Bytes, existing: Value, obj: Row, olds: seq<seq<Bytes>>, news: seq<seq<Bytes>>)
      requires trees.Valid() && |trees.ordinary| == |schema.ordinary|
      requires olds == AllKeys(schema.ordinary, existing, k, -1) && news == AllKeys(schema.ordinary, obj, k, -1)
      modifies trees.Reach()
      ensures trees.Valid() && trees.primary == old(trees.primary)
      ensures trees.ordinary == OrdinaryAfter(schema, old(trees.ordinary), k, existing, obj, -1)
      ensures forall x :: x in trees.Reach() ==> x in old(trees.Reach()) || fresh(x)
      ensures trees.Kept() == old(trees.Kept())
      ensures SameBook()
    {
      hide Book.Valid, Book.Reach, KeysAt, Trees.Valid, Trees.Reach, Replaced;
      ghost var all := OrdinaryAfter(schema, trees.ordinary, k, existing, obj, -1);
      var i := 0;
      while i < |schema.ordinary|
        invariant i <= |schema.ordinary| == |trees.ordinary|
        invariant trees.Valid() && trees.primary == old(trees.primary)
        invariant forall j :: 0 <= j < i ==> trees.ordinary[j] == all[j]
        invariant forall j :: i <= j < |all| ==> trees.ordinary[j] == old(trees.ordinary)[j]
        invariant forall x :: x in trees.Reach() ==> x in old(trees.Reach()) || fresh(x)
        invariant trees.Kept() == old(trees.Kept())
      {
        var okOld := existing != Nil && schema.ordinary[i].values(existing).Values?;
        NoKeys(schema.ordinary[i], existing, k);
        trees.Rewrite(i, okOld, olds[i], news[i], obj);
        i := i + 1;
      }
    }

    lemma NoKeys(ix: Index, row: Value, k: Bytes)
      ensures row == Nil || !ix.values(row).Values? ==> KeysAt(ix, row, k) == []
    {
    }

    /** Deletes the keys of a row from every ordinary index except skip. */
    method ClearIndexes(k: Bytes, existing: Row, olds: seq<seq<Bytes>>, skip: int)
      requires trees.Valid() && |trees.ordinary| == |schema.ordinary|
      requires olds == AllKeys(schema.ordinary, existing, k, skip)
      modifies trees.Reach()
      ensures trees.Valid() && trees.primary == old(trees.primary)
      ensures trees.ordinary == OrdinaryAfter(schema, old(trees.ordinary), k, existing, Nil, skip)
      ensures forall x :: x in trees.Reach() ==> x in old(trees.Reach()) || fresh(x)
      ensures trees.Kept() == old(trees.Kept())
      ensures SameBook()
    {
      hide Book.Valid, Book.Reach, KeysAt, Trees.Valid, Trees.Reach;
      ghost var all := OrdinaryAfter(schema, trees.ordinary, k, existing, Nil, skip);
      var i := 0;
      while i < |schema.ordinary|
        invariant i <= |schema.ordinary| == |trees.ordinary|
        invariant trees.Valid() && trees.primary == old(trees.primary)
        invariant forall j :: 0 <= j < i ==> trees.ordinary[j] == all[j]
        invariant forall j :: i <= j < |all| ==> trees.ordinary[j] == old(trees.ordinary)[j]
        invariant forall x :: x in trees.Reach() ==> x in old(trees.Reach()) || fresh(x)
        invariant trees.Kept() == old(trees.Kept())
      {
        if olds[i] != [] {
          trees.Unindex(i, olds[i]);
        } else {
          assert trees.ordinary[i] - (set x | x in olds[i]) == trees.ordinary[i];
        }
        i := i + 1;
      }
    }

    /** What a query does first: from here on the row bookkeeping is copied instead of changed in place. */
    method FreezeRows()
      requires Sound()
      modifies book.Reach()
      ensures Sound() && State() == old(State()) && book.rows.vec == old(book.rows.vec) && SameTrees()
      ensures Within(old(book.Kept()), book.Kept())
      ensures V.HandedOut(book.rows.vec, book.State().vec, book.Kept().rows)
      ensures S.TreeOut(book.sets.txn.tree, book.State().sets, book.Kept().sets)
      ensures forall x :: x in book.Reach() ==> x in old(book.Reach())
    {
      hide Book.Valid, S.Sets.Reach, V.Rows.Reach, J.Txn.Reach, Trees.Valid, Trees.Reach, Trees.Kept, V.HandedOut;
      hide S.HandedOut;
      Apart();
      book.FreezeRows();
      StoredSets();
    }

    /** The writers give up what they own, and the change list is dropped. */
    method Release()
      requires Sound()
      modifies this`changes, book.Reach()
      ensures Sound() && changes == [] && Within(old(book.Kept()), book.Kept()) && SameTrees()
      ensures forall x :: x in book.Reach() ==> x in old(book.Reach())
    {
      hide Book.Valid, Book.Reach, Book.Kept, Trees.Valid, Trees.Reach, Trees.Kept, V.HandedOut, S.TreeOut;
      Apart();
      FreezeRows();
      changes := [];
    }

    lemma StoredSets()
      requires book.Valid()
      requires forall p :: p in book.sets.sets ==> S.HandedOut(book.sets.sets[p], book.sets.ids[p], book.sets.frozen)
      ensures S.TreeOut(book.sets.txn.tree, book.sets.ids, book.sets.frozen)
    {
      hide S.HandedOut, V.Rows.Valid, BN.Housed, S.InStore;
    }

    /** The tree of an index, for an iterator. */
    method Read(target: int) returns (t: J.Tree<Bytes, Row>)
      requires Sound() && -1 <= target < |schema.ordinary|
      modifies trees.Reach()
      ensures Sound() && SameBook() && trees.primary == old(trees.primary) && trees.ordinary == old(trees.ordinary)
      ensures target < |trees.ordinary| && t.contents == TreeOf(trees.primary, trees.ordinary, target)
      ensures t in trees.Kept() && old(trees.Kept()) <= trees.Kept()
      ensures forall x :: x in trees.Reach() ==> x in old(trees.Reach())
    {
      hide Book.Valid, Book.Reach, Book.Kept, Trees.Valid, Trees.Kept, Trees.Reach;
      Apart();
      t := trees.Readable(target, true);
    }

    /** A set computed from frozen ones is frozen as well. */
    ghost method Keep(b: BN.Bitmap, held: set<nat>)
      requires Sound() && BW.Holds(b, held) && BN.AllBacked(BN.Repr(b))
      requires forall x :: x in BN.Repr(b) ==> x in book.Kept().sets || x.epoch == 0
      modifies book.Reach()
      ensures Sound() && State() == old(State()) && book.rows.vec == old(book.rows.vec) && SameTrees()
      ensures Within(old(book.Kept()), book.Kept()) && S.HandedOut(b, held, book.Kept().sets)
      ensures book.Reach() == old(book.Reach())
    {
      hide Book.Valid, Book.State, Trees.Valid, Trees.Kept, Trees.Reach, BW.Holds, BN.AllBacked, S.HandedOut;
      Apart();
      var root := book.rows.vec.root;
      book.Keep(b, held);
    }

    /** What a snapshot does: everything is frozen, and handed out. */
    method Freeze() returns (ts: seq<J.Tree<Bytes, Row>>, v: Version)
      requires Sound()
      modifies book.Reach(), trees.Reach()
      ensures Sound() && State() == old(State()) && book.rows.vec == old(book.rows.vec)
      ensures Within(old(book.Kept()), book.Kept()) && old(trees.Kept()) <= trees.Kept()
      ensures Describes(v, book.State(), book.Kept()) && v.vec == book.rows.vec
      ensures |ts| == |trees.ordinary| + 1
      ensures forall i :: 0 <= i < |ts| ==>
        ts[i] in trees.Kept() && ts[i].home == i && ts[i].contents == TreeOf(trees.primary, trees.ordinary, i - 1)
      ensures forall x :: x in book.Reach() ==> x in old(book.Reach())
      ensures forall x :: x in trees.Reach() ==> x in old(trees.Reach())
    {
      hide Book.Valid, Book.Reach, Book.Kept, Trees.Valid, Trees.Reach, Trees.Kept, Describes, TreeOf;
      Apart();
      ts := FreezeTrees();
      v := FreezeBook();
    }

    method FreezeTrees() returns (ts: seq<J.Tree<Bytes, Row>>)
      requires trees.Valid()
      modifies trees.Reach()
      ensures trees.Valid() && trees.primary == old(trees.primary) && trees.ordinary == old(trees.ordinary)
      ensures SameBook() && old(trees.Kept()) <= trees.Kept() && |ts| == |trees.ordinary| + 1
      ensures forall i :: 0 <= i < |ts| ==>
        ts[i] in trees.Kept() && ts[i].home == i && ts[i].contents == TreeOf(trees.primary, trees.ordinary, i - 1)
      ensures forall x :: x in trees.Reach() ==> x in old(trees.Reach())
    {
      hide Book.Valid, Book.Reach, Book.Kept, Trees.Reach, Trees.Kept, TreeOf;
      ts := trees.Freeze();
    }

    method FreezeBook() returns (v: Version)
      requires book.Valid()
      modifies book.Reach()
      ensures book.Valid() && book.State() == old(book.State()) && book.rows.vec == old(book.rows.vec)
      ensures SameTrees() && Within(old(book.Kept()), book.Kept())
      ensures Describes(v, book.State(), book.Kept()) && v.vec == book.rows.vec
      ensures forall x :: x in book.Reach() ==> x in old(book.Reach())
    {
      hide Book.Valid, S.Sets.Reach, V.Rows.Reach, J.Txn.Reach, Trees.Valid, Trees.Reach, Trees.Kept, Describes;
      Apart();
      v := book.Freeze();
    }

    /** Starts from a version that has been handed out. */
    method Load(ts: seq<J.Tree<Bytes, Row>>, v: Version, ghost b: Books, ghost l: Line, tracking: bool)
      requires Sound() && Describes(v, b, book.Kept()) && |ts| == |schema.ordinary| + 1
      requires forall i :: 0 <= i < |ts| ==> ts[i] in trees.Kept() && ts[i].home == i
      modifies this, book.Reach(), trees.Reach()
      ensures Sound() && this.tracking == tracking && changes == [] && line == l
      ensures book.State() == b && book.rows.vec == v.vec && book.Kept() == old(book.Kept())
      ensures trees.Kept() == old(trees.Kept())
      ensures forall i :: 0 <= i < |ts| ==> ts[i].contents == TreeOf(trees.primary, trees.ordinary, i - 1)
      ensures forall x :: x in book.Reach() ==> x in old(book.Reach())
      ensures forall x :: x in trees.Reach() ==> x in old(trees.Reach())
    {
      hide Book.Valid, Book.Reach, Book.Kept, Trees.Valid, Trees.Reach, Trees.Kept, Describes, TreeOf;
      Apart();
      LoadVersion(ts, v, b);
      this.tracking, changes, line := tracking, [], l;
    }

    method LoadVersion(ts: seq<J.Tree<Bytes, Row>>, v: Version, ghost b: Books)
      requires Sound() && Describes(v, b, book.Kept()) && |ts| == |schema.ordinary| + 1
      requires forall i :: 0 <= i < |ts| ==> ts[i] in trees.Kept() && ts[i].home == i
      modifies book.Reach(), trees.Reach()
      ensures Sound() && book.State() == b && book.rows.vec == v.vec && book.Kept() == old(book.Kept())
      ensures trees.Kept() == old(trees.Kept())
      ensures forall i :: 0 <= i < |ts| ==> ts[i].contents == TreeOf(trees.primary, trees.ordinary, i - 1)
      ensures forall x :: x in book.Reach() ==> x in old(book.Reach())
      ensures forall x :: x in trees.Reach() ==> x in old(trees.Reach())
    {
      hide Book.Valid, Book.Reach, Book.Kept, Trees.Valid, Trees.Reach, Trees.Kept, Describes, TreeOf;
      LoadBook(v, b);
      LoadTrees(ts);
    }

    method LoadBook(v: Version, ghost b: Books)
      requires book.Valid() && Describes(v, b, book.Kept())
      modifies book.Reach()
      ensures book.Valid() && book.State() == b && book.rows.vec == v.vec && book.Kept() == old(book.Kept())
      ensures SameTrees() && forall x :: x in book.Reach() ==> x in old(book.Reach())
    {
      hide Book.Valid, S.Sets.Reach, V.Rows.Reach, J.Txn.Reach, Trees.Valid, Trees.Reach, Trees.Kept, Describes;
      Apart();
      book.Load(v, b);
    }

    method LoadTrees(ts: seq<J.Tree<Bytes, Row>>)
      requires trees.Valid() && |ts| == |trees.ordinary| + 1
      requires forall i :: 0 <= i < |ts| ==> ts[i] in trees.Kept() && ts[i].home == i
      modifies trees.Reach()
      ensures trees.Valid() && |trees.ordinary| == |old(trees.ordinary)| && trees.Kept() == old(trees.Kept())
      ensures forall i :: 0 <= i < |ts| ==> ts[i].contents == TreeOf(trees.primary, trees.ordinary, i - 1)
      ensures SameBook() && forall x :: x in trees.Reach() ==> x in old(trees.Reach())
    {
      hide Book.Valid, Book.Reach, Book.Kept, Trees.Reach, Trees.Kept;
      trees.Load(ts);
    }

    /** Adds a row, or replaces the one with the same primary key. */
    method Insert(row: Row) returns (r: Result)
      requires Usable()
      modifies this`changes, this`line, trees.Reach(), book.Reach()
      ensures Sound() && (!r.Panic? ==> Usable())
      ensures Inserted(schema, old(State()), name, tracking, row, r, State())
      ensures Contained() && (!r.Panic? ==> Rerooted(r.Ok?))
    {
      hide Traced, Book.Valid, Book.Reach, Book.Kept, Trees.Valid, Trees.Reach, Trees.Kept, RefusedBy, Inserted;
      ghost var t := State();
      var pk := schema.primaryKey(row);
      if pk.NoKey? {
        InsertRefusedFor(schema, t, name, tracking, row, State());
        return Refused;
      }
      r := Store(pk.key, row);
    }

    /** The primary index is written first, and the write is undone if a secondary index refuses the row. */
    method Store(k: Bytes, row: Row) returns (r: Result)
      requires Usable() && schema.primaryKey(row) == Key(k)
      modifies this`changes, this`line, trees.Reach(), book.Reach()
      ensures Sound() && (!r.Panic? ==> Usable())
      ensures Inserted(schema, old(State()), name, tracking, row, r, State())
      ensures Contained() && (!r.Panic? ==> Rerooted(r.Ok?))
    {
      hide Traced, Book.Valid, Book.Reach, Book.Kept, Trees.Valid, Trees.Reach, Trees.Kept, RefusedBy, Inserted;
      ghost var t := State();
      Apart();
      var existing := Put(k, row);
      r := Settle(k, existing, row, t);
    }

    /** The rest of Insert, where the row is in the primary index already; t is the table before the insert. */
    method Settle(k: Bytes, existing: Value, row: Row, ghost t: Table) returns (r: Result)
      requires Usable() && State() == t.(primary := t.primary[k := row]) && existing == RowAt(t.primary, k)
      requires schema.primaryKey(row) == Key(k)
      modifies this`changes, this`line, trees.Reach(), book.Reach()
      ensures Sound() && (!r.Panic? ==> Usable())
      ensures Inserted(schema, t, name, tracking, row, r, State())
      ensures Contained() && (!r.Panic? ==> Rerooted(r.Ok?))
    {
      hide Traced, Book.Valid, Book.Reach, Book.Kept, Trees.Valid, Trees.Reach, Trees.Kept, RefusedBy, Inserted;
      hide AllKeys, ValuesOf, Book.State;
      ghost var root := book.rows.vec.root;
      var ok, news, olds, bmNews, bmOlds := BuildAll(row, existing, k, -1);
      if !ok {
        Undo(k, existing, t);
        InsertRefusedFor(schema, t, name, tracking, row, State());
        r := Refused;
      } else {
        r := Finish(k, existing, row, olds, news, bmOlds, bmNews, t);
      }
    }

    /** What was under a key of the id index before comes back. */
    method Undo(k: Bytes, existing: Value, ghost t: Table)
      requires trees.Valid() && existing == RowAt(t.primary, k)
      requires State() == t.(primary := trees.primary) && trees.primary - {k} == t.primary - {k}
      modifies trees.Reach()
      ensures trees.Valid() && State() == t && SameBook()
      ensures forall x :: x in trees.Reach() ==> x in old(trees.Reach()) || fresh(x)
      ensures trees.Kept() == old(trees.Kept())
    {
      hide Book.Valid, Book.Reach, Book.Kept, Trees.Valid, Trees.Reach, Trees.Kept;
      Apart();
      ghost var m := trees.primary;
      Restore(k, existing);
      assert trees.primary - {k} == m - {k};
      SameButOne(trees.primary, t.primary, k);
    }

    lemma SameButOne(m: map<Bytes, Row>, m': map<Bytes, Row>, k: Bytes)
      requires m - {k} == m' - {k} && RowAt(m, k) == RowAt(m', k)
      ensures m == m'
    {
      forall x | x != k
        ensures x in m <==> x in m'
        ensures x in m ==> m[x] == m'[x]
      {
        assert x in m <==> x in m - {k};
        assert x in m' <==> x in m' - {k};
        assert x in m ==> (m - {k})[x] == m[x];
        assert x in m' ==> (m' - {k})[x] == m'[x];
      }
      assert m.Keys == m'.Keys;
    }

    /** Writes the id index, and tells what was there. */
    method Put(k: Bytes, row: Row) returns (existing: Value)
      requires trees.Valid()
      modifies trees.Reach()
      ensures trees.Valid() && trees.primary == old(trees.primary)[k := row] && trees.ordinary == old(trees.ordinary)
      ensures existing == RowAt(old(trees.primary), k)
      ensures forall x :: x in trees.Reach() ==> x in old(trees.Reach()) || fresh(x)
      ensures trees.Kept() == old(trees.Kept())
      ensures SameBook()
    {
      hide Trees.Valid, Trees.Reach, Trees.Kept, Book.Valid, Book.Reach, Book.Kept;
      trees.Stored(-1);
      var primary := trees.idx[0].tree.contents;
      existing := if k in primary then primary[k] else Nil;
      trees.Insert(-1, k, row);
    }

    /** Makes a row, or nothing, what is under a key of the id index. */
    method Restore(k: Bytes, existing: Value)
      requires trees.Valid()
      modifies trees.Reach()
      ensures trees.Valid() && trees.ordinary == old(trees.ordinary)
      ensures trees.primary == if existing == Nil then old(trees.primary) - {k} else old(trees.primary)[k := existing]
      ensures forall x :: x in trees.Reach() ==> x in old(trees.Reach()) || fresh(x)
      ensures trees.Kept() == old(trees.Kept())
      ensures SameBook()
    {
      hide Trees.Valid, Trees.Reach, Trees.Kept, Book.Valid, Book.Reach, Book.Kept;
      if existing != Nil {
        trees.Insert(-1, k, existing);
      } else {
        trees.Delete(-1, k);
      }
    }

    /** All keys and values a write needs, built before any index is touched. */
    method BuildAll(obj: Value, existing: Value, k: Bytes, skip: int)
      returns (ok: bool, news: seq<seq<Bytes>>, olds: seq<seq<Bytes>>, bmNews: seq<seq<Bytes>>, bmOlds: seq<seq<Bytes>>)
      ensures ok <==> !RefusedBy(schema.ordinary, obj, existing, skip) && !RefusedBy(schema.bitmaps, obj, existing, -1)
      ensures ok ==>
        news == AllKeys(schema.ordinary, obj, k, skip) && olds == AllKeys(schema.ordinary, existing, k, skip)
      ensures ok && schema.bitmaps != [] ==>
        bmNews == ValuesOf(schema.bitmaps, obj) && bmOlds == ValuesOf(schema.bitmaps, existing)
    {
      ok, news, olds := BuildKeys(schema.ordinary, obj, existing, k, skip);
      bmNews, bmOlds := [], [];
      if ok && schema.bitmaps != [] {
        ok, bmNews, bmOlds := BuildValues(schema.bitmaps, obj, existing);
      }
    }

    /** The part of Insert after which nothing can fail but the row ids; t is the table before the insert. */
    method Finish(k: Bytes, existing: Value, row: Row, olds: seq<seq<Bytes>>, news: seq<seq<Bytes>>,
                  bmOlds: seq<seq<Bytes>>, bmNews: seq<seq<Bytes>>, ghost t: Table) returns (r: Result)
      requires Usable() && State() == t.(primary := t.primary[k := row]) && existing == RowAt(t.primary, k)
      requires schema.primaryKey(row) == Key(k)
      requires !RefusedBy(schema.ordinary, row, existing, -1) && !RefusedBy(schema.bitmaps, row, existing, -1)
      requires olds == AllKeys(schema.ordinary, existing, k, -1) && news == AllKeys(schema.ordinary, row, k, -1)
      requires schema.bitmaps != [] ==>
        bmNews == ValuesOf(schema.bitmaps, row) && bmOlds == ValuesOf(schema.bitmaps, existing)
      modifies this`changes, this`line, trees.Reach(), book.Reach()
      ensures Sound() && (!r.Panic? ==> Usable())
      ensures Inserted(schema, t, name, tracking, row, r, State())
      ensures Contained() && (!r.Panic? ==> Rerooted(r.Ok?))
    {
      hide Traced, Book.Valid, Book.Reach, Book.Kept, Trees.Valid, Trees.Reach, Trees.Kept, RefusedBy, Inserted;
      hide AllKeys, BooksAfter, LineAfter, OrdinaryAfter, LacksRowId, OutOfRowIds, Book.State, ValuesOf;
      Apart();
      var ok := WriteAll(k, existing, row, olds, news, bmOlds, bmNews);
      r := if ok then Ok else Panic;
      ghost var root := book.rows.vec.root;
      if ok && tracking {
        changes := changes + [Change(name, k, existing, row)];
      }
      InsertDone(schema, t, name, tracking, row, r, k, existing, State());
    }

    /** The secondary indexes, and then the row bookkeeping. */
    method WriteAll(k: Bytes, existing: Value, row: Row, olds: seq<seq<Bytes>>, news: seq<seq<Bytes>>,
                    bmOlds: seq<seq<Bytes>>, bmNews: seq<seq<Bytes>>) returns (ok: bool)
      requires Usable()
      requires olds == AllKeys(schema.ordinary, existing, k, -1) && news == AllKeys(schema.ordinary, row, k, -1)
      requires schema.bitmaps != [] ==>
        bmNews == ValuesOf(schema.bitmaps, row) && bmOlds == ValuesOf(schema.bitmaps, existing)
      modifies this`line, trees.Reach(), book.Reach()
      ensures Sound() && (ok ==> Usable()) && trees.primary == old(trees.primary)
      ensures trees.ordinary == OrdinaryAfter(schema, old(trees.ordinary), k, existing, row, -1)
      ensures !ok <==>
        LacksRowId(schema, old(book.State()), k, existing) || OutOfRowIds(schema, old(book.State()), existing)
      ensures ok ==> BooksAfter(schema, existing, old(book.State()), book.State(), k, row)
      ensures ok ==> line == LineAfter(schema, existing, old(line), book.State(), k, row)
      ensures Contained() && (ok ==> Rerooted(true))
    {
      hide Traced, Book.Valid, Book.Reach, Book.Kept, Trees.Valid, Trees.Reach, Trees.Kept;
      hide AllKeys, BooksAfter, LineAfter, OrdinaryAfter, LacksRowId, OutOfRowIds, Book.State, ValuesOf;
      Apart();
      WriteIndexes(k, existing, row, olds, news);
      ok := ApplyBook(k, row, existing, bmOlds, bmNews);
    }

    /** Removes a row from the bookkeeping and from every secondary index except skip. If an indexer fails, nothing has
        been touched; if the row has no row id, it is the code's panic. */
    method Unindex(k: Bytes, row: Row, skip: int) returns (r: Result)
      requires Usable()
      modifies this`line, trees.Reach(), book.Reach()
      ensures Sound() && (!r.Panic? ==> Usable()) && trees.primary == old(trees.primary)
      ensures r == if RefusedBy(schema.ordinary, Nil, row, skip) || RefusedBy(schema.bitmaps, Nil, row, -1) then Refused
        else if LacksRowId(schema, old(book.State()), k, row) then Panic else Ok
      ensures r.Refused? ==> State() == old(State())
      ensures r.Ok? ==> trees.ordinary == OrdinaryAfter(schema, old(trees.ordinary), k, row, Nil, skip)
      ensures r.Ok? ==> BooksAfter(schema, row, old(book.State()), book.State(), k, Nil)
      ensures r.Ok? ==> line == LineAfter(schema, row, old(line), book.State(), k, Nil)
      ensures Contained() && (!r.Panic? ==> Rerooted(r.Ok?))
    {
      hide Traced, Book.Valid, Book.Reach, Book.Kept, Trees.Valid, Trees.Reach, Trees.Kept, RefusedBy;
      hide AllKeys, BooksAfter, LineAfter, OrdinaryAfter, LacksRowId, OutOfRowIds;
      Apart();
      var ok, news, olds, bmNews, bmOlds := BuildAll(Nil, row, k, skip);
      if !ok {
        return Refused;
      }
      NeverOut(schema, book.State(), row);
      ClearIndexes(k, row, olds, skip);
      ok := ApplyBook(k, Nil, row, bmOlds, bmNews);
      r := if ok then Ok else Panic;
    }

    /** Deletes the row with the primary key of the given one. */
    method Delete(row: Row) returns (r: Result)
      requires Usable()
      modifies this`changes, this`line, trees.Reach(), book.Reach()
      ensures Sound() && (!r.Panic? ==> Usable())
      ensures Deleted(schema, old(State()), name, tracking, row, r, State())
      ensures Contained() && (!r.Panic? ==> Rerooted(r.Ok?))
    {
      hide Traced, Book.Valid, Book.Reach, Book.Kept, Trees.Valid, Trees.Reach, Trees.Kept, DeleteRefused, Deleted;
      ghost var t := State();
      var pk := schema.primaryKey(row);
      if pk.NoKey? {
        DeleteNot(schema, t, name, tracking, row, Refused, State());
        return Refused;
      }
      trees.Stored(-1);
      var primary := trees.idx[0].tree.contents;
      if pk.key !in primary {
        DeleteNot(schema, t, name, tracking, row, NotFound, State());
        return NotFound;
      }
      r := Remove(pk.key, row, primary[pk.key]);
    }

    /** The row leaves the id index first, and comes back if an indexer fails. */
    method Remove(k: Bytes, row: Row, existing: Row) returns (r: Result)
      requires Usable() && schema.primaryKey(row) == Key(k) && k in trees.primary && trees.primary[k] == existing
      modifies this`changes, this`line, trees.Reach(), book.Reach()
      ensures Sound() && (!r.Panic? ==> Usable())
      ensures Deleted(schema, old(State()), name, tracking, row, r, State())
      ensures Contained() && (!r.Panic? ==> Rerooted(r.Ok?))
    {
      hide Traced, Book.Valid, Book.Reach, Book.Kept, Trees.Valid, Trees.Reach, Trees.Kept, RefusedBy;
      hide BooksAfter, LineAfter, OrdinaryAfter, LacksRowId, OutOfRowIds, Book.State;
      ghost var t := State();
      Apart();
      Restore(k, Nil);
      r := Unindex(k, existing, -1);
      if r.Refused? {
        Undo(k, existing, t);
      } else if r.Ok? && tracking {
        changes := changes + [Change(name, k, existing, Nil)];
      }
    }

    /** Deletes the given rows, which an iterator has listed, until one cannot be; ts are the tables in between. */
    method DeleteAll(rows: seq<Row>) returns (num: nat, r: Result, ghost ts: seq<Table>)
      requires Usable()
      modifies this`changes, this`line, trees.Reach(), book.Reach()
      ensures Sound() && (!r.Panic? ==> Usable())
      ensures DeletedList(schema, name, tracking, rows, ts, r, State()) && ts[0] == old(State()) && num == |ts| - 1
      ensures !r.Panic? ==> State() == ts[num]
      ensures Contained() && (!r.Panic? ==> Rerooted(num > 0))
    {
      hide Traced, Book.Valid, Book.Reach, Book.Kept, Trees.Valid, Trees.Reach, Trees.Kept, Deleted;
      hide Book.State, DeletedFirst, DeletedList;
      num, r, ts := 0, Ok, [State()];
      NoneDeleted(schema, name, tracking, rows, State());
      while num < |rows|
        invariant num <= |rows| && Usable() && r.Ok? && |ts| == num + 1 && ts[0] == old(State()) && ts[num] == State()
        invariant DeletedFirst(schema, name, tracking, rows, ts)
        invariant Contained() && Rerooted(num > 0)
      {
        Apart();
        r := Delete(rows[num]);
        if !r.Ok? {
          ListStopped(schema, name, tracking, rows, ts, r, State());
          return;
        }
        OneMoreDeleted(schema, name, tracking, rows, ts, State());
        num, ts := num + 1, ts + [State()];
      }
      ListDone(schema, name, tracking, rows, ts);
    }

    lemma SoundTrees()
      requires Sound()
      ensures trees.Valid() && |trees.ordinary| == |schema.ordinary|
    {
      hide Book.Valid;
    }

    /** The rows that an index lists under a prefix, by an iterator whose tree does not follow later writes. */
    method ListRows(target: int, prefix: Bytes) returns (rows: seq<Row>, ghost entries: seq<Bytes>)
      requires Sound() && -1 <= target < |trees.ordinary|
      modifies trees.Reach()
      ensures Sound() && SameBook() && State() == old(State())
      ensures old(trees.Kept()) <= trees.Kept() && forall x :: x in trees.Reach() ==> x in old(trees.Reach())
      ensures Lists(entries, old(TreeOf(trees.primary, trees.ordinary, target)), prefix)
      ensures forall i :: 0 <= i < |entries| ==> entries[i] in old(TreeOf(trees.primary, trees.ordinary, target))
      ensures rows == RowsAt(old(TreeOf(trees.primary, trees.ordinary, target)), entries)
    {
      hide Book.Valid, Book.Reach, Book.Kept, Trees.Valid, Trees.Reach, Trees.Kept;
      Apart();
      var tree := Read(target);
      var all := Entries(tree.contents, prefix);
      entries := all;
      forall i | 0 <= i < |all|
        ensures all[i] in tree.contents
      {
        assert all[i] in all;
      }
      rows := RowsAt(tree.contents, all);
    }

    /** DeleteAll of the rows that an index lists under a prefix. Their iterator has a tree that does not follow the
        deletes. */
    method DeleteEntries(target: int, prefix: Bytes)
      returns (num: nat, r: Result, ghost entries: seq<Bytes>, ghost rows: seq<Row>, ghost ts: seq<Table>)
      requires Usable() && -1 <= target < |trees.ordinary|
      modifies this`changes, this`line, trees.Reach(), book.Reach()
      ensures Sound() && (!r.Panic? ==> Usable())
      ensures Lists(entries, old(TreeOf(trees.primary, trees.ordinary, target)), prefix)
      ensures forall i :: 0 <= i < |entries| ==> entries[i] in old(TreeOf(trees.primary, trees.ordinary, target))
      ensures rows == RowsAt(old(TreeOf(trees.primary, trees.ordinary, target)), entries)
      ensures DeletedList(schema, name, tracking, rows, ts, r, State()) && ts[0] == old(State()) && num == |ts| - 1
      ensures Contained() && (!r.Panic? ==> Rerooted(num > 0))
    {
      hide Traced, Book.Valid, Book.Reach, Book.Kept, Trees.Valid, Trees.Reach, Trees.Kept, DeletedList, Lists;
      Apart();
      var all;
      all, entries := ListRows(target, prefix);
      rows := all;
      num, r, ts := DeleteAll(all);
    }

    /** Deletes the rows that an index (-1 is the id index) lists under a prefix: unhooks each from all the other
        indexes, and then cuts the given prefix off the tree of this one. The key that is searched for is the one the
        indexer makes of the prefix; what is cut off is the prefix as it was given. ts are the tables in between. */
    method DeletePrefix(target: int, search: Bytes, prefix: Bytes)
      returns (found: bool, r: Result, ghost entries: seq<Bytes>, ghost rows: seq<Row>, ghost ts: seq<Table>)
      requires Usable() && -1 <= target < |trees.ordinary|
      modifies this`changes, this`line, trees.Reach(), book.Reach()
      ensures Sound() && (!r.Panic? ==> Usable())
      ensures Lists(entries, old(TreeOf(trees.primary, trees.ordinary, target)), search)
      ensures forall i :: 0 <= i < |entries| ==> entries[i] in old(TreeOf(trees.primary, trees.ordinary, target))
      ensures rows == RowsAt(old(TreeOf(trees.primary, trees.ordinary, target)), entries)
      ensures PrefixDeleted(schema, name, tracking, target, prefix, rows, ts, r, State())
      ensures |ts| > 0 && ts[0] == old(State())
      ensures found <==> rows != []
      ensures Contained() && (!r.Panic? ==> Rerooted(|ts| > 1))
    {
      hide Traced, Book.Valid, Book.Reach, Book.Kept, Trees.Valid, Trees.Reach, Trees.Kept, Unhooked, StopOf;
      hide Lists, HasPrefix, Cut, BrokenOff;
      Apart();
      var all;
      all, entries := ListRows(target, search);
      rows, found := all, all != [];
      r, ts := UnhookRows(target, all);
      if r.Ok? && found {
        r := CutRows(target, prefix);
      }
    }

    /** The loop of DeletePrefix. */
    method UnhookRows(target: int, rows: seq<Row>) returns (r: Result, ghost ts: seq<Table>)
      requires Usable() && -1 <= target < |trees.ordinary|
      modifies this`changes, this`line, trees.Reach(), book.Reach()
      ensures Sound() && (!r.Panic? ==> Usable())
      ensures UnhookedFirst(schema, name, tracking, target, rows, ts) && ts[0] == old(State())
      ensures target < |ts[|ts| - 1].ordinary|
      ensures |ts| == |rows| + 1 ==> r.Ok? && State() == ts[|rows|]
      ensures |ts| <= |rows| ==> r == StopOf(schema, target, ts[|ts| - 1], rows[|ts| - 1]) != Ok
      ensures |ts| <= |rows| && r.Refused? ==>
        State() == BrokenOff(schema, name, tracking, target, ts[|ts| - 1], rows[|ts| - 1])
      ensures Contained() && (!r.Panic? ==> Rerooted(|ts| > 1))
    {
      hide Traced, Book.Valid, Book.Reach, Book.Kept, Trees.Valid, Trees.Reach, Trees.Kept, Unhooked, StopOf, BrokenOff;
      hide UnhookedFirst, Book.State;
      var j := 0;
      ts := [State()];
      NoneUnhooked(schema, name, tracking, target, rows, State());
      while j < |rows|
        invariant j <= |rows| && Usable() && |ts| == j + 1 && ts[0] == old(State()) && ts[j] == State()
        invariant UnhookedFirst(schema, name, tracking, target, rows, ts) && target < |trees.ordinary|
        invariant Contained() && Rerooted(j > 0)
      {
        Apart();
        r := Unhook(target, rows[j]);
        if !r.Ok? {
          return;
        }
        OneMoreUnhooked(schema, name, tracking, target, rows, ts, State());
        j, ts := j + 1, ts + [State()];
      }
      r := Ok;
    }

    /** One row leaves every index but the one the deletion goes through. */
    method Unhook(target: int, row: Row) returns (r: Result)
      requires Usable() && -1 <= target < |trees.ordinary|
      modifies this`changes, this`line, trees.Reach(), book.Reach()
      ensures Sound() && (!r.Panic? ==> Usable()) && r == StopOf(schema, target, old(State()), row)
      ensures r.Ok? ==> Unhooked(schema, name, tracking, target, old(State()), row, State())
      ensures r.Refused? ==> State() == BrokenOff(schema, name, tracking, target, old(State()), row)
      ensures Contained() && (!r.Panic? ==> Rerooted(r.Ok?))
    {
      hide Traced, Book.Valid, Book.Reach, Book.Kept, Trees.Valid, Trees.Reach, Trees.Kept, RefusedBy;
      hide BooksAfter, LineAfter, OrdinaryAfter, LacksRowId, Book.State, LogOf, Unlisted;
      Apart();
      var pk := schema.primaryKey(row);
      if pk.NoKey? {
        return Refused;
      }
      Unlist(target, pk.key);
      r := Unindex(pk.key, row, target);
    }

    /** A row that is still there is logged, and leaves the id index unless the deletion goes through that. */
    method Unlist(target: int, k: Bytes)
      requires trees.Valid()
      modifies this`changes, trees.Reach()
      ensures trees.Valid() && trees.ordinary == old(trees.ordinary)
      ensures trees.primary == Unlisted(old(trees.primary), target, k)
      ensures changes == old(changes) + LogOf(name, tracking, old(trees.primary), k)
      ensures forall x :: x in trees.Reach() ==> x in old(trees.Reach()) || fresh(x)
      ensures trees.Kept() == old(trees.Kept())
      ensures SameBook()
    {
      hide Trees.Valid, Trees.Reach, Trees.Kept, Book.Valid, Book.Reach, Book.Kept;
      Apart();
      trees.Stored(-1);
      var primary := trees.idx[0].tree.contents;
      if tracking && k in primary {
        changes := changes + [Change(name, k, primary[k], Nil)];
      }
      if target >= 0 {
        Restore(k, Nil);
      }
    }

    /** The last step: the prefix leaves the index the deletion went through. */
    method CutRows(target: int, prefix: Bytes) returns (r: Result)
      requires Usable() && -1 <= target < |trees.ordinary|
      modifies trees.Reach()
      ensures Usable() && SameBook() && line == old(line) && target < |old(trees.ordinary)|
      ensures r == if HasPrefix(old(TreeOf(trees.primary, trees.ordinary, target)), prefix) then Ok else Panic
      ensures Retreed(old(State()), target, Cut(old(TreeOf(trees.primary, trees.ordinary, target)), prefix), State())
      ensures forall x :: x in trees.Reach() ==> x in old(trees.Reach()) || fresh(x)
      ensures trees.Kept() == old(trees.Kept())
    {
      hide Traced, Book.Valid, Book.Reach, Book.Kept, Trees.Valid, Trees.Reach, Trees.Kept, HasPrefix, Cut;
      Apart();
      CutsSome(TreeOf(trees.primary, trees.ordinary, target), prefix);
      var cut := trees.CutPrefix(target, prefix);
      r := if cut then Ok else Panic;
    }
  }

  /** What holds of any bookkeeping is enough for the next write. */
  lemma LooseBounded(b: Books)
    requires Loose(b)
    ensures Bounded(b) && b.vec.Keys == InUse(b) && forall k :: k in b.ids ==> b.ids[k] in b.vec
  {
    assert forall id: nat :: id in InUse(b) || id in Unused(b) ==> id < b.next;
  }

  /** Without a bitmap index a write changes no bookkeeping. */
  lemma NoBooks(s: Schema, existing: Value, b: Books, k: Bytes, obj: Value)
    requires s.bitmaps == []
    ensures BooksAfter(s, existing, b, b, k, obj)
    ensures !LacksRowId(s, b, k, existing) && !OutOfRowIds(s, b, existing)
  {
  }
}
