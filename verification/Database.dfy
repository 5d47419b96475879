/** The database: one published version, at most one write transaction, and whatever has been handed out of either.
    Versions, row sets and the trees behind iterators keep saying what they said, although the transaction changes
    bitmaps, vectors and trees in place. */
module Database {
  import opened VecShapes
  import opened TableSchema
  import opened RowModel
  import opened OrdinaryIndex
  import opened RowLine
  import opened RowBook
  import opened TableModel
  import opened PrefixModel
  import opened IndexTrees
  import opened TableTxn
  import opened RowSets
  import J = Juuri
  import Q = RowQuery
  import S = SetStore
  import V = VecStore
  import BA = BitmapAlgebra
  import BW = BitmapWorld
  import BI = BitmapIterator
  import BN = BitmapNode
  import VN = VecNode
  import VQ = VecQuery

  /** One immutable version of the table and its indexes, the id index first. */
  datatype Root = Root(trees: seq<J.Tree<Bytes, Row>>, rows: Version)

  /** What a version says, as plain values, and how its row bookkeeping got there. */
  datatype Shot = Shot(primary: Tree, ordinary: seq<Tree>, books: Books, line: Line)

  /** A version that has been handed out, with what it said at that moment. */
  datatype Held = Held(root: Root, shot: Shot)

  /** What a row vector that has been handed out stands for. */
  datatype Seen = Seen(vec: VQ.Vector, shot: Shot)

  /** A row set that has been handed out: the query it was made for, the ids in it, and the state of the table it is
      of. */
  datatype Answer = Answer(rows: RowSet, query: Q.Query, ids: set<nat>, seen: Seen)

  /** The tree of an index that an iterator has, with what was in it. */
  datatype Listed = Listed(index: int, tree: J.Tree<Bytes, Row>, rows: Tree)

  /** All that has been handed out so far. */
  datatype Public = Public(held: seq<Held>, answers: seq<Answer>, lists: seq<Listed>, seen: set<Seen>)

  // ---------------------------------------------------------------- what is handed out stays what it is

  ghost predicate InVec(v: VQ.Vector, rows: set<VN.Node>)
    reads rows
  {
    v.root != null ==> v.root in rows && v.root.repr <= rows
  }

  ghost predicate InBits(b: BN.Bitmap, sets: set<BN.Node>)
    reads sets
  {
    b != null ==> b in sets && b.repr <= sets
  }

  ghost predicate SeenOk(s: Schema, a: Seen, rows: set<VN.Node>)
    reads rows
  {
    && InVec(a.vec, rows) && V.HandedOut(a.vec, a.shot.books.vec, rows)
    && Traced(a.shot.line, a.shot.books) && (s.bitmaps == [] ==> a.vec.root == null)
  }

  ghost predicate HeldOk(s: Schema, h: Held, z: Frozen, f: set<J.Tree<Bytes, Row>>)
    reads z.sets, z.rows, z.ids, z.trees, f
  {
    && h.root.rows.ids in z.ids && h.root.rows.sets in z.trees && InVec(h.root.rows.vec, z.rows)
    && (forall p :: p in h.root.rows.sets.contents ==> InBits(h.root.rows.sets.contents[p], z.sets))
    && Describes(h.root.rows, h.shot.books, z)
    && |h.root.trees| == |h.shot.ordinary| + 1 == |s.ordinary| + 1
    && forall i :: 0 <= i < |h.root.trees| ==>
      h.root.trees[i] in f && h.root.trees[i].home == i
        && h.root.trees[i].contents == TreeOf(h.shot.primary, h.shot.ordinary, i - 1)
  }

  ghost predicate AnswerOk(name: string, x: Answer, sets: set<BN.Node>)
    reads sets
  {
    && InBits(x.rows.bits, sets) && S.HandedOut(x.rows.bits, x.ids, sets)
    && x.rows.table == name && x.rows.vec == x.seen.vec
  }

  ghost predicate SameRoot(a: Seen, b: Seen)
  {
    a.vec.root != null && a.vec.root == b.vec.root
  }

  /** States with the same row vector, unless it is empty, have the same row bookkeeping. */
  ghost predicate OneToOne(seen: set<Seen>)
  {
    forall a, b :: a in seen && b in seen && SameRoot(a, b) ==>
      a.shot.books == b.shot.books && a.shot.line == b.shot.line
  }

  /** A row vector that has been handed out and is that of the transaction stands for what the transaction says. */
  ghost predicate UpToDate(seen: set<Seen>, root: VN.Node?, books: Books, line: Line)
  {
    forall a :: a in seen && root != null && a.vec.root == root ==> a.shot.books == books && a.shot.line == line
  }

  ghost function SeenOf(h: Held): Seen
  {
    Seen(h.root.rows.vec, h.shot)
  }

  /** All that has been handed out says what it said; it depends on nothing but frozen nodes and trees. */
  ghost predicate Lasts(s: Schema, name: string, p: Public, z: Frozen, f: set<J.Tree<Bytes, Row>>)
    reads z.sets, z.rows, z.ids, z.trees, f
  {
    && OneToOne(p.seen) && (forall a :: a in p.seen ==> SeenOk(s, a, z.rows))
    && (forall h :: h in p.held ==> HeldOk(s, h, z, f) && SeenOf(h) in p.seen)
    && (forall x :: x in p.answers ==> AnswerOk(name, x, z.sets) && x.seen in p.seen && s.bitmaps != [])
    && (forall l :: l in p.lists ==> l.tree in f && l.tree.contents == l.rows)
  }

  lemma HeldMore(s: Schema, h: Held, z: Frozen, f: set<J.Tree<Bytes, Row>>, z': Frozen, f': set<J.Tree<Bytes, Row>>)
    requires HeldOk(s, h, z, f) && Within(z, z') && f <= f'
    ensures HeldOk(s, h, z', f')
  {
    hide Describes;
    DescribesMore(h.root.rows, h.shot.books, z, z');
  }

  lemma LastsMore(s: Schema, name: string, p: Public, z: Frozen, f: set<J.Tree<Bytes, Row>>, z': Frozen,
                  f': set<J.Tree<Bytes, Row>>)
    requires Lasts(s, name, p, z, f) && Within(z, z') && f <= f'
    ensures Lasts(s, name, p, z', f')
  {
    hide OneToOne, HeldOk, Traced, V.Holds, BW.Holds;
    forall h | h in p.held
      ensures HeldOk(s, h, z', f')
    {
      HeldMore(s, h, z, f, z', f');
    }
  }

  /** The row vectors that have been handed out are made of nodes that never change. */
  lemma SeenRoots(s: Schema, name: string, p: Public, z: Frozen, f: set<J.Tree<Bytes, Row>>)
    requires Lasts(s, name, p, z, f)
    ensures forall a :: a in p.seen && a.vec.root != null ==> a.vec.root in z.rows
  {
    hide HeldOk, AnswerOk, V.HandedOut, Traced, OneToOne;
  }

  lemma MoreSeen(s: Schema, name: string, p: Public, z: Frozen, f: set<J.Tree<Bytes, Row>>, a: Seen)
    requires Lasts(s, name, p, z, f) && SeenOk(s, a, z.rows) && UpToDate(p.seen, a.vec.root, a.shot.books, a.shot.line)
    ensures Lasts(s, name, p.(seen := p.seen + {a}), z, f)
    ensures UpToDate(p.seen + {a}, a.vec.root, a.shot.books, a.shot.line)
  {
    hide HeldOk, SeenOk, AnswerOk;
  }

  lemma MoreHeld(s: Schema, name: string, p: Public, z: Frozen, f: set<J.Tree<Bytes, Row>>, h: Held)
    requires Lasts(s, name, p, z, f) && HeldOk(s, h, z, f) && SeenOf(h) in p.seen
    ensures Lasts(s, name, p.(held := p.held + [h]), z, f)
  {
    hide HeldOk, SeenOk, AnswerOk, OneToOne;
  }

  lemma MoreAnswers(s: Schema, name: string, p: Public, z: Frozen, f: set<J.Tree<Bytes, Row>>, x: Answer)
    requires Lasts(s, name, p, z, f) && AnswerOk(name, x, z.sets) && x.seen in p.seen && s.bitmaps != []
    ensures Lasts(s, name, p.(answers := p.answers + [x]), z, f)
  {
    hide HeldOk, SeenOk, AnswerOk, OneToOne;
  }

  lemma MoreLists(s: Schema, name: string, p: Public, z: Frozen, f: set<J.Tree<Bytes, Row>>, l: Listed)
    requires Lasts(s, name, p, z, f) && l.tree in f && l.tree.contents == l.rows
    ensures Lasts(s, name, p.(lists := p.lists + [l]), z, f)
  {
    hide HeldOk, SeenOk, AnswerOk, OneToOne;
  }

  class Database {
    const txn: Txn
    var root: Root
    var open: bool
    /** A write of the transaction has panicked: all that is left is to abort it. */
    var torn: bool
    /** The published version. */
    ghost var top: Held
    ghost var shown: Public

    ghost predicate Valid()
      reads this, txn, txn.trees, txn.trees.idx, txn.trees.handles, txn.trees.Kept()
      reads txn.book, txn.book.sets, txn.book.sets.writer, txn.book.sets.writer.counter
      reads txn.book.sets.txn, txn.book.sets.txn.tree, txn.book.sets.nodes, txn.book.sets.arrays
      reads txn.book.rows, txn.book.rows.writer, txn.book.rows.writer.counter, txn.book.rows.vec.root
      reads txn.book.rows.nodes, txn.book.rows.arrays, txn.book.txn, txn.book.txn.tree
      reads txn.book.Kept().sets, txn.book.Kept().rows, txn.book.Kept().ids, txn.book.Kept().trees
    {
      && txn.Sound() && Lasts(txn.schema, txn.name, shown, txn.book.Kept(), txn.trees.Kept())
      && top in shown.held && top.root == root
      && (Ready() ==> txn.Usable() && UpToDate(shown.seen, txn.book.rows.vec.root, txn.book.State(), txn.line))
      && (Ready() && txn.schema.bitmaps == [] ==> txn.book.rows.vec.root == null)
    }

    /** There is a write transaction that can go on. */
    predicate Ready()
      reads this
    {
      open && !torn
    }

    /** What the open transaction sees. */
    ghost function Now(): Shot
      reads txn, txn.trees, txn.book, txn.book.sets, txn.book.rows, txn.book.rows.vec.root
    {
      Shot(txn.trees.primary, txn.trees.ordinary, txn.book.State(), txn.line)
    }

    constructor (name: string, schema: Schema)
      ensures Valid() && !open && txn.name == name && txn.schema == schema
      ensures top.shot.primary == map[] && top.shot.books == NO_BOOKS && top.shot.line == NEW_LINE
      ensures |top.shot.ordinary| == |schema.ordinary|
      ensures forall i :: 0 <= i < |schema.ordinary| ==> top.shot.ordinary[i] == map[]
      ensures shown.held == [top] && top.root == root && shown.seen == {SeenOf(top)}
      ensures shown.answers == [] && shown.lists == []
      ensures fresh(txn) && fresh(txn.book.Reach()) && fresh(txn.trees.Reach())
    {
      hide Txn.Sound, Lasts, HeldOk, SeenOk, BW.Holds, V.Holds, Book.Reach, Trees.Reach, Book.Kept, Trees.Kept;
      hide TreeOf;
      var t, ts, v := Empty(name, schema);
      txn, root, open, torn := t, Root(ts, v), false, false;
      top := Held(Root(ts, v), Shot(t.trees.primary, t.trees.ordinary, t.book.State(), t.line));
      shown := Public([], [], [], {});
      new;
      NothingShown(txn.schema, txn.name, txn.book.Kept(), txn.trees.Kept());
      Show(ts, v);
    }

    /** A table without rows, and its first version. */
    static method Empty(name: string, schema: Schema) returns (t: Txn, ts: seq<J.Tree<Bytes, Row>>, v: Version)
      ensures t.Usable() && t.name == name && t.schema == schema
      ensures t.trees.primary == map[] && t.book.State() == NO_BOOKS && t.line == NEW_LINE
      ensures t.book.rows.vec.root == null
      ensures forall i :: 0 <= i < |t.trees.ordinary| ==> t.trees.ordinary[i] == map[]
      ensures fresh(t) && fresh(t.book.Reach()) && fresh(t.trees.Reach())
      ensures Describes(v, t.book.State(), t.book.Kept()) && v.vec == t.book.rows.vec
      ensures |ts| == |t.trees.ordinary| + 1 == |schema.ordinary| + 1
      ensures forall i :: 0 <= i < |ts| ==>
        ts[i] in t.trees.Kept() && ts[i].home == i && ts[i].contents == TreeOf(t.trees.primary, t.trees.ordinary, i - 1)
    {
      hide Txn.Sound, Describes, Book.Reach, Trees.Reach, Book.Kept, Trees.Kept;
      t := new Txn(name, schema);
      ts, v := t.Freeze();
      t.SoundTrees();
    }

    /** A version that has just been frozen is handed out. */
    ghost method Show(ts: seq<J.Tree<Bytes, Row>>, v: Version)
      requires txn.Usable() && (txn.schema.bitmaps == [] ==> txn.book.rows.vec.root == null)
      requires Lasts(txn.schema, txn.name, shown, txn.book.Kept(), txn.trees.Kept())
      requires UpToDate(shown.seen, txn.book.rows.vec.root, txn.book.State(), txn.line)
      requires Describes(v, txn.book.State(), txn.book.Kept()) && v.vec == txn.book.rows.vec
      requires |ts| == |txn.trees.ordinary| + 1 == |txn.schema.ordinary| + 1
      requires forall i :: 0 <= i < |ts| ==>
        ts[i] in txn.trees.Kept() && ts[i].home == i
          && ts[i].contents == TreeOf(txn.trees.primary, txn.trees.ordinary, i - 1)
      modifies this`shown
      ensures var h := Held(Root(ts, v), Now());
        shown == old(shown).(held := old(shown).held + [h], seen := old(shown).seen + {SeenOf(h)})
      ensures Lasts(txn.schema, txn.name, shown, txn.book.Kept(), txn.trees.Kept())
      ensures UpToDate(shown.seen, txn.book.rows.vec.root, txn.book.State(), txn.line)
    {
      hide Txn.Sound, Lasts, Describes, SeenOk, HeldOk, Book.Kept, Trees.Kept, UpToDate;
      var h, z, f := Held(Root(ts, v), Now()), txn.book.Kept(), txn.trees.Kept();
      NewHeld(txn.schema, h, z, f);
      MoreSeen(txn.schema, txn.name, shown, z, f, SeenOf(h));
      shown := shown.(seen := shown.seen + {SeenOf(h)});
      MoreHeld(txn.schema, txn.name, shown, z, f, h);
      shown := shown.(held := shown.held + [h]);
    }

    lemma Outside()
      ensures this !in txn.book.Reach() && this !in txn.trees.Reach()
      ensures txn !in txn.book.Reach() && txn !in txn.trees.Reach()
    {
      hide S.Sets.Reach, V.Rows.Reach, J.Txn.Reach, Trees.Reach;
    }

    /** What has been handed out is out of reach of the writes. */
    lemma OutOfReach()
      requires txn.Sound()
      ensures forall x :: x in txn.book.Kept().sets ==> x !in txn.book.Reach() && x !in txn.trees.Reach()
      ensures forall x :: x in txn.book.Kept().rows ==> x !in txn.book.Reach() && x !in txn.trees.Reach()
      ensures forall x :: x in txn.book.Kept().ids ==> x !in txn.book.Reach() && x !in txn.trees.Reach()
      ensures forall x :: x in txn.book.Kept().trees ==> x !in txn.book.Reach() && x !in txn.trees.Reach()
      ensures forall x :: x in txn.trees.Kept() ==> x !in txn.book.Reach() && x !in txn.trees.Reach()
      ensures this !in txn.book.Reach() && this !in txn.trees.Reach()
      ensures txn !in txn.book.Reach() && txn !in txn.trees.Reach()
    {
      hide Book.Valid, Trees.Valid, Book.Reach, Trees.Reach, Trees.Kept;
      Outside();
      txn.Apart();
      txn.trees.KeptApart();
      BookOutOfReach(txn.book);
    }

    /** The writes of a transaction change neither the database nor the transaction but for the fields they name. */
    lemma Apart()
      requires Valid()
      ensures this !in txn.book.Reach() && this !in txn.trees.Reach()
      ensures txn !in txn.book.Reach() && txn !in txn.trees.Reach()
    {
      hide Txn.Sound, Txn.Usable, Lasts, UpToDate;
      OutOfReach();
    }

    lemma BookOutOfReach(book: Book)
      requires book.Valid()
      ensures forall x :: x in book.Kept().sets ==> x !in book.Reach()
      ensures forall x :: x in book.Kept().rows ==> x !in book.Reach()
      ensures forall x :: x in book.Kept().ids ==> x !in book.Reach()
      ensures forall x :: x in book.Kept().trees ==> x !in book.Reach()
    {
      hide S.Sets.Valid, V.Rows.Valid, S.Sets.Reach, V.Rows.Reach;
      SetsApart(book.sets);
      RowsApart(book.rows);
    }

    lemma SetsApart(sets: S.Sets)
      requires sets.Valid()
      ensures sets.frozen !! sets.Reach() && forall t :: t in sets.txn.frozen ==> t !in sets.Reach()
    {
      hide S.InStore, BN.Closed;
    }

    lemma RowsApart(rows: V.Rows)
      requires rows.Valid()
      ensures rows.frozen !! rows.Reach()
    {
      hide VN.Sealed, VN.Closed, VQ.Ok;
    }

    /** No more than before has come into reach of later writes, apart from what is new. */
    twostate predicate Reached()
      reads txn, txn.trees, txn.trees.idx, txn.book, txn.book.sets, txn.book.sets.writer, txn.book.sets.txn
      reads txn.book.rows, txn.book.rows.writer, txn.book.rows.vec.root, txn.book.txn
    {
      && (forall x :: x in txn.book.Reach() ==> x in old(txn.book.Reach()) || fresh(x))
      && (forall x :: x in txn.trees.Reach() ==> x in old(txn.trees.Reach()) || fresh(x))
    }

    /** After a call nothing that has been handed out has changed. If the call did not panic, no row vector that has
        been handed out is that of the transaction, unless nothing has changed there either. */
    lemma Carried(z: Frozen, f: set<J.Tree<Bytes, Row>>, was: Shot, root: VN.Node?, done: bool)
      requires Lasts(txn.schema, txn.name, shown, z, f) && Within(z, txn.book.Kept()) && f <= txn.trees.Kept()
      requires UpToDate(shown.seen, root, was.books, was.line)
      requires var top := txn.book.rows.vec.root;
        done ==>
          top == null || top !in z.rows || (top == root && txn.line == was.line && txn.book.State() == was.books)
      ensures Lasts(txn.schema, txn.name, shown, txn.book.Kept(), txn.trees.Kept())
      ensures done ==> UpToDate(shown.seen, txn.book.rows.vec.root, txn.book.State(), txn.line)
      ensures txn.book.rows.vec.root !in z.rows ==> Renewed()
    {
      hide Lasts, Book.Kept, Book.State, Trees.Kept;
      LastsMore(txn.schema, txn.name, shown, z, f, txn.book.Kept(), txn.trees.Kept());
      SeenRoots(txn.schema, txn.name, shown, z, f);
    }

    /** The transaction's row vector is none that has been handed out, but for the empty one. */
    ghost predicate Renewed()
      reads this, txn, txn.book, txn.book.rows
    {
      txn.book.rows.vec.root != null ==> forall a :: a in shown.seen ==> a.vec.root != txn.book.rows.vec.root
    }

    /** Nothing that is frozen has changed. */
    twostate predicate SameFrozen(z: Frozen, f: set<J.Tree<Bytes, Row>>)
      reads z.sets, z.rows, z.ids, z.trees, f
    {
      && (forall x :: x in z.sets ==> unchanged(x)) && (forall x :: x in z.rows ==> unchanged(x))
      && (forall x :: x in z.ids ==> unchanged(x)) && (forall x :: x in z.trees ==> unchanged(x))
      && (forall x :: x in f ==> unchanged(x))
    }

    /** A panic leaves a transaction that can only be aborted. */
    method Mark(panic: bool)
      requires txn.Sound() && Lasts(txn.schema, txn.name, shown, txn.book.Kept(), txn.trees.Kept()) && Ready()
      requires top in shown.held && top.root == root
      requires !panic && txn.schema.bitmaps == [] ==> txn.book.rows.vec.root == null
      requires !panic ==>
        txn.Usable() && UpToDate(shown.seen, txn.book.rows.vec.root, txn.book.State(), txn.line)
      modifies this`torn
      ensures Valid() && torn == panic
      ensures txn.State() == old(txn.State()) && txn.book.rows.vec == old(txn.book.rows.vec)
      ensures shown == old(shown)
      ensures txn.book.Reach() == old(txn.book.Reach()) && txn.trees.Reach() == old(txn.trees.Reach())
    {
      hide Txn.Sound, Traced, Lasts, Book.Kept, Book.Reach, Book.State, Trees.Kept, Trees.Reach, UpToDate;
      ghost var z, f, top := txn.book.Kept(), txn.trees.Kept(), txn.book.rows.vec.root;
      torn := panic;
    }

    /** Adds a row, or replaces the one with its key, in the open transaction. */
    method Insert(row: Row) returns (r: Result)
      requires Valid() && Ready()
      modifies this`torn, txn`changes, txn`line, txn.trees.Reach(), txn.book.Reach()
      ensures Valid() && torn == r.Panic? && Reached()
      ensures Inserted(txn.schema, old(txn.State()), txn.name, txn.tracking, row, r, txn.State())
      ensures if r.Ok? then Renewed() else !r.Panic? ==> txn.book.rows.vec == old(txn.book.rows.vec)
    {
      hide Txn.Sound, Traced, Lasts, Book.Kept, Book.Reach, Book.State, Trees.Kept, Trees.Reach, UpToDate, Inserted;
      OutOfReach();
      ghost var z, f, was, root := txn.book.Kept(), txn.trees.Kept(), Now(), txn.book.rows.vec.root;
      assert Lasts(txn.schema, txn.name, shown, z, f);
      ghost var before := txn.State();
      r := txn.Insert(row);
      assert SameFrozen(z, f);
      assert Lasts(txn.schema, txn.name, shown, z, f);
      InsertOutcome(txn.schema, before, txn.name, txn.tracking, row, r, txn.State());
      Carried(z, f, was, root, !r.Panic?);
      Mark(r.Panic?);
    }

    /** Deletes the row with the key of the given one, in the open transaction. */
    method Delete(row: Row) returns (r: Result)
      requires Valid() && Ready()
      modifies this`torn, txn`changes, txn`line, txn.trees.Reach(), txn.book.Reach()
      ensures Valid() && torn == r.Panic? && Reached()
      ensures Deleted(txn.schema, old(txn.State()), txn.name, txn.tracking, row, r, txn.State())
      ensures if r.Ok? then Renewed() else !r.Panic? ==> txn.book.rows.vec == old(txn.book.rows.vec)
    {
      hide Txn.Sound, Traced, Lasts, Book.Kept, Book.Reach, Book.State, Trees.Kept, Trees.Reach, UpToDate, Deleted;
      OutOfReach();
      ghost var z, f, was, root := txn.book.Kept(), txn.trees.Kept(), Now(), txn.book.rows.vec.root;
      assert Lasts(txn.schema, txn.name, shown, z, f);
      ghost var before := txn.State();
      r := txn.Delete(row);
      assert SameFrozen(z, f);
      assert Lasts(txn.schema, txn.name, shown, z, f);
      if !r.Ok? && !r.Panic? {
        NotDeleted(txn.schema, before, txn.name, txn.tracking, row, r, txn.State());
      }
      Carried(z, f, was, root, !r.Panic?);
      Mark(r.Panic?);
    }

    /** Deletes the given rows until one cannot be deleted; ts are the tables in between. */
    method DeleteAll(rows: seq<Row>) returns (num: nat, r: Result, ghost ts: seq<Table>)
      requires Valid() && Ready()
      modifies this`torn, txn`changes, txn`line, txn.trees.Reach(), txn.book.Reach()
      ensures Valid() && torn == r.Panic? && Reached()
      ensures DeletedList(txn.schema, txn.name, txn.tracking, rows, ts, r, txn.State())
      ensures ts[0] == old(txn.State()) && num == |ts| - 1
      ensures num == 0 && !r.Panic? ==> txn.State() == ts[0] && txn.book.rows.vec == old(txn.book.rows.vec)
      ensures num > 0 && !r.Panic? ==> Renewed()
    {
      hide Txn.Sound, Traced, Lasts, Book.Kept, Book.Reach, Book.State, Trees.Kept, Trees.Reach, UpToDate, DeletedList;
      OutOfReach();
      ghost var z, f, was, root := txn.book.Kept(), txn.trees.Kept(), Now(), txn.book.rows.vec.root;
      assert Lasts(txn.schema, txn.name, shown, z, f);
      num, r, ts := txn.DeleteAll(rows);
      assert SameFrozen(z, f);
      assert Lasts(txn.schema, txn.name, shown, z, f);
      Carried(z, f, was, root, !r.Panic?);
      Mark(r.Panic?);
    }

    /** Deletes what an index lists under a prefix, and cuts a prefix off it; ts are the tables in between. A failing
        indexer leaves a transaction that can go on, with whatever has been done by then. */
    method DeletePrefix(target: int, search: Bytes, prefix: Bytes)
      returns (found: bool, r: Result, ghost entries: seq<Bytes>, ghost rows: seq<Row>, ghost ts: seq<Table>)
      requires Valid() && Ready() && -1 <= target < |txn.trees.ordinary|
      modifies this`torn, txn`changes, txn`line, txn.trees.Reach(), txn.book.Reach()
      ensures Valid() && torn == r.Panic? && Reached() && (found <==> rows != [])
      ensures Lists(entries, old(TreeOf(txn.trees.primary, txn.trees.ordinary, target)), search)
      ensures forall i :: 0 <= i < |entries| ==>
        entries[i] in old(TreeOf(txn.trees.primary, txn.trees.ordinary, target))
      ensures rows == RowsAt(old(TreeOf(txn.trees.primary, txn.trees.ordinary, target)), entries)
      ensures PrefixDeleted(txn.schema, txn.name, txn.tracking, target, prefix, rows, ts, r, txn.State())
      ensures |ts| > 0 && ts[0] == old(txn.State())
      ensures |ts| == 1 && !r.Panic? ==> txn.book.rows.vec == old(txn.book.rows.vec)
      ensures |ts| > 1 && !r.Panic? ==> Renewed()
    {
      hide Txn.Sound, Traced, Lasts, Book.Kept, Book.Reach, Book.State, Trees.Kept, Trees.Reach, UpToDate;
      hide PrefixDeleted, Lists;
      OutOfReach();
      ghost var z, f, was, root := txn.book.Kept(), txn.trees.Kept(), Now(), txn.book.rows.vec.root;
      assert Lasts(txn.schema, txn.name, shown, z, f);
      found, r, entries, rows, ts := txn.DeletePrefix(target, search, prefix);
      assert SameFrozen(z, f);
      assert Lasts(txn.schema, txn.name, shown, z, f);
      if !r.Panic? {
        PrefixBooks(txn.schema, txn.name, txn.tracking, target, prefix, rows, ts, r, txn.State());
      }
      Carried(z, f, was, root, !r.Panic?);
      Mark(r.Panic?);
    }

    /** Starts a write transaction on the published version; the writer lock is free. */
    method Begin(tracking: bool)
      requires Valid() && !open
      modifies this`open, this`torn, txn, txn.trees.Reach(), txn.book.Reach()
      ensures Valid() && Ready() && Reached() && txn.tracking == tracking && txn.changes == [] && Now() == top.shot
      ensures txn.book.rows.vec == root.rows.vec && top.root == root
    {
      hide Txn.Sound, Lasts, Book.Kept, Book.Reach, Book.State, Trees.Kept, Trees.Reach, UpToDate, Describes, SeenOk;
      hide Traced;
      OutOfReach();
      TopFacts();
      ghost var z, f := txn.book.Kept(), txn.trees.Kept();
      txn.Load(root.trees, root.rows, top.shot.books, top.shot.line, tracking);
      assert SameFrozen(z, f);
      assert Lasts(txn.schema, txn.name, shown, z, f);
      txn.SoundTrees();
      SameShot(root.trees, Now(), top.shot);
      TopUpToDate();
      Open();
    }

    /** The transaction can go on. */
    method Open()
      requires txn.Usable() && Lasts(txn.schema, txn.name, shown, txn.book.Kept(), txn.trees.Kept())
      requires top in shown.held && top.root == root
      requires UpToDate(shown.seen, txn.book.rows.vec.root, txn.book.State(), txn.line)
      requires txn.schema.bitmaps == [] ==> txn.book.rows.vec.root == null
      modifies this`open, this`torn
      ensures Valid() && Ready()
      ensures txn.State() == old(txn.State()) && txn.book.rows.vec == old(txn.book.rows.vec)
      ensures txn.book.Reach() == old(txn.book.Reach()) && txn.trees.Reach() == old(txn.trees.Reach())
    {
      hide Txn.Sound, Traced, Lasts, Book.Kept, Book.Reach, Book.State, Trees.Kept, Trees.Reach, UpToDate;
      ghost var z, f, top := txn.book.Kept(), txn.trees.Kept(), txn.book.rows.vec.root;
      open, torn := true, false;
    }

    lemma TopFacts()
      requires txn.Sound() && Lasts(txn.schema, txn.name, shown, txn.book.Kept(), txn.trees.Kept())
      requires top in shown.held && top.root == root
      ensures Describes(root.rows, top.shot.books, txn.book.Kept())
      ensures |root.trees| == |top.shot.ordinary| + 1 == |txn.schema.ordinary| + 1
      ensures forall i :: 0 <= i < |root.trees| ==>
        root.trees[i] in txn.trees.Kept() && root.trees[i].home == i
          && root.trees[i].contents == TreeOf(top.shot.primary, top.shot.ordinary, i - 1)
      ensures Traced(top.shot.line, top.shot.books)
      ensures txn.schema.bitmaps == [] ==> root.rows.vec.root == null
    {
      hide Txn.Sound, Describes, Traced, V.HandedOut, AnswerOk, OneToOne, Book.Kept, Trees.Kept;
      assert SeenOk(txn.schema, SeenOf(top), txn.book.Kept().rows);
    }

    lemma SameShot(ts: seq<J.Tree<Bytes, Row>>, a: Shot, b: Shot)
      requires |ts| == |a.ordinary| + 1 == |b.ordinary| + 1 && a.books == b.books && a.line == b.line
      requires forall i :: 0 <= i < |ts| ==> ts[i].contents == TreeOf(a.primary, a.ordinary, i - 1)
      requires forall i :: 0 <= i < |ts| ==> ts[i].contents == TreeOf(b.primary, b.ordinary, i - 1)
      ensures a == b
    {
      assert ts[0].contents == a.primary == b.primary;
      forall i | 0 <= i < |a.ordinary|
        ensures a.ordinary[i] == b.ordinary[i]
      {
        assert ts[i + 1].contents == TreeOf(a.primary, a.ordinary, i);
      }
    }

    /** A version with the row vector of the published one is the published one. */
    lemma TopUpToDate()
      requires Lasts(txn.schema, txn.name, shown, txn.book.Kept(), txn.trees.Kept()) && top in shown.held
      ensures UpToDate(shown.seen, top.root.rows.vec.root, top.shot.books, top.shot.line)
    {
      hide HeldOk, SeenOk, AnswerOk, Book.Kept, Trees.Kept;
      forall a | a in shown.seen && top.root.rows.vec.root != null && a.vec.root == top.root.rows.vec.root
        ensures a.shot.books == top.shot.books && a.shot.line == top.shot.line
      {
        assert SameRoot(a, SeenOf(top));
      }
    }

    /** Freezes the transaction's state and hands it out as a version. */
    method Snapshot() returns (r: Root)
      requires Valid() && Ready()
      modifies this`shown, txn.trees.Reach(), txn.book.Reach()
      ensures Valid() && Reached() && txn.State() == old(txn.State())
      ensures r.rows.vec == txn.book.rows.vec == old(txn.book.rows.vec)
      ensures var h := Held(r, Now());
        shown == old(shown).(held := old(shown).held + [h], seen := old(shown).seen + {SeenOf(h)})
    {
      hide Txn.Sound, Lasts, Book.Kept, Book.Reach, Book.State, Trees.Kept, Trees.Reach, UpToDate, Describes, Traced;
      hide TreeOf;
      OutOfReach();
      ghost var z, f := txn.book.Kept(), txn.trees.Kept();
      txn.SoundTrees();
      var ts, v := txn.Freeze();
      assert SameFrozen(z, f);
      assert Lasts(txn.schema, txn.name, shown, z, f);
      LastsMore(txn.schema, txn.name, shown, z, f, txn.book.Kept(), txn.trees.Kept());
      HandVersion(ts, v);
      r := Root(ts, v);
    }

    ghost method HandVersion(ts: seq<J.Tree<Bytes, Row>>, v: Version)
      requires Valid() && Ready() && Describes(v, txn.book.State(), txn.book.Kept()) && v.vec == txn.book.rows.vec
      requires |ts| == |txn.trees.ordinary| + 1 == |txn.schema.ordinary| + 1
      requires forall i :: 0 <= i < |ts| ==>
        ts[i] in txn.trees.Kept() && ts[i].home == i
          && ts[i].contents == TreeOf(txn.trees.primary, txn.trees.ordinary, i - 1)
      modifies this`shown
      ensures Valid() && txn.State() == old(txn.State()) && txn.book.rows.vec == old(txn.book.rows.vec)
      ensures txn.book.Reach() == old(txn.book.Reach()) && txn.trees.Reach() == old(txn.trees.Reach())
      ensures var h := Held(Root(ts, v), Now());
        shown == old(shown).(held := old(shown).held + [h], seen := old(shown).seen + {SeenOf(h)})
    {
      hide Txn.Sound, Lasts, Book.Kept, Book.Reach, Book.State, Trees.Kept, Trees.Reach, UpToDate, Describes, Traced;
      hide TreeOf;
      var z, f, root := txn.book.Kept(), txn.trees.Kept(), txn.book.rows.vec.root;
      Show(ts, v);
    }

    /** Publishes the transaction's state as the next version of the database and ends the transaction. */
    method Commit()
      requires Valid() && Ready()
      modifies this`shown, this`root, this`top, this`open, txn.trees.Reach(), txn.book.Reach()
      ensures Valid() && !open && Reached() && top == Held(root, old(Now())) && txn.State() == old(txn.State())
      ensures root.rows.vec == old(txn.book.rows.vec)
      ensures shown == old(shown).(held := old(shown).held + [top], seen := old(shown).seen + {SeenOf(top)})
    {
      hide Trees.Kept, Trees.Reach, Txn.Sound, Txn.Usable, Lasts, UpToDate, Book.Reach, Book.State, Book.Kept;
      Apart();
      var next := Snapshot();
      assert shown.held[|shown.held| - 1] == Held(next, Now());
      Publish(next);
    }

    /** A version of the transaction's state becomes the published one. */
    method Publish(next: Root)
      requires Valid() && Ready() && Held(next, Now()) in shown.held
      modifies this`root, this`top, this`open
      ensures Valid() && !open && top == Held(root, old(Now())) && root == next
      ensures txn.State() == old(txn.State()) && txn.book.rows.vec == old(txn.book.rows.vec)
      ensures txn.book.Reach() == old(txn.book.Reach()) && txn.trees.Reach() == old(txn.trees.Reach())
    {
      hide Txn.Sound, Txn.Usable, Lasts, Book.Kept, Book.Reach, Book.State, Trees.Kept, Trees.Reach, UpToDate;
      ghost var z, f, r := txn.book.Kept(), txn.trees.Kept(), txn.book.rows.vec.root;
      root, top, open := next, Held(next, Now()), false;
    }

    /** Ends the transaction without publishing anything, also one whose last write has panicked: what is
        published stays what it was. */
    method Abort()
      requires Valid() && open
      modifies this`open, this`torn, txn`changes, txn.book.Reach()
      ensures Valid() && !open && !torn && Reached() && txn.changes == []
    {
      hide Txn.Sound, Lasts, Book.Reach, Book.Kept, Trees.Kept, Trees.Reach;
      OutOfReach();
      ghost var z, f := txn.book.Kept(), txn.trees.Kept();
      txn.Release();
      ghost var root := txn.book.rows.vec.root;
      assert SameFrozen(z, f);
      assert Lasts(txn.schema, txn.name, shown, z, f);
      assert Lasts(txn.schema, txn.name, shown, txn.book.Kept(), txn.trees.Kept()) by {
        LastsMore(txn.schema, txn.name, shown, z, f, txn.book.Kept(), txn.trees.Kept());
      }
      open, torn := false, false;
    }

    /** The tree of an index as the transaction sees it. An iterator over it does not follow later writes. */
    method Read(target: int) returns (t: J.Tree<Bytes, Row>)
      requires Valid() && Ready() && -1 <= target < |txn.schema.ordinary|
      modifies this`shown, txn.trees.Reach()
      ensures Valid() && Reached() && txn.State() == old(txn.State()) && target < |txn.trees.ordinary|
      ensures txn.book.rows.vec == old(txn.book.rows.vec)
      ensures t.contents == TreeOf(txn.trees.primary, txn.trees.ordinary, target)
      ensures shown == old(shown).(lists := old(shown).lists + [Listed(target, t, t.contents)])
    {
      hide Txn.Sound, Lasts, Book.Kept, Book.Reach, Book.State, Trees.Kept, Trees.Reach, UpToDate, Traced;
      OutOfReach();
      ghost var z, f := txn.book.Kept(), txn.trees.Kept();
      t := txn.Read(target);
      assert SameFrozen(z, f);
      assert Lasts(txn.schema, txn.name, shown, z, f);
      LastsMore(txn.schema, txn.name, shown, z, f, txn.book.Kept(), txn.trees.Kept());
      List(Listed(target, t, t.contents));
    }

    /** A frozen tree is handed out to an iterator. */
    ghost method List(l: Listed)
      requires Valid() && l.tree in txn.trees.Kept() && l.tree.contents == l.rows
      modifies this`shown
      ensures Valid() && shown == old(shown).(lists := old(shown).lists + [l])
      ensures txn.State() == old(txn.State()) && txn.book.rows.vec == old(txn.book.rows.vec)
      ensures txn.book.Reach() == old(txn.book.Reach()) && txn.trees.Reach() == old(txn.trees.Reach())
    {
      hide Txn.Sound, Lasts, Book.Kept, Book.Reach, Book.State, Trees.Kept, Trees.Reach, UpToDate, Traced;
      var z, f, root := txn.book.Kept(), txn.trees.Kept(), txn.book.rows.vec.root;
      MoreLists(txn.schema, txn.name, shown, z, f, l);
      shown := shown.(lists := shown.lists + [l]);
    }

    // -------------------------------------------------------------- row sets

    /** What a query of the transaction starts with: the row bookkeeping is frozen, and what it says is remembered. */
    method FreezeRows() returns (ghost now: Seen)
      requires Valid() && Ready()
      modifies this`shown, txn.book.Reach()
      ensures Valid() && Reached() && txn.State() == old(txn.State()) && txn.book.rows.vec == old(txn.book.rows.vec)
      ensures now == Seen(txn.book.rows.vec, Now())
      ensures shown == old(shown).(seen := old(shown).seen + {now})
      ensures S.TreeOut(txn.book.sets.txn.tree, now.shot.books.sets, txn.book.Kept().sets)
    {
      hide Txn.Sound, Lasts, Book.Kept, Book.Reach, Book.State, Trees.Kept, Trees.Reach, UpToDate, Traced;
      hide S.TreeOut, V.Holds;
      OutOfReach();
      ghost var z, f := txn.book.Kept(), txn.trees.Kept();
      txn.FreezeRows();
      assert SameFrozen(z, f);
      assert Lasts(txn.schema, txn.name, shown, z, f);
      LastsMore(txn.schema, txn.name, shown, z, f, txn.book.Kept(), txn.trees.Kept());
      now := Seen(txn.book.rows.vec, Now());
      NewSeen(txn.schema, now, txn.book.Kept().rows);
      MoreSeen(txn.schema, txn.name, shown, txn.book.Kept(), txn.trees.Kept(), now);
      ghost var root := txn.book.rows.vec.root;
      shown := shown.(seen := shown.seen + {now});
    }

    /** A set out of a tree of sets that says what ids says. */
    method Lookup(t: J.Tree<S.Place, BN.Bitmap>, p: S.Place, ghost ids: map<S.Place, set<nat>>,
                  ghost sets: set<BN.Node>)
      returns (bits: BN.Bitmap)
      requires S.TreeOut(t, ids, sets) && BN.AllBacked(sets)
      ensures S.HandedOut(bits, S.SetAt(ids, p), sets) && BN.AllBacked(BN.Repr(bits))
    {
      hide BW.Holds, BN.Backed;
      bits := if p in t.contents then t.contents[p] else null;
      if p in t.contents {
        assert S.HandedOut(bits, ids[p], sets);
      } else {
        S.EmptyHolds();
      }
      BN.PartBacked(BN.Repr(bits), sets);
    }

    /** The union of the sets whose values start with a prefix. */
    method Union(t: J.Tree<S.Place, BN.Bitmap>, index: nat, prefix: Bytes, ghost ids: map<S.Place, set<nat>>,
                 ghost sets: set<BN.Node>)
      returns (bits: BN.Bitmap)
      requires S.TreeOut(t, ids, sets) && BN.AllBacked(sets)
      ensures BW.Holds(bits, Q.Under(ids, index, prefix)) && BN.AllBacked(BN.Repr(bits))
      ensures forall x :: x in BN.Repr(bits) ==> x in sets || x.epoch == 0
    {
      hide BN.Canon, Q.Starts, BN.Backed;
      var todo := set p | p in t.contents && p.ValueSet? && p.index == index && Q.Starts(p.key, prefix);
      bits := null;
      S.EmptyHolds();
      ghost var all := todo;
      NothingYet(ids, all);
      while todo != {}
        invariant todo <= all && all <= ids.Keys
        invariant S.TreeOut(t, ids, sets) && BN.AllBacked(sets)
        invariant BW.Holds(bits, Gathered(ids, all - todo)) && BN.AllBacked(BN.Repr(bits))
        invariant forall x :: x in BN.Repr(bits) ==> x in sets || x.epoch == 0
        decreases todo
      {
        var p :| p in todo;
        assert S.HandedOut(t.contents[p], ids[p], sets);
        BN.PartBacked(BN.Repr(t.contents[p]), sets);
        bits := BA.Or(bits, t.contents[p]);
        OneGathered(ids, all, todo, p);
        todo := todo - {p};
      }
      AllGathered(ids, all, index, prefix);
      assert all - todo == all;
    }

    /** The ids of one value, of the values under a prefix, or of all rows. */
    method Gather(t: J.Tree<S.Place, BN.Bitmap>, q: Q.Query, ghost b: Books, ghost sets: set<BN.Node>)
      returns (bits: BN.Bitmap)
      requires S.TreeOut(t, b.sets, sets) && BN.AllBacked(sets) && (q.Where? || q.WherePrefix? || q.AllRows?)
      ensures BW.Holds(bits, Q.Ids(b, q)) && BN.AllBacked(BN.Repr(bits))
      ensures forall x :: x in BN.Repr(bits) ==> x in sets || x.epoch == 0
    {
      hide S.TreeOut, BW.Holds, Q.Under, BN.Backed, BN.AllBacked;
      match q {
        case Where(index, key) => bits := Lookup(t, S.ValueSet(index, key), b.sets, sets);
        case WherePrefix(index, prefix) => bits := Union(t, index, prefix, b.sets, sets);
        case AllRows => bits := Lookup(t, S.AllIds, b.sets, sets);
      }
    }

    /** A query in a state of the table that has been frozen. */
    method Find(t: J.Tree<S.Place, BN.Bitmap>, vec: VQ.Vector, q: Q.Query, ghost seen: Seen) returns (s: RowSet)
      requires Valid() && txn.schema.bitmaps != [] && (q.Where? || q.WherePrefix? || q.AllRows?)
      requires seen in shown.seen && vec == seen.vec && S.TreeOut(t, seen.shot.books.sets, txn.book.Kept().sets)
      modifies this`shown, txn.book.Reach()
      ensures Valid() && Reached() && txn.State() == old(txn.State()) && txn.book.rows.vec == old(txn.book.rows.vec)
      ensures shown == old(shown).(answers := old(shown).answers + [Answer(s, q, Q.Ids(seen.shot.books, q), seen)])
    {
      hide Txn.Sound, Lasts, Book.Kept, Book.Reach, Book.State, Trees.Kept, Trees.Reach, UpToDate, Traced;
      hide S.TreeOut, BW.Holds, Q.Ids, BN.AllBacked;
      FrozenBacked();
      ghost var z, f, root := txn.book.Kept(), txn.trees.Kept(), txn.book.rows.vec.root;
      var bits := Gather(t, q, seen.shot.books, txn.book.Kept().sets);
      s := RowSet(txn.name, vec, bits);
      assert SameFrozen(z, f);
      assert Lasts(txn.schema, txn.name, shown, z, f);
      HandOut(Answer(s, q, Q.Ids(seen.shot.books, q), seen));
    }

    lemma FrozenBacked()
      requires txn.Sound()
      ensures BN.AllBacked(txn.book.Kept().sets) && VN.AllBacked(txn.book.Kept().rows)
    {
      hide Trees.Valid, S.Sets.Sound, J.Txn.Valid;
      BN.PartBacked(txn.book.sets.frozen, txn.book.sets.frozen + txn.book.sets.nodes);
      VN.PartBacked(txn.book.rows.frozen, txn.book.rows.frozen + VN.ReprOf(txn.book.rows.vec.root));
    }

    /** A row set is handed out; the nodes it has of its own are kept. */
    ghost method HandOut(x: Answer)
      requires Valid() && txn.schema.bitmaps != [] && x.seen in shown.seen && x.rows.table == txn.name
      requires x.rows.vec == x.seen.vec && BW.Holds(x.rows.bits, x.ids) && BN.AllBacked(BN.Repr(x.rows.bits))
      requires forall n :: n in BN.Repr(x.rows.bits) ==> n in txn.book.Kept().sets || n.epoch == 0
      modifies this`shown, txn.book.Reach()
      ensures Valid() && Reached() && txn.State() == old(txn.State()) && txn.book.rows.vec == old(txn.book.rows.vec)
      ensures shown == old(shown).(answers := old(shown).answers + [x])
    {
      hide Txn.Sound, Lasts, Book.Kept, Book.Reach, Book.State, Trees.Kept, Trees.Reach, UpToDate, Traced, BW.Holds;
      OutOfReach();
      var z, f := txn.book.Kept(), txn.trees.Kept();
      assert Lasts(txn.schema, txn.name, shown, z, f);
      txn.Keep(x.rows.bits, x.ids);
      assert SameFrozen(z, f);
      assert Lasts(txn.schema, txn.name, shown, z, f);
      LastsMore(txn.schema, txn.name, shown, z, f, txn.book.Kept(), txn.trees.Kept());
      NewAnswer(txn.name, x, txn.book.Kept().sets);
      MoreAnswers(txn.schema, txn.name, shown, txn.book.Kept(), txn.trees.Kept(), x);
      var root := txn.book.rows.vec.root;
      shown := shown.(answers := shown.answers + [x]);
    }

    /** The rows of one value, of the values under a prefix, or all rows, as the open transaction sees them. */
    method Ask(q: Q.Query) returns (s: RowSet, ghost now: Seen)
      requires Valid() && Ready() && txn.schema.bitmaps != [] && (q.Where? || q.WherePrefix? || q.AllRows?)
      modifies this`shown, txn.book.Reach()
      ensures Valid() && Reached() && txn.State() == old(txn.State())
      ensures txn.book.rows.vec == old(txn.book.rows.vec) && now == Seen(txn.book.rows.vec, Now())
      ensures var x := Answer(s, q, Q.Ids(now.shot.books, q), now);
        shown == old(shown).(answers := old(shown).answers + [x], seen := old(shown).seen + {now})
    {
      hide Txn.Sound, Txn.Usable, Lasts, UpToDate, Book.Kept, Trees.Kept, Trees.Reach, S.TreeOut, Q.Ids;
      now := FreezeRows();
      s := Find(txn.book.sets.txn.tree, txn.book.rows.vec, q, now);
    }

    /** The same in a version that has been handed out. */
    method AskIn(r: Root, q: Q.Query, ghost h: Held) returns (s: RowSet)
      requires Valid() && h in shown.held && h.root == r
      requires txn.schema.bitmaps != [] && (q.Where? || q.WherePrefix? || q.AllRows?)
      modifies this`shown, txn.book.Reach()
      ensures Valid() && Reached() && txn.State() == old(txn.State())
      ensures txn.book.rows.vec == old(txn.book.rows.vec)
      ensures var x := Answer(s, q, Q.Ids(h.shot.books, q), SeenOf(h));
        shown == old(shown).(answers := old(shown).answers + [x])
    {
      hide Txn.Sound, Txn.Usable, Lasts, UpToDate, Book.Kept, Trees.Kept, Trees.Reach, S.TreeOut, Q.Ids;
      HeldTree(h);
      s := Find(r.rows.sets, r.rows.vec, q, SeenOf(h));
    }

    lemma HeldTree(h: Held)
      requires Lasts(txn.schema, txn.name, shown, txn.book.Kept(), txn.trees.Kept()) && h in shown.held
      ensures SeenOf(h) in shown.seen && S.TreeOut(h.root.rows.sets, h.shot.books.sets, txn.book.Kept().sets)
    {
      hide SeenOk, AnswerOk, OneToOne, S.TreeOut, V.HandedOut, Book.Kept, Trees.Kept;
    }

    /** The rows of a row set: what the row vector that it was made with had under its ids, in ascending order. For a
        set that answers a query on a table in agreement these are exactly the rows that a filtering scan of that table
        would find: as many, each of them, and no other. */
    method RowsOf(s: RowSet, ghost x: Answer) returns (rows: seq<Value>)
      requires Valid() && x in shown.answers && x.rows == s
      ensures rows == RowsIn(x.seen.shot.books.vec, x.ids)
      ensures Scanned(txn.schema, x.seen.shot, x.query, x.ids) ==>
        ScanRows(txn.schema, x.query, x.seen.shot.primary, rows)
      ensures x.query.WherePrefix? && x.query.index < |txn.schema.bitmaps| ==>
        Scanned(txn.schema, x.seen.shot, x.query, x.ids) ==>
        PrefixRows(txn.schema.bitmaps[x.query.index], x.query.prefix, x.seen.shot.primary, rows)
    {
      hide Txn.Sound, Txn.Usable, Lasts, UpToDate, Scanned, ScanRows, PrefixRows, BN.Canon, VQ.Ok, BN.Backed, VN.Backed;
      hide Book.Kept, Trees.Kept, RowsIn;
      AnswerFacts(x);
      FrozenBacked();
      BN.PartBacked(BN.Repr(s.bits), txn.book.Kept().sets);
      VN.PartBacked(VN.ReprOf(s.vec.root), txn.book.Kept().rows);
      rows := RowSets.Rows(s);
      if Scanned(txn.schema, x.seen.shot, x.query, x.ids) {
        RowsMatch(txn.schema, x.seen.shot, x.query, x.ids);
        if x.query.WherePrefix? && x.query.index < |txn.schema.bitmaps| {
          PrefixRowsMatch(txn.schema, x.seen.shot, x.query.index, x.query.prefix, x.ids);
        }
      }
    }

    lemma AnswerFacts(x: Answer)
      requires Lasts(txn.schema, txn.name, shown, txn.book.Kept(), txn.trees.Kept()) && x in shown.answers
      ensures x.rows.table == txn.name && x.rows.vec == x.seen.vec && x.seen in shown.seen && txn.schema.bitmaps != []
      ensures S.HandedOut(x.rows.bits, x.ids, txn.book.Kept().sets)
      ensures V.HandedOut(x.seen.vec, x.seen.shot.books.vec, txn.book.Kept().rows)
      ensures Traced(x.seen.shot.line, x.seen.shot.books)
    {
      hide HeldOk, OneToOne, BW.Holds, V.Holds, Traced, Book.Kept, Trees.Kept;
      assert SeenOk(txn.schema, x.seen, txn.book.Kept().rows);
    }

    lemma AnswerVec(x: Answer)
      requires Lasts(txn.schema, txn.name, shown, txn.book.Kept(), txn.trees.Kept()) && x in shown.answers
      ensures x.rows.vec == x.seen.vec && x.seen in shown.seen && txn.schema.bitmaps != []
      ensures x.seen.vec.root == null <==> x.seen.shot.books.vec == map[]
    {
      hide Lasts, BW.Holds, V.Holds, Traced, Book.Kept, Trees.Kept;
      AnswerFacts(x);
      V.HoldsNothing(x.seen.vec, x.seen.shot.books.vec);
    }

    /** And, Or or AndNot of two row sets, however old. If they pass the check, they are of states with the same row
        bookkeeping, or both without rows, and the ids are combined; otherwise this is the code's panic. */
    method Combine(op: BW.Op, s: RowSet, o: RowSet, ghost x: Answer, ghost y: Answer) returns (r: RowSet, ok: bool)
      requires Valid() && x in shown.answers && x.rows == s && y in shown.answers && y.rows == o
      modifies this`shown, txn.book.Reach()
      ensures Valid() && Reached() && txn.State() == old(txn.State())
      ensures txn.book.rows.vec == old(txn.book.rows.vec)
      ensures ok <==> s.vec.root == o.vec.root
      ensures ok <==> x.seen.vec.root == y.seen.vec.root
      ensures x.seen.vec.root == null <==> x.seen.shot.books.vec == map[]
      ensures y.seen.vec.root == null <==> y.seen.shot.books.vec == map[]
      ensures ok ==> SameRows(x.seen.shot, y.seen.shot)
      ensures shown == if ok
        then old(shown).(answers := old(shown).answers + [JoinOf(op, r, x, y)])
        else old(shown)
    {
      hide Txn.Sound, Txn.Usable, Lasts, UpToDate, Book.Kept, Trees.Kept, Trees.Reach, Book.Reach, SameRows;
      hide BW.Holds, BN.AllBacked;
      AnswerVec(x);
      AnswerVec(y);
      ghost var root := txn.book.rows.vec.root;
      r, ok := Join(op, s, o, x, y);
      if ok {
        HandOut(JoinOf(op, r, x, y));
      }
    }

    /** A row set of this table and one of another are never combined, whatever they hold: also where both tables are
        without rows, so that their row vectors are alike. */
    method CombineOther(op: BW.Op, s: RowSet, o: RowSet, ghost x: Answer) returns (r: RowSet, ok: bool)
      requires Valid() && x in shown.answers && x.rows == s && o.table != txn.name
      requires BN.Canon(o.bits) && BN.AllBacked(BN.Repr(o.bits))
      ensures !ok && r == s
    {
      hide Txn.Sound, Txn.Usable, Lasts, UpToDate, Book.Kept, Trees.Kept, BN.Canon, BN.Backed;
      AnswerFacts(x);
      FrozenBacked();
      BN.PartBacked(BN.Repr(s.bits), txn.book.Kept().sets);
      r, ok := RowSets.Combine(op, s, o);
    }

    /** The part of Combine before anything is handed out. */
    method Join(op: BW.Op, s: RowSet, o: RowSet, ghost x: Answer, ghost y: Answer) returns (r: RowSet, ok: bool)
      requires txn.Sound() && Lasts(txn.schema, txn.name, shown, txn.book.Kept(), txn.trees.Kept())
      requires x in shown.answers && x.rows == s && y in shown.answers && y.rows == o
      ensures ok <==> s.vec.root == o.vec.root
      ensures txn.Sound() && Lasts(txn.schema, txn.name, shown, txn.book.Kept(), txn.trees.Kept())
      ensures ok ==> SameRows(x.seen.shot, y.seen.shot) && r.table == txn.name && r.vec == x.seen.vec
      ensures ok ==> BW.Holds(r.bits, BW.Algebra(op, x.ids, y.ids)) && BN.AllBacked(BN.Repr(r.bits))
      ensures ok ==> forall n :: n in BN.Repr(r.bits) ==> n in txn.book.Kept().sets || n.epoch == 0
    {
      hide Txn.Sound, Lasts, SameRows, BN.Canon, BN.Backed, Book.Kept, Trees.Kept, Traced;
      AnswerFacts(x);
      AnswerFacts(y);
      FrozenBacked();
      BN.PartBacked(BN.Repr(s.bits), txn.book.Kept().sets);
      BN.PartBacked(BN.Repr(o.bits), txn.book.Kept().sets);
      if s.vec.root == o.vec.root {
        SameRootSame(x, y);
      }
      ghost var z, f := txn.book.Kept(), txn.trees.Kept();
      r, ok := RowSets.Combine(op, s, o);
      assert SameFrozen(z, f);
      assert Lasts(txn.schema, txn.name, shown, z, f);
    }

    /** Row sets with the same row vector are of states with the same row bookkeeping. Empty row vectors are all alike;
        then both states are without rows. */
    lemma SameRootSame(x: Answer, y: Answer)
      requires Lasts(txn.schema, txn.name, shown, txn.book.Kept(), txn.trees.Kept())
      requires x in shown.answers && y in shown.answers && x.seen.vec.root == y.seen.vec.root
      ensures SameRows(x.seen.shot, y.seen.shot)
    {
      hide HeldOk, SeenOk, AnswerOk, Traced, Book.Kept, Trees.Kept;
      AnswerFacts(x);
      AnswerFacts(y);
      if x.seen.vec.root != null {
        assert SameRoot(x.seen, y.seen);
      }
    }
  }

  lemma NewSeen(s: Schema, a: Seen, rows: set<VN.Node>)
    requires V.HandedOut(a.vec, a.shot.books.vec, rows) && Traced(a.shot.line, a.shot.books)
    requires s.bitmaps == [] ==> a.vec.root == null
    ensures SeenOk(s, a, rows)
  {
    hide Traced, V.Holds;
    V.HoldsClosed(a.vec, a.shot.books.vec);
  }

  lemma NewAnswer(name: string, x: Answer, sets: set<BN.Node>)
    requires S.HandedOut(x.rows.bits, x.ids, sets) && x.rows.table == name && x.rows.vec == x.seen.vec
    ensures AnswerOk(name, x, sets)
  {
    hide BW.Holds;
    S.HoldsClosed(x.rows.bits, x.ids);
  }

  // ---------------------------------------------------------------- what row sets mean

  /** The same row bookkeeping, or two states without rows. */
  ghost predicate SameRows(a: Shot, b: Shot)
  {
    (a.books == b.books && a.line == b.line) || (a.books.vec == map[] && b.books.vec == map[])
  }

  /** What two row sets that can be combined make. */
  ghost function JoinOf(op: BW.Op, r: RowSet, x: Answer, y: Answer): Answer
  {
    Answer(r, Combined(op, x.query, y.query), BW.Algebra(op, x.ids, y.ids), x.seen)
  }

  ghost function Combined(op: BW.Op, q: Q.Query, p: Q.Query): Q.Query
  {
    match op
    case AndOp => Q.And(q, p)
    case OrOp => Q.Or(q, p)
    case AndNotOp => Q.AndNot(q, p)
  }

  /** The ids answer the query on a table that its row bookkeeping agrees with. */
  ghost predicate Scanned(s: Schema, shot: Shot, q: Q.Query, ids: set<nat>)
  {
    Agrees(s, shot.primary, shot.books) && ids == Q.Ids(shot.books, q)
  }

  /** The rows are those that a scan of the table takes, as many, each of them and no other. */
  ghost predicate ScanRows(s: Schema, q: Q.Query, primary: map<Bytes, Row>, rows: seq<Value>)
  {
    var ks := Q.Hits(s, q, primary);
    && |rows| == |ks|
    && (forall i :: 0 <= i < |rows| ==> exists k :: k in ks && rows[i] == primary[k])
    && (forall k :: k in ks ==> primary[k] in rows)
  }

  /** The rows are those in the table with a value of the index that begins with the bytes of the prefix. */
  ghost predicate PrefixRows(ix: Index, prefix: Bytes, primary: map<Bytes, Row>, rows: seq<Value>)
  {
    Nil !in rows && forall row: Row :: row in rows <==> exists k, v ::
      k in primary && primary[k] == row && v in ListOf(ix.values(row)) && |prefix| <= |v| && v[..|prefix|] == prefix
  }

  /** Of two row sets that answer queries and can be combined, the combination answers the combined query, unless one
      of the two tables is without rows and does not agree with its bookkeeping. */
  lemma CombinedScanned(s: Schema, a: Shot, b: Shot, op: BW.Op, q: Q.Query, p: Q.Query)
    requires SameRows(a, b)
    requires a.books == b.books || (Agrees(s, a.primary, a.books) && Agrees(s, b.primary, b.books))
    ensures BW.Algebra(op, Q.Ids(a.books, q), Q.Ids(b.books, p)) == Q.Ids(a.books, Combined(op, q, p))
  {
    hide Agrees;
    if a.books != b.books {
      NoRows(s, a, p);
      NoRows(s, b, p);
    }
  }

  lemma NoRows(s: Schema, a: Shot, p: Q.Query)
    requires Agrees(s, a.primary, a.books) && a.books.vec == map[]
    ensures a.primary == map[] && Q.Ids(a.books, p) == {}
  {
    hide IdsOk, VecOk, SetsOk, Q.Ids;
    Q.QueryIsScan(s, a.primary, a.books, p);
    Q.NoRows(s, a.primary, a.books);
  }

  /** With the same row bookkeeping a table that agrees with it is the same table: only a table that has come apart from
      its bookkeeping can change without its row vector. */
  lemma SameBooksSamePrimary(s: Schema, b: Books, primary: map<Bytes, Row>, primary': map<Bytes, Row>)
    requires Agrees(s, primary, b)
    ensures Agrees(s, primary', b) <==> primary' == primary
  {
    if Agrees(s, primary', b) {
      OneTable(s, b, primary, primary');
    }
  }

  lemma OneTable(s: Schema, b: Books, primary: map<Bytes, Row>, primary': map<Bytes, Row>)
    requires Agrees(s, primary, b) && Agrees(s, primary', b)
    ensures primary' == primary
  {
    hide Agrees;
    AgreesLoose(s, primary, b);
    AgreesLoose(s, primary', b);
    forall k | k in primary
      ensures k in primary' && primary'[k] == primary[k]
    {
      Q.RowInUse(s, primary, b, k);
      Q.RowInUse(s, primary', b, k);
    }
  }

  lemma NothingShown(s: Schema, name: string, z: Frozen, f: set<J.Tree<Bytes, Row>>)
    ensures Lasts(s, name, Public([], [], [], {}), z, f)
  {
  }

  lemma NewHeld(s: Schema, h: Held, z: Frozen, f: set<J.Tree<Bytes, Row>>)
    requires Describes(h.root.rows, h.shot.books, z)
    requires |h.root.trees| == |h.shot.ordinary| + 1 == |s.ordinary| + 1
    requires Traced(h.shot.line, h.shot.books)
    requires s.bitmaps == [] ==> h.root.rows.vec.root == null
    requires forall i :: 0 <= i < |h.root.trees| ==>
      h.root.trees[i] in f && h.root.trees[i].home == i
        && h.root.trees[i].contents == TreeOf(h.shot.primary, h.shot.ordinary, i - 1)
    ensures HeldOk(s, h, z, f) && SeenOk(s, SeenOf(h), z.rows)
  {
    hide Traced, BW.Holds, V.Holds;
    V.HoldsClosed(h.root.rows.vec, h.shot.books.vec);
    forall p | p in h.root.rows.sets.contents
      ensures InBits(h.root.rows.sets.contents[p], z.sets)
    {
      assert S.HandedOut(h.root.rows.sets.contents[p], h.shot.books.sets[p], z.sets);
      S.HoldsClosed(h.root.rows.sets.contents[p], h.shot.books.sets[p]);
    }
  }

  /** The ids in the sets at some of the places. */
  ghost function Gathered(sets: map<S.Place, set<nat>>, places: set<S.Place>): set<nat>
    requires places <= sets.Keys
  {
    set p, x | p in places && x in sets[p] :: x
  }

  lemma NothingYet(sets: map<S.Place, set<nat>>, all: set<S.Place>)
    requires all <= sets.Keys
    ensures Gathered(sets, all - all) == {}
  {
  }

  lemma OneGathered(sets: map<S.Place, set<nat>>, all: set<S.Place>, todo: set<S.Place>, p: S.Place)
    requires p in todo && todo <= all && all <= sets.Keys
    ensures Gathered(sets, all - (todo - {p})) == Gathered(sets, all - todo) + sets[p]
  {
    assert all - (todo - {p}) == (all - todo) + {p};
  }

  lemma AllGathered(sets: map<S.Place, set<nat>>, all: set<S.Place>, index: nat, prefix: Bytes)
    requires all == set p | p in sets && p.ValueSet? && p.index == index && Q.Starts(p.key, prefix)
    ensures Gathered(sets, all) == Q.Under(sets, index, prefix)
  {
  }

  /** The rows under the ids of a query are those of the scan. */
  lemma RowsMatch(s: Schema, a: Shot, q: Q.Query, ids: set<nat>)
    requires Scanned(s, a, q, ids)
    ensures ScanRows(s, q, a.primary, RowsIn(a.books.vec, ids))
  {
    hide Agrees, Q.Ids, Q.Matches, Q.Hits, Ascend, BI.Ascending, Scanned;
    var rows, ks := RowsIn(a.books.vec, ids), Q.Hits(s, q, a.primary);
    CountsMatch(s, a, q, ids);
    forall i | 0 <= i < |rows|
      ensures exists k :: k in ks && rows[i] == a.primary[k]
    {
      var k := HitAt(s, a, q, ids, i);
      assert k in ks && rows[i] == a.primary[k];
    }
    forall k | k in ks
      ensures a.primary[k] in rows
    {
      HitListed(s, a, q, ids, k);
    }
  }

  /** A prefix query yields exactly the rows with a value that begins with the bytes of the prefix. */
  lemma PrefixRowsMatch(s: Schema, a: Shot, i: nat, prefix: Bytes, ids: set<nat>)
    requires Scanned(s, a, Q.WherePrefix(i, prefix), ids) && i < |s.bitmaps|
    ensures PrefixRows(s.bitmaps[i], prefix, a.primary, RowsIn(a.books.vec, ids))
  {
    hide Agrees, Q.Ids, Q.Matches, Q.Starts, RowsIn, Scanned;
    RowsMatch(s, a, Q.WherePrefix(i, prefix), ids);
    forall k | k in a.primary
      ensures k in Q.Hits(s, Q.WherePrefix(i, prefix), a.primary) <==> exists v ::
        v in ListOf(s.bitmaps[i].values(a.primary[k])) && |prefix| <= |v| && v[..|prefix|] == prefix
    {
      Q.PrefixMatches(s, i, prefix, a.primary[k]);
    }
  }

  lemma CountsMatch(s: Schema, a: Shot, q: Q.Query, ids: set<nat>)
    requires Scanned(s, a, q, ids)
    ensures |RowsIn(a.books.vec, ids)| == |Q.Hits(s, q, a.primary)|
  {
    hide Agrees, Q.Ids, Q.Hits, Ascend, BI.Ascending;
    AscendFacts(ids);
    Q.QueryCount(s, a.primary, a.books, q);
  }

  lemma HitAt(s: Schema, a: Shot, q: Q.Query, ids: set<nat>, i: nat) returns (k: Bytes)
    requires Scanned(s, a, q, ids) && i < |RowsIn(a.books.vec, ids)|
    ensures k in Q.Hits(s, q, a.primary) && RowsIn(a.books.vec, ids)[i] == a.primary[k]
  {
    hide Agrees, Q.Ids, Q.Matches, Ascend, BI.Ascending;
    AscendFacts(ids);
    Q.QueryRows(s, a.primary, a.books, q);
    var id := Ascend(ids)[i];
    assert id in Ascend(ids);
    k :|
      k in a.primary && k in a.books.ids && a.books.ids[k] == id && a.books.vec[id] == a.primary[k]
        && Q.Matches(s, q, a.primary[k]);
  }

  lemma HitListed(s: Schema, a: Shot, q: Q.Query, ids: set<nat>, k: Bytes)
    requires Scanned(s, a, q, ids) && k in Q.Hits(s, q, a.primary)
    ensures a.primary[k] in RowsIn(a.books.vec, ids)
  {
    hide Agrees, Q.Ids, Q.Matches, Ascend, BI.Ascending;
    AscendFacts(ids);
    Q.QueryRows(s, a.primary, a.books, q);
    var i :| 0 <= i < |Ascend(ids)| && Ascend(ids)[i] == a.books.ids[k];
    assert RowsIn(a.books.vec, ids)[i] == a.primary[k];
  }
}
