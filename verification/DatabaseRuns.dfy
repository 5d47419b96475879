/** Whole runs of a database: begins, writes, bulk deletes, snapshots, queries of the transaction and of versions
    however old, combinations of row sets however old, commits and aborts, in any order. Every run does what the machine
    over plain values does, and what it has handed out stays the same objects. */
module DatabaseRuns {
  import opened VecShapes
  import opened TableSchema
  import opened RowModel
  import opened RowLine
  import opened TableModel
  import opened PrefixModel
  import opened RowSets
  import opened D = Database
  import opened DatabasePlain
  import opened RowBook
  import opened IndexTrees
  import opened TableTxn
  import BW = BitmapWorld
  import J = Juuri
  import Q = RowQuery
  import VN = VecNode

  ghost function ShotsOf(held: seq<Held>, stamps: seq<nat>): (r: seq<Dated>)
    requires |held| == |stamps|
    ensures |r| == |held| && forall i :: 0 <= i < |r| ==> r[i] == Dated(held[i].shot, stamps[i])
  {
    seq(|held|, i requires 0 <= i < |held| => Dated(held[i].shot, stamps[i]))
  }

  ghost function RootsOf(seen: set<Seen>): set<VN.Node?>
  {
    set a | a in seen :: a.vec.root
  }

  ghost function FoundFor(x: Answer, stamp: nat): Found
  {
    Found(x.query, x.ids, x.seen.shot, stamp)
  }

  ghost function FoundOf(answers: seq<Answer>, stamps: seq<nat>): (r: seq<Found>)
    requires |answers| == |stamps|
    ensures |r| == |answers|
    ensures forall i :: 0 <= i < |r| ==> r[i] == FoundFor(answers[i], stamps[i])
  {
    seq(|answers|, i requires 0 <= i < |answers| => FoundFor(answers[i], stamps[i]))
  }

  ghost function ListsOf(lists: seq<Listed>): (r: seq<map<Bytes, Row>>)
    ensures |r| == |lists| && forall i :: 0 <= i < |r| ==> r[i] == lists[i].rows
  {
    seq(|lists|, i requires 0 <= i < |lists| => lists[i].rows)
  }

  // ---------------------------------------------------------------- what a session has put aside

  /** All that has come out of a database, with the stamps of the states it is of. Tops has the root of the row vector
      in every state there has been, and dates the stamps of those that something has been handed out of. */
  datatype Files = Files(sets: seq<RowSet>, setStamps: seq<nat>, roots: seq<Root>, rootStamps: seq<nat>,
                         trees: seq<J.Tree<Bytes, Row>>, tops: seq<VN.Node?>, dates: set<nat>)

  /** Of the states that something has been handed out of no other one has the same row vector, unless it is empty. */
  ghost predicate Alone(f: Files, d: nat)
  {
    d < |f.tops| && forall e :: e in f.dates && e < |f.tops| && f.tops[e] != null && f.tops[e] == f.tops[d] ==> e == d
  }

  /** What is put aside is what has been handed out, as far as that has been put aside. */
  ghost predicate InOrder(f: Files, p: Public)
  {
    && |f.sets| == |f.setStamps| <= |p.answers| && |f.roots| == |f.rootStamps| <= |p.held| && |f.trees| <= |p.lists|
    && (forall i :: 0 <= i < |f.sets| ==>
      p.answers[i].rows == f.sets[i] && OfDate(f, f.setStamps[i], p.answers[i].seen.vec.root))
    && (forall i :: 0 <= i < |f.roots| ==>
      p.held[i].root == f.roots[i] && OfDate(f, f.rootStamps[i], f.roots[i].rows.vec.root))
    && (forall i :: 0 <= i < |f.trees| ==> p.lists[i].tree == f.trees[i])
    && (forall d :: d in f.dates ==> Alone(f, d) && f.tops[d] in RootsOf(p.seen))
  }

  ghost predicate OfDate(f: Files, d: nat, root: VN.Node?)
  {
    d in f.dates && d < |f.tops| && f.tops[d] == root
  }

  lemma NewFiles(p: Public, top: Held)
    requires p == Public([top], [], [], {SeenOf(top)})
    ensures InOrder(Files([], [], [top.root], [0], [], [top.root.rows.vec.root], {0}), p)
  {
    assert SeenOf(top).vec.root in RootsOf(p.seen);
  }

  lemma MoreShown(f: Files, p: Public, p': Public)
    requires InOrder(f, p) && p.answers <= p'.answers && p.held <= p'.held && p.lists <= p'.lists && p.seen <= p'.seen
    ensures InOrder(f, p')
  {
    hide OfDate, Alone;
  }

  lemma DateAdded(f: Files, p: Public, d: nat)
    requires InOrder(f, p) && Alone(f, d) && f.tops[d] in RootsOf(p.seen)
    ensures var g := f.(dates := f.dates + {d});
      InOrder(g, p) && Alone(g, d)
  {
    hide RootsOf;
  }

  lemma SetAdded(f: Files, p: Public, r: RowSet, d: nat)
    requires InOrder(f, p) && |f.sets| < |p.answers| && p.answers[|f.sets|].rows == r
    requires OfDate(f, d, p.answers[|f.sets|].seen.vec.root)
    ensures var g := f.(sets := f.sets + [r], setStamps := f.setStamps + [d]);
      InOrder(g, p) && forall e :: Alone(f, e) ==> Alone(g, e)
  {
    hide RootsOf;
  }

  lemma RootAdded(f: Files, p: Public, r: Root, d: nat)
    requires InOrder(f, p) && |f.roots| < |p.held| && p.held[|f.roots|].root == r && OfDate(f, d, r.rows.vec.root)
    ensures var g := f.(roots := f.roots + [r], rootStamps := f.rootStamps + [d]);
      InOrder(g, p) && forall e :: Alone(f, e) ==> Alone(g, e)
  {
    hide RootsOf;
  }

  lemma TreeAdded(f: Files, p: Public, t: J.Tree<Bytes, Row>)
    requires InOrder(f, p) && |f.trees| < |p.lists| && p.lists[|f.trees|].tree == t
    ensures var g := f.(trees := f.trees + [t]);
      InOrder(g, p) && forall e :: Alone(f, e) ==> Alone(g, e)
  {
    hide RootsOf;
  }

  /** A new state, whose row vector has not been handed out unless it is empty. */
  lemma TopAdded(f: Files, p: Public, top: VN.Node?)
    requires InOrder(f, p)
    ensures var g := f.(tops := f.tops + [top]);
      && InOrder(g, p) && (forall d :: d in f.dates ==> d < |f.tops|)
      && ((top != null ==> forall a :: a in p.seen ==> a.vec.root != top) ==> Alone(g, |f.tops|))
  {
  }

  lemma DateFacts(f: Files, p: Public, d: nat)
    requires InOrder(f, p) && d in f.dates
    ensures Alone(f, d) && d < |f.tops|
  {
  }

  lemma SetFacts(f: Files, p: Public, i: nat)
    requires InOrder(f, p) && i < |f.sets|
    ensures i < |p.answers| && p.answers[i] in p.answers && p.answers[i].rows == f.sets[i]
    ensures OfDate(f, f.setStamps[i], p.answers[i].seen.vec.root) && Alone(f, f.setStamps[i])
  {
  }

  lemma RootFacts(f: Files, p: Public, i: nat)
    requires InOrder(f, p) && i < |f.roots|
    ensures i < |p.held| && p.held[i] in p.held && p.held[i].root == f.roots[i]
    ensures OfDate(f, f.rootStamps[i], f.roots[i].rows.vec.root)
  {
  }

  /** Row sets have the same row vector exactly if they are of one state, or of states without rows. */
  lemma Matched(f: Files, x: Answer, d: nat, y: Answer, e: nat)
    requires OfDate(f, d, x.seen.vec.root) && OfDate(f, e, y.seen.vec.root) && Alone(f, d) && Alone(f, e)
    requires x.seen.vec.root == null <==> x.seen.shot.books.vec == map[]
    requires y.seen.vec.root == null <==> y.seen.shot.books.vec == map[]
    ensures x.seen.vec.root == y.seen.vec.root <==> SameState(FoundFor(x, d), FoundFor(y, e))
  {
  }

  /** Somebody who uses a database and keeps all row sets, versions and iterator trees that come out of it. */
  class Session {
    const db: Database
    var sets: seq<RowSet>
    var roots: seq<Root>
    var trees: seq<J.Tree<Bytes, Row>>
    ghost var tops: seq<VN.Node?>
    ghost var stamp: nat
    ghost var topStamp: nat
    ghost var dates: set<nat>
    ghost var setStamps: seq<nat>
    ghost var rootStamps: seq<nat>

    /** What has been kept so far is kept. */
    twostate predicate Keeps()
      reads this
    {
      old(sets) <= sets && old(roots) <= roots && old(trees) <= trees
    }

    ghost predicate Valid()
      reads *
    {
      db.Valid() && Kept() && (db.Ready() ==> Current())
    }

    ghost function OnFile(): Files
      reads this
    {
      Files(sets, setStamps, roots, rootStamps, trees, tops, dates)
    }

    /** The stamp is that of the transaction's state. */
    ghost predicate Current()
      reads this, db, db.txn, db.txn.book, db.txn.book.rows
    {
      Alone(OnFile(), stamp) && tops[stamp] == db.txn.book.rows.vec.root
    }

    ghost predicate Filed()
      reads this, db
    {
      InOrder(OnFile(), db.shown)
    }

    ghost predicate Kept()
      reads this, db
    {
      && Filed() && |sets| == |db.shown.answers| && |roots| == |db.shown.held| && |trees| == |db.shown.lists|
      && |sets| == |setStamps| && |roots| == |rootStamps|
      && stamp < |tops| && OfDate(OnFile(), topStamp, db.root.rows.vec.root)
    }

    constructor (name: string, schema: Schema)
      ensures Valid()
      ensures Lined(State()) && Tidy(schema, State()) && !State().open && State().published.shot.primary == map[]
      ensures db.txn.name == name && db.txn.schema == schema
      ensures fresh(db) && fresh(db.txn) && fresh(db.txn.book.Reach()) && fresh(db.txn.trees.Reach())
    {
      hide InOrder, RootsOf, D.Database.Valid, TidyShot, OnLine, Book.Reach, Book.Kept, Book.State, Trees.Reach;
      hide Trees.Kept;
      var d := new Database(name, schema);
      ghost var z, f, top := d.txn.book.Kept(), d.txn.trees.Kept(), d.txn.book.rows.vec.root;
      assert d.top == d.shown.held[0];
      EmptyTidy(schema, d.top.shot);
      NewFiles(d.shown, d.top);
      db, sets, roots, trees := d, [], [d.root], [];
      tops, stamp, topStamp, dates, setStamps, rootStamps := [d.root.rows.vec.root], 0, 0, {0}, [], [0];
    }

    ghost function State(): Plain
      requires Kept()
      reads this, db, db.txn, db.txn.trees, db.txn.book, db.txn.book.sets, db.txn.book.rows, db.txn.book.rows.vec.root
    {
      Plain(Dated(db.top.shot, topStamp), db.open, db.torn, db.txn.tracking, db.txn.State(), stamp, |tops|,
            ShotsOf(db.shown.held, rootStamps), FoundOf(db.shown.answers, setStamps), ListsOf(db.shown.lists))
    }

    lemma Apart()
      requires db.Valid()
      ensures this !in db.txn.book.Reach() && this !in db.txn.trees.Reach()
      ensures db !in db.txn.book.Reach() && db !in db.txn.trees.Reach()
      ensures db.txn !in db.txn.book.Reach() && db.txn !in db.txn.trees.Reach()
    {
      hide D.Database.Valid, Trees.Reach;
      db.Apart();
    }

    /** Nothing has changed but what a session remembers. */
    twostate predicate SameDatabase()
      reads db, db.txn, db.txn.trees, db.txn.trees.idx, db.txn.book, db.txn.book.sets, db.txn.book.sets.writer
      reads db.txn.book.sets.txn, db.txn.book.rows, db.txn.book.rows.writer, db.txn.book.rows.vec.root, db.txn.book.txn
    {
      && db.txn.State() == old(db.txn.State()) && db.txn.book.rows.vec == old(db.txn.book.rows.vec)
      && db.txn.book.Reach() == old(db.txn.book.Reach()) && db.txn.trees.Reach() == old(db.txn.trees.Reach())
    }

    /** The table has come to another state if a row has been written, or the call has panicked. */
    ghost method Advanced(r: Result, changed: bool)
      requires db.Valid() && Kept()
      requires !r.Panic? ==> if changed then db.Renewed() else Current()
      modifies this`tops, this`stamp
      ensures db.Valid() && Kept() && SameDatabase() && (!r.Panic? ==> Current())
      ensures if r.Panic? || changed then stamp == |old(tops)| && |tops| == stamp + 1
        else stamp == old(stamp) && tops == old(tops)
    {
      hide D.Database.Valid, Book.Reach, Book.State, Book.Kept, Trees.Reach, Trees.Kept, InOrder, Alone;
      if r.Panic? || changed {
        var z, f, top := db.txn.book.Kept(), db.txn.trees.Kept(), db.txn.book.rows.vec.root;
        TopAdded(OnFile(), db.shown, top);
        tops, stamp := tops + [top], |tops|;
      }
    }

    /** Something is handed out of one more state. */
    ghost method AddDate()
      requires db.Valid() && Filed() && Alone(OnFile(), stamp) && tops[stamp] in RootsOf(db.shown.seen)
      modifies this`dates
      ensures db.Valid() && Filed() && SameDatabase() && dates == old(dates) + {stamp} && Alone(OnFile(), stamp)
      ensures stamp < |tops| && OfDate(OnFile(), stamp, tops[stamp])
    {
      hide D.Database.Valid, Book.Reach, Book.State, Book.Kept, Trees.Reach, Trees.Kept, InOrder, Alone;
      var z, f, top := db.txn.book.Kept(), db.txn.trees.Kept(), db.txn.book.rows.vec.root;
      DateAdded(OnFile(), db.shown, stamp);
      dates := dates + {stamp};
      DateFacts(OnFile(), db.shown, stamp);
    }

    /** One more row set. */
    method AddSet(r: RowSet, ghost date: nat)
      requires db.Valid() && Filed() && |sets| < |db.shown.answers| && db.shown.answers[|sets|].rows == r
      requires OfDate(OnFile(), date, db.shown.answers[|sets|].seen.vec.root)
      modifies this`sets, this`setStamps
      ensures db.Valid() && Filed() && SameDatabase() && setStamps == old(setStamps) + [date] && sets == old(sets) + [r]
      ensures old(Alone(OnFile(), stamp)) ==> Alone(OnFile(), stamp)
    {
      hide D.Database.Valid, Book.Reach, Book.State, Book.Kept, Trees.Reach, Trees.Kept, InOrder, Alone;
      ghost var z, f, top := db.txn.book.Kept(), db.txn.trees.Kept(), db.txn.book.rows.vec.root;
      SetAdded(OnFile(), db.shown, r, date);
      sets, setStamps := sets + [r], setStamps + [date];
    }

    /** One more version. */
    method AddRoot(r: Root)
      requires db.Valid() && Filed() && |roots| < |db.shown.held| && db.shown.held[|roots|].root == r
      requires OfDate(OnFile(), stamp, r.rows.vec.root)
      modifies this`roots, this`rootStamps
      ensures db.Valid() && Filed() && SameDatabase() && rootStamps == old(rootStamps) + [stamp]
      ensures roots == old(roots) + [r] && (old(Alone(OnFile(), stamp)) ==> Alone(OnFile(), stamp))
    {
      hide D.Database.Valid, Book.Reach, Book.State, Book.Kept, Trees.Reach, Trees.Kept, InOrder, Alone;
      ghost var z, f, top := db.txn.book.Kept(), db.txn.trees.Kept(), db.txn.book.rows.vec.root;
      RootAdded(OnFile(), db.shown, r, stamp);
      roots, rootStamps := roots + [r], rootStamps + [stamp];
    }

    /** A version of the state there is now. */
    method AddVersion(r: Root)
      requires db.Valid() && Filed() && Alone(OnFile(), stamp) && tops[stamp] in RootsOf(db.shown.seen)
      requires |roots| < |db.shown.held| && db.shown.held[|roots|].root == r && tops[stamp] == r.rows.vec.root
      modifies this`roots, this`rootStamps, this`dates
      ensures db.Valid() && Filed() && SameDatabase() && rootStamps == old(rootStamps) + [stamp]
      ensures roots == old(roots) + [r] && Alone(OnFile(), stamp) && dates == old(dates) + {stamp} && stamp < |tops|
    {
      hide D.Database.Valid, Book.Reach, Book.State, Book.Kept, Trees.Reach, Trees.Kept, InOrder, Alone;
      AddDate();
      AddRoot(r);
    }

    /** A row set of the state there is now. */
    method AddAnswer(r: RowSet)
      requires db.Valid() && Filed() && Alone(OnFile(), stamp) && tops[stamp] in RootsOf(db.shown.seen)
      requires |sets| < |db.shown.answers| && db.shown.answers[|sets|].rows == r
      requires tops[stamp] == db.shown.answers[|sets|].seen.vec.root
      modifies this`sets, this`setStamps, this`dates
      ensures db.Valid() && Filed() && SameDatabase() && setStamps == old(setStamps) + [stamp]
      ensures sets == old(sets) + [r] && Alone(OnFile(), stamp) && dates == old(dates) + {stamp}
    {
      hide D.Database.Valid, Book.Reach, Book.State, Book.Kept, Trees.Reach, Trees.Kept, InOrder, Alone;
      AddDate();
      AddSet(r, stamp);
    }

    /** One more iterator tree. */
    method AddTree(t: J.Tree<Bytes, Row>)
      requires db.Valid() && Filed() && |trees| < |db.shown.lists| && db.shown.lists[|trees|].tree == t
      modifies this`trees
      ensures db.Valid() && Filed() && SameDatabase() && trees == old(trees) + [t]
      ensures old(Alone(OnFile(), stamp)) ==> Alone(OnFile(), stamp)
    {
      hide D.Database.Valid, Book.Reach, Book.State, Book.Kept, Trees.Reach, Trees.Kept, InOrder, Alone;
      ghost var z, f, top := db.txn.book.Kept(), db.txn.trees.Kept(), db.txn.book.rows.vec.root;
      TreeAdded(OnFile(), db.shown, t);
      trees := trees + [t];
    }

    method Begin(tracking: bool)
      requires Valid()
      modifies this, db, db.txn, db.txn.trees.Reach(), db.txn.book.Reach()
      ensures Valid() && db.Reached() && Keeps()
      ensures Next(db.txn.schema, db.txn.name, old(State()), Command.Begin(tracking), State())
    {
      hide Inserted, Deleted, AllDeleted, PrefixGone, SetsJoined, Q.Ids;
      hide D.Database.Valid, Book.Reach, Book.State, Book.Kept, Trees.Reach, Trees.Kept, InOrder, Alone;
      if !db.open {
        Apart();
        db.Begin(tracking);
        Recall();
      }
    }

    /** The transaction starts from the published state. */
    ghost method Recall()
      requires db.Valid() && Kept()
      modifies this`stamp
      ensures db.Valid() && Kept() && SameDatabase() && stamp == topStamp && Alone(OnFile(), stamp)
    {
      hide D.Database.Valid, Book.Reach, Book.State, Book.Kept, Trees.Reach, Trees.Kept, InOrder, Alone;
      var z, f, top := db.txn.book.Kept(), db.txn.trees.Kept(), db.txn.book.rows.vec.root;
      DateFacts(OnFile(), db.shown, topStamp);
      stamp := topStamp;
    }

    method Insert(row: Row)
      requires Valid()
      modifies this, db, db.txn, db.txn.trees.Reach(), db.txn.book.Reach()
      ensures Valid() && db.Reached() && Keeps()
      ensures Next(db.txn.schema, db.txn.name, old(State()), Command.Insert(row), State())
    {
      hide Inserted, Deleted, AllDeleted, PrefixGone, SetsJoined, Q.Ids, Session.Kept;
      hide D.Database.Valid, Book.Reach, Book.State, Book.Kept, Trees.Reach, Trees.Kept, InOrder, Alone;
      if db.Ready() {
        ghost var r := Enter(row);
      }
    }

    method Enter(row: Row) returns (ghost r: Result)
      requires Valid() && db.Ready()
      modifies this, db, db.txn`changes, db.txn`line, db.txn.trees.Reach(), db.txn.book.Reach()
      ensures Valid() && db.Reached() && Keeps() && old(Kept())
      ensures Inserted(db.txn.schema, old(db.txn.State()), db.txn.name, db.txn.tracking, row, r, db.txn.State())
      ensures State() == After(old(State()), db.txn.State(), r, r.Ok?)
    {
      hide D.Database.Valid, Book.Reach, Book.State, Book.Kept, Trees.Reach, Trees.Kept, InOrder, Alone, OfDate;
      hide Inserted;
      Apart();
      var q := db.Insert(row);
      r := q;
      Advanced(r, r.Ok?);
    }

    method Delete(row: Row)
      requires Valid()
      modifies this, db, db.txn, db.txn.trees.Reach(), db.txn.book.Reach()
      ensures Valid() && db.Reached() && Keeps()
      ensures Next(db.txn.schema, db.txn.name, old(State()), Command.Delete(row), State())
    {
      hide Inserted, Deleted, AllDeleted, PrefixGone, SetsJoined, Q.Ids, Session.Kept;
      hide D.Database.Valid, Book.Reach, Book.State, Book.Kept, Trees.Reach, Trees.Kept, InOrder, Alone;
      if db.Ready() {
        ghost var r := Remove(row);
      }
    }

    method Remove(row: Row) returns (ghost r: Result)
      requires Valid() && db.Ready()
      modifies this, db, db.txn`changes, db.txn`line, db.txn.trees.Reach(), db.txn.book.Reach()
      ensures Valid() && db.Reached() && Keeps() && old(Kept())
      ensures Deleted(db.txn.schema, old(db.txn.State()), db.txn.name, db.txn.tracking, row, r, db.txn.State())
      ensures State() == After(old(State()), db.txn.State(), r, r.Ok?)
    {
      hide D.Database.Valid, Book.Reach, Book.State, Book.Kept, Trees.Reach, Trees.Kept, InOrder, Alone, OfDate;
      hide Deleted;
      Apart();
      var q := db.Delete(row);
      r := q;
      Advanced(r, r.Ok?);
    }

    method DeleteAll(rows: seq<Row>)
      requires Valid()
      modifies this, db, db.txn, db.txn.trees.Reach(), db.txn.book.Reach()
      ensures Valid() && db.Reached() && Keeps()
      ensures Next(db.txn.schema, db.txn.name, old(State()), Command.DeleteAll(rows), State())
    {
      hide Inserted, Deleted, AllDeleted, PrefixGone, SetsJoined, Q.Ids, Session.Kept;
      hide D.Database.Valid, Book.Reach, Book.State, Book.Kept, Trees.Reach, Trees.Kept, InOrder, Alone;
      if db.Ready() {
        ghost var p := State();
        ghost var r, ts := Erase(rows);
        assert AllDeleted(db.txn.schema, db.txn.name, p, rows, ts, r, State());
      }
    }

    method Erase(rows: seq<Row>) returns (ghost r: Result, ghost ts: seq<Table>)
      requires Valid() && db.Ready()
      modifies this, db, db.txn`changes, db.txn`line, db.txn.trees.Reach(), db.txn.book.Reach()
      ensures Valid() && db.Reached() && Keeps() && old(Kept())
      ensures AllDeleted(db.txn.schema, db.txn.name, old(State()), rows, ts, r, State())
    {
      hide D.Database.Valid, Book.Reach, Book.State, Book.Kept, Trees.Reach, Trees.Kept, InOrder, Alone, OfDate;
      hide DeletedList;
      Apart();
      var num, q;
      num, q, ts := db.DeleteAll(rows);
      r := q;
      Advanced(r, num > 0);
    }

    lemma Counts()
      requires Valid()
      ensures |State().found| == |sets| && |State().held| == |roots|
    {
      hide D.Database.Valid;
    }

    lemma Sizes()
      requires db.Valid()
      ensures |db.txn.trees.ordinary| == |db.txn.schema.ordinary|
    {
      hide Txn.Usable, Lasts, UpToDate;
      db.txn.SoundTrees();
    }

    method DeletePrefix(target: int, search: Bytes, prefix: Bytes)
      requires Valid()
      modifies this, db, db.txn, db.txn.trees.Reach(), db.txn.book.Reach()
      ensures Valid() && db.Reached() && Keeps()
      ensures Next(db.txn.schema, db.txn.name, old(State()), Command.DeletePrefix(target, search, prefix), State())
    {
      hide Inserted, Deleted, AllDeleted, SetsJoined, Q.Ids, PrefixGone, Session.Kept;
      hide D.Database.Valid, Book.Reach, Book.State, Book.Kept, Trees.Reach, Trees.Kept, InOrder, Alone;
      Sizes();
      if db.Ready() && -1 <= target < |db.txn.schema.ordinary| {
        ghost var p := State();
        ghost var r, entries, rows, ts := Prune(target, search, prefix);
        assert PrefixGone(db.txn.schema, db.txn.name, p, target, search, prefix, entries, rows, ts, r, State());
      }
    }

    method Prune(target: int, search: Bytes, prefix: Bytes)
      returns (ghost r: Result, ghost entries: seq<Bytes>, ghost rows: seq<Row>, ghost ts: seq<Table>)
      requires Valid() && db.Ready() && HasIndex(db.txn.State(), target)
      modifies this, db, db.txn`changes, db.txn`line, db.txn.trees.Reach(), db.txn.book.Reach()
      ensures Valid() && db.Reached() && Keeps() && old(Kept())
      ensures PrefixGone(db.txn.schema, db.txn.name, old(State()), target, search, prefix, entries, rows, ts, r,
        State())
    {
      hide D.Database.Valid, Book.Reach, Book.State, Book.Kept, Trees.Reach, Trees.Kept, InOrder, Alone, OfDate;
      hide PrefixDeleted, Lists;
      Apart();
      var found, q;
      found, q, entries, rows, ts := db.DeletePrefix(target, search, prefix);
      r := q;
      Advanced(r, |ts| > 1);
    }

    method Snapshot()
      requires Valid()
      modifies this, db, db.txn, db.txn.trees.Reach(), db.txn.book.Reach()
      ensures Valid() && db.Reached() && Keeps()
      ensures Next(db.txn.schema, db.txn.name, old(State()), Command.Snapshot, State())
    {
      hide Inserted, Deleted, AllDeleted, PrefixGone, SetsJoined, Q.Ids, Session.Kept;
      hide D.Database.Valid, Book.Reach, Book.State, Book.Kept, Trees.Reach, Trees.Kept, InOrder, Alone;
      if db.Ready() {
        Capture();
      }
    }

    method Capture()
      requires Valid() && db.Ready()
      modifies this, db, db.txn.trees.Reach(), db.txn.book.Reach()
      ensures Valid() && db.Reached() && Keeps() && old(Kept())
      ensures State() == old(State()).(held := old(State()).held + [DatedNow(old(State()))])
    {
      hide D.Database.Valid, Book.Reach, Book.State, Book.Kept, Trees.Reach, Trees.Kept, InOrder, Alone;
      Apart();
      ghost var f, p := OnFile(), db.shown;
      var r := db.Snapshot();
      MoreShown(f, p, db.shown);
      AddVersion(r);
    }

    method Commit()
      requires Valid()
      modifies this, db, db.txn, db.txn.trees.Reach(), db.txn.book.Reach()
      ensures Valid() && db.Reached() && Keeps()
      ensures Next(db.txn.schema, db.txn.name, old(State()), Command.Commit, State())
    {
      hide Inserted, Deleted, AllDeleted, PrefixGone, SetsJoined, Q.Ids, Session.Kept;
      hide D.Database.Valid, Book.Reach, Book.State, Book.Kept, Trees.Reach, Trees.Kept, InOrder, Alone;
      if db.Ready() {
        Conclude();
      }
    }

    method Conclude()
      requires Valid() && db.Ready()
      modifies this, db, db.txn.trees.Reach(), db.txn.book.Reach()
      ensures Valid() && db.Reached() && Keeps() && old(Kept())
      ensures var now := DatedNow(old(State()));
        State() == old(State()).(published := now, open := false, held := old(State()).held + [now])
    {
      hide D.Database.Valid, Book.Reach, Book.State, Book.Kept, Trees.Reach, Trees.Kept, InOrder, Alone;
      Apart();
      ghost var f, p := OnFile(), db.shown;
      db.Commit();
      MoreShown(f, p, db.shown);
      AddPublished();
    }

    /** The published version is put aside. */
    method AddPublished()
      requires db.Valid() && Filed() && Alone(OnFile(), stamp) && tops[stamp] in RootsOf(db.shown.seen)
      requires |sets| == |setStamps| == |db.shown.answers| && |trees| == |db.shown.lists| && |roots| == |rootStamps|
      requires |roots| == |db.shown.held| - 1 && db.shown.held[|roots|].root == db.root
      requires tops[stamp] == db.root.rows.vec.root
      modifies this`roots, this`rootStamps, this`dates, this`topStamp
      ensures db.Valid() && Kept() && SameDatabase() && roots == old(roots) + [db.root] && topStamp == stamp
      ensures rootStamps == old(rootStamps) + [stamp]
    {
      hide D.Database.Valid, Book.Reach, Book.State, Book.Kept, Trees.Reach, Trees.Kept, InOrder, Alone;
      AddVersion(db.root);
      ghost var z, f, top := db.txn.book.Kept(), db.txn.trees.Kept(), db.txn.book.rows.vec.root;
      topStamp := stamp;
    }

    method Abort()
      requires Valid()
      modifies this, db, db.txn, db.txn.trees.Reach(), db.txn.book.Reach()
      ensures Valid() && db.Reached() && Keeps()
      ensures Next(db.txn.schema, db.txn.name, old(State()), Command.Abort, State())
    {
      hide Inserted, Deleted, AllDeleted, PrefixGone, SetsJoined, Q.Ids;
      hide D.Database.Valid, Book.Reach, Book.State, Book.Kept, Trees.Reach, Trees.Kept, InOrder, Alone;
      if db.open {
        Apart();
        db.Abort();
      }
    }

    method Ask(q: Q.Query)
      requires Valid()
      modifies this, db, db.txn, db.txn.trees.Reach(), db.txn.book.Reach()
      ensures Valid() && db.Reached() && Keeps()
      ensures Next(db.txn.schema, db.txn.name, old(State()), Command.Ask(q), State())
    {
      hide Inserted, Deleted, AllDeleted, PrefixGone, SetsJoined, Q.Ids, Session.Kept;
      hide D.Database.Valid, Book.Reach, Book.State, Book.Kept, Trees.Reach, Trees.Kept, InOrder, Alone;
      if db.Ready() && db.txn.schema.bitmaps != [] && Simple(q) {
        Query(q);
      }
    }

    method Query(q: Q.Query)
      requires Valid() && db.Ready() && db.txn.schema.bitmaps != [] && Simple(q)
      modifies this, db, db.txn.book.Reach()
      ensures Valid() && db.Reached() && Keeps() && old(Kept())
      ensures var p := old(State());
        State() == p.(found := p.found + [Found(q, Q.Ids(p.now.books, q), ShotOf(p.now), p.stamp)])
    {
      hide D.Database.Valid, Book.Reach, Book.State, Book.Kept, Trees.Reach, Trees.Kept, InOrder, Alone;
      hide Q.Ids;
      Apart();
      ghost var f, p := OnFile(), db.shown;
      var r;
      ghost var now;
      r, now := db.Ask(q);
      MoreShown(f, p, db.shown);
      AddAnswer(r);
    }

    method AskIn(h: nat, q: Q.Query)
      requires Valid()
      modifies this, db, db.txn, db.txn.trees.Reach(), db.txn.book.Reach()
      ensures Valid() && db.Reached() && Keeps()
      ensures Next(db.txn.schema, db.txn.name, old(State()), Command.AskIn(h, q), State())
    {
      hide Inserted, Deleted, AllDeleted, PrefixGone, SetsJoined, Q.Ids, Session.Kept;
      hide D.Database.Valid, Book.Reach, Book.State, Book.Kept, Trees.Reach, Trees.Kept, InOrder, Alone;
      Counts();
      if h < |roots| && db.txn.schema.bitmaps != [] && Simple(q) {
        QueryIn(h, q);
      }
    }

    method QueryIn(h: nat, q: Q.Query)
      requires Valid() && h < |roots| && db.txn.schema.bitmaps != [] && Simple(q)
      modifies this, db, db.txn.book.Reach()
      ensures Valid() && db.Reached() && Keeps() && old(Kept()) && h < |old(State()).held|
      ensures var p := old(State());
        var d := p.held[h];
        State() == p.(found := p.found + [Found(q, Q.Ids(d.shot.books, q), d.shot, d.stamp)])
    {
      hide D.Database.Valid, Book.Reach, Book.State, Book.Kept, Trees.Reach, Trees.Kept, InOrder, Alone;
      hide Q.Ids;
      Apart();
      ghost var f, p := OnFile(), db.shown;
      RootFacts(f, p, h);
      var r := db.AskIn(roots[h], q, db.shown.held[h]);
      MoreShown(f, p, db.shown);
      AddSet(r, rootStamps[h]);
    }

    method Combine(op: BW.Op, i: nat, j: nat)
      requires Valid()
      modifies this, db, db.txn, db.txn.trees.Reach(), db.txn.book.Reach()
      ensures Valid() && db.Reached() && Keeps()
      ensures Next(db.txn.schema, db.txn.name, old(State()), Command.Combine(op, i, j), State())
    {
      hide Inserted, Deleted, AllDeleted, PrefixGone, SetsJoined, Q.Ids, Session.Kept;
      hide D.Database.Valid, Book.Reach, Book.State, Book.Kept, Trees.Reach, Trees.Kept, InOrder, Alone;
      Counts();
      if i < |sets| && j < |sets| {
        ghost var ok := Join(op, i, j);
      }
    }

    /** Two row sets that there are. */
    method Join(op: BW.Op, i: nat, j: nat) returns (ghost ok: bool)
      requires Valid() && i < |sets| && j < |sets|
      modifies this, db, db.txn.book.Reach()
      ensures Valid() && db.Reached() && Keeps() && old(Kept())
      ensures var p := old(State());
        && i < |p.found| && j < |p.found| && (ok <==> SameState(p.found[i], p.found[j]))
        && if ok then SetsJoined(p, op, i, j, State()) else State() == p
    {
      hide D.Database.Valid, Book.Reach, Book.State, Book.Kept, Trees.Reach, Trees.Kept, InOrder, Alone;
      hide SameState, SameRows, ListsOf, ShotsOf, FoundOf, RootsOf, Combined, BW.Algebra;
      Apart();
      ghost var f, p := OnFile(), db.shown;
      SetFacts(f, p, i);
      SetFacts(f, p, j);
      var r, done := db.Combine(op, sets[i], sets[j], p.answers[i], p.answers[j]);
      ok := done;
      Matched(f, p.answers[i], setStamps[i], p.answers[j], setStamps[j]);
      MoreShown(f, p, db.shown);
      if done {
        AddSet(r, setStamps[i]);
      }
    }

    method Read(target: int)
      requires Valid()
      modifies this, db, db.txn, db.txn.trees.Reach(), db.txn.book.Reach()
      ensures Valid() && db.Reached() && Keeps()
      ensures Next(db.txn.schema, db.txn.name, old(State()), Command.Read(target), State())
    {
      hide Inserted, Deleted, AllDeleted, PrefixGone, SetsJoined, Q.Ids, Session.Kept;
      hide D.Database.Valid, Book.Reach, Book.State, Book.Kept, Trees.Reach, Trees.Kept, InOrder, Alone;
      Sizes();
      if db.Ready() && -1 <= target < |db.txn.schema.ordinary| {
        Iterate(target);
      }
    }

    /** An iterator over an index. */
    method Iterate(target: int)
      requires Valid() && db.Ready() && HasIndex(db.txn.State(), target) && target < |db.txn.schema.ordinary|
      modifies this, db, db.txn.trees.Reach()
      ensures Valid() && db.Reached() && Keeps() && old(Kept())
      ensures State() ==
        old(State()).(lists := old(State().lists) + [old(TreeOf(db.txn.trees.primary, db.txn.trees.ordinary, target))])
    {
      hide D.Database.Valid, Book.Reach, Book.State, Book.Kept, Trees.Reach, Trees.Kept, InOrder, Alone;
      Apart();
      ghost var f, p := OnFile(), db.shown;
      var t := db.Read(target);
      MoreShown(f, p, db.shown);
      AddTree(t);
    }

    method Do(c: Command)
      requires Valid()
      modifies this, db, db.txn, db.txn.trees.Reach(), db.txn.book.Reach()
      ensures Valid() && db.Reached() && Keeps() && Next(db.txn.schema, db.txn.name, old(State()), c, State())
    {
      hide D.Database.Valid, Session.Kept, Session.State, Next, Book.Reach, Trees.Reach;
      match c {
        case Begin(tracking) => Begin(tracking);
        case Insert(row) => Insert(row);
        case Delete(row) => Delete(row);
        case DeleteAll(rows) => DeleteAll(rows);
        case DeletePrefix(target, search, prefix) => DeletePrefix(target, search, prefix);
        case Snapshot => Snapshot();
        case Commit => Commit();
        case Abort => Abort();
        case Ask(q) => Ask(q);
        case AskIn(h, q) => AskIn(h, q);
        case Combine(op, i, j) => Combine(op, i, j);
        case Read(target) => Read(target);
      }
    }

    /** Any number of commands in any order. */
    method Run(cs: seq<Command>) returns (ghost ps: seq<Plain>)
      requires Valid()
      modifies this, db, db.txn, db.txn.trees.Reach(), db.txn.book.Reach()
      ensures Valid() && db.Reached() && Keeps()
      ensures IsRun(db.txn.schema, db.txn.name, ps, cs) && ps[0] == old(State()) && ps[|cs|] == State()
    {
      hide D.Database.Valid, Session.Kept, Session.State, Next, Book.Reach, Trees.Reach;
      ps := [State()];
      var n := 0;
      while n < |cs|
        invariant n <= |cs| && Valid() && db.Reached() && Keeps()
        invariant IsRun(db.txn.schema, db.txn.name, ps, cs[..n]) && ps[0] == old(State()) && ps[n] == State()
      {
        Do(cs[n]);
        ps := ps + [State()];
        n := n + 1;
      }
      assert cs[..n] == cs;
    }

    /** The rows of any row set there is: what the table had under its ids, in ascending order. For a row set that
        answers its query on a table in agreement these are the rows that a scan takes. */
    method Rows(i: nat) returns (rows: seq<Value>)
      requires Valid() && i < |sets|
      ensures i < |State().found|
      ensures rows == RowsIn(State().found[i].shot.books.vec, State().found[i].ids)
      ensures var f := State().found[i];
        Scanned(db.txn.schema, f.shot, f.query, f.ids) ==> ScanRows(db.txn.schema, f.query, f.shot.primary, rows)
      ensures var f := State().found[i];
        f.query.WherePrefix? && f.query.index < |db.txn.schema.bitmaps| ==>
        Scanned(db.txn.schema, f.shot, f.query, f.ids) ==>
        PrefixRows(db.txn.schema.bitmaps[f.query.index], f.query.prefix, f.shot.primary, rows)
    {
      hide D.Database.Valid, Book.Reach, Trees.Reach, Scanned, ScanRows, PrefixRows, RowsIn, InOrder;
      SetFacts(OnFile(), db.shown, i);
      rows := db.RowsOf(sets[i], db.shown.answers[i]);
    }

    /** An iterator's tree has what it was listed with. */
    lemma TreeHolds(i: nat)
      requires Valid() && i < |trees|
      ensures i < |State().lists| && trees[i].contents == State().lists[i]
    {
      hide Txn.Sound, Txn.Usable, UpToDate, HeldOk, SeenOk, AnswerOk, OneToOne;
      assert db.shown.lists[i] in db.shown.lists;
    }

    /** A version says what it said when it was made, in all its trees. */
    lemma VersionHolds(i: nat, target: int)
      requires Valid() && i < |roots| && HasIndex(TableAt(State().held[i].shot), target)
      ensures target + 1 < |roots[i].trees|
      ensures var a := State().held[i].shot;
        && roots[i].trees[target + 1].contents == TreeOf(a.primary, a.ordinary, target)
        && Describes(roots[i].rows, a.books, db.txn.book.Kept())
    {
      hide Txn.Sound, Txn.Usable, UpToDate, SeenOk, AnswerOk, OneToOne, Describes;
      RootFacts(OnFile(), db.shown, i);
      assert db.shown.held[i] in db.shown.held;
    }
  }

  /** The empty table. */
  lemma EmptyTidy(s: Schema, a: Shot)
    requires a.primary == map[] && a.books == NO_BOOKS && a.line == NEW_LINE && |a.ordinary| == |s.ordinary|
    ensures TidyShot(s, a) && OnLine(a)
  {
    hide Agrees;
    EmptyAgrees(s);
    NewLoose();
  }
}
