/** A table with its indexes as plain values, and what the writes of a transaction make of it. */
module TableModel {
  import opened IdSpace
  import opened VecShapes
  import opened TableSchema
  import opened RowModel
  import opened OrdinaryIndex
  import opened RowLine
  import S = SetStore

  /** One entry of the change list; a Nil before or after stands for no row. */
  datatype Change = Change(table: string, key: Bytes, before: Value, after: Value)

  datatype Result = Ok | Refused | NotFound | Panic

  /** Whether an index stops a write: the new row has no value there though it must, or the indexer fails
      on the new row or on the one it replaces. */
  predicate Refuses(ix: Index, obj: Value, existing: Value)
  {
    || (obj != Nil && (ix.values(obj) == Failed || (ix.values(obj) == Missing && !ix.allowMissing)))
    || (existing != Nil && ix.values(existing) == Failed)
  }

  predicate RefusedBy(indexes: seq<Index>, obj: Value, existing: Value, skip: int)
  {
    exists i :: 0 <= i < |indexes| && i != skip && Refuses(indexes[i], obj, existing)
  }

  /** The keys of a row in every ordinary index except skip. */
  ghost function AllKeys(indexes: seq<Index>, row: Value, k: Bytes, skip: int): (r: seq<seq<Bytes>>)
    ensures |r| == |indexes|
    ensures forall i :: 0 <= i < |r| ==> r[i] == if i == skip then [] else KeysAt(indexes[i], row, k)
  {
    seq(|indexes|, i requires 0 <= i < |indexes| => if i == skip then [] else KeysAt(indexes[i], row, k))
  }

  /** The ordinary indexes after a write. */
  ghost function OrdinaryAfter(s: Schema, ordinary: seq<Tree>, k: Bytes, existing: Value, obj: Value,
                               skip: int): (r: seq<Tree>)
    requires |ordinary| == |s.ordinary|
    ensures |r| == |ordinary|
    ensures forall i :: 0 <= i < |r| ==> r[i] == TreeAfter(s.ordinary[i], ordinary[i], k, existing, obj, i == skip)
  {
    seq(|ordinary|,
      i requires 0 <= i < |ordinary| => TreeAfter(s.ordinary[i], ordinary[i], k, existing, obj, i == skip))
  }

  ghost function TreeAfter(ix: Index, m: Tree, k: Bytes, existing: Value, obj: Value, skipped: bool): Tree
  {
    if skipped then m
    else if obj == Nil then m - (set x | x in KeysAt(ix, existing, k))
    else Replaced(m, KeysAt(ix, existing, k), KeysAt(ix, obj, k), obj)
  }

  /** A table as a write transaction sees it, as plain values; line is how its bookkeeping got there. */
  datatype Table = Table(primary: map<Bytes, Row>, ordinary: seq<Tree>, books: Books, line: Line, changes: seq<Change>)

  /** Only a table with a bitmap index keeps row bookkeeping. */
  ghost predicate BooksOk(s: Schema, primary: map<Bytes, Row>, b: Books)
  {
    s.bitmaps != [] ==> Agrees(s, primary, b)
  }

  /** What the bookkeeping is told of a write. */
  ghost function MoveOf(s: Schema, k: Bytes, existing: Value, obj: Value): Move
  {
    Move(k, obj, existing != Nil, ValuesOf(s.bitmaps, existing), ValuesOf(s.bitmaps, obj))
  }

  /** What a write does to the bookkeeping, if there is any. */
  ghost predicate BooksAfter(s: Schema, existing: Value, b: Books, b': Books, k: Bytes, obj: Value)
  {
    if s.bitmaps == [] then b' == b else
      var w := MoveOf(s, k, existing, obj);
      (w.existed ==> k in b.ids) && Applied(b, b', k, obj, w.existed, w.olds, w.news)
  }

  ghost function LineAfter(s: Schema, existing: Value, l: Line, b': Books, k: Bytes, obj: Value): Line
  {
    if s.bitmaps == [] then l else Further(l, MoveOf(s, k, existing, obj), b')
  }

  /** The code's two panics: a row that is there has no row id, or there is none left for a new one. */
  ghost predicate LacksRowId(s: Schema, b: Books, k: Bytes, existing: Value)
  {
    s.bitmaps != [] && existing != Nil && k !in b.ids
  }

  ghost predicate OutOfRowIds(s: Schema, b: Books, existing: Value)
  {
    s.bitmaps != [] && existing == Nil && Unused(b) == {} && b.next + 1 == UINT32
  }

  /** The line goes on with the bookkeeping. */
  lemma LineGoesOn(s: Schema, existing: Value, l: Line, b: Books, b': Books, k: Bytes, obj: Value)
    requires Traced(l, b) && BooksAfter(s, existing, b, b', k, obj) && (obj == Nil ==> existing != Nil)
    requires !LacksRowId(s, b, k, existing) && !OutOfRowIds(s, b, existing)
    ensures Traced(LineAfter(s, existing, l, b', k, obj), b') && Extends(l, LineAfter(s, existing, l, b', k, obj))
  {
    TracedLoose(l, b);
    hide Traced, Applied, Peak, Unused, RowLine.Extends;
    if s.bitmaps != [] {
      FurtherTraced(l, b, MoveOf(s, k, existing, obj), b');
    } else {
      SelfExtends(l);
    }
  }

  lemma SelfExtends(l: Line)
    ensures Extends(l, l)
  {
  }

  lemma BooksKept(s: Schema, primary: map<Bytes, Row>, b: Books, b': Books, k: Bytes, obj: Value)
    requires BooksOk(s, primary, b) && BooksAfter(s, RowAt(primary, k), b, b', k, obj) && (obj == Nil ==> k in primary)
    requires !OutOfRowIds(s, b, RowAt(primary, k))
    ensures BooksOk(s, Written(primary, k, obj), b')
  {
    hide Agrees, Applied;
    if s.bitmaps != [] {
      if k !in primary && Unused(b) == {} {
        NextBelow(s, primary, b);
      }
      WriteAgrees(s, primary, b, b', k, obj);
    }
  }

  lemma NextBelow(s: Schema, primary: map<Bytes, Row>, b: Books)
    requires Agrees(s, primary, b)
    ensures b.next < UINT32
  {
  }

  /** Where the bookkeeping agrees with the table, every row has its id. */
  lemma RowsHaveIds(s: Schema, primary: map<Bytes, Row>, b: Books, k: Bytes)
    requires BooksOk(s, primary, b)
    ensures !LacksRowId(s, b, k, RowAt(primary, k))
  {
    if s.bitmaps != [] {
      AgreesLoose(s, primary, b);
    }
  }

  ghost predicate InsertRefused(s: Schema, primary: map<Bytes, Row>, row: Row)
    requires s.primaryKey(row).Key?
  {
    var existing := RowAt(primary, s.primaryKey(row).key);
    RefusedBy(s.ordinary, row, existing, -1) || RefusedBy(s.bitmaps, row, existing, -1)
  }

  ghost predicate InsertedRow(s: Schema, t: Table, t': Table, name: string, tracking: bool, k: Bytes, row: Row)
  {
    var existing := RowAt(t.primary, k);
    && |t.ordinary| == |s.ordinary|
    && t'.primary == t.primary[k := row]
    && t'.ordinary == OrdinaryAfter(s, t.ordinary, k, existing, row, -1)
    && BooksAfter(s, existing, t.books, t'.books, k, row)
    && t'.line == LineAfter(s, existing, t.line, t'.books, k, row)
    && t'.changes == t.changes + (if tracking then [Change(name, k, existing, row)] else [])
  }

  /** What Insert does: a row without a primary key, or one that an index refuses, changes nothing; where there is no
      row id it is the code's panic; every other row goes in. */
  ghost predicate Inserted(s: Schema, t: Table, name: string, tracking: bool, row: Row, r: Result, t': Table)
  {
    if s.primaryKey(row).NoKey? || InsertRefused(s, t.primary, row) then r.Refused? && t' == t else
      var k := s.primaryKey(row).key;
      var existing := RowAt(t.primary, k);
      if LacksRowId(s, t.books, k, existing) || OutOfRowIds(s, t.books, existing) then r.Panic?
      else r.Ok? && InsertedRow(s, t, t', name, tracking, k, row)
  }

  lemma InsertRefusedFor(s: Schema, t: Table, name: string, tracking: bool, row: Row, t': Table)
    requires s.primaryKey(row).NoKey? || RefusedBy(s.ordinary, row, RowAt(t.primary, s.primaryKey(row).key), -1)
      || RefusedBy(s.bitmaps, row, RowAt(t.primary, s.primaryKey(row).key), -1)
    requires t' == t
    ensures Inserted(s, t, name, tracking, row, Refused, t')
  {
  }

  lemma InsertDone(s: Schema, t: Table, name: string, tracking: bool, row: Row, r: Result, k: Bytes, existing: Value,
                   t': Table)
    requires s.primaryKey(row) == Key(k) && existing == RowAt(t.primary, k)
    requires !RefusedBy(s.ordinary, row, existing, -1) && !RefusedBy(s.bitmaps, row, existing, -1)
    requires r.Ok? || r.Panic?
    requires r.Panic? <==> LacksRowId(s, t.books, k, existing) || OutOfRowIds(s, t.books, existing)
    requires r.Ok? ==> |t.ordinary| == |s.ordinary| && t'.primary == t.primary[k := row]
    requires r.Ok? ==> t'.ordinary == OrdinaryAfter(s, t.ordinary, k, existing, row, -1)
    requires r.Ok? ==> BooksAfter(s, existing, t.books, t'.books, k, row)
    requires r.Ok? ==> t'.line == LineAfter(s, existing, t.line, t'.books, k, row)
    requires r.Ok? ==> t'.changes == t.changes + (if tracking then [Change(name, k, existing, row)] else [])
    ensures Inserted(s, t, name, tracking, row, r, t')
  {
    hide BooksAfter, OrdinaryAfter, RefusedBy, LineAfter;
  }

  lemma InsertOutcome(s: Schema, t: Table, name: string, tracking: bool, row: Row, r: Result, t': Table)
    requires Inserted(s, t, name, tracking, row, r, t')
    ensures r.Ok? || r.Refused? || r.Panic?
    ensures r.Refused? ==> t' == t
  {
  }

  /** What stops a write at one of some indexes. */
  lemma RefusedByIff(indexes: seq<Index>, obj: Value, existing: Value)
    ensures RefusedBy(indexes, obj, existing, -1) <==>
      || (obj != Nil && exists ix :: ix in indexes && ix.values(obj) == Failed)
      || (obj != Nil && exists ix :: ix in indexes && ix.values(obj) == Missing && !ix.allowMissing)
      || (existing != Nil && exists ix :: ix in indexes && ix.values(existing) == Failed)
  {
    if ix :| ix in indexes && Refuses(ix, obj, existing) {
      var i :| 0 <= i < |indexes| && indexes[i] == ix;
      assert Refuses(indexes[i], obj, existing);
    }
  }

  /** An insert is refused exactly if the row has no primary key, or some index, ordinary or bitmap, fails on the row,
      has no value of the row although it must, or fails on the row that would be replaced. */
  lemma InsertRefusedIff(s: Schema, t: Table, name: string, tracking: bool, row: Row, r: Result, t': Table)
    requires Inserted(s, t, name, tracking, row, r, t')
    ensures s.primaryKey(row).NoKey? ==> r.Refused?
    ensures s.primaryKey(row).Key? ==>
      var k, all := s.primaryKey(row).key, s.ordinary + s.bitmaps;
      r.Refused? <==>
        || (exists ix :: ix in all && ix.values(row) == Failed)
        || (exists ix :: ix in all && ix.values(row) == Missing && !ix.allowMissing)
        || (k in t.primary && exists ix :: ix in all && ix.values(t.primary[k]) == Failed)
  {
    hide RefusedBy, InsertedRow, LacksRowId, OutOfRowIds;
    if s.primaryKey(row).Key? {
      var existing := RowAt(t.primary, s.primaryKey(row).key);
      RefusedByIff(s.ordinary, row, existing);
      RefusedByIff(s.bitmaps, row, existing);
      assert forall ix :: ix in s.ordinary + s.bitmaps <==> ix in s.ordinary || ix in s.bitmaps;
    }
  }

  // ---------------------------------------------------------------- deleting rows, one after the other

  /** The same bookkeeping: an absent set is an empty one. */
  ghost predicate SameBooks(b: Books, c: Books)
  {
    && b.ids == c.ids && b.vec == c.vec && b.next == c.next
    && forall p :: S.SetAt(b.sets, p) == S.SetAt(c.sets, p)
  }

  ghost predicate Same(t: Table, u: Table)
  {
    t.primary == u.primary && t.ordinary == u.ordinary && t.changes == u.changes && SameBooks(t.books, u.books)
  }

  ghost function SetAfter(b: Books, p: S.Place, id: nat, olds: seq<seq<Bytes>>, news: seq<seq<Bytes>>): set<nat>
    requires |olds| == |news|
  {
    if p == S.AllIds then InUse(b) - {id}
    else if p == S.FreeIds then Unused(b) + {id}
    else MovedAt(S.SetAt(b.sets, p), p, id, olds, news)
  }

  /** The bookkeeping without the row under key k. */
  ghost function BooksWithout(s: Schema, b: Books, k: Bytes, row: Row): Books
  {
    if s.bitmaps == [] || k !in b.ids then b else
      var id := b.ids[k];
      var olds, news := ValuesOf(s.bitmaps, row), ValuesOf(s.bitmaps, Nil);
      Books(b.ids - {k}, Put(b.vec, id, Nil), map p | p in b.sets.Keys + {S.AllIds, S.FreeIds} ::
        SetAfter(b, p, id, olds, news), b.next)
  }

  /** The table without the row under key k. */
  ghost function Without(s: Schema, t: Table, name: string, tracking: bool, k: Bytes): Table
  {
    if k !in t.primary || |t.ordinary| != |s.ordinary| then t else
      Table(t.primary - {k}, OrdinaryAfter(s, t.ordinary, k, t.primary[k], Nil, -1),
        BooksWithout(s, t.books, k, t.primary[k]), t.line,
        t.changes + (if tracking then [Change(name, k, t.primary[k], Nil)] else []))
  }

  ghost function WithoutAll(s: Schema, t: Table, name: string, tracking: bool, ks: seq<Bytes>): Table
  {
    if ks == [] then t else Without(s, WithoutAll(s, t, name, tracking, ks[..|ks| - 1]), name, tracking, ks[|ks| - 1])
  }

  /** A delete does to the bookkeeping what BooksWithout says, on any bookkeeping that is the same. */
  lemma BooksDeleted(s: Schema, row: Row, b: Books, b': Books, c: Books, k: Bytes)
    requires BooksAfter(s, row, b, b', k, Nil) && SameBooks(b, c)
    ensures SameBooks(b', BooksWithout(s, c, k, row))
  {
    hide Put, MovedAt, ValuesOf;
    var c' := BooksWithout(s, c, k, row);
    if s.bitmaps != [] {
      var id := b.ids[k];
      var olds, news := ValuesOf(s.bitmaps, row), ValuesOf(s.bitmaps, Nil);
      forall p: S.Place
        ensures S.SetAt(b'.sets, p) == S.SetAt(c'.sets, p)
      {
        assert S.SetAt(b.sets, p) == S.SetAt(c.sets, p);
        assert InUse(b) == InUse(c) && Unused(b) == Unused(c);
        if p !in c.sets && p.ValueSet? {
          NothingToMove(p, id, s.bitmaps, row);
        }
      }
    }
  }

  lemma NothingToMove(p: S.Place, id: nat, bitmaps: seq<Index>, row: Row)
    requires p.ValueSet?
    ensures MovedAt({}, p, id, ValuesOf(bitmaps, row), ValuesOf(bitmaps, Nil)) == {}
  {
  }

  lemma SameSelf(b: Books)
    ensures SameBooks(b, b)
  {
  }

  ghost predicate DeleteRefused(s: Schema, row: Row)
  {
    RefusedBy(s.ordinary, Nil, row, -1) || RefusedBy(s.bitmaps, Nil, row, -1)
  }

  /** t' is the table t without the row under key k. */
  ghost predicate SameTables(s: Schema, t: Table, name: string, tracking: bool, k: Bytes, t': Table)
  {
    Same(t', Without(s, t, name, tracking, k))
  }

  ghost function KeysFor(s: Schema, rows: seq<Row>): (ks: seq<Bytes>)
    ensures |ks| == |rows|
    ensures forall i :: 0 <= i < |ks| ==> ks[i] == if s.primaryKey(rows[i]).Key? then s.primaryKey(rows[i]).key else []
  {
    seq(|rows|, i requires 0 <= i < |rows| => if s.primaryKey(rows[i]).Key? then s.primaryKey(rows[i]).key else [])
  }

  lemma SameBooksWithout(s: Schema, b: Books, c: Books, k: Bytes, row: Row)
    requires SameBooks(b, c)
    ensures SameBooks(BooksWithout(s, b, k, row), BooksWithout(s, c, k, row))
  {
    hide Put, MovedAt, ValuesOf;
    if s.bitmaps != [] && k in b.ids {
      var id := b.ids[k];
      var olds, news := ValuesOf(s.bitmaps, row), ValuesOf(s.bitmaps, Nil);
      var b', c' := BooksWithout(s, b, k, row), BooksWithout(s, c, k, row);
      forall p: S.Place
        ensures S.SetAt(b'.sets, p) == S.SetAt(c'.sets, p)
      {
        assert S.SetAt(b.sets, p) == S.SetAt(c.sets, p);
        assert InUse(b) == InUse(c) && Unused(b) == Unused(c);
        if p.ValueSet? {
          NothingToMove(p, id, s.bitmaps, row);
        }
      }
    }
  }

  /** What is the same stays so when the same row is deleted. */
  lemma SameAfter(s: Schema, t: Table, u: Table, name: string, tracking: bool, k: Bytes, t': Table)
    requires Same(t, u) && SameTables(s, t, name, tracking, k, t')
    ensures Same(t', Without(s, u, name, tracking, k))
  {
    hide BooksWithout, SameBooks, OrdinaryAfter;
    if k in t.primary && |t.ordinary| == |s.ordinary| {
      SameBooksWithout(s, t.books, u.books, k, t.primary[k]);
      SameChain(t'.books, BooksWithout(s, t.books, k, t.primary[k]), BooksWithout(s, u.books, k, t.primary[k]));
    } else {
      SameChain(t'.books, t.books, u.books);
    }
  }

  lemma SameBack(b: Books, c: Books)
    requires SameBooks(b, c)
    ensures SameBooks(c, b)
  {
  }

  lemma SameChain(b: Books, c: Books, d: Books)
    requires SameBooks(b, c) && SameBooks(c, d)
    ensures SameBooks(b, d)
  {
  }

  ghost predicate DeletedRow(s: Schema, t: Table, t': Table, name: string, tracking: bool, k: Bytes, row: Row)
  {
    && |t.ordinary| == |s.ordinary|
    && t'.primary == t.primary - {k}
    && t'.ordinary == OrdinaryAfter(s, t.ordinary, k, row, Nil, -1)
    && BooksAfter(s, row, t.books, t'.books, k, Nil)
    && t'.line == LineAfter(s, row, t.line, t'.books, k, Nil)
    && t'.changes == t.changes + (if tracking then [Change(name, k, row, Nil)] else [])
  }

  /** What Delete does: a row that has a key, is there, and is refused by no index goes; where it has no row id it is
      the code's panic; otherwise nothing changes. */
  ghost predicate Deleted(s: Schema, t: Table, name: string, tracking: bool, row: Row, r: Result, t': Table)
  {
    if s.primaryKey(row).NoKey? then r.Refused? && t' == t else
      var k := s.primaryKey(row).key;
      if k !in t.primary then r.NotFound? && t' == t
      else if DeleteRefused(s, t.primary[k]) then r.Refused? && t' == t
      else if LacksRowId(s, t.books, k, t.primary[k]) then r.Panic?
      else r.Ok? && DeletedRow(s, t, t', name, tracking, k, t.primary[k])
  }

  /** A delete of a row that is there is refused exactly if some index, ordinary or bitmap, fails on it. */
  lemma DeleteRefusedIff(s: Schema, t: Table, name: string, tracking: bool, row: Row, r: Result, t': Table)
    requires Deleted(s, t, name, tracking, row, r, t')
    ensures s.primaryKey(row).NoKey? ==> r.Refused?
    ensures s.primaryKey(row).Key? ==>
      var k, all := s.primaryKey(row).key, s.ordinary + s.bitmaps;
      && (r.NotFound? <==> k !in t.primary)
      && (r.Refused? <==> k in t.primary && exists ix :: ix in all && ix.values(t.primary[k]) == Failed)
  {
    hide RefusedBy, DeletedRow, LacksRowId;
    if s.primaryKey(row).Key? && s.primaryKey(row).key in t.primary {
      var existing := t.primary[s.primaryKey(row).key];
      RefusedByIff(s.ordinary, Nil, existing);
      RefusedByIff(s.bitmaps, Nil, existing);
      assert forall ix :: ix in s.ordinary + s.bitmaps <==> ix in s.ordinary || ix in s.bitmaps;
    }
  }

  /** Up to absent sets, the table is that without the row. */
  lemma DeletedSame(s: Schema, t: Table, t': Table, name: string, tracking: bool, k: Bytes)
    requires k in t.primary && DeletedRow(s, t, t', name, tracking, k, t.primary[k])
    ensures SameTables(s, t, name, tracking, k, t')
  {
    hide BooksAfter, OrdinaryAfter, BooksWithout, SameBooks, LineAfter;
    SameSelf(t.books);
    BooksDeleted(s, t.primary[k], t.books, t'.books, t.books, k);
  }

  lemma DeleteNot(s: Schema, t: Table, name: string, tracking: bool, row: Row, r: Result, t': Table)
    requires t' == t
    requires s.primaryKey(row).NoKey? ==> r.Refused?
    requires s.primaryKey(row).Key? ==>
      var k := s.primaryKey(row).key;
      if k !in t.primary then r.NotFound? else r.Refused? && DeleteRefused(s, t.primary[k])
    ensures Deleted(s, t, name, tracking, row, r, t')
  {
    hide RefusedBy, DeletedRow;
  }

  lemma NotDeleted(s: Schema, t: Table, name: string, tracking: bool, row: Row, r: Result, t': Table)
    requires Deleted(s, t, name, tracking, row, r, t') && !r.Ok? && !r.Panic?
    ensures t' == t
  {
  }

  lemma OneMore(s: Schema, t: Table, name: string, tracking: bool, rows: seq<Row>, num: nat, was: Table, now: Table)
    requires num < |rows| && Deleted(s, was, name, tracking, rows[num], Ok, now)
    requires Same(was, WithoutAll(s, t, name, tracking, KeysFor(s, rows[..num])))
    ensures Same(now, WithoutAll(s, t, name, tracking, KeysFor(s, rows[..num + 1])))
  {
    hide Same, SameTables, Without, DeletedRow;
    DeletedSame(s, was, now, name, tracking, s.primaryKey(rows[num]).key);
    var ks := KeysFor(s, rows[..num + 1]);
    SameAfter(s, was, WithoutAll(s, t, name, tracking, KeysFor(s, rows[..num])), name, tracking,
      s.primaryKey(rows[num]).key, now);
    assert ks[..num] == KeysFor(s, rows[..num]);
  }

  /** The first rows of a list deleted one after the other; ts are the tables in between. */
  ghost predicate DeletedFirst(s: Schema, name: string, tracking: bool, rows: seq<Row>, ts: seq<Table>)
  {
    && 0 < |ts| <= |rows| + 1
    && forall j :: 0 <= j < |ts| - 1 ==> Deleted(s, ts[j], name, tracking, rows[j], Ok, ts[j + 1])
  }

  lemma NoneDeleted(s: Schema, name: string, tracking: bool, rows: seq<Row>, t: Table)
    ensures DeletedFirst(s, name, tracking, rows, [t])
  {
  }

  lemma OneMoreDeleted(s: Schema, name: string, tracking: bool, rows: seq<Row>, ts: seq<Table>, t: Table)
    requires DeletedFirst(s, name, tracking, rows, ts) && |ts| <= |rows|
    requires Deleted(s, ts[|ts| - 1], name, tracking, rows[|ts| - 1], Ok, t)
    ensures DeletedFirst(s, name, tracking, rows, ts + [t])
  {
    hide Deleted;
  }

  /** What DeleteAll does with a list of rows: it deletes one after the other until one cannot be deleted. */
  ghost predicate DeletedList(s: Schema, name: string, tracking: bool, rows: seq<Row>, ts: seq<Table>, r: Result,
                              u: Table)
  {
    && DeletedFirst(s, name, tracking, rows, ts)
    && var t := ts[|ts| - 1];
    && if |ts| <= |rows| then !r.Ok? && Deleted(s, t, name, tracking, rows[|ts| - 1], r, u) else r.Ok? && u == t
  }

  /** The end of the list, or the first row that cannot be deleted. */
  lemma ListDone(s: Schema, name: string, tracking: bool, rows: seq<Row>, ts: seq<Table>)
    requires DeletedFirst(s, name, tracking, rows, ts) && |ts| == |rows| + 1
    ensures DeletedList(s, name, tracking, rows, ts, Ok, ts[|rows|])
  {
    hide Deleted;
  }

  lemma ListStopped(s: Schema, name: string, tracking: bool, rows: seq<Row>, ts: seq<Table>, r: Result, u: Table)
    requires DeletedFirst(s, name, tracking, rows, ts) && |ts| <= |rows| && !r.Ok?
    requires Deleted(s, ts[|ts| - 1], name, tracking, rows[|ts| - 1], r, u)
    ensures DeletedList(s, name, tracking, rows, ts, r, u) && (!r.Panic? ==> u == ts[|ts| - 1])
  {
    hide DeletedRow, DeleteRefused;
  }

  lemma {:induction false} DeletedFirstSame(s: Schema, name: string, tracking: bool, rows: seq<Row>, ts: seq<Table>)
    requires DeletedFirst(s, name, tracking, rows, ts)
    ensures Same(ts[|ts| - 1], WithoutAll(s, ts[0], name, tracking, KeysFor(s, rows[..|ts| - 1])))
  {
    hide Same, Deleted, WithoutAll;
    var n := |ts| - 1;
    if n == 0 {
      SameTable(s, ts[0], name, tracking, KeysFor(s, rows[..0]));
    } else {
      DeletedFirstSame(s, name, tracking, rows, ts[..n]);
      OneMore(s, ts[0], name, tracking, rows, n - 1, ts[n - 1], ts[n]);
    }
  }

  lemma SameTable(s: Schema, t: Table, name: string, tracking: bool, ks: seq<Bytes>)
    requires ks == []
    ensures Same(t, WithoutAll(s, t, name, tracking, ks))
  {
  }

  // ---------------------------------------------------------------- tables in agreement

  /** The rows are under their keys, and the row bookkeeping agrees with the table. */
  ghost predicate Agreed(s: Schema, t: Table)
  {
    |t.ordinary| == |s.ordinary| && Keyed(s, t.primary) && BooksOk(s, t.primary, t.books)
  }

  /** The writes keep agreement. */
  lemma InsertKeepsAgreed(s: Schema, t: Table, name: string, tracking: bool, row: Row, r: Result, t': Table)
    requires Agreed(s, t) && Inserted(s, t, name, tracking, row, r, t')
    ensures !r.Panic? ==> Agreed(s, t')
  {
    hide Agrees, BooksAfter, OrdinaryAfter, LineAfter, InsertRefused, LacksRowId, OutOfRowIds, Keyed, BooksOk;
    if r.Ok? {
      var k := s.primaryKey(row).key;
      BooksKept(s, t.primary, t.books, t'.books, k, row);
      KeyedPut(s, t.primary, k, row);
    }
  }

  lemma DeleteKeepsAgreed(s: Schema, t: Table, name: string, tracking: bool, row: Row, r: Result, t': Table)
    requires Agreed(s, t) && Deleted(s, t, name, tracking, row, r, t')
    ensures !r.Panic? && Agreed(s, t')
  {
    hide Agrees, BooksAfter, OrdinaryAfter, LineAfter, DeleteRefused, LacksRowId, OutOfRowIds, Keyed, BooksOk;
    if s.primaryKey(row).Key? {
      var k := s.primaryKey(row).key;
      RowsHaveIds(s, t.primary, t.books, k);
      if r.Ok? {
        NeverOut(s, t.books, t.primary[k]);
        BooksKept(s, t.primary, t.books, t'.books, k, Nil);
        KeyedLess(s, t.primary, k);
      }
    }
  }

  lemma NeverOut(s: Schema, b: Books, row: Row)
    ensures !OutOfRowIds(s, b, row)
  {
  }

  // ---------------------------------------------------------------- an index among the indexes

  /** The tree of the id index (-1) or of an ordinary index. */
  function TreeOf(primary: Tree, ordinary: seq<Tree>, target: int): Tree
    requires -1 <= target < |ordinary|
  {
    if target < 0 then primary else ordinary[target]
  }

  function Cut(m: Tree, prefix: Bytes): Tree
  {
    map key | key in m && !(prefix <= key) :: m[key]
  }
}
