/** What the writes of a transaction make of the line of its row bookkeeping: they only ever add to it. */
module TableLines {
  import opened VecShapes
  import opened TableSchema
  import opened RowModel
  import opened OrdinaryIndex
  import opened RowLine
  import opened TableModel
  import opened PrefixModel

  /** The line of t' goes on from that of t and leads to the bookkeeping of t'. */
  ghost predicate Follows(t: Table, t': Table)
  {
    Traced(t'.line, t'.books) && Extends(t.line, t'.line)
  }

  lemma FollowsFurther(t: Table, u: Table, v: Table)
    requires Follows(t, u) && Follows(u, v)
    ensures Follows(t, v)
  {
    hide Traced;
  }

  lemma FollowsItself(t: Table)
    requires Traced(t.line, t.books)
    ensures Follows(t, t)
  {
    hide Traced;
  }

  lemma FurtherNeat(l: Line, b: Books, w: Move, b': Books)
    requires Traced(l, b) && Neat(l) && (w.existed <==> w.key in b.ids)
    ensures Neat(Further(l, w, b'))
  {
    hide Takes;
  }

  /** A write to a row that has its id, or one of a new row whose key has none, keeps the line neat. */
  lemma AfterNeat(s: Schema, existing: Value, l: Line, b: Books, b': Books, k: Bytes, obj: Value)
    requires Traced(l, b) && Neat(l) && (s.bitmaps != [] ==> (existing != Nil <==> k in b.ids))
    ensures Neat(LineAfter(s, existing, l, b', k, obj))
  {
    hide Traced, Neat, ValuesOf;
    if s.bitmaps != [] {
      FurtherNeat(l, b, MoveOf(s, k, existing, obj), b');
    }
  }

  lemma InsertFollows(s: Schema, t: Table, name: string, tracking: bool, row: Row, r: Result, t': Table)
    requires Traced(t.line, t.books) && Inserted(s, t, name, tracking, row, r, t') && !r.Panic?
    ensures Follows(t, t')
  {
    hide Traced, RowLine.Extends, BooksAfter, LineAfter, InsertRefused, LacksRowId, OutOfRowIds;
    if r.Ok? {
      var k := s.primaryKey(row).key;
      LineGoesOn(s, RowAt(t.primary, k), t.line, t.books, t'.books, k, row);
    } else {
      SelfExtends(t.line);
    }
  }

  /** On a table in agreement a new row's key has no id. */
  lemma InsertNeat(s: Schema, t: Table, name: string, tracking: bool, row: Row, r: Result, t': Table)
    requires Traced(t.line, t.books) && Inserted(s, t, name, tracking, row, r, t') && !r.Panic?
    requires Agreed(s, t) && Neat(t.line)
    ensures Neat(t'.line)
  {
    hide Traced, Neat, BooksAfter, LineAfter, InsertRefused, LacksRowId, OutOfRowIds, BooksOk, Keyed;
    if r.Ok? {
      var k := s.primaryKey(row).key;
      IdsOfRows(s, t.primary, t.books);
      AfterNeat(s, RowAt(t.primary, k), t.line, t.books, t'.books, k, row);
    }
  }

  /** A delete needs no agreement for that: a row without an id is a panic. */
  lemma DeleteFollows(s: Schema, t: Table, name: string, tracking: bool, row: Row, r: Result, t': Table)
    requires Traced(t.line, t.books) && Deleted(s, t, name, tracking, row, r, t') && !r.Panic?
    ensures Follows(t, t') && (Neat(t.line) ==> Neat(t'.line))
  {
    hide Traced, RowLine.Extends, Neat, BooksAfter, LineAfter, DeleteRefused;
    if r.Ok? {
      var k := s.primaryKey(row).key;
      LineGoesOn(s, t.primary[k], t.line, t.books, t'.books, k, Nil);
      if Neat(t.line) {
        AfterNeat(s, t.primary[k], t.line, t.books, t'.books, k, Nil);
      }
    } else {
      SelfExtends(t.line);
    }
  }

  lemma UnhookFollows(s: Schema, name: string, tracking: bool, target: int, t: Table, row: Row, t': Table)
    requires Traced(t.line, t.books) && Unhooked(s, name, tracking, target, t, row, t')
    requires StopOf(s, target, t, row) == Ok
    ensures Follows(t, t') && (Neat(t.line) ==> Neat(t'.line))
  {
    hide Traced, RowLine.Extends, Neat, BooksAfter, LineAfter, PrefixRefused;
    var k := s.primaryKey(row).key;
    LineGoesOn(s, row, t.line, t.books, t'.books, k, Nil);
    if Neat(t.line) {
      AfterNeat(s, row, t.line, t.books, t'.books, k, Nil);
    }
  }

  lemma {:induction false} DeletedFirstFollows(s: Schema, name: string, tracking: bool, rows: seq<Row>, ts: seq<Table>)
    requires DeletedFirst(s, name, tracking, rows, ts) && Traced(ts[0].line, ts[0].books)
    ensures Follows(ts[0], ts[|ts| - 1]) && (Neat(ts[0].line) ==> Neat(ts[|ts| - 1].line))
  {
    hide Deleted, Traced, RowLine.Extends, Neat;
    var n := |ts| - 1;
    if n == 0 {
      FollowsItself(ts[0]);
    } else {
      DeletedFirstFollows(s, name, tracking, rows, ts[..n]);
      DeleteFollows(s, ts[n - 1], name, tracking, rows[n - 1], Ok, ts[n]);
      FollowsFurther(ts[0], ts[n - 1], ts[n]);
    }
  }

  lemma DeletedListFollows(s: Schema, name: string, tracking: bool, rows: seq<Row>, ts: seq<Table>, r: Result, u: Table)
    requires DeletedList(s, name, tracking, rows, ts, r, u) && !r.Panic? && Traced(ts[0].line, ts[0].books)
    ensures Follows(ts[0], u) && (Neat(ts[0].line) ==> Neat(u.line))
  {
    hide Deleted, Traced, RowLine.Extends, Neat;
    DeletedFirstFollows(s, name, tracking, rows, ts);
    if |ts| <= |rows| {
      NotDeleted(s, ts[|ts| - 1], name, tracking, rows[|ts| - 1], r, u);
    }
  }

  lemma {:induction false} UnhookedFirstFollows(s: Schema, name: string, tracking: bool, target: int, rows: seq<Row>,
                                                ts: seq<Table>)
    requires UnhookedFirst(s, name, tracking, target, rows, ts) && Traced(ts[0].line, ts[0].books)
    ensures Follows(ts[0], ts[|ts| - 1]) && (Neat(ts[0].line) ==> Neat(ts[|ts| - 1].line))
  {
    hide Unhooked, StopOf, Traced, RowLine.Extends, Neat;
    var n := |ts| - 1;
    if n == 0 {
      FollowsItself(ts[0]);
    } else {
      UnhookedFirstFollows(s, name, tracking, target, rows, ts[..n]);
      UnhookFollows(s, name, tracking, target, ts[n - 1], rows[n - 1], ts[n]);
      FollowsFurther(ts[0], ts[n - 1], ts[n]);
    }
  }

  lemma PrefixFollows(s: Schema, name: string, tracking: bool, target: int, prefix: Bytes, rows: seq<Row>,
                      ts: seq<Table>, r: Result, u: Table)
    requires PrefixDeleted(s, name, tracking, target, prefix, rows, ts, r, u) && !r.Panic?
    requires Traced(ts[0].line, ts[0].books)
    ensures Follows(ts[0], u) && (Neat(ts[0].line) ==> Neat(u.line))
  {
    hide UnhookedFirst, PrefixRefused, LacksRowId, HasPrefix, Cut, Traced, RowLine.Extends, Neat;
    UnhookedFirstFollows(s, name, tracking, target, rows, ts);
  }
}
