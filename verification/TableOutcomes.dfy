/** What a write leads to is determined by the table: its outcome, the rows that are gone by then, the change list, and,
    up to sets that are absent and sets that are empty, the row bookkeeping. */
module TableOutcomes {
  import opened VecShapes
  import opened TableSchema
  import opened RowModel
  import opened TableModel
  import opened PrefixModel
  import S = SetStore

  lemma AppliedSame(b: Books, b': Books, c: Books, c': Books, k: Bytes, obj: Value, existed: bool,
                    olds: seq<seq<Bytes>>, news: seq<seq<Bytes>>)
    requires |olds| == |news| && (existed ==> k in b.ids && k in c.ids) && SameBooks(b, c)
    requires Applied(b, b', k, obj, existed, olds, news) && Applied(c, c', k, obj, existed, olds, news)
    ensures SameBooks(b', c')
  {
    hide MovedAt, Put;
    assert InUse(b) == InUse(c) && Unused(b) == Unused(c);
    forall p: S.Place
      ensures S.SetAt(b'.sets, p) == S.SetAt(c'.sets, p)
    {
      assert S.SetAt(b.sets, p) == S.SetAt(c.sets, p);
      assert p.ValueSet? || p == S.AllIds || p == S.FreeIds;
    }
  }

  lemma BooksAfterSame(s: Schema, existing: Value, b: Books, b': Books, c: Books, c': Books, k: Bytes, obj: Value)
    requires SameBooks(b, c)
    requires BooksAfter(s, existing, b, b', k, obj) && BooksAfter(s, existing, c, c', k, obj)
    ensures SameBooks(b', c')
  {
    hide Applied, SameBooks, ValuesOf;
    if s.bitmaps != [] {
      var w := MoveOf(s, k, existing, obj);
      AppliedSame(b, b', c, c', k, obj, w.existed, w.olds, w.news);
    }
  }

  /** A write takes tables that are the same to the same outcome and to tables that are the same. */
  lemma InsertDetermined(s: Schema, t: Table, u: Table, name: string, tracking: bool, row: Row, r: Result, t': Table,
                         q: Result, u': Table)
    requires Same(t, u)
    requires Inserted(s, t, name, tracking, row, r, t') && Inserted(s, u, name, tracking, row, q, u')
    ensures r == q && (!r.Panic? ==> Same(t', u'))
  {
    hide BooksAfter, OrdinaryAfter, LineAfter, InsertRefused;
    assert Unused(t.books) == Unused(u.books);
    if r.Ok? {
      var k := s.primaryKey(row).key;
      BooksAfterSame(s, RowAt(t.primary, k), t.books, t'.books, u.books, u'.books, k, row);
    }
  }

  lemma DeleteDetermined(s: Schema, t: Table, u: Table, name: string, tracking: bool, row: Row, r: Result, t': Table,
                         q: Result, u': Table)
    requires Same(t, u)
    requires Deleted(s, t, name, tracking, row, r, t') && Deleted(s, u, name, tracking, row, q, u')
    ensures r == q && (!r.Panic? ==> Same(t', u'))
  {
    hide BooksAfter, OrdinaryAfter, LineAfter, DeleteRefused;
    if r.Ok? {
      var k := s.primaryKey(row).key;
      BooksAfterSame(s, t.primary[k], t.books, t'.books, u.books, u'.books, k, Nil);
    }
  }

  // ---------------------------------------------------------------- DeleteAll

  lemma {:induction false} FirstDetermined(s: Schema, name: string, tracking: bool, rows: seq<Row>, ts: seq<Table>,
                                           us: seq<Table>, n: nat)
    requires DeletedFirst(s, name, tracking, rows, ts) && DeletedFirst(s, name, tracking, rows, us)
    requires n < |ts| && n < |us| && Same(ts[0], us[0])
    ensures Same(ts[n], us[n])
  {
    hide Deleted, Same;
    if n > 0 {
      FirstDetermined(s, name, tracking, rows, ts, us, n - 1);
      DeleteDetermined(s, ts[n - 1], us[n - 1], name, tracking, rows[n - 1], Ok, ts[n], Ok, us[n]);
    }
  }

  /** DeleteAll stops at the same row with the same outcome. */
  lemma ListDetermined(s: Schema, name: string, tracking: bool, rows: seq<Row>, ts: seq<Table>, r: Result, t: Table,
                       us: seq<Table>, q: Result, u: Table)
    requires DeletedList(s, name, tracking, rows, ts, r, t) && DeletedList(s, name, tracking, rows, us, q, u)
    requires Same(ts[0], us[0])
    ensures |ts| == |us| && r == q && (!r.Panic? ==> Same(t, u))
  {
    hide Deleted, Same;
    if |ts| < |us| {
      FirstDetermined(s, name, tracking, rows, ts, us, |ts| - 1);
      DeleteDetermined(s, ts[|ts| - 1], us[|ts| - 1], name, tracking, rows[|ts| - 1], r, t, Ok, us[|ts|]);
      assert false;
    } else if |us| < |ts| {
      FirstDetermined(s, name, tracking, rows, ts, us, |us| - 1);
      DeleteDetermined(s, ts[|us| - 1], us[|us| - 1], name, tracking, rows[|us| - 1], Ok, ts[|us|], q, u);
      assert false;
    } else {
      FirstDetermined(s, name, tracking, rows, ts, us, |ts| - 1);
      if |ts| <= |rows| {
        DeleteDetermined(s, ts[|ts| - 1], us[|us| - 1], name, tracking, rows[|ts| - 1], r, t, q, u);
      }
    }
  }

  // ---------------------------------------------------------------- DeletePrefix

  lemma StopDetermined(s: Schema, target: int, t: Table, u: Table, row: Row)
    requires Same(t, u)
    ensures StopOf(s, target, t, row) == StopOf(s, target, u, row) != NotFound
  {
    hide PrefixRefused;
  }

  lemma UnhookDetermined(s: Schema, name: string, tracking: bool, target: int, t: Table, u: Table, row: Row, t': Table,
                         u': Table)
    requires Same(t, u)
    requires Unhooked(s, name, tracking, target, t, row, t') && Unhooked(s, name, tracking, target, u, row, u')
    ensures Same(t', u')
  {
    hide BooksAfter, OrdinaryAfter, LineAfter;
    BooksAfterSame(s, row, t.books, t'.books, u.books, u'.books, s.primaryKey(row).key, Nil);
  }

  lemma {:induction false} UnhooksDetermined(s: Schema, name: string, tracking: bool, target: int, rows: seq<Row>,
                                             ts: seq<Table>, us: seq<Table>, n: nat)
    requires UnhookedFirst(s, name, tracking, target, rows, ts) && UnhookedFirst(s, name, tracking, target, rows, us)
    requires n < |ts| && n < |us| && Same(ts[0], us[0])
    ensures Same(ts[n], us[n])
    ensures n < |rows| ==> StopOf(s, target, ts[n], rows[n]) == StopOf(s, target, us[n], rows[n]) != NotFound
  {
    hide Unhooked, Same, StopOf;
    if n > 0 {
      UnhooksDetermined(s, name, tracking, target, rows, ts, us, n - 1);
      UnhookDetermined(s, name, tracking, target, ts[n - 1], us[n - 1], rows[n - 1], ts[n], us[n]);
    }
    if n < |rows| {
      StopDetermined(s, target, ts[n], us[n], rows[n]);
    }
  }

  lemma LastDetermined(s: Schema, name: string, tracking: bool, target: int, t: Table, u: Table, row: Row)
    requires Same(t, u)
    ensures Same(BrokenOff(s, name, tracking, target, t, row), BrokenOff(s, name, tracking, target, u, row))
  {
    hide SameBooks;
  }

  /** DeletePrefix lists the same rows, stops at the same one with the same outcome, and leaves the same. */
  lemma PrefixDetermined(s: Schema, name: string, tracking: bool, target: int, search: Bytes, prefix: Bytes,
                         entries: seq<Bytes>, rows: seq<Row>, ts: seq<Table>, r: Result, t: Table,
                         others: seq<Bytes>, rest: seq<Row>, us: seq<Table>, q: Result, u: Table)
    requires PrefixDeleted(s, name, tracking, target, prefix, rows, ts, r, t)
    requires PrefixDeleted(s, name, tracking, target, prefix, rest, us, q, u)
    requires Same(ts[0], us[0]) && -1 <= target < |ts[0].ordinary|
    requires var m := TreeOf(ts[0].primary, ts[0].ordinary, target);
      && Lists(entries, m, search) && (forall i :: 0 <= i < |entries| ==> entries[i] in m) && rows == RowsAt(m, entries)
      && Lists(others, m, search) && (forall i :: 0 <= i < |others| ==> others[i] in m) && rest == RowsAt(m, others)
    ensures rows == rest && |ts| == |us| && r == q && (!r.Panic? ==> Same(t, u))
  {
    hide Unhooked, Same, StopOf, HasPrefix, Cut, BrokenOff, Lists;
    ListsUnique(entries, others, TreeOf(ts[0].primary, ts[0].ordinary, target), search);
    var n := if |ts| < |us| then |ts| - 1 else |us| - 1;
    UnhooksDetermined(s, name, tracking, target, rows, ts, us, n);
    if |ts| == |us| {
      if |ts| <= |rows| {
        LastDetermined(s, name, tracking, target, ts[n], us[n], rows[n]);
      } else {
        CutDetermined(ts[n], us[n], target, prefix, t, u);
      }
    }
  }

  lemma CutDetermined(p: Table, o: Table, target: int, prefix: Bytes, t: Table, u: Table)
    requires Same(p, o) && -1 <= target < |p.ordinary|
    ensures |o.ordinary| == |p.ordinary|
    ensures TreeOf(p.primary, p.ordinary, target) == TreeOf(o.primary, o.ordinary, target)
    ensures var m := Cut(TreeOf(p.primary, p.ordinary, target), prefix);
      Retreed(p, target, m, t) && Retreed(o, target, m, u) ==> Same(t, u)
  {
    hide SameBooks, Cut;
  }
}
