/** Deleting the rows that an index lists under a prefix, one by one or by cutting the prefix off the index. */
module PrefixModel {
  import opened VecShapes
  import opened TableSchema
  import opened RowModel
  import opened OrdinaryIndex
  import opened RowLine
  import opened TableModel
  import O = OrderedKeys

  /** entries lists the keys under a prefix in ascending order. */
  ghost predicate Lists(entries: seq<Bytes>, m: Tree, prefix: Bytes)
  {
    && (forall i, j :: 0 <= i < j < |entries| ==> O.Less(entries[i], entries[j]))
    && (forall key :: key in entries <==> key in m && prefix <= key)
  }

  lemma ListsDistinct(entries: seq<Bytes>, m: Tree, prefix: Bytes)
    requires Lists(entries, m, prefix)
    ensures forall i, j :: 0 <= i < j < |entries| ==> entries[i] != entries[j]
  {
    forall i, j | 0 <= i < j < |entries|
      ensures entries[i] != entries[j]
    {
      O.NotLess(entries[i]);
    }
  }

  /** What an index lists under a prefix is determined by what is in it. */
  lemma {:induction false} ListsUnique(entries: seq<Bytes>, others: seq<Bytes>, m: Tree, prefix: Bytes)
    requires Lists(entries, m, prefix) && Lists(others, m, prefix)
    ensures entries == others
  {
    SameAscent(entries, others);
  }

  lemma {:induction false} SameAscent(a: seq<Bytes>, b: seq<Bytes>)
    requires forall i, j :: 0 <= i < j < |a| ==> O.Less(a[i], a[j])
    requires forall i, j :: 0 <= i < j < |b| ==> O.Less(b[i], b[j])
    requires forall key :: key in a <==> key in b
    ensures a == b
    decreases |a|
  {
    if a == [] {
      if b != [] {
        FirstIn(b);
        assert false;
      }
    } else {
      assert a[0] in b;
      assert b[0] in a;
      FirstIs(a, b);
      FirstIs(b, a);
      if a[0] != b[0] {
        O.LessChain(a[0], b[0], a[0]);
        O.NotLess(a[0]);
      }
      forall key
        ensures key in a[1..] <==> key in b[1..]
      {
        RestIs(a, key);
        RestIs(b, key);
      }
      SameAscent(a[1..], b[1..]);
      assert a == [a[0]] + a[1..] && b == [b[0]] + b[1..];
    }
  }

  lemma FirstIn(a: seq<Bytes>)
    requires a != []
    ensures a[0] in a
  {
  }

  lemma FirstIs(a: seq<Bytes>, b: seq<Bytes>)
    requires a != [] && b != [] && b[0] in a && forall i, j :: 0 <= i < j < |a| ==> O.Less(a[i], a[j])
    ensures b[0] == a[0] || O.Less(a[0], b[0])
  {
  }

  lemma RestIs(a: seq<Bytes>, key: Bytes)
    requires a != [] && forall i, j :: 0 <= i < j < |a| ==> O.Less(a[i], a[j])
    ensures key in a[1..] <==> key in a && key != a[0]
  {
    O.NotLess(a[0]);
    assert a == [a[0]] + a[1..];
  }

  function RowsAt(m: Tree, entries: seq<Bytes>): (rows: seq<Row>)
    requires forall i :: 0 <= i < |entries| ==> entries[i] in m
    ensures |rows| == |entries| && forall i :: 0 <= i < |rows| ==> rows[i] == m[entries[i]]
  {
    seq(|entries|, i requires 0 <= i < |entries| => m[entries[i]])
  }

  /** The keys of a row in the id index (-1) or in an ordinary index. */
  function KeysThere(s: Schema, target: int, row: Row, k: Bytes): seq<Bytes>
    requires target < |s.ordinary|
  {
    if target < 0 then [k] else KeysAt(s.ordinary[target], row, k)
  }

  /** The keys that some rows have in an index. */
  ghost function KeysOf(s: Schema, primary: map<Bytes, Row>, target: int, ks: seq<Bytes>): set<Bytes>
    requires target < |s.ordinary|
  {
    set k, key | k in ks && k in primary && key in KeysThere(s, target, primary[k], k) :: key
  }

  /** What an index has under a prefix. */
  method Entries(m: Tree, prefix: Bytes) returns (entries: seq<Bytes>)
    ensures Lists(entries, m, prefix)
  {
    entries := [];
    var todo := set key | key in m && prefix <= key;
    while todo != {}
      invariant forall key :: key in todo ==> key in m && prefix <= key
      invariant forall key :: key in m && prefix <= key ==> key in todo || key in entries
      invariant forall key :: key in entries ==> key in m && prefix <= key
      invariant forall i, j :: 0 <= i < j < |entries| ==> O.Less(entries[i], entries[j])
      invariant forall i, key :: 0 <= i < |entries| && key in todo ==> O.Less(entries[i], key)
      decreases todo
    {
      O.HasFirst(todo);
      var key :| O.First(key, todo);
      entries, todo := entries + [key], todo - {key};
    }
  }

  /** An index that agrees with its table. */
  predicate InAgreement(s: Schema, t: Table, target: int)
  {
    && -1 <= target < |s.ordinary| == |t.ordinary|
    && (target >= 0 ==> Indexed(s.ordinary[target], t.primary, t.ordinary[target]))
  }

  /** An index in agreement with its table, and the entries it has under a prefix. */
  ghost predicate Listing(s: Schema, t: Table, target: int, prefix: Bytes, entries: seq<Bytes>)
  {
    InAgreement(s, t, target) && Keyed(s, t.primary) && Lists(entries, TreeOf(t.primary, t.ordinary, target), prefix)
  }

  /** The primary keys of the rows that the entries lead to. */
  ghost function Listed(s: Schema, t: Table, target: int, entries: seq<Bytes>): (ks: seq<Bytes>)
    requires -1 <= target < |t.ordinary|
    requires forall i :: 0 <= i < |entries| ==> entries[i] in TreeOf(t.primary, t.ordinary, target)
    ensures |ks| == |entries|
  {
    KeysFor(s, RowsAt(TreeOf(t.primary, t.ordinary, target), entries))
  }

  /** ks are the primary keys of the rows that the entries lead to. */
  ghost predicate Leads(s: Schema, t: Table, target: int, entries: seq<Bytes>, ks: seq<Bytes>)
  {
    && -1 <= target < |t.ordinary| == |s.ordinary| && |ks| == |entries|
    && (forall i :: 0 <= i < |entries| ==> entries[i] in TreeOf(t.primary, t.ordinary, target))
    && ks == Listed(s, t, target, entries)
  }

  /** Every entry leads to a row of the table, and is one of the row's keys there. */
  lemma ListingFacts(s: Schema, t: Table, target: int, prefix: Bytes, entries: seq<Bytes>)
    requires Listing(s, t, target, prefix, entries)
    ensures -1 <= target < |t.ordinary| == |s.ordinary|
    ensures forall i :: 0 <= i < |entries| ==> entries[i] in TreeOf(t.primary, t.ordinary, target)
    ensures var ks := Listed(s, t, target, entries);
      && (target < 0 ==> ks == entries)
      && forall i :: 0 <= i < |ks| ==>
        && ks[i] in t.primary && t.primary[ks[i]] == TreeOf(t.primary, t.ordinary, target)[entries[i]]
        && s.primaryKey(t.primary[ks[i]]) == Key(ks[i]) && entries[i] in KeysThere(s, target, t.primary[ks[i]], ks[i])
  {
    hide KeysAt;
    var m := TreeOf(t.primary, t.ordinary, target);
    forall i | 0 <= i < |entries|
      ensures entries[i] in m && s.primaryKey(m[entries[i]]).Key?
      ensures var k := s.primaryKey(m[entries[i]]).key;
        k in t.primary && t.primary[k] == m[entries[i]] && entries[i] in KeysThere(s, target, t.primary[k], k)
          && (target < 0 ==> k == entries[i])
    {
      assert entries[i] in entries;
      if target >= 0 {
        var k :| k in t.primary && entries[i] in KeysAt(s.ordinary[target], t.primary[k], k);
        assert m[entries[i]] == t.primary[k];
      }
    }
  }

  /** The id index lists no row twice. */
  lemma NotBefore(s: Schema, t: Table, target: int, prefix: Bytes, entries: seq<Bytes>, j: nat)
    requires Listing(s, t, target, prefix, entries) && j < |entries|
    ensures Leads(s, t, target, entries, Listed(s, t, target, entries))
    ensures target < 0 ==> Listed(s, t, target, entries)[j] !in Listed(s, t, target, entries)[..j]
  {
    hide KeysThere;
    ListsDistinct(entries, TreeOf(t.primary, t.ordinary, target), prefix);
    ListingFacts(s, t, target, prefix, entries);
  }

  // ---------------------------------------------------------------- what is left without some rows

  lemma OneWithout(s: Schema, t: Table, name: string, tracking: bool, ks: seq<Bytes>, k: Bytes)
    ensures WithoutAll(s, t, name, tracking, ks + [k]) ==
      Without(s, WithoutAll(s, t, name, tracking, ks), name, tracking, k)
  {
    hide Without;
    assert (ks + [k])[..|ks|] == ks;
  }

  /** Without some rows every index has lost exactly their keys, however often a row is named. */
  lemma {:induction false} WithoutAllTrees(s: Schema, t: Table, name: string, tracking: bool, ks: seq<Bytes>)
    requires |t.ordinary| == |s.ordinary|
    ensures var u := WithoutAll(s, t, name, tracking, ks);
      && u.primary == t.primary - (set k | k in ks) && |u.ordinary| == |s.ordinary|
      && forall i :: -1 <= i < |s.ordinary| ==>
        TreeOf(u.primary, u.ordinary, i) == TreeOf(t.primary, t.ordinary, i) - KeysOf(s, t.primary, i, ks)
  {
    hide BooksWithout, KeysAt;
    var u := WithoutAll(s, t, name, tracking, ks);
    if ks == [] {
      assert t.primary - (set k | k in ks) == t.primary;
      forall i | -1 <= i < |s.ordinary|
        ensures TreeOf(u.primary, u.ordinary, i) == TreeOf(t.primary, t.ordinary, i) - KeysOf(s, t.primary, i, ks)
      {
        assert KeysOf(s, t.primary, i, ks) == {};
      }
    } else {
      var rest, k := ks[..|ks| - 1], ks[|ks| - 1];
      assert ks == rest + [k];
      WithoutAllTrees(s, t, name, tracking, rest);
      assert (t.primary - (set x | x in rest)) - {k} == t.primary - (set x | x in ks);
      var v := WithoutAll(s, t, name, tracking, rest);
      forall i | -1 <= i < |s.ordinary|
        ensures TreeOf(u.primary, u.ordinary, i) == TreeOf(t.primary, t.ordinary, i) - KeysOf(s, t.primary, i, ks)
      {
        MoreKeys(s, t.primary, i, rest, k);
        assert TreeOf(v.primary, v.ordinary, i) == TreeOf(t.primary, t.ordinary, i) - KeysOf(s, t.primary, i, rest);
      }
    }
  }

  lemma MoreKeys(s: Schema, primary: map<Bytes, Row>, i: int, ks: seq<Bytes>, k: Bytes)
    requires i < |s.ordinary|
    ensures KeysOf(s, primary, i, ks + [k]) ==
      KeysOf(s, primary, i, ks) + (if k in primary then set key | key in KeysThere(s, i, primary[k], k) else {})
    ensures k in ks ==> KeysOf(s, primary, i, ks + [k]) == KeysOf(s, primary, i, ks)
  {
    hide KeysAt;
  }

  // ---------------------------------------------------------------- DeletePrefix

  ghost predicate PrefixRefused(s: Schema, row: Row, target: int)
  {
    RefusedBy(s.ordinary, Nil, row, target) || RefusedBy(s.bitmaps, Nil, row, -1)
  }

  ghost predicate HasPrefix(m: Tree, prefix: Bytes)
  {
    exists key :: key in m && prefix <= key
  }

  lemma CutsSome(m: Tree, prefix: Bytes)
    ensures Cut(m, prefix) != m <==> HasPrefix(m, prefix)
  {
    if key :| key in m && prefix <= key {
      assert key !in Cut(m, prefix);
    }
  }

  /** The change list entry for a row that is still there. */
  function LogOf(name: string, tracking: bool, primary: map<Bytes, Row>, k: Bytes): seq<Change>
  {
    if tracking && k in primary then [Change(name, k, primary[k], Nil)] else []
  }

  /** The id index without a key, unless the deletion goes through it. */
  function Unlisted(primary: map<Bytes, Row>, target: int, k: Bytes): map<Bytes, Row>
  {
    if target < 0 then primary else primary - {k}
  }

  /** A listed row leaves every index but one. It is the row that the index has, which need not be the one that the
      table has under the same key. */
  ghost predicate Unhooked(s: Schema, name: string, tracking: bool, target: int, t: Table, row: Row, t': Table)
  {
    && |t.ordinary| == |s.ordinary| && s.primaryKey(row).Key?
    && var k := s.primaryKey(row).key;
    && t'.primary == Unlisted(t.primary, target, k)
    && t'.ordinary == OrdinaryAfter(s, t.ordinary, k, row, Nil, target)
    && BooksAfter(s, row, t.books, t'.books, k, Nil)
    && t'.line == LineAfter(s, row, t.line, t'.books, k, Nil)
    && t'.changes == t.changes + LogOf(name, tracking, t.primary, k)
  }

  /** Whether a listed row can be unhooked. */
  ghost function StopOf(s: Schema, target: int, t: Table, row: Row): Result
  {
    if s.primaryKey(row).NoKey? || PrefixRefused(s, row, target) then Refused
    else if LacksRowId(s, t.books, s.primaryKey(row).key, row) then Panic
    else Ok
  }

  /** What is left when an indexer fails on a row: it may have been logged and have left the id index. */
  ghost function BrokenOff(s: Schema, name: string, tracking: bool, target: int, t: Table, row: Row): Table
  {
    if s.primaryKey(row).NoKey? then t else
      var k := s.primaryKey(row).key;
      t.(primary := Unlisted(t.primary, target, k), changes := t.changes + LogOf(name, tracking, t.primary, k))
  }

  /** The first rows of a list unhooked one after the other; ts are the tables in between. */
  ghost predicate UnhookedFirst(s: Schema, name: string, tracking: bool, target: int, rows: seq<Row>, ts: seq<Table>)
  {
    && 0 < |ts| <= |rows| + 1
    && forall j :: 0 <= j < |ts| - 1 ==>
      StopOf(s, target, ts[j], rows[j]) == Ok && Unhooked(s, name, tracking, target, ts[j], rows[j], ts[j + 1])
  }

  lemma NoneUnhooked(s: Schema, name: string, tracking: bool, target: int, rows: seq<Row>, t: Table)
    ensures UnhookedFirst(s, name, tracking, target, rows, [t])
  {
  }

  lemma OneMoreUnhooked(s: Schema, name: string, tracking: bool, target: int, rows: seq<Row>, ts: seq<Table>, t: Table)
    requires UnhookedFirst(s, name, tracking, target, rows, ts) && |ts| <= |rows|
    requires StopOf(s, target, ts[|ts| - 1], rows[|ts| - 1]) == Ok
    requires Unhooked(s, name, tracking, target, ts[|ts| - 1], rows[|ts| - 1], t)
    ensures UnhookedFirst(s, name, tracking, target, rows, ts + [t])
  {
    hide Unhooked, StopOf;
  }

  /** What DeletePrefix does, for any index whatever is in it: it unhooks the rows listed until one cannot be, and if
      all can, cuts the prefix off. That nothing can be cut off although something was listed is a panic. */
  ghost predicate PrefixDeleted(s: Schema, name: string, tracking: bool, target: int, prefix: Bytes, rows: seq<Row>,
                                ts: seq<Table>, r: Result, u: Table)
  {
    && UnhookedFirst(s, name, tracking, target, rows, ts)
    && var t := ts[|ts| - 1];
    && -1 <= target < |t.ordinary|
    && if |ts| <= |rows| then
         var row := rows[|ts| - 1];
         r == StopOf(s, target, t, row) != Ok && (r.Refused? ==> u == BrokenOff(s, name, tracking, target, t, row))
       else if rows == [] then r.Ok? && u == t
       else if !HasPrefix(TreeOf(t.primary, t.ordinary, target), prefix) then r.Panic?
       else r.Ok? && Retreed(t, target, Cut(TreeOf(t.primary, t.ordinary, target), prefix), u)
  }

  /** The tree of one index replaced. */
  ghost predicate Retreed(p: Table, target: int, m: Tree, u: Table)
    requires -1 <= target < |p.ordinary|
  {
    u == if target < 0 then p.(primary := m) else p.(ordinary := p.ordinary[target := m])
  }

  /** Where no row has been unhooked, the row bookkeeping is as it was: nothing was listed, or the first row was
      refused. In the latter case the row may have left the id index all the same. */
  lemma PrefixBooks(s: Schema, name: string, tracking: bool, target: int, prefix: Bytes, rows: seq<Row>, ts: seq<Table>,
                    r: Result, u: Table)
    requires PrefixDeleted(s, name, tracking, target, prefix, rows, ts, r, u) && !r.Panic?
    ensures |ts| > 0
    ensures |ts| == 1 ==> u.books == ts[0].books && u.line == ts[0].line
    ensures |ts| == 1 ==>
      u == ts[0] || (rows != [] && r.Refused? && u == BrokenOff(s, name, tracking, target, ts[0], rows[0]))
  {
    hide PrefixRefused, LacksRowId, HasPrefix, Cut, Unhooked;
  }

  /** A refused row leaves the table as it is exactly if the row has no key, its key is not there, or the deletion goes
      through the id index and no changes are tracked. Otherwise it has been logged or has left the id index. */
  lemma RefusedUntouched(s: Schema, name: string, tracking: bool, target: int, t: Table, row: Row)
    ensures BrokenOff(s, name, tracking, target, t, row) == t <==>
      s.primaryKey(row).NoKey? || s.primaryKey(row).key !in t.primary || (target < 0 && !tracking)
  {
    if s.primaryKey(row).Key? {
      var k := s.primaryKey(row).key;
      assert k !in t.primary ==> t.primary - {k} == t.primary;
      assert t.changes + [] == t.changes;
    }
  }

  // ---------------------------------------------------------------- DeletePrefix through an index in agreement

  /** What keeps DeletePrefix from going on at an entry: an indexer fails on its row, or, with bitmap indexes, the
      row has been listed before, under another of its keys, and has no row id any more. */
  ghost predicate Stops(s: Schema, primary: map<Bytes, Row>, target: int, ks: seq<Bytes>, j: nat)
    requires j < |ks|
  {
    ks[j] in primary && (PrefixRefused(s, primary[ks[j]], target) || (s.bitmaps != [] && ks[j] in ks[..j]))
  }

  /** Half way through: p is the table without the rows ks, but for the index that the deletion goes through, which
      still has all its keys. */
  ghost predicate Half(s: Schema, t: Table, name: string, tracking: bool, target: int, ks: seq<Bytes>, p: Table)
  {
    && -1 <= target < |t.ordinary| == |s.ordinary| == |p.ordinary|
    && var d := WithoutAll(s, t, name, tracking, ks);
    && |d.ordinary| == |s.ordinary|
    && p.primary == (if target < 0 then t.primary else d.primary)
    && p.ordinary == (if target < 0 then d.ordinary else d.ordinary[target := t.ordinary[target]])
    && SameBooks(p.books, d.books) && p.changes == d.changes && BooksOk(s, d.primary, p.books)
  }

  lemma HalfStart(s: Schema, t: Table, name: string, tracking: bool, target: int)
    requires -1 <= target < |t.ordinary| == |s.ordinary| && BooksOk(s, t.primary, t.books)
    ensures Half(s, t, name, tracking, target, [], t)
  {
    hide BooksOk;
  }

  lemma HalfFacts(s: Schema, t: Table, name: string, tracking: bool, target: int, ks: seq<Bytes>, p: Table)
    requires Half(s, t, name, tracking, target, ks, p)
    ensures BooksOk(s, t.primary - (set k | k in ks), p.books)
    ensures p.primary == if target < 0 then t.primary else t.primary - (set k | k in ks)
    ensures -1 <= target < |p.ordinary| == |s.ordinary|
    ensures TreeOf(p.primary, p.ordinary, target) == TreeOf(t.primary, t.ordinary, target)
  {
    hide BooksOk, SameBooks, WithoutAll;
    WithoutAllTrees(s, t, name, tracking, ks);
  }

  /** The bookkeeping agrees with the table without the rows that have been unhooked. */
  lemma HalfBooks(s: Schema, t: Table, ks: seq<Bytes>, b: Books, b': Books, k: Bytes)
    requires k in t.primary && BooksOk(s, t.primary - (set x | x in ks), b) && (k in ks ==> s.bitmaps == [])
    requires BooksAfter(s, t.primary[k], b, b', k, Nil)
    ensures BooksOk(s, t.primary - (set x | x in ks) - {k}, b')
  {
    hide Agrees, BooksAfter, OutOfRowIds;
    if s.bitmaps != [] {
      var primary := t.primary - (set x | x in ks);
      NeverOut(s, b, t.primary[k]);
      BooksKept(s, primary, b, b', k, Nil);
    }
  }

  /** One more row: it leaves all indexes but one. A row met for the second time is gone from them already. */
  lemma HalfStep(s: Schema, t: Table, name: string, tracking: bool, target: int, ks: seq<Bytes>, p: Table, k: Bytes,
                 p': Table)
    requires Half(s, t, name, tracking, target, ks, p) && k in t.primary && (k in ks ==> s.bitmaps == [] && target >= 0)
    requires s.primaryKey(t.primary[k]) == Key(k) && Unhooked(s, name, tracking, target, p, t.primary[k], p')
    ensures Half(s, t, name, tracking, target, ks + [k], p')
  {
    hide BooksOk, BooksAfter, KeysAt, BooksWithout, SameBooks, WithoutAll, AllKeys, LineAfter;
    var d := WithoutAll(s, t, name, tracking, ks);
    WithoutAllTrees(s, t, name, tracking, ks);
    HalfBooks(s, t, ks, p.books, p'.books, k);
    OneWithout(s, t, name, tracking, ks, k);
    if k in ks {
      forall i | 0 <= i < |s.ordinary| && i != target
        ensures p'.ordinary[i] == d.ordinary[i]
      {
        assert TreeOf(d.primary, d.ordinary, i) == TreeOf(t.primary, t.ordinary, i) - KeysOf(s, t.primary, i, ks);
        OwnGone(s, t.primary, i, ks, k);
      }
      assert d.primary - {k} == d.primary;
      SameBooksAfter(s, t.primary[k], p.books, p'.books, k);
    } else {
      BooksDeleted(s, t.primary[k], p.books, p'.books, d.books, k);
    }
  }

  lemma OwnGone(s: Schema, primary: map<Bytes, Row>, i: nat, ks: seq<Bytes>, k: Bytes)
    requires i < |s.ordinary| && k in ks && k in primary
    ensures forall key :: key in KeysAt(s.ordinary[i], primary[k], k) ==> key in KeysOf(s, primary, i, ks)
  {
    hide KeysAt;
    assert KeysThere(s, i, primary[k], k) == KeysAt(s.ordinary[i], primary[k], k);
  }

  lemma SameBooksAfter(s: Schema, row: Row, b: Books, b': Books, k: Bytes)
    requires s.bitmaps == [] && BooksAfter(s, row, b, b', k, Nil)
    ensures b' == b
  {
  }

  /** What DeletePrefix comes to if nothing stops it: the rows listed are gone, but from the index that the deletion
      goes through every key with the given prefix is cut off instead. */
  ghost predicate Pruned(s: Schema, t: Table, name: string, tracking: bool, target: int, prefix: Bytes, ks: seq<Bytes>,
                         u: Table)
  {
    && -1 <= target < |t.ordinary| == |s.ordinary|
    && var d := WithoutAll(s, t, name, tracking, ks);
    && |d.ordinary| == |s.ordinary|
    && var m := TreeOf(t.primary, t.ordinary, target);
    && var m' := if ks == [] then m else Cut(m, prefix);
    && u.primary == (if target < 0 then m' else d.primary)
    && u.ordinary == (if target < 0 then d.ordinary else d.ordinary[target := m'])
    && SameBooks(u.books, d.books) && u.changes == d.changes && BooksOk(s, d.primary, u.books)
  }

  lemma HalfDone(s: Schema, t: Table, name: string, tracking: bool, target: int, prefix: Bytes, ks: seq<Bytes>,
                 p: Table, u: Table)
    requires Half(s, t, name, tracking, target, ks, p)
    requires var m := TreeOf(p.primary, p.ordinary, target);
      Retreed(p, target, if ks == [] then m else Cut(m, prefix), u)
    ensures Pruned(s, t, name, tracking, target, prefix, ks, u)
  {
    hide BooksOk, SameBooks, Cut, WithoutAll;
  }

  /** Whether a row can be unhooked, half way through. */
  lemma StopIff(s: Schema, t: Table, name: string, tracking: bool, target: int, ks: seq<Bytes>, p: Table, k: Bytes)
    requires Half(s, t, name, tracking, target, ks, p) && k in t.primary && s.primaryKey(t.primary[k]) == Key(k)
    ensures StopOf(s, target, p, t.primary[k]) ==
      if PrefixRefused(s, t.primary[k], target) then Refused else if s.bitmaps != [] && k in ks then Panic else Ok
  {
    hide PrefixRefused, SameBooks, WithoutAll, BooksOk;
    HalfFacts(s, t, name, tracking, target, ks, p);
    IdsOfRows(s, t.primary - (set x | x in ks), p.books);
  }

  lemma IdsOfRows(s: Schema, primary: map<Bytes, Row>, b: Books)
    requires BooksOk(s, primary, b)
    ensures s.bitmaps != [] ==> b.ids.Keys == primary.Keys
  {
    if s.bitmaps != [] {
      AgreesLoose(s, primary, b);
    }
  }

  /** rows are those that an index in agreement lists under a prefix, and ks their keys. */
  ghost predicate RowsListed(s: Schema, t: Table, target: int, prefix: Bytes, entries: seq<Bytes>, rows: seq<Row>,
                       ks: seq<Bytes>)
  {
    && Listing(s, t, target, prefix, entries) && Leads(s, t, target, entries, ks)
    && rows == RowsAt(TreeOf(t.primary, t.ordinary, target), entries)
  }

  lemma RowsFacts(s: Schema, t: Table, target: int, prefix: Bytes, entries: seq<Bytes>, rows: seq<Row>, ks: seq<Bytes>)
    requires RowsListed(s, t, target, prefix, entries, rows, ks)
    ensures -1 <= target < |t.ordinary| == |s.ordinary| && |ks| == |rows|
    ensures forall j :: 0 <= j < |ks| ==>
      && ks[j] in t.primary && t.primary[ks[j]] == rows[j] && s.primaryKey(rows[j]) == Key(ks[j])
      && (target < 0 ==> ks[j] !in ks[..j])
  {
    hide Listing, KeysThere;
    ListingFacts(s, t, target, prefix, entries);
    forall j | 0 <= j < |ks|
      ensures target < 0 ==> ks[j] !in ks[..j]
    {
      NotBefore(s, t, target, prefix, entries, j);
    }
  }

  /** On the way every table is half way. */
  lemma {:induction false} HalfAll(s: Schema, t: Table, name: string, tracking: bool, target: int, prefix: Bytes,
                                   entries: seq<Bytes>, rows: seq<Row>, ks: seq<Bytes>, ts: seq<Table>)
    requires RowsListed(s, t, target, prefix, entries, rows, ks) && Agreed(s, t)
    requires UnhookedFirst(s, name, tracking, target, rows, ts) && ts[0] == t
    ensures |ts| <= |ks| + 1 && forall j :: 0 <= j < |ts| ==> Half(s, t, name, tracking, target, ks[..j], ts[j])
    ensures forall j :: 0 <= j < |ts| - 1 ==> !Stops(s, t.primary, target, ks, j)
    decreases |ts|
  {
    hide Half, Unhooked, PrefixRefused, RowsListed, StopOf, Agreed;
    RowsFacts(s, t, target, prefix, entries, rows, ks);
    var n := |ts| - 1;
    if n == 0 {
      AgreedBooks(s, t);
      HalfStart(s, t, name, tracking, target);
    } else {
      HalfAll(s, t, name, tracking, target, prefix, entries, rows, ks, ts[..n]);
      var k := ks[n - 1];
      assert StopOf(s, target, ts[n - 1], rows[n - 1]) == Ok;
      StopIff(s, t, name, tracking, target, ks[..n - 1], ts[n - 1], k);
      HalfStep(s, t, name, tracking, target, ks[..n - 1], ts[n - 1], k, ts[n]);
      assert ks[..n - 1] + [k] == ks[..n];
    }
  }

  /** Through an index in agreement every outcome of DeletePrefix can be told beforehand: it stops exactly at the first
      row that is refused, or, with bitmap indexes, listed before; if it does not stop, the listed rows are gone. */
  lemma PrefixOutcome(s: Schema, t: Table, name: string, tracking: bool, target: int, search: Bytes, prefix: Bytes,
                      entries: seq<Bytes>, rows: seq<Row>, ks: seq<Bytes>, ts: seq<Table>, r: Result, u: Table)
    requires RowsListed(s, t, target, search, entries, rows, ks) && Agreed(s, t)
    requires PrefixDeleted(s, name, tracking, target, prefix, rows, ts, r, u) && ts[0] == t
    ensures 0 < |ts| <= |ks| + 1 == |rows| + 1 && -1 <= target < |t.ordinary|
    ensures forall j :: 0 <= j < |ts| - 1 ==> !Stops(s, t.primary, target, ks, j)
    ensures |ts| <= |ks| ==> Stops(s, t.primary, target, ks, |ts| - 1)
    ensures |ts| <= |ks| ==> r == if PrefixRefused(s, rows[|ts| - 1], target) then Refused else Panic
    ensures |ts| == |ks| + 1 ==>
      r == if ks != [] && !HasPrefix(TreeOf(t.primary, t.ordinary, target), prefix) then Panic else Ok
    ensures Half(s, t, name, tracking, target, ks[..|ts| - 1], ts[|ts| - 1])
    ensures r.Ok? ==> Pruned(s, t, name, tracking, target, prefix, ks, u)
  {
    hide Half, Unhooked, PrefixRefused, RowsListed, Agreed, Pruned, HasPrefix, Cut;
    RowsFacts(s, t, target, search, entries, rows, ks);
    HalfAll(s, t, name, tracking, target, search, entries, rows, ks, ts);
    var n := |ts| - 1;
    HalfFacts(s, t, name, tracking, target, ks[..n], ts[n]);
    if n < |ks| {
      StopIff(s, t, name, tracking, target, ks[..n], ts[n], ks[n]);
    } else {
      assert ks[..n] == ks;
      if r.Ok? {
        HalfDone(s, t, name, tracking, target, prefix, ks, ts[n], u);
      }
    }
  }

  /** What is left agrees with itself again, but that through the id index other rows may have been cut off. */
  lemma PrunedAgrees(s: Schema, t: Table, name: string, tracking: bool, target: int, prefix: Bytes, ks: seq<Bytes>,
                     u: Table)
    requires Pruned(s, t, name, tracking, target, prefix, ks, u) && Keyed(s, t.primary)
    ensures target >= 0 || Same(u, WithoutAll(s, t, name, tracking, ks)) ==>
      Keyed(s, u.primary) && BooksOk(s, u.primary, u.books)
  {
    hide BooksOk, SameBooks, WithoutAll;
    WithoutAllTrees(s, t, name, tracking, ks);
  }

  /** u is the table t without the rows its entries lead to: what deleting each of those rows comes to. */
  ghost predicate DeletedEntries(s: Schema, t: Table, name: string, tracking: bool, ks: seq<Bytes>, u: Table)
  {
    Same(u, WithoutAll(s, t, name, tracking, ks))
  }

  /** The keys with a prefix are exactly those of the rows that are listed. */
  ghost predicate Covers(s: Schema, t: Table, target: int, prefix: Bytes, ks: seq<Bytes>)
    requires -1 <= target < |t.ordinary| == |s.ordinary|
  {
    forall key :: key in TreeOf(t.primary, t.ordinary, target) ==>
      (prefix <= key <==> key in KeysOf(s, t.primary, target, ks))
  }

  /** DeletePrefix does what deleting the listed rows one by one does exactly if the prefix covers their keys and no
      others. */
  lemma PrunedIff(s: Schema, t: Table, name: string, tracking: bool, target: int, prefix: Bytes, ks: seq<Bytes>,
                  u: Table)
    requires Pruned(s, t, name, tracking, target, prefix, ks, u)
    ensures DeletedEntries(s, t, name, tracking, ks, u) <==> ks == [] || Covers(s, t, target, prefix, ks)
  {
    hide BooksOk, SameBooks, KeysOf, WithoutAll;
    WithoutAllTrees(s, t, name, tracking, ks);
    var d, m := WithoutAll(s, t, name, tracking, ks), TreeOf(t.primary, t.ordinary, target);
    assert TreeOf(d.primary, d.ordinary, target) == m - KeysOf(s, t.primary, target, ks);
    assert DeletedEntries(s, t, name, tracking, ks, u) <==>
      TreeOf(u.primary, u.ordinary, target) == TreeOf(d.primary, d.ordinary, target);
    if ks == [] {
      assert KeysOf(s, t.primary, target, ks) == {} by { NoKeysOf(s, t.primary, target); }
    } else {
      CutIff(m, prefix, KeysOf(s, t.primary, target, ks));
    }
  }

  lemma NoKeysOf(s: Schema, primary: map<Bytes, Row>, target: int)
    requires target < |s.ordinary|
    ensures KeysOf(s, primary, target, []) == {}
  {
  }

  lemma CutIff(m: Tree, prefix: Bytes, keys: set<Bytes>)
    ensures Cut(m, prefix) == m - keys <==> forall key :: key in m ==> (prefix <= key <==> key in keys)
  {
    if Cut(m, prefix) == m - keys {
      forall key | key in m
        ensures prefix <= key <==> key in keys
      {
        assert key in Cut(m, prefix) <==> key in m - keys;
      }
    }
  }

  ghost predicate TwoKeys(s: Schema, target: int, row: Row, k: Bytes, prefix: Bytes)
    requires target < |s.ordinary|
  {
    exists x, y ::
      x in KeysThere(s, target, row, k) && y in KeysThere(s, target, row, k) && x != y && prefix <= x && prefix <= y
  }

  /** A row is listed twice exactly if some row has two keys with the prefix. */
  lemma TwiceIff(s: Schema, t: Table, target: int, prefix: Bytes, entries: seq<Bytes>)
    requires Listing(s, t, target, prefix, entries)
    ensures (forall i :: 0 <= i < |entries| ==> entries[i] in TreeOf(t.primary, t.ordinary, target))
    ensures target < |s.ordinary|
    ensures var ks := Listed(s, t, target, entries);
      (exists j :: 0 <= j < |ks| && ks[j] in ks[..j]) <==>
        exists k :: k in t.primary && TwoKeys(s, target, t.primary[k], k, prefix)
  {
    hide KeysThere, Indexed, Keyed, Listed;
    ListingFacts(s, t, target, prefix, entries);
    var ks := Listed(s, t, target, entries);
    if j :| 0 <= j < |ks| && ks[j] in ks[..j] {
      var i :| 0 <= i < j && ks[i] == ks[j];
      ListsDistinct(entries, TreeOf(t.primary, t.ordinary, target), prefix);
      assert entries[i] in entries && entries[j] in entries && entries[i] != entries[j];
      assert TwoKeys(s, target, t.primary[ks[j]], ks[j], prefix);
    }
    if k :| k in t.primary && TwoKeys(s, target, t.primary[k], k, prefix) {
      var x, y :|
        x in KeysThere(s, target, t.primary[k], k) && y in KeysThere(s, target, t.primary[k], k) && x != y
          && prefix <= x && prefix <= y;
      var i, j := EntryOf(s, t, target, prefix, entries, k, x), EntryOf(s, t, target, prefix, entries, k, y);
      var a, b := if i < j then i else j, if i < j then j else i;
      assert ks[b] == ks[..b][a];
    }
  }

  /** Every key of a row with the prefix is one of the entries, and leads to that row. */
  ghost function EntryOf(s: Schema, t: Table, target: int, prefix: Bytes, entries: seq<Bytes>, k: Bytes,
                         key: Bytes): (i: nat)
    requires Listing(s, t, target, prefix, entries) && k in t.primary && key in KeysThere(s, target, t.primary[k], k)
    requires prefix <= key
    ensures forall i :: 0 <= i < |entries| ==> entries[i] in TreeOf(t.primary, t.ordinary, target)
    ensures i < |entries| && entries[i] == key && Listed(s, t, target, entries)[i] == k
  {
    ListingFacts(s, t, target, prefix, entries);
    hide KeysAt;
    assert TreeOf(t.primary, t.ordinary, target)[key] == t.primary[k];
    var i :| 0 <= i < |entries| && entries[i] == key;
    i
  }

  /** For the prefix that was listed, covering means that no listed row has a key without it. */
  lemma CoversIff(s: Schema, t: Table, target: int, prefix: Bytes, entries: seq<Bytes>)
    requires Listing(s, t, target, prefix, entries)
    ensures (forall i :: 0 <= i < |entries| ==> entries[i] in TreeOf(t.primary, t.ordinary, target))
    ensures target < |s.ordinary|
    ensures var ks := Listed(s, t, target, entries);
      Covers(s, t, target, prefix, ks) <==> forall key :: key in KeysOf(s, t.primary, target, ks) ==> prefix <= key
  {
    hide KeysThere, KeysOf, Listing, Listed, TreeOf;
    ListingFacts(s, t, target, prefix, entries);
    var m, ks := TreeOf(t.primary, t.ordinary, target), Listed(s, t, target, entries);
    forall key | key in m && prefix <= key
      ensures key in KeysOf(s, t.primary, target, ks)
    {
      PrefixInKeys(s, t, target, prefix, entries, key);
    }
    forall key | key in KeysOf(s, t.primary, target, ks)
      ensures key in m
    {
      KeysInTree(s, t, target, prefix, entries, ks, key);
    }
  }

  lemma PrefixInKeys(s: Schema, t: Table, target: int, prefix: Bytes, entries: seq<Bytes>, key: Bytes)
    requires Listing(s, t, target, prefix, entries) && key in TreeOf(t.primary, t.ordinary, target) && prefix <= key
    ensures forall i :: 0 <= i < |entries| ==> entries[i] in TreeOf(t.primary, t.ordinary, target)
    ensures key in KeysOf(s, t.primary, target, Listed(s, t, target, entries))
  {
    hide KeysThere, Indexed, Keyed;
    ListingFacts(s, t, target, prefix, entries);
    var i :| 0 <= i < |entries| && entries[i] == key;
    var k := Listed(s, t, target, entries)[i];
    assert k in Listed(s, t, target, entries) && key in KeysThere(s, target, t.primary[k], k);
  }

  /** Through the id index the keys are the entries themselves. */
  lemma IdPrefix(s: Schema, t: Table, name: string, tracking: bool, target: int, prefix: Bytes, entries: seq<Bytes>,
                 ks: seq<Bytes>, u: Table)
    requires target < 0 && Listing(s, t, target, prefix, entries) && Leads(s, t, target, entries, ks)
    requires Pruned(s, t, name, tracking, target, prefix, ks, u)
    ensures DeletedEntries(s, t, name, tracking, ks, u)
  {
    hide Pruned, DeletedEntries, Keyed;
    ListingFacts(s, t, target, prefix, entries);
    PrunedIff(s, t, name, tracking, target, prefix, ks, u);
    CoversIff(s, t, target, prefix, entries);
  }

  lemma KeysInTree(s: Schema, t: Table, target: int, prefix: Bytes, entries: seq<Bytes>, ks: seq<Bytes>, key: Bytes)
    requires Listing(s, t, target, prefix, entries) && key in KeysOf(s, t.primary, target, ks)
    ensures key in TreeOf(t.primary, t.ordinary, target)
  {
    hide KeysAt;
    var k :| k in ks && k in t.primary && key in KeysThere(s, target, t.primary[k], k);
  }

  /** A row with the values 1,1 and 1,2 and the prefix 1: the second of its two entries stops the deletion, and the
      table has not been refused. */
  lemma TwicePanics(s: Schema, t: Table)
    requires |s.ordinary| == 1 && s.ordinary[0].unique && s.bitmaps != [] && s.primaryKey(Object(0)) == Key([7])
    requires s.ordinary[0].values(Object(0)) == Values([[1, 1], [1, 2]]) && !RefusedBy(s.bitmaps, Nil, Object(0), -1)
    requires t.primary == map[[7] := Object(0)] && t.ordinary == [map[[1, 1] := Object(0), [1, 2] := Object(0)]]
    ensures Listing(s, t, 0, [1], [[1, 1], [1, 2]]) && Listed(s, t, 0, [[1, 1], [1, 2]]) == [[7], [7]]
    ensures !Stops(s, t.primary, 0, [[7], [7]], 0) && Stops(s, t.primary, 0, [[7], [7]], 1)
    ensures !PrefixRefused(s, Object(0), 0)
  {
    var entries: seq<Bytes> := [[1, 1], [1, 2]];
    OwnKeysOnly(s.ordinary[0], t, entries);
    assert entries[0] in t.ordinary[0] && entries[1] in t.ordinary[0];
    assert RowsAt(t.ordinary[0], entries) == [Object(0), Object(0)];
  }

  /** A table of one row whose keys are the given ones. */
  lemma OwnKeysOnly(ix: Index, t: Table, keys: seq<Bytes>)
    requires ix.unique && ix.values(Object(0)) == Values(keys) && |t.ordinary| == 1
    requires t.primary == map[[7] := Object(0)] && t.ordinary[0].Keys == (set x | x in keys)
    requires forall key :: key in t.ordinary[0] ==> t.ordinary[0][key] == Object(0)
    ensures KeysAt(ix, Object(0), [7]) == keys && Indexed(ix, t.primary, t.ordinary[0])
  {
    assert KeysAt(ix, Object(0), [7]) == keys by { assert forall i :: 0 <= i < |keys| ==> keys[i] + [] == keys[i]; }
    forall key | key in t.ordinary[0]
      ensures exists k :: k in t.primary && key in KeysAt(ix, t.primary[k], k)
    {
      assert [7] in t.primary && key in KeysAt(ix, t.primary[[7]], [7]);
    }
  }

  /** A row with the values 1 and 2 and the prefix 1: its other key stays in the index, and leads to a row that is
      no longer there. */
  lemma KeyLeftBehind(s: Schema, t: Table, name: string, tracking: bool, u: Table)
    requires |s.ordinary| == 1 && s.ordinary[0].unique && s.primaryKey(Object(0)) == Key([7])
    requires s.ordinary[0].values(Object(0)) == Values([[1], [2]])
    requires t.primary == map[[7] := Object(0)] && t.ordinary == [map[[1] := Object(0), [2] := Object(0)]]
    requires Pruned(s, t, name, tracking, 0, [1], [[7]], u)
    ensures Listing(s, t, 0, [1], [[1]]) && Listed(s, t, 0, [[1]]) == [[7]]
    ensures u.primary == map[] && u.ordinary == [map[[2] := Object(0)]]
  {
    hide SameBooks, BooksOk, WithoutAll, KeysAt, Indexed, Cut, KeysOf;
    OwnKeysOnly(s.ordinary[0], t, [[1], [2]]);
    WithoutAllTrees(s, t, name, tracking, [[7]]);
    OneCut();
    assert RowsAt(t.ordinary[0], [[1]]) == [Object(0)];
  }

  lemma OneCut()
    ensures Cut(map[[1] := Object(0), [2] := Object(0)], [1]) == map[[2] := Object(0)] && [1] <= [1] && !([1] <= [2])
  {
    var one: Bytes, two: Bytes := [1], [2];
    assert one[0] != two[0];
    assert Cut(map[one := Object(0), two := Object(0)], one) == map[two := Object(0)];
  }

  // ---------------------------------------------------------------- DeleteAll

  /** A row that DeleteAll deletes: it has a key and is there, has not been listed before, and is refused by no
      index. */
  ghost predicate Goes(s: Schema, primary: map<Bytes, Row>, rows: seq<Row>, j: nat)
    requires j < |rows|
  {
    && s.primaryKey(rows[j]).Key? && s.primaryKey(rows[j]).key in primary
    && s.primaryKey(rows[j]).key !in KeysFor(s, rows)[..j]
    && !DeleteRefused(s, primary[s.primaryKey(rows[j]).key])
  }

  /** Of the rows that an index lists, DeleteAll deletes one exactly if it is not listed before under another key and
      no indexer fails on it. */
  lemma ListedGoes(s: Schema, t: Table, target: int, prefix: Bytes, entries: seq<Bytes>, j: nat)
    requires Listing(s, t, target, prefix, entries) && j < |entries|
    ensures forall i :: 0 <= i < |entries| ==> entries[i] in TreeOf(t.primary, t.ordinary, target)
    ensures var rows, ks := RowsAt(TreeOf(t.primary, t.ordinary, target), entries), Listed(s, t, target, entries);
      && ks[j] in t.primary
        && (Goes(s, t.primary, rows, j) <==> ks[j] !in ks[..j] && !DeleteRefused(s, t.primary[ks[j]]))
  {
    hide DeleteRefused, KeysAt;
    ListingFacts(s, t, target, prefix, entries);
  }

  /** A delete after some others, of a table in agreement, goes through exactly if the row is there, is none of theirs
      and is not refused. */
  lemma GoesIff(s: Schema, t: Table, name: string, tracking: bool, rows: seq<Row>, j: nat, was: Table, r: Result,
                now: Table)
    requires j < |rows| && |t.ordinary| == |s.ordinary| && BooksOk(s, was.primary, was.books)
    requires Same(was, WithoutAll(s, t, name, tracking, KeysFor(s, rows[..j])))
    requires Deleted(s, was, name, tracking, rows[j], r, now)
    ensures r.Ok? <==> Goes(s, t.primary, rows, j)
  {
    hide DeleteRefused, DeletedRow, SameBooks, WithoutAll, KeysOf, BooksOk, LacksRowId;
    var ks := KeysFor(s, rows[..j]);
    WithoutAllTrees(s, t, name, tracking, ks);
    assert ks == KeysFor(s, rows)[..j];
    if s.primaryKey(rows[j]).Key? {
      RowsHaveIds(s, was.primary, was.books, s.primaryKey(rows[j]).key);
    }
  }

  /** What DeleteAll comes to on a table in agreement: it stops exactly at the first row that does not go. */
  lemma {:induction false} DeletedFirstGo(s: Schema, name: string, tracking: bool, rows: seq<Row>, ts: seq<Table>)
    requires DeletedFirst(s, name, tracking, rows, ts) && Agreed(s, ts[0])
    ensures Agreed(s, ts[|ts| - 1]) && forall j :: 0 <= j < |ts| - 1 ==> Goes(s, ts[0].primary, rows, j)
  {
    hide Deleted, Agreed, Goes;
    var n := |ts| - 1;
    if n > 0 {
      DeletedFirstGo(s, name, tracking, rows, ts[..n]);
      assert Deleted(s, ts[n - 1], name, tracking, rows[n - 1], Ok, ts[n]);
      DeleteKeepsAgreed(s, ts[n - 1], name, tracking, rows[n - 1], Ok, ts[n]);
      DeletedFirstSame(s, name, tracking, rows, ts[..n]);
      AgreedBooks(s, ts[0]);
      AgreedBooks(s, ts[n - 1]);
      GoesIff(s, ts[0], name, tracking, rows, n - 1, ts[n - 1], Ok, ts[n]);
    }
  }

  lemma AgreedBooks(s: Schema, t: Table)
    requires Agreed(s, t)
    ensures |t.ordinary| == |s.ordinary| && BooksOk(s, t.primary, t.books) && Keyed(s, t.primary)
  {
    hide BooksOk, Keyed;
  }

  /** DeleteAll of the rows that an index in agreement lists under a prefix goes through exactly if no row is listed
      twice and none is refused, and then leaves the table without exactly those rows. */
  lemma ListedDeleted(s: Schema, t: Table, name: string, tracking: bool, target: int, prefix: Bytes,
                      entries: seq<Bytes>, rows: seq<Row>, ks: seq<Bytes>, ts: seq<Table>, r: Result, u: Table)
    requires RowsListed(s, t, target, prefix, entries, rows, ks) && Agreed(s, t)
    requires DeletedList(s, name, tracking, rows, ts, r, u) && ts[0] == t
    ensures |ks| == |rows| && (forall j :: 0 <= j < |ks| ==> ks[j] in t.primary) && !r.Panic?
    ensures r.Ok? <==> forall j :: 0 <= j < |ks| ==> ks[j] !in ks[..j] && !DeleteRefused(s, t.primary[ks[j]])
    ensures r.Ok? ==> |ts| == |rows| + 1 && DeletedEntries(s, t, name, tracking, ks, u)
  {
    hide Deleted, Agreed, Goes, Same, WithoutAll, DeleteRefused, Listing;
    ListingFacts(s, t, target, prefix, entries);
    DeletedFirstGo(s, name, tracking, rows, ts);
    DeletedFirstSame(s, name, tracking, rows, ts);
    forall j | 0 <= j < |ks|
      ensures ks[j] in t.primary
      ensures Goes(s, t.primary, rows, j) <==> ks[j] !in ks[..j] && !DeleteRefused(s, t.primary[ks[j]])
    {
      ListedGoes(s, t, target, prefix, entries, j);
    }
    AgreedBooks(s, t);
    if |ts| <= |rows| {
      AgreedBooks(s, ts[|ts| - 1]);
      DeleteKeepsAgreed(s, ts[|ts| - 1], name, tracking, rows[|ts| - 1], r, u);
      GoesIff(s, t, name, tracking, rows, |ts| - 1, ts[|ts| - 1], r, u);
    } else {
      assert rows[..|rows|] == rows;
    }
  }

  // ---------------------------------------------------------------- when a table stays in agreement

  /** What a caller can look at beforehand to be sure that DeletePrefix leaves the table in agreement: the index is, the
      id index is cut at the prefix that is searched, and no indexer fails on a row. */
  ghost predicate OrderlyPrefix(s: Schema, t: Table, target: int, search: Bytes, prefix: Bytes)
  {
    && InAgreement(s, t, target) && (target < 0 ==> search == prefix)
    && forall k :: k in t.primary ==> !PrefixRefused(s, t.primary[k], target)
  }

  /** Through the id index, if the prefix that is searched is cut off, it is enough that no indexer fails. */
  lemma IdPrefixOrderly(s: Schema, t: Table, prefix: Bytes)
    requires |t.ordinary| == |s.ordinary|
    requires forall k, ix :: k in t.primary && ix in s.ordinary + s.bitmaps ==> ix.values(t.primary[k]) != Failed
    ensures OrderlyPrefix(s, t, -1, prefix, prefix)
  {
    forall k | k in t.primary
      ensures !PrefixRefused(s, t.primary[k], -1)
    {
      RefusedByIff(s.ordinary, Nil, t.primary[k]);
      RefusedByIff(s.bitmaps, Nil, t.primary[k]);
    }
  }

  /** What stops DeletePrefix at a row that has a key and a row id: any bitmap index, and any ordinary index but the one
      that it goes through, whose indexer fails on the row. */
  lemma PrefixRefusedIff(s: Schema, row: Row, target: int)
    ensures PrefixRefused(s, row, target) <==>
      || (exists i :: 0 <= i < |s.ordinary| && i != target && s.ordinary[i].values(row) == Failed)
      || (exists i :: 0 <= i < |s.bitmaps| && s.bitmaps[i].values(row) == Failed)
  {
    if i :| 0 <= i < |s.ordinary| && i != target && s.ordinary[i].values(row) == Failed {
      assert Refuses(s.ordinary[i], Nil, row);
    }
    if i :| 0 <= i < |s.bitmaps| && s.bitmaps[i].values(row) == Failed {
      assert Refuses(s.bitmaps[i], Nil, row);
    }
  }

  lemma OrderlyAgrees(s: Schema, t: Table, name: string, tracking: bool, target: int, search: Bytes, prefix: Bytes,
                      entries: seq<Bytes>, rows: seq<Row>, ts: seq<Table>, r: Result, u: Table)
    requires Agreed(s, t) && OrderlyPrefix(s, t, target, search, prefix)
    requires Lists(entries, TreeOf(t.primary, t.ordinary, target), search)
    requires forall i :: 0 <= i < |entries| ==> entries[i] in TreeOf(t.primary, t.ordinary, target)
    requires rows == RowsAt(TreeOf(t.primary, t.ordinary, target), entries)
    requires PrefixDeleted(s, name, tracking, target, prefix, rows, ts, r, u) && ts[0] == t
    ensures r.Ok? || r.Panic?
    ensures r.Ok? ==> Agreed(s, u)
  {
    hide Lists, PrefixDeleted, PrefixRefused, Agreed, Half, Pruned, HasPrefix, Leads, Keyed, Indexed, BooksOk;
    AgreedBooks(s, t);
    ListingFacts(s, t, target, search, entries);
    var ks := Listed(s, t, target, entries);
    assert Leads(s, t, target, entries, ks) by { AllLead(s, t, target, search, entries); }
    RowsFacts(s, t, target, search, entries, rows, ks);
    PrefixOutcome(s, t, name, tracking, target, search, prefix, entries, rows, ks, ts, r, u);
    if r.Ok? {
      if target < 0 {
        IdPrefix(s, t, name, tracking, target, prefix, entries, ks, u);
      }
      PrunedAgrees(s, t, name, tracking, target, prefix, ks, u);
      AgreedNow(s, t, name, tracking, target, prefix, ks, u);
    }
  }

  lemma AllLead(s: Schema, t: Table, target: int, prefix: Bytes, entries: seq<Bytes>)
    requires Listing(s, t, target, prefix, entries)
    ensures forall i :: 0 <= i < |entries| ==> entries[i] in TreeOf(t.primary, t.ordinary, target)
    ensures target < |t.ordinary| && -1 <= target && Leads(s, t, target, entries, Listed(s, t, target, entries))
  {
    hide KeysThere;
    ListingFacts(s, t, target, prefix, entries);
  }

  lemma AgreedNow(s: Schema, t: Table, name: string, tracking: bool, target: int, prefix: Bytes, ks: seq<Bytes>,
                  u: Table)
    requires Pruned(s, t, name, tracking, target, prefix, ks, u) && Keyed(s, u.primary)
    requires BooksOk(s, u.primary, u.books)
    ensures Agreed(s, u)
  {
    hide BooksOk, SameBooks, WithoutAll, Keyed, Cut;
  }

  lemma DeletedListAgrees(s: Schema, name: string, tracking: bool, rows: seq<Row>, ts: seq<Table>, r: Result, u: Table)
    requires DeletedList(s, name, tracking, rows, ts, r, u) && Agreed(s, ts[0])
    ensures !r.Panic? && Agreed(s, u)
  {
    hide Deleted, Agreed, Goes;
    DeletedFirstGo(s, name, tracking, rows, ts);
    if |ts| <= |rows| {
      DeleteKeepsAgreed(s, ts[|ts| - 1], name, tracking, rows[|ts| - 1], r, u);
    }
  }

  // ---------------------------------------------------------------- one key per row

  /** No row has two keys in the index. */
  ghost predicate OneKeyEach(s: Schema, target: int, primary: map<Bytes, Row>)
    requires target < |s.ordinary|
  {
    forall k :: k in primary ==> |KeysThere(s, target, primary[k], k)| <= 1
  }

  /** Then none is listed twice, and what is listed has no key outside the prefix. */
  lemma OneKeyListed(s: Schema, t: Table, target: int, prefix: Bytes, entries: seq<Bytes>, rows: seq<Row>,
                     ks: seq<Bytes>)
    requires RowsListed(s, t, target, prefix, entries, rows, ks) && target < |s.ordinary|
    requires OneKeyEach(s, target, t.primary)
    ensures (forall j :: 0 <= j < |ks| ==> ks[j] !in ks[..j]) && target < |t.ordinary| == |s.ordinary| && -1 <= target
    ensures Covers(s, t, target, prefix, ks)
    ensures ks != [] ==> HasPrefix(TreeOf(t.primary, t.ordinary, target), prefix)
  {
    hide KeysThere, Listing, Covers, KeysOf;
    ListingFacts(s, t, target, prefix, entries);
    ListsFacts(s, t, target, prefix, entries);
    CoversIff(s, t, target, prefix, entries);
    forall key | key in KeysOf(s, t.primary, target, ks)
      ensures prefix <= key
    {
      OnlyKey(s, t, target, prefix, entries, rows, ks, key);
    }
    if ks != [] {
      assert entries[0] in TreeOf(t.primary, t.ordinary, target) && prefix <= entries[0];
    }
  }

  lemma OnlyKey(s: Schema, t: Table, target: int, prefix: Bytes, entries: seq<Bytes>, rows: seq<Row>, ks: seq<Bytes>,
                key: Bytes)
    requires RowsListed(s, t, target, prefix, entries, rows, ks) && target < |s.ordinary|
    requires OneKeyEach(s, target, t.primary)
    requires key in KeysOf(s, t.primary, target, ks)
    ensures prefix <= key
  {
    hide KeysThere, Listing, Listed, TreeOf;
    ListingFacts(s, t, target, prefix, entries);
    ListsFacts(s, t, target, prefix, entries);
    var k :| k in ks && k in t.primary && key in KeysThere(s, target, t.primary[k], k);
    var i :| 0 <= i < |ks| && ks[i] == k;
    assert entries[i] == key;
  }

  lemma ListsFacts(s: Schema, t: Table, target: int, prefix: Bytes, entries: seq<Bytes>)
    requires Listing(s, t, target, prefix, entries)
    ensures forall i :: 0 <= i < |entries| ==> prefix <= entries[i]
    ensures forall i, j :: 0 <= i < j < |entries| ==> entries[i] != entries[j]
  {
    hide Indexed, Keyed;
    ListsDistinct(entries, TreeOf(t.primary, t.ordinary, target), prefix);
    forall i | 0 <= i < |entries|
      ensures prefix <= entries[i]
    {
      assert entries[i] in entries;
    }
  }

  lemma RefusedLess(indexes: seq<Index>, row: Row, skip: int)
    requires !RefusedBy(indexes, Nil, row, -1)
    ensures !RefusedBy(indexes, Nil, row, skip)
  {
    hide Refuses;
  }

  /** Where no row has two keys and no indexer fails, DeletePrefix of the prefix that is searched does what DeleteAll of
      the same rows does: both go through, and both leave the table without those rows. */
  lemma PrefixIsDeleteAll(s: Schema, t: Table, name: string, tracking: bool, target: int, prefix: Bytes,
                          entries: seq<Bytes>, rows: seq<Row>, ks: seq<Bytes>, ts: seq<Table>, r: Result, u: Table,
                          vs: seq<Table>, q: Result, v: Table)
    requires RowsListed(s, t, target, prefix, entries, rows, ks) && Agreed(s, t)
    requires target < |s.ordinary| && OneKeyEach(s, target, t.primary)
    requires forall k :: k in t.primary ==> !DeleteRefused(s, t.primary[k])
    requires PrefixDeleted(s, name, tracking, target, prefix, rows, ts, r, u) && ts[0] == t
    requires DeletedList(s, name, tracking, rows, vs, q, v) && vs[0] == t
    ensures r.Ok? && q.Ok? && Same(u, WithoutAll(s, t, name, tracking, ks)) && Same(v, u)
  {
    hide RefusedBy, Agreed, Pruned, HasPrefix, Half, Unhooked, Deleted, RowsListed, WithoutAll, SameBooks, Covers;
    hide OneKeyEach, KeysThere, PrefixDeleted, DeletedList;
    RowsFacts(s, t, target, prefix, entries, rows, ks);
    OneKeyListed(s, t, target, prefix, entries, rows, ks);
    PrefixOutcome(s, t, name, tracking, target, prefix, prefix, entries, rows, ks, ts, r, u);
    forall j | 0 <= j < |ks|
      ensures !Stops(s, t.primary, target, ks, j)
    {
      RefusedLess(s.ordinary, t.primary[ks[j]], target);
    }
    PrunedIff(s, t, name, tracking, target, prefix, ks, u);
    ListedDeleted(s, t, name, tracking, target, prefix, entries, rows, ks, vs, q, v);
    var d := WithoutAll(s, t, name, tracking, ks);
    SameBack(u.books, d.books);
    SameChain(v.books, d.books, u.books);
  }
}
