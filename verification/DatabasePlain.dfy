/** The database as a machine over plain values, in which nothing that has been handed out is ever touched again. */
module DatabasePlain {
  import opened TableSchema
  import opened OrdinaryIndex
  import opened RowModel
  import opened RowLine
  import opened TableModel
  import opened PrefixModel
  import opened TableLines
  import opened D = Database
  import O = OrderedKeys
  import Q = RowQuery
  import BW = BitmapWorld

  /** A row set: the query it was made for, the ids in it, and the table it was made for. The stamp is that of the
      table's state. */
  datatype Found = Found(query: Q.Query, ids: set<nat>, shot: Shot, stamp: nat)

  datatype Dated = Dated(shot: Shot, stamp: nat)

  /** The database as plain values. What the transaction sees counts only while there is one that is not torn. A write
      that has an effect on the rows brings the table to a state with a new stamp. */
  datatype Plain = Plain(published: Dated, open: bool, torn: bool, tracking: bool, now: Table, stamp: nat, clock: nat,
                         held: seq<Dated>, found: seq<Found>, lists: seq<map<Bytes, Row>>)

  datatype Command =
    | Begin(tracking: bool)
    | Insert(row: Row)
    | Delete(row: Row)
    | DeleteAll(rows: seq<Row>)
    | DeletePrefix(target: int, search: Bytes, prefix: Bytes)
    | Snapshot
    | Commit
    | Abort
    | Ask(q: Q.Query)
    | AskIn(h: nat, q: Q.Query)
    | Combine(op: BW.Op, i: nat, j: nat)
    | Read(target: int)

  predicate Ready(p: Plain)
  {
    p.open && !p.torn
  }

  function ShotOf(t: Table): Shot
  {
    Shot(t.primary, t.ordinary, t.books, t.line)
  }

  function DatedNow(p: Plain): Dated
  {
    Dated(ShotOf(p.now), p.stamp)
  }

  /** The state after a write; one that has changed no row, and has not panicked, is of the same stamp. */
  function After(p: Plain, now: Table, r: Result, changed: bool): Plain
  {
    if r.Panic? || changed then p.(now := now, torn := r.Panic?, stamp := p.clock, clock := p.clock + 1)
    else p.(now := now)
  }

  predicate Simple(q: Q.Query)
  {
    q.Where? || q.WherePrefix? || q.AllRows?
  }

  predicate HasIndex(t: Table, target: int)
  {
    -1 <= target < |t.ordinary|
  }

  // ---------------------------------------------------------------- the machine over plain values

  ghost predicate AllDeleted(s: Schema, name: string, p: Plain, rows: seq<Row>, ts: seq<Table>, r: Result, p': Plain)
  {
    && DeletedList(s, name, p.tracking, rows, ts, r, p'.now) && ts[0] == p.now
    && p' == After(p, p'.now, r, |ts| > 1)
  }

  ghost predicate PrefixGone(s: Schema, name: string, p: Plain, target: int, search: Bytes, prefix: Bytes,
                             entries: seq<Bytes>, rows: seq<Row>, ts: seq<Table>, r: Result, p': Plain)
    requires HasIndex(p.now, target)
  {
    var m := TreeOf(p.now.primary, p.now.ordinary, target);
    && Lists(entries, m, search) && (forall i :: 0 <= i < |entries| ==> entries[i] in m) && rows == RowsAt(m, entries)
    && PrefixDeleted(s, name, p.tracking, target, prefix, rows, ts, r, p'.now) && ts[0] == p.now
    && p' == After(p, p'.now, r, |ts| > 1)
  }

  /** What a command does; one that finds no transaction it could belong to does nothing. */
  ghost predicate Next(s: Schema, name: string, p: Plain, c: Command, p': Plain)
  {
    match c
    case Begin(tracking) =>
      if p.open then p' == p else
        var shot := p.published.shot;
        p' == p.(open := true, torn := false, tracking := tracking, stamp := p.published.stamp,
                 now := Table(shot.primary, shot.ordinary, shot.books, shot.line, []))
    case Insert(row) =>
      if !Ready(p) then p' == p else
        exists r: Result :: Inserted(s, p.now, name, p.tracking, row, r, p'.now) && p' == After(p, p'.now, r, r.Ok?)
    case Delete(row) =>
      if !Ready(p) then p' == p else
        exists r: Result :: Deleted(s, p.now, name, p.tracking, row, r, p'.now) && p' == After(p, p'.now, r, r.Ok?)
    case DeleteAll(rows) =>
      if !Ready(p) then p' == p else
        exists ts: seq<Table>, r: Result :: AllDeleted(s, name, p, rows, ts, r, p')
    case DeletePrefix(target, search, prefix) =>
      if !Ready(p) || !HasIndex(p.now, target) then p' == p else
        exists entries: seq<Bytes>, rows: seq<Row>, ts: seq<Table>, r: Result ::
          PrefixGone(s, name, p, target, search, prefix, entries, rows, ts, r, p')
    case Snapshot =>
      p' == if Ready(p) then p.(held := p.held + [DatedNow(p)]) else p
    case Commit =>
      p' == if Ready(p) then p.(published := DatedNow(p), open := false, held := p.held + [DatedNow(p)]) else p
    case Abort =>
      if p.open then p' == p.(open := false, torn := false, now := p'.now) else p' == p
    case Ask(q) =>
      p' == if Ready(p) && s.bitmaps != [] && Simple(q)
            then p.(found := p.found + [Found(q, Q.Ids(p.now.books, q), ShotOf(p.now), p.stamp)]) else p
    case AskIn(h, q) =>
      p' == if h < |p.held| && s.bitmaps != [] && Simple(q)
            then var d := p.held[h];
              p.(found := p.found + [Found(q, Q.Ids(d.shot.books, q), d.shot, d.stamp)])
            else p
    case Combine(op, i, j) =>
      if i >= |p.found| || j >= |p.found| || !SameState(p.found[i], p.found[j]) then p' == p
      else SetsJoined(p, op, i, j, p')
    case Read(target) =>
      p' == if Ready(p) && HasIndex(p.now, target)
            then p.(lists := p.lists + [TreeOf(p.now.primary, p.now.ordinary, target)]) else p
  }

  /** Row sets that can be combined: those of one state of the table, and those of states without rows. */
  ghost predicate SameState(a: Found, b: Found)
  {
    a.stamp == b.stamp || (a.shot.books.vec == map[] && b.shot.books.vec == map[])
  }

  /** Two row sets are combined. */
  ghost predicate SetsJoined(p: Plain, op: BW.Op, i: nat, j: nat, p': Plain)
    requires i < |p.found| && j < |p.found|
  {
    var a, b := p.found[i], p.found[j];
    && SameRows(a.shot, b.shot)
    && var x := Found(Combined(op, a.query, b.query), BW.Algebra(op, a.ids, b.ids), a.shot, a.stamp);
    p' == p.(found := p.found + [x])
  }

  ghost predicate IsRun(s: Schema, name: string, ps: seq<Plain>, cs: seq<Command>)
  {
    |ps| == |cs| + 1 && forall i :: 0 <= i < |cs| ==> Next(s, name, ps[i], cs[i], ps[i + 1])
  }

  // ---------------------------------------------------------------- what has been handed out stays

  /** No command touches what was handed out before it. */
  lemma NextKeeps(s: Schema, name: string, p: Plain, c: Command, p': Plain)
    requires Next(s, name, p, c, p')
    ensures p.held <= p'.held && p.found <= p'.found && p.lists <= p'.lists
    ensures c.Commit? || p'.published == p.published
  {
    hide Inserted, Deleted, DeletedList, PrefixDeleted, Lists;
  }

  /** Whatever has been handed out at some moment of a run is the same at every later one. */
  lemma {:induction false} HandedOutForever(s: Schema, name: string, ps: seq<Plain>, cs: seq<Command>, i: nat, j: nat)
    requires IsRun(s, name, ps, cs) && i <= j < |ps|
    ensures ps[i].held <= ps[j].held && ps[i].found <= ps[j].found && ps[i].lists <= ps[j].lists
    decreases j
  {
    hide Next;
    if i < j {
      HandedOutForever(s, name, ps, cs, i, j - 1);
      NextKeeps(s, name, ps[j - 1], cs[j - 1], ps[j]);
    }
  }

  /** Nothing but a commit changes what is published: a transaction that is aborted leaves no trace there. */
  lemma {:induction false} PublishedByCommit(s: Schema, name: string, ps: seq<Plain>, cs: seq<Command>, i: nat, j: nat)
    requires IsRun(s, name, ps, cs) && i <= j < |ps| && forall k :: i <= k < j ==> !cs[k].Commit?
    ensures ps[j].published == ps[i].published
    decreases j
  {
    hide Next;
    if i < j {
      PublishedByCommit(s, name, ps, cs, i, j - 1);
      NextKeeps(s, name, ps[j - 1], cs[j - 1], ps[j]);
    }
  }

  // ---------------------------------------------------------------- row sets of one state

  /** A row that Delete does not delete: it has no key, is not there, or is refused by an index. */
  ghost predicate Stays(s: Schema, t: Table, row: Row)
  {
    || s.primaryKey(row).NoKey? || s.primaryKey(row).key !in t.primary
    || DeleteRefused(s, t.primary[s.primaryKey(row).key])
  }

  /** The key that an index lists first under a prefix: the least that has it. */
  ghost predicate ListedFirst(key: Bytes, m: map<Bytes, Row>, prefix: Bytes)
  {
    key in m && prefix <= key && forall other :: other in m && prefix <= other ==> other == key || O.Less(key, other)
  }

  lemma FirstListed(entries: seq<Bytes>, m: map<Bytes, Row>, prefix: Bytes)
    requires Lists(entries, m, prefix) && entries != []
    ensures ListedFirst(entries[0], m, prefix) && forall key :: ListedFirst(key, m, prefix) ==> key == entries[0]
  {
    assert entries[0] in entries;
    forall key | ListedFirst(key, m, prefix)
      ensures key == entries[0]
    {
      if key != entries[0] {
        O.LessChain(key, entries[0], key);
        O.NotLess(key);
        assert false;
      }
    }
  }

  /** A command that finds nothing to write, or is refused before it has changed a row. */
  ghost predicate Unwritten(s: Schema, p: Plain, c: Command)
  {
    match c
    case Begin(_) => p.open
    case Insert(row) => Ready(p) ==> s.primaryKey(row).NoKey? || InsertRefused(s, p.now.primary, row)
    case Delete(row) => Ready(p) ==> Stays(s, p.now, row)
    case DeleteAll(rows) => Ready(p) && rows != [] ==> Stays(s, p.now, rows[0])
    case DeletePrefix(target, search, _) => Ready(p) && HasIndex(p.now, target) ==>
      forall key :: ListedFirst(key, TreeOf(p.now.primary, p.now.ordinary, target), search) ==>
        StopOf(s, target, p.now, TreeOf(p.now.primary, p.now.ordinary, target)[key]) == Refused
    case _ => true
  }

  /** Such a command keeps the stamp, and the row bookkeeping for as long as the transaction goes on. */
  lemma UnwrittenKeeps(s: Schema, name: string, p: Plain, c: Command, p': Plain)
    requires Next(s, name, p, c, p') && Unwritten(s, p, c)
    ensures p'.stamp == p.stamp
    ensures Ready(p') ==> Ready(p) && p'.now.books == p.now.books && p'.now.line == p.now.line
    ensures Ready(p') && !c.DeletePrefix? ==> p'.now == p.now
  {
    hide InsertedRow, InsertRefused, Deleted, DeleteRefused, LacksRowId, PrefixDeleted, PrefixGone, AllDeleted;
    match c
    case Insert(row) =>
    case Delete(row) =>
      if Ready(p) {
        var r: Result :| Deleted(s, p.now, name, p.tracking, row, r, p'.now) && p' == After(p, p'.now, r, r.Ok?);
        StaysHere(s, p.now, name, p.tracking, row, r, p'.now);
      }
    case DeleteAll(rows) =>
      if Ready(p) {
        var ts: seq<Table>, r: Result :| AllDeleted(s, name, p, rows, ts, r, p');
        AllStay(s, name, p, rows, ts, r, p');
      }
    case DeletePrefix(target, search, prefix) =>
      if Ready(p) && HasIndex(p.now, target) {
        var entries: seq<Bytes>, rows: seq<Row>, ts: seq<Table>, r: Result :|
          PrefixGone(s, name, p, target, search, prefix, entries, rows, ts, r, p');
        NoneGone(s, name, p, target, search, prefix, entries, rows, ts, r, p');
      }
    case _ =>
  }

  /** And no other write that goes through does. */
  lemma StampKeptIff(s: Schema, name: string, p: Plain, c: Command, p': Plain)
    requires Next(s, name, p, c, p') && Ready(p) && Ready(p') && p.stamp < p.clock
    requires c.Insert? || c.Delete? || c.DeleteAll? || (c.DeletePrefix? && HasIndex(p.now, c.target))
    ensures p'.stamp == p.stamp <==> Unwritten(s, p, c)
  {
    hide InsertedRow, InsertRefused, DeletedRow, DeleteRefused, LacksRowId, OutOfRowIds, Stays, StopOf;
    hide PrefixDeleted, PrefixGone, DeletedList;
    if Unwritten(s, p, c) {
      UnwrittenKeeps(s, name, p, c, p');
    } else {
      match c
      case Insert(row) =>
      case Delete(row) =>
        var r: Result :| Deleted(s, p.now, name, p.tracking, row, r, p'.now) && p' == After(p, p'.now, r, r.Ok?);
        LeavesHere(s, p.now, name, p.tracking, row, r, p'.now);
      case DeleteAll(rows) =>
        var ts: seq<Table>, r: Result :| AllDeleted(s, name, p, rows, ts, r, p');
        OneLeaves(s, name, p, rows, ts, r, p');
      case DeletePrefix(target, search, prefix) =>
        var entries: seq<Bytes>, rows: seq<Row>, ts: seq<Table>, r: Result :|
          PrefixGone(s, name, p, target, search, prefix, entries, rows, ts, r, p');
        OneGone(s, name, p, target, search, prefix, entries, rows, ts, r, p');
    }
  }

  lemma LeavesHere(s: Schema, t: Table, name: string, tracking: bool, row: Row, r: Result, t': Table)
    requires Deleted(s, t, name, tracking, row, r, t') && !Stays(s, t, row)
    ensures r.Ok? || r.Panic?
  {
    hide DeleteRefused, DeletedRow;
  }

  lemma OneLeaves(s: Schema, name: string, p: Plain, rows: seq<Row>, ts: seq<Table>, r: Result, p': Plain)
    requires AllDeleted(s, name, p, rows, ts, r, p') && rows != [] && !Stays(s, p.now, rows[0])
    ensures |ts| > 1 || r.Panic?
  {
    hide Deleted, Stays;
    if |ts| == 1 {
      LeavesHere(s, p.now, name, p.tracking, rows[0], r, p'.now);
    }
  }

  lemma OneGone(s: Schema, name: string, p: Plain, target: int, search: Bytes, prefix: Bytes, entries: seq<Bytes>,
                rows: seq<Row>, ts: seq<Table>, r: Result, p': Plain)
    requires HasIndex(p.now, target) && PrefixGone(s, name, p, target, search, prefix, entries, rows, ts, r, p')
    requires !(forall key :: ListedFirst(key, TreeOf(p.now.primary, p.now.ordinary, target), search) ==>
      StopOf(s, target, p.now, TreeOf(p.now.primary, p.now.ordinary, target)[key]) == Refused)
    ensures (|ts| > 1 || r.Panic?) && p' == After(p, p'.now, r, |ts| > 1)
  {
    hide Unhooked, HasPrefix, Cut, BrokenOff, PrefixRefused, LacksRowId;
    var m := TreeOf(p.now.primary, p.now.ordinary, target);
    var key :| ListedFirst(key, m, search) && StopOf(s, target, p.now, m[key]) != Refused;
    assert key in entries;
    FirstListed(entries, m, search);
  }

  lemma StaysHere(s: Schema, t: Table, name: string, tracking: bool, row: Row, r: Result, t': Table)
    requires Deleted(s, t, name, tracking, row, r, t') && Stays(s, t, row)
    ensures !r.Ok? && !r.Panic? && t' == t
  {
    hide DeleteRefused, DeletedRow;
  }

  lemma AllStay(s: Schema, name: string, p: Plain, rows: seq<Row>, ts: seq<Table>, r: Result, p': Plain)
    requires AllDeleted(s, name, p, rows, ts, r, p') && (rows != [] ==> Stays(s, p.now, rows[0]))
    ensures p' == p
  {
    hide Deleted, Stays;
    if rows != [] {
      if |ts| > 1 {
        StaysHere(s, ts[0], name, p.tracking, rows[0], Ok, ts[1]);
      } else {
        StaysHere(s, ts[0], name, p.tracking, rows[0], r, p'.now);
      }
    }
  }

  lemma NoneGone(s: Schema, name: string, p: Plain, target: int, search: Bytes, prefix: Bytes, entries: seq<Bytes>,
                 rows: seq<Row>, ts: seq<Table>, r: Result, p': Plain)
    requires HasIndex(p.now, target) && PrefixGone(s, name, p, target, search, prefix, entries, rows, ts, r, p')
    requires forall key :: ListedFirst(key, TreeOf(p.now.primary, p.now.ordinary, target), search) ==>
      StopOf(s, target, p.now, TreeOf(p.now.primary, p.now.ordinary, target)[key]) == Refused
    ensures rows != [] ==> ListedFirst(entries[0], TreeOf(p.now.primary, p.now.ordinary, target), search)
    ensures |ts| == 1 && !r.Panic? && p' == p.(now := p'.now)
    ensures p'.now.books == p.now.books && p'.now.line == p.now.line
    ensures p'.now == p.now || (rows != [] && p'.now == BrokenOff(s, name, p.tracking, target, p.now, rows[0]))
  {
    hide Unhooked, StopOf, HasPrefix, Cut, BrokenOff;
    if rows != [] {
      FirstListed(entries, TreeOf(p.now.primary, p.now.ordinary, target), search);
      assert StopOf(s, target, p.now, rows[0]) == Refused;
    }
    PrefixBooks(s, name, p.tracking, target, prefix, rows, ts, r, p'.now);
  }

  lemma {:induction false} StampKept(s: Schema, name: string, ps: seq<Plain>, cs: seq<Command>, i: nat, j: nat)
    requires IsRun(s, name, ps, cs) && i <= j < |ps| && forall k :: i <= k < j ==> Unwritten(s, ps[k], cs[k])
    ensures ps[j].stamp == ps[i].stamp
    ensures Ready(ps[j]) ==>
      Ready(ps[i]) && ps[j].now.books == ps[i].now.books && ps[j].now.line == ps[i].now.line
    decreases j
  {
    hide Next, Unwritten;
    if i < j {
      StampKept(s, name, ps, cs, i, j - 1);
      UnwrittenKeeps(s, name, ps[j - 1], cs[j - 1], ps[j]);
    }
  }

  /** Two row sets that a transaction has asked for with no effective write in between can be combined at any later
      time, whatever has been written by then, and the result has the ids of the combined query in the state of the
      first of them. A DeletePrefix that an indexer refuses at once may be in between, although it can take a row out
      of the id index. */
  lemma OneStateCombines(s: Schema, name: string, ps: seq<Plain>, cs: seq<Command>, i: nat, j: nat, n: nat, op: BW.Op)
    requires IsRun(s, name, ps, cs) && i < j < n < |cs| && s.bitmaps != []
    requires cs[i].Ask? && (cs[i].q.Where? || cs[i].q.WherePrefix? || cs[i].q.AllRows?) && Ready(ps[i])
    requires cs[j].Ask? && (cs[j].q.Where? || cs[j].q.WherePrefix? || cs[j].q.AllRows?) && Ready(ps[j])
    requires forall k :: i < k < j ==> Unwritten(s, ps[k], cs[k])
    requires cs[n] == Command.Combine(op, |ps[i].found|, |ps[j].found|)
    ensures var q := Combined(op, cs[i].q, cs[j].q);
      ps[n + 1].found == ps[n].found + [Found(q, Q.Ids(ps[i].now.books, q), ShotOf(ps[i].now), ps[i].stamp)]
  {
    hide PrefixGone, AllDeleted, Inserted, Deleted;
    hide Stays, InsertRefused, StopOf;
    HandedOutForever(s, name, ps, cs, i + 1, n);
    HandedOutForever(s, name, ps, cs, j + 1, n);
    StampKept(s, name, ps, cs, i, j);
    assert Next(s, name, ps[i], cs[i], ps[i + 1]) && Next(s, name, ps[j], cs[j], ps[j + 1]);
    assert Next(s, name, ps[n], cs[n], ps[n + 1]);
  }

  /** When the id index of a transaction changes under an equal row vector: exactly when DeletePrefix through another
      index is refused at its first row, and that row's key is there. */
  lemma RefusedTakesOut(s: Schema, name: string, p: Plain, target: int, search: Bytes, prefix: Bytes, p': Plain)
    requires Next(s, name, p, DeletePrefix(target, search, prefix), p') && Ready(p) && HasIndex(p.now, target)
    requires Unwritten(s, p, DeletePrefix(target, search, prefix))
    ensures p'.now.primary != p.now.primary <==> exists key ::
      && ListedFirst(key, TreeOf(p.now.primary, p.now.ordinary, target), search)
      && TakesOut(s, target, p.now, TreeOf(p.now.primary, p.now.ordinary, target)[key])
      && p'.now == BrokenOff(s, name, p.tracking, target, p.now, TreeOf(p.now.primary, p.now.ordinary, target)[key])
  {
    hide PrefixDeleted, StopOf;
    var entries: seq<Bytes>, rows: seq<Row>, ts: seq<Table>, r: Result :|
      PrefixGone(s, name, p, target, search, prefix, entries, rows, ts, r, p');
    NoneGone(s, name, p, target, search, prefix, entries, rows, ts, r, p');
  }

  ghost predicate TakesOut(s: Schema, target: int, t: Table, row: Row)
  {
    target >= 0 && s.primaryKey(row).Key? && s.primaryKey(row).key in t.primary
  }

  // ---------------------------------------------------------------- the lines of versions

  ghost predicate OnLine(a: Shot)
  {
    Traced(a.line, a.books)
  }

  /** Every state there is has a line that leads to it, and the transaction's goes on from that of what is published. */
  ghost predicate Lined(p: Plain)
  {
    && OnLine(p.published.shot) && (Ready(p) ==> OnLine(ShotOf(p.now)) && Extends(p.published.shot.line, p.now.line))
    && (forall d :: d in p.held ==> OnLine(d.shot)) && (forall f :: f in p.found ==> OnLine(f.shot))
  }

  /** A write, and a panic. */
  lemma WriteLined(p: Plain, p': Plain, r: Result, changed: bool)
    requires Lined(p) && Ready(p) && p' == After(p, p'.now, r, changed) && (!r.Panic? ==> Follows(p.now, p'.now))
    ensures Lined(p') && p'.published == p.published
  {
    hide Traced;
  }

  lemma NextLined(s: Schema, name: string, p: Plain, c: Command, p': Plain)
    requires Lined(p) && Next(s, name, p, c, p')
    ensures Lined(p') && Extends(p.published.shot.line, p'.published.shot.line)
  {
    hide Inserted, Deleted, DeletedList, PrefixDeleted, Lists, Traced, RowLine.Extends, Follows, After, Q.Ids;
    SelfExtends(p.published.shot.line);
    if Ready(p) {
      match c
      case Insert(row) =>
        var r: Result :| Inserted(s, p.now, name, p.tracking, row, r, p'.now) && p' == After(p, p'.now, r, r.Ok?);
        if !r.Panic? {
          InsertFollows(s, p.now, name, p.tracking, row, r, p'.now);
        }
        WriteLined(p, p', r, r.Ok?);
      case Delete(row) =>
        var r: Result :| Deleted(s, p.now, name, p.tracking, row, r, p'.now) && p' == After(p, p'.now, r, r.Ok?);
        if !r.Panic? {
          DeleteFollows(s, p.now, name, p.tracking, row, r, p'.now);
        }
        WriteLined(p, p', r, r.Ok?);
      case DeleteAll(rows) =>
        var ts: seq<Table>, r: Result :| AllDeleted(s, name, p, rows, ts, r, p');
        if !r.Panic? {
          DeletedListFollows(s, name, p.tracking, rows, ts, r, p'.now);
        }
        WriteLined(p, p', r, |ts| > 1);
      case DeletePrefix(target, search, prefix) =>
        if HasIndex(p.now, target) {
          var entries: seq<Bytes>, rows: seq<Row>, ts: seq<Table>, r: Result :|
            PrefixGone(s, name, p, target, search, prefix, entries, rows, ts, r, p');
          if !r.Panic? {
            PrefixFollows(s, name, p.tracking, target, prefix, rows, ts, r, p'.now);
          }
          WriteLined(p, p', r, |ts| > 1);
        }
      case _ =>
    }
  }
  /** In every run what is published next goes on from what is published. */
  lemma {:induction false} RunLined(s: Schema, name: string, ps: seq<Plain>, cs: seq<Command>, i: nat, j: nat)
    requires IsRun(s, name, ps, cs) && i <= j < |ps| && Lined(ps[i])
    ensures Lined(ps[j]) && Extends(ps[i].published.shot.line, ps[j].published.shot.line)
    decreases j
  {
    hide Next, Lined;
    if i < j {
      RunLined(s, name, ps, cs, i, j - 1);
      NextLined(s, name, ps[j - 1], cs[j - 1], ps[j]);
    } else {
      SelfExtends(ps[i].published.shot.line);
    }
  }

  /** In every version, answer and transaction of a run as many ids have ever been given out as there were rows when
      they were most, in the states that led to it. */
  lemma RunPeaks(s: Schema, name: string, ps: seq<Plain>, cs: seq<Command>, j: nat)
    requires IsRun(s, name, ps, cs) && Lined(ps[0]) && j < |ps|
    ensures AtPeak(ps[j].published.shot) && (Ready(ps[j]) ==> AtPeak(ShotOf(ps[j].now)))
    ensures (forall d :: d in ps[j].held ==> AtPeak(d.shot)) && (forall f :: f in ps[j].found ==> AtPeak(f.shot))
  {
    hide Next, Traced, AtPeak, RowLine.Extends;
    RunLined(s, name, ps, cs, 0, j);
    forall a: Shot | OnLine(a)
      ensures AtPeak(a)
    {
      OnLinePeak(a);
    }
  }

  ghost predicate AtPeak(a: Shot)
  {
    Loose(a.books) && a.books.next == Peak(a.line.states)
  }

  lemma OnLinePeak(a: Shot)
    requires OnLine(a)
    ensures AtPeak(a)
  {
    hide Traced, Loose, Peak;
    TracedLoose(a.line, a.books);
  }

  // ---------------------------------------------------------------- runs that stay in agreement

  function TableAt(a: Shot): Table
  {
    Table(a.primary, a.ordinary, a.books, a.line, [])
  }

  ghost predicate TidyShot(s: Schema, a: Shot)
  {
    Agreed(s, TableAt(a)) && Neat(a.line)
  }

  /** Every state there is agrees with its bookkeeping, and every row set answers its query. */
  ghost predicate Tidy(s: Schema, p: Plain)
  {
    && TidyShot(s, p.published.shot) && (Ready(p) ==> TidyShot(s, ShotOf(p.now)))
    && (forall d :: d in p.held ==> TidyShot(s, d.shot))
    && (forall f :: f in p.found ==> TidyShot(s, f.shot) && Scanned(s, f.shot, f.query, f.ids))
  }

  ghost predicate Orderly(s: Schema, p: Plain, c: Command)
  {
    c.DeletePrefix? && Ready(p) && HasIndex(p.now, c.target) ==> OrderlyPrefix(s, p.now, c.target, c.search, c.prefix)
  }

  lemma TidyTable(s: Schema, t: Table)
    requires Agreed(s, t) && Neat(t.line)
    ensures TidyShot(s, ShotOf(t))
  {
    hide BooksOk, Keyed, Neat;
  }

  lemma TidyNow(s: Schema, p: Plain)
    requires Tidy(s, p) && Ready(p)
    ensures Agreed(s, p.now) && Neat(p.now.line)
  {
    hide BooksOk, Keyed, Neat, Scanned;
  }

  lemma TidyAnswer(s: Schema, a: Shot, q: Q.Query)
    requires TidyShot(s, a) && s.bitmaps != []
    ensures Scanned(s, a, q, Q.Ids(a.books, q))
  {
    hide Agrees, Keyed, Neat, Q.Ids;
  }

  /** On such a table the rows of the bookkeeping are as many as those of the table. */
  lemma AsManyAsRows(s: Schema, a: Shot)
    requires TidyShot(s, a) && OnLine(a) && s.bitmaps != []
    ensures |a.primary| == |a.books.vec|
  {
    hide Agrees, Neat, Keyed;
    AgreesLoose(s, a.primary, a.books);
    NeatIds(a.line, a.books);
    assert |a.primary| == |a.primary.Keys| == |a.books.ids.Keys| == |a.books.ids|;
  }

  lemma WriteTidy(s: Schema, p: Plain, p': Plain, r: Result, changed: bool)
    requires Tidy(s, p) && Ready(p) && p' == After(p, p'.now, r, changed)
    requires !r.Panic? ==> Agreed(s, p'.now) && Neat(p'.now.line)
    ensures Tidy(s, p')
  {
    hide TidyShot, Agreed, Neat, Scanned;
    if !r.Panic? {
      TidyTable(s, p'.now);
    }
  }

  lemma MoreFound(s: Schema, p: Plain, f: Found)
    requires Tidy(s, p) && TidyShot(s, f.shot) && Scanned(s, f.shot, f.query, f.ids)
    ensures Tidy(s, p.(found := p.found + [f]))
  {
    hide TidyShot, Scanned;
  }

  lemma JoinedTidy(s: Schema, p: Plain, op: BW.Op, i: nat, j: nat, p': Plain)
    requires Tidy(s, p) && i < |p.found| && j < |p.found| && SetsJoined(p, op, i, j, p')
    ensures Tidy(s, p')
  {
    hide TidyShot, SameRows, Agrees, Q.Ids;
    var a, b := p.found[i], p.found[j];
    CombinedScanned(s, a.shot, b.shot, op, a.query, b.query);
    MoreFound(s, p, Found(Combined(op, a.query, b.query), BW.Algebra(op, a.ids, b.ids), a.shot, a.stamp));
  }

  /** Whatever is done keeps all of it so, but for a DeletePrefix that is not orderly. */
  lemma NextTidy(s: Schema, name: string, p: Plain, c: Command, p': Plain)
    requires Lined(p) && Tidy(s, p) && Next(s, name, p, c, p') && Orderly(s, p, c)
    ensures Tidy(s, p')
  {
    hide Inserted, Deleted, DeletedList, PrefixDeleted, Lists, Traced, After, Q.Ids, TidyShot, Scanned, Agreed, Neat;
    hide OrderlyPrefix, RowLine.Extends, SetsJoined;
    if Ready(p) {
      TidyNow(s, p);
    }
    match c
    case Insert(row) =>
      if Ready(p) {
        var r: Result :| Inserted(s, p.now, name, p.tracking, row, r, p'.now) && p' == After(p, p'.now, r, r.Ok?);
        if !r.Panic? {
          InsertKeepsAgreed(s, p.now, name, p.tracking, row, r, p'.now);
          InsertNeat(s, p.now, name, p.tracking, row, r, p'.now);
        }
        WriteTidy(s, p, p', r, r.Ok?);
      }
    case Delete(row) =>
      if Ready(p) {
        var r: Result :| Deleted(s, p.now, name, p.tracking, row, r, p'.now) && p' == After(p, p'.now, r, r.Ok?);
        DeleteKeepsAgreed(s, p.now, name, p.tracking, row, r, p'.now);
        DeleteFollows(s, p.now, name, p.tracking, row, r, p'.now);
        WriteTidy(s, p, p', r, r.Ok?);
      }
    case DeleteAll(rows) =>
      if Ready(p) {
        var ts: seq<Table>, r: Result :| AllDeleted(s, name, p, rows, ts, r, p');
        DeletedListAgrees(s, name, p.tracking, rows, ts, r, p'.now);
        DeletedListFollows(s, name, p.tracking, rows, ts, r, p'.now);
        WriteTidy(s, p, p', r, |ts| > 1);
      }
    case DeletePrefix(target, search, prefix) =>
      if Ready(p) && HasIndex(p.now, target) {
        var entries: seq<Bytes>, rows: seq<Row>, ts: seq<Table>, r: Result :|
          PrefixGone(s, name, p, target, search, prefix, entries, rows, ts, r, p');
        OrderlyAgrees(s, p.now, name, p.tracking, target, search, prefix, entries, rows, ts, r, p'.now);
        if !r.Panic? {
          PrefixFollows(s, name, p.tracking, target, prefix, rows, ts, r, p'.now);
        }
        WriteTidy(s, p, p', r, |ts| > 1);
      }
    case Ask(q) =>
      if Ready(p) && s.bitmaps != [] && Simple(q) {
        TidyAnswer(s, ShotOf(p.now), q);
        MoreFound(s, p, Found(q, Q.Ids(p.now.books, q), ShotOf(p.now), p.stamp));
      }
    case AskIn(h, q) =>
      if h < |p.held| && s.bitmaps != [] && Simple(q) {
        TidyAnswer(s, p.held[h].shot, q);
        MoreFound(s, p, Found(q, Q.Ids(p.held[h].shot.books, q), p.held[h].shot, p.held[h].stamp));
      }
    case Combine(op, i, j) =>
      if i < |p.found| && j < |p.found| && SetsJoined(p, op, i, j, p') {
        JoinedTidy(s, p, op, i, j, p');
      }
    case Begin(tracking) =>
      assert !p.open ==> ShotOf(p'.now) == p.published.shot;
    case _ =>
  }

  /** In a run in which every DeletePrefix is orderly, all states agree with their bookkeeping, and every row set has
      the ids of exactly the rows that a scan takes. */
  lemma {:induction false} RunTidy(s: Schema, name: string, ps: seq<Plain>, cs: seq<Command>, j: nat)
    requires IsRun(s, name, ps, cs) && Lined(ps[0]) && Tidy(s, ps[0]) && j < |ps|
    requires forall k :: 0 <= k < j ==> Orderly(s, ps[k], cs[k])
    ensures Tidy(s, ps[j])
    decreases j
  {
    hide Next, Lined, Tidy, Orderly;
    if j > 0 {
      RunTidy(s, name, ps, cs, j - 1);
      RunLined(s, name, ps, cs, 0, j - 1);
      NextTidy(s, name, ps[j - 1], cs[j - 1], ps[j]);
    }
  }

  /** A row keeps its id from one published version to a later one, if its key was there all the way between them, also
      through the states in between that were never published. */
  lemma IdsForLife(s: Schema, name: string, ps: seq<Plain>, cs: seq<Command>, i: nat, j: nat, k: Bytes)
    requires IsRun(s, name, ps, cs) && Lined(ps[0]) && Tidy(s, ps[0]) && i <= j < |ps|
    requires forall n :: 0 <= n < j ==> Orderly(s, ps[n], cs[n])
    requires var a, b := ps[i].published.shot.line, ps[j].published.shot.line;
      forall n :: |a.moves| <= n < |b.states| ==> k in b.states[n].ids
    ensures var a, b := ps[i].published.shot.books, ps[j].published.shot.books;
      k in a.ids && k in b.ids && b.ids[k] == a.ids[k]
  {
    hide Next, Orderly, Takes, Agreed, Scanned;
    RunLined(s, name, ps, cs, 0, i);
    RunLined(s, name, ps, cs, i, j);
    RunTidy(s, name, ps, cs, j);
    var a, b := ps[i].published.shot, ps[j].published.shot;
    LineKeepsIds(b.line, b.books, |a.line.moves|, |b.line.moves|, k);
  }
}
