/** Whole runs of Insert and Delete, whatever their outcome: the ordinary indexes and the change list keep up
    with the table. */
module TableRuns {
  import opened VecShapes
  import opened TableSchema
  import opened RowModel
  import opened OrdinaryIndex
  import opened TableModel
  import opened ChangeLog

  datatype Op = InsertRow(row: Row) | DeleteRow(row: Row)

  /** One call, which may also be refused; only a panic ends a run. */
  ghost predicate Step(s: Schema, name: string, tracking: bool, t: Table, op: Op, t': Table)
  {
    match op
    case InsertRow(row) => exists r: Result :: !r.Panic? && Inserted(s, t, name, tracking, row, r, t')
    case DeleteRow(row) => exists r: Result :: !r.Panic? && Deleted(s, t, name, tracking, row, r, t')
  }

  ghost predicate Run(s: Schema, name: string, tracking: bool, ts: seq<Table>, ops: seq<Op>)
  {
    |ts| == |ops| + 1 && forall i :: 0 <= i < |ops| ==> Step(s, name, tracking, ts[i], ops[i], ts[i + 1])
  }

  /** All values of the rows in an index are among the given ones. */
  ghost predicate Within(ix: Index, primary: map<Bytes, Row>, vals: set<Bytes>)
  {
    forall k, v :: k in primary && v in ListOf(ix.values(primary[k])) ==> v in vals
  }

  /** The values of the rows that a run inserts are among the given ones. */
  ghost predicate Brings(ix: Index, ops: seq<Op>, vals: set<Bytes>)
  {
    forall i, v :: 0 <= i < |ops| && ops[i].InsertRow? && v in ListOf(ix.values(ops[i].row)) ==> v in vals
  }

  /** An ordinary index in order: it holds exactly the keys of the rows. */
  ghost predicate InOrder(s: Schema, t: Table, j: nat, vals: set<Bytes>)
  {
    && j < |s.ordinary| == |t.ordinary| && Keyed(s, t.primary)
    && Indexed(s.ordinary[j], t.primary, t.ordinary[j]) && Within(s.ordinary[j], t.primary, vals)
  }

  lemma InsertInOrder(s: Schema, name: string, tracking: bool, t: Table, row: Row, t': Table, j: nat, vals: set<Bytes>)
    requires InOrder(s, t, j, vals) && !s.ordinary[j].unique && PrefixFree(vals)
    requires s.primaryKey(row).Key? && InsertedRow(s, t, t', name, tracking, s.primaryKey(row).key, row)
    requires forall v :: v in ListOf(s.ordinary[j].values(row)) ==> v in vals
    ensures InOrder(s, t', j, vals)
  {
    hide Replaced, Indexed, PrefixFree, OwnKeys, BooksAfter;
    var k, ix := s.primaryKey(row).key, s.ordinary[j];
    PrefixFreeOwn(ix, t.primary, k, row, vals);
    ReplacedAgrees(s, ix, t.primary, t.ordinary[j], k, row);
    KeyedPut(s, t.primary, k, row);
    assert t'.ordinary[j] == TreeAfter(ix, t.ordinary[j], k, RowAt(t.primary, k), row, false);
  }

  lemma DeleteInOrder(s: Schema, name: string, tracking: bool, t: Table, row: Row, t': Table, j: nat, vals: set<Bytes>)
    requires InOrder(s, t, j, vals) && s.primaryKey(row).Key? && s.primaryKey(row).key in t.primary
    requires DeletedRow(s, t, t', name, tracking, s.primaryKey(row).key, t.primary[s.primaryKey(row).key])
    ensures InOrder(s, t', j, vals)
  {
    hide Replaced, Indexed, BooksAfter, LineAfter;
    var k, ix := s.primaryKey(row).key, s.ordinary[j];
    ReplacedAgrees(s, ix, t.primary, t.ordinary[j], k, Nil);
    KeyedLess(s, t.primary, k);
    assert t'.ordinary[j] == TreeAfter(ix, t.ordinary[j], k, t.primary[k], Nil, false);
  }

  /** With prefix-free values a non-unique index agrees with the table after every run of writes. */
  lemma {:induction false} RunInOrder(s: Schema, name: string, tracking: bool, ts: seq<Table>, ops: seq<Op>, j: nat,
                                      vals: set<Bytes>)
    requires Run(s, name, tracking, ts, ops) && InOrder(s, ts[0], j, vals)
    requires !s.ordinary[j].unique && PrefixFree(vals) && Brings(s.ordinary[j], ops, vals)
    ensures InOrder(s, ts[|ops|], j, vals)
  {
    hide InOrder, InsertedRow, DeletedRow, PrefixFree, InsertRefused, LacksRowId, OutOfRowIds, DeleteRefused;
    var n := |ops|;
    if n > 0 {
      RunInOrder(s, name, tracking, ts[..n], ops[..n - 1], j, vals);
      var op := ops[n - 1];
      assert Step(s, name, tracking, ts[n - 1], op, ts[n]);
      if ts[n] != ts[n - 1] {
        match op
        case InsertRow(row) => InsertInOrder(s, name, tracking, ts[n - 1], row, ts[n], j, vals);
        case DeleteRow(row) => DeleteInOrder(s, name, tracking, ts[n - 1], row, ts[n], j, vals);
      }
    }
  }

  /** A run of tracked writes, failing ones included, keeps its change list a log of real writes. */
  lemma {:induction false} RunTracked(s: Schema, name: string, ts: seq<Table>, ops: seq<Op>, start: Content)
    requires Run(s, name, true, ts, ops) && |ts[0].ordinary| == |s.ordinary| && Tracks(start, name, ts[0])
    ensures |ts[|ops|].ordinary| == |s.ordinary| && Tracks(start, name, ts[|ops|])
  {
    hide Tracks, BooksAfter, LineAfter, InsertRefused, LacksRowId, OutOfRowIds, DeleteRefused;
    var n := |ops|;
    if n > 0 {
      RunTracked(s, name, ts[..n], ops[..n - 1], start);
      var op := ops[n - 1];
      assert Step(s, name, true, ts[n - 1], op, ts[n]);
      if ts[n] != ts[n - 1] {
        match op
        case InsertRow(row) => InsertTracked(s, start, name, ts[n - 1], s.primaryKey(row).key, row, ts[n]);
        case DeleteRow(row) => DeleteTracked(s, start, name, ts[n - 1], s.primaryKey(row).key, ts[n]);
      }
    }
  }

  /** After every run of tracked writes, replaying the collapsed change list on what the table held at the
      start gives what it holds now; no object occurs twice, and no entry says nothing. */
  lemma RunNetEffect(s: Schema, name: string, ts: seq<Table>, ops: seq<Op>, start: Content)
    requires Run(s, name, true, ts, ops) && |ts[0].ordinary| == |s.ordinary|
    requires ts[0].changes == [] && forall k :: Held(start, Id(name, k)) == RowAt(ts[0].primary, k)
    ensures var t := ts[|ops|];
      && (forall k :: Held(Replay(start, Collapsed(t.changes)), Id(name, k)) == RowAt(t.primary, k))
      && Distinct(Collapsed(t.changes))
        && (forall c :: c in Collapsed(t.changes) ==> !Nothing(c) && c.before == Held(start, IdOf(c)))
  {
    hide Collapsed, Distinct;
    RunTracked(s, name, ts, ops, start);
    NetEffect(start, ts[|ops|].changes);
  }
}
