/** Whole runs: any sequence of writes from the empty table on. */
module RowRuns {
  import opened IdSpace
  import opened VecShapes
  import opened TableSchema
  import opened RowModel
  import opened RowQuery

  /** A row put under a key, or (Nil) the row under it deleted. */
  datatype Write = Write(key: Bytes, row: Value)

  datatype Moment = Moment(primary: map<Bytes, Row>, books: Books)

  /** A write that goes through: a delete finds its row, and a new row finds an id. */
  ghost predicate Step(s: Schema, t: Moment, w: Write, t': Moment)
  {
    && (w.row == Nil ==> w.key in t.primary) && (w.key in t.primary ==> w.key in t.books.ids)
    && t'.primary == Written(t.primary, w.key, w.row)
    && Applied(t.books, t'.books, w.key, w.row, w.key in t.primary, ValuesOf(s.bitmaps, RowAt(t.primary, w.key)),
      ValuesOf(s.bitmaps, w.row))
    && (w.key !in t.primary && Unused(t.books) == {} ==> t.books.next + 1 < UINT32)
  }

  ghost predicate Run(s: Schema, ts: seq<Moment>, ws: seq<Write>)
  {
    && |ts| == |ws| + 1 && ts[0] == Moment(map[], NO_BOOKS)
    && forall i :: 0 <= i < |ws| ==> Step(s, ts[i], ws[i], ts[i + 1])
  }

  /** The largest number of rows at any moment. */
  function Most(ts: seq<Moment>): nat
  {
    if ts == [] then 0 else
      var rest := Most(ts[..|ts| - 1]);
      if |ts[|ts| - 1].primary| > rest then |ts[|ts| - 1].primary| else rest
  }

  /** In every reachable state the bitmap indexes and the bookkeeping agree with the table, and next is the
      largest number of rows the table ever had. */
  lemma {:induction false} RunAgrees(s: Schema, ts: seq<Moment>, ws: seq<Write>)
    requires Run(s, ts, ws)
    ensures var t := ts[|ts| - 1];
      Agrees(s, t.primary, t.books) && t.books.next == Most(ts)
  {
    hide Agrees, Applied;
    var n := |ws|;
    if n == 0 {
      EmptyAgrees(s);
      assert ts[..0] == [];
    } else {
      RunAgrees(s, ts[..n], ws[..n - 1]);
      assert Step(s, ts[n - 1], ws[n - 1], ts[n]);
      var t, w := ts[n - 1], ws[n - 1];
      WriteAgrees(s, t.primary, t.books, ts[n].books, w.key, w.row);
      StepNext(s, t, w, ts[n]);
      NextIsPeak(s, t.primary, t.books, ts[n].books, w.key, w.row);
    }
  }

  lemma StepNext(s: Schema, t: Moment, w: Write, t': Moment)
    requires Step(s, t, w, t')
    ensures t'.books.next == (if w.key in t.primary || Unused(t.books) != {} then t.books.next else t.books.next + 1)
  {
  }

  /** A row keeps its id for as long as it is in the table, whatever is written. */
  lemma StepKeepsIds(s: Schema, t: Moment, w: Write, t': Moment)
    requires Step(s, t, w, t') && Agrees(s, t.primary, t.books)
    ensures t'.primary.Keys == t'.books.ids.Keys && t.primary.Keys == t.books.ids.Keys
    ensures forall k :: k in t.primary && k in t'.primary ==> t'.books.ids[k] == t.books.ids[k]
  {
    IdsFacts(t.primary.Keys, t.books);
  }

  lemma {:induction false} RunKeepsIds(s: Schema, ts: seq<Moment>, ws: seq<Write>, i: nat, k: Bytes)
    requires Run(s, ts, ws) && i < |ts|
    requires forall j :: i <= j < |ts| ==> k in ts[j].primary
    ensures k in ts[i].books.ids && k in ts[|ts| - 1].books.ids && ts[|ts| - 1].books.ids[k] == ts[i].books.ids[k]
    decreases |ts|
  {
    hide Agrees, Step;
    var n := |ws|;
    RunAgrees(s, ts[..i + 1], ws[..i]);
    OwnIds(s, ts[i].primary, ts[i].books);
    if i < n {
      RunKeepsIds(s, ts[..n], ws[..n - 1], i, k);
      RunAgrees(s, ts[..n], ws[..n - 1]);
      StepKeepsIds(s, ts[n - 1], ws[n - 1], ts[n]);
    }
  }

  /** The ids run out exactly when a row is added to a table of 2^32 - 1 rows. */
  lemma OutOfIdsIff(s: Schema, t: Moment, k: Bytes)
    requires Agrees(s, t.primary, t.books) && k !in t.primary
    ensures Unused(t.books) == {} && t.books.next + 1 == UINT32 <==> |t.primary| == UINT32 - 1
  {
    Counted(t.primary.Keys, t.books);
    assert |t.primary| == |t.primary.Keys|;
  }
}
