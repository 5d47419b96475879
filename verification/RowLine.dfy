/** The line of states that led to a table's row bookkeeping. What holds of every such state, also where the
    bookkeeping and the table have come apart. */
module RowLine {
  import opened IdSpace
  import opened VecShapes
  import opened TableSchema
  import opened RowModel
  import opened RowQuery

  /** What the bookkeeping was told: the row under a key (Nil for a delete), whether it took the place of another, and
      the values the two have in each bitmap index. */
  datatype Move = Move(key: Bytes, row: Value, existed: bool, olds: seq<seq<Bytes>>, news: seq<seq<Bytes>>)

  datatype Line = Line(states: seq<Books>, moves: seq<Move>)

  const NEW_LINE: Line := Line([NO_BOOKS], [])

  /** One move that is no panic. */
  ghost predicate Takes(b: Books, w: Move, b': Books)
  {
    && |w.olds| == |w.news| && (w.row == Nil ==> w.existed) && (w.existed ==> w.key in b.ids)
    && (!w.existed && Unused(b) == {} ==> b.next + 1 < UINT32)
    && Applied(b, b', w.key, w.row, w.existed, w.olds, w.news)
  }

  ghost predicate Traced(l: Line, b: Books)
  {
    && |l.states| == |l.moves| + 1 && l.states[0] == NO_BOOKS && l.states[|l.moves|] == b
    && forall i :: 0 <= i < |l.moves| ==> Takes(l.states[i], l.moves[i], l.states[i + 1])
  }

  ghost function Further(l: Line, w: Move, b: Books): Line
  {
    Line(l.states + [b], l.moves + [w])
  }

  ghost predicate Extends(l: Line, l': Line)
  {
    l.states <= l'.states && l.moves <= l'.moves
  }

  /** What holds of the bookkeeping whatever it has been told: ids below next are used or free, used ones are those
      with a row, and no two keys have the same. */
  ghost predicate Loose(b: Books)
  {
    && b.next < UINT32
    && (forall k, l :: k in b.ids && l in b.ids && b.ids[k] == b.ids[l] ==> k == l)
    && (forall k :: k in b.ids ==> b.ids[k] in InUse(b))
    && (forall id: nat :: id in InUse(b) || id in Unused(b) <==> id < b.next)
    && InUse(b) !! Unused(b)
    && b.vec.Keys == InUse(b)
    && NoneEmpty(b.sets)
  }

  lemma FurtherTraced(l: Line, b: Books, w: Move, b': Books)
    requires Traced(l, b) && Takes(b, w, b')
    ensures Traced(Further(l, w, b'), b') && Extends(l, Further(l, w, b'))
  {
    hide Takes;
  }

  /** A move keeps that, and moves next to the greater of what it was and the number of rows there now are. */
  lemma TakesLoose(b: Books, w: Move, b': Books)
    requires Loose(b) && Takes(b, w, b')
    ensures Loose(b')
  {
    hide NoneEmpty, RowModel.Moved, InUse, Unused;
    var id := if w.existed then b.ids[w.key] else NewId(b);
    assert id < b'.next && (w.existed ==> id in InUse(b)) && (!w.existed ==> id !in InUse(b));
    assert b'.vec == Put(b.vec, id, w.row);
  }

  lemma TakesPeak(b: Books, w: Move, b': Books)
    requires Loose(b) && Takes(b, w, b')
    ensures |b.vec| <= b.next && b'.next == if |b'.vec| > b.next then |b'.vec| else b.next
  {
    TakesLoose(b, w, b');
    hide NoneEmpty, RowModel.Moved, InUse, Unused;
    AsManyRows(b);
    AsManyRows(b');
    if !w.existed && Unused(b) == {} {
      assert Unused(b') == {};
    }
  }

  /** As many rows as ids in use; those and the free ones are all below next. */
  lemma AsManyRows(b: Books)
    requires Loose(b)
    ensures |b.vec| + |Unused(b)| == b.next
  {
    CardExact(InUse(b) + Unused(b), b.next);
    assert |b.vec| == |b.vec.Keys|;
  }

  lemma NewLoose()
    ensures Loose(NO_BOOKS) && Traced(NEW_LINE, NO_BOOKS)
  {
  }

  lemma AgreesLoose(s: Schema, primary: map<Bytes, Row>, b: Books)
    requires Agrees(s, primary, b)
    ensures Loose(b) && primary.Keys == b.ids.Keys
  {
    IdsFacts(primary.Keys, b);
    hide SetsOk;
  }

  /** The largest number of rows at any moment. */
  function Peak(states: seq<Books>): nat
  {
    if states == [] then 0 else
      var rest, now := Peak(states[..|states| - 1]), |states[|states| - 1].vec|;
      if now > rest then now else rest
  }

  /** In every state that any line leads to the bookkeeping is in order, and the ids ever used are as many as there
      were rows when they were most. */
  lemma {:induction false} TracedLoose(l: Line, b: Books)
    requires Traced(l, b)
    ensures Loose(b) && b.next == Peak(l.states)
    decreases |l.moves|
  {
    hide Loose, Takes;
    var n := |l.moves|;
    if n == 0 {
      NewLoose();
      assert l.states[..0] == [];
    } else {
      var rest := Line(l.states[..n], l.moves[..n - 1]);
      TracedLoose(rest, l.states[n - 1]);
      assert Takes(l.states[n - 1], l.moves[n - 1], b);
      TakesLoose(l.states[n - 1], l.moves[n - 1], b);
      TakesPeak(l.states[n - 1], l.moves[n - 1], b);
    }
  }

  /** No row was put in as a new one while the bookkeeping still had its key. */
  ghost predicate Neat(l: Line)
  {
    |l.states| == |l.moves| + 1 && forall i :: 0 <= i < |l.moves| ==>
      (l.moves[i].existed <==> l.moves[i].key in l.states[i].ids)
  }

  /** Only such a row gets an id in place of one it has. */
  lemma TakesKeepsId(b: Books, w: Move, b': Books, k: Bytes)
    requires Takes(b, w, b') && k in b.ids && k in b'.ids
    ensures b'.ids[k] != b.ids[k] ==> w.key == k && !w.existed
  {
  }

  /** In a neat line a key keeps its id for as long as it is there. */
  lemma {:induction false} LineKeepsIds(l: Line, b: Books, i: nat, j: nat, k: Bytes)
    requires Traced(l, b) && Neat(l) && i <= j < |l.states|
    requires forall n :: i <= n <= j ==> k in l.states[n].ids
    ensures l.states[j].ids[k] == l.states[i].ids[k]
    decreases j
  {
    hide Takes;
    if i < j {
      LineKeepsIds(l, b, i, j - 1, k);
      assert Takes(l.states[j - 1], l.moves[j - 1], l.states[j]);
      TakesKeepsId(l.states[j - 1], l.moves[j - 1], l.states[j], k);
    }
  }

  /** In a neat line there are as many ids in use as there are keys. */
  lemma {:induction false} NeatIds(l: Line, b: Books)
    requires Traced(l, b) && Neat(l)
    ensures |b.vec| == |b.ids|
  {
    NeatCovered(l, b);
    TracedLoose(l, b);
    hide Traced, NoneEmpty;
    AsManyIds(b.ids, InUse(b));
    assert |b.vec| == |b.vec.Keys|;
  }

  lemma {:induction false} NeatCovered(l: Line, b: Books)
    requires Traced(l, b) && Neat(l)
    ensures forall id: nat :: id in InUse(b) ==> exists k :: k in b.ids && b.ids[k] == id
    decreases |l.moves|
  {
    hide Takes;
    var n := |l.moves|;
    if n > 0 {
      var rest := Line(l.states[..n], l.moves[..n - 1]);
      NeatCovered(rest, l.states[n - 1]);
      assert Takes(l.states[n - 1], l.moves[n - 1], b);
      TakesCovered(l.states[n - 1], l.moves[n - 1], b);
    }
  }

  lemma TakesCovered(b: Books, w: Move, b': Books)
    requires Takes(b, w, b') && (w.existed <==> w.key in b.ids)
    requires forall id: nat :: id in InUse(b) ==> exists k :: k in b.ids && b.ids[k] == id
    ensures forall id: nat :: id in InUse(b') ==> exists k :: k in b'.ids && b'.ids[k] == id
  {
    hide NoneEmpty, RowModel.Moved, InUse, Unused, NewId;
    forall id: nat | id in InUse(b')
      ensures exists k :: k in b'.ids && b'.ids[k] == id
    {
      if id in InUse(b) {
        var k :| k in b.ids && b.ids[k] == id;
        assert k in b'.ids && b'.ids[k] == id;
      } else {
        assert w.key in b'.ids && b'.ids[w.key] == id;
      }
    }
  }
  // ---------------------------------------------------------------- without deletes

  ghost predicate NoDeletes(l: Line)
  {
    forall i :: 0 <= i < |l.moves| ==> l.moves[i].row != Nil
  }

  /** Without deletes no id is ever free, no key goes, and next grows with every new row. */
  lemma TakesGrows(b: Books, w: Move, b': Books)
    requires Takes(b, w, b') && w.row != Nil && Unused(b) == {}
    ensures Unused(b') == {} && b.ids.Keys <= b'.ids.Keys && w.key in b'.ids
    ensures b'.next == (if w.existed then b.next else b.next + 1)
    ensures !w.existed ==> b'.ids[w.key] == b.next
  {
    hide RowModel.Moved, NoneEmpty;
  }

  lemma {:induction false} LineGrows(l: Line, b: Books, i: nat, j: nat)
    requires Traced(l, b) && NoDeletes(l) && i <= j < |l.states|
    ensures Unused(l.states[j]) == {}
    ensures l.states[i].ids.Keys <= l.states[j].ids.Keys && l.states[i].next <= l.states[j].next
    decreases j
  {
    hide Takes, Unused;
    if j == 0 {
      NoneUnused();
    } else if i < j {
      LineGrows(l, b, i, j - 1);
      assert Takes(l.states[j - 1], l.moves[j - 1], l.states[j]);
      TakesGrows(l.states[j - 1], l.moves[j - 1], l.states[j]);
    } else {
      LineGrows(l, b, j - 1, j - 1);
      assert Takes(l.states[j - 1], l.moves[j - 1], l.states[j]);
      TakesGrows(l.states[j - 1], l.moves[j - 1], l.states[j]);
    }
  }

  lemma NoneUnused()
    ensures Unused(NO_BOOKS) == {}
  {
  }

  /** As long as no row has been deleted, row ids are in the order of insertion. */
  lemma InsertionOrder(l: Line, b: Books, i: nat, j: nat)
    requires Traced(l, b) && Neat(l) && NoDeletes(l) && i < j < |l.moves|
    requires !l.moves[i].existed && !l.moves[j].existed
    ensures l.moves[i].key in b.ids && l.moves[j].key in b.ids && b.ids[l.moves[i].key] < b.ids[l.moves[j].key]
  {
    hide Takes, Unused, Neat, NoDeletes;
    FirstId(l, b, i);
    FirstId(l, b, j);
    LineGrows(l, b, i + 1, j);
  }

  lemma FirstId(l: Line, b: Books, i: nat)
    requires Traced(l, b) && Neat(l) && NoDeletes(l) && i < |l.moves| && !l.moves[i].existed
    ensures l.moves[i].key in b.ids && b.ids[l.moves[i].key] == l.states[i].next < l.states[i + 1].next
  {
    hide Takes, Unused, Neat;
    var k := l.moves[i].key;
    LineGrows(l, b, i, i);
    assert Takes(l.states[i], l.moves[i], l.states[i + 1]);
    TakesGrows(l.states[i], l.moves[i], l.states[i + 1]);
    forall n | i + 1 <= n <= |l.moves|
      ensures k in l.states[n].ids
    {
      LineGrows(l, b, i + 1, n);
    }
    LineKeepsIds(l, b, i + 1, |l.moves|, k);
  }
}
