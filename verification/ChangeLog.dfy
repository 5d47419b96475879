/** The change list of a transaction: collapsing several changes of one object into one keeps the net effect. */
module ChangeLog {
  import opened VecShapes
  import opened TableSchema
  import opened RowModel
  import opened TableModel

  datatype Id = Id(table: string, key: Bytes)

  function IdOf(c: Change): Id
  {
    Id(c.table, c.key)
  }

  predicate Nothing(c: Change)
  {
    c.before == Nil && c.after == Nil
  }

  // ---------------------------------------------------------------- what a list of changes means

  type Content = map<Id, Row>

  function Held(m: Content, id: Id): Value
  {
    if id in m then m[id] else Nil
  }

  function Play(m: Content, c: Change): Content
  {
    if c.after == Nil then m - {IdOf(c)} else m[IdOf(c) := c.after]
  }

  function Replay(m: Content, log: seq<Change>): Content
  {
    if log == [] then m else Play(Replay(m, log[..|log| - 1]), log[|log| - 1])
  }

  /** A log of real writes: every entry changes something, from what is there. */
  predicate Consistent(m: Content, log: seq<Change>)
  {
    log == [] ||
    (Consistent(m, log[..|log| - 1])
     && Held(Replay(m, log[..|log| - 1]), IdOf(log[|log| - 1])) == log[|log| - 1].before && !Nothing(log[|log| - 1]))
  }

  predicate Distinct(log: seq<Change>)
  {
    forall i, j :: 0 <= i < j < |log| ==> IdOf(log[i]) != IdOf(log[j])
  }

  // ---------------------------------------------------------------- the simple form: one change at a time

  function Without(log: seq<Change>, id: Id): (r: seq<Change>)
    ensures forall c :: c in r <==> c in log && IdOf(c) != id
  {
    if log == [] then [] else
      var rest := Without(log[..|log| - 1], id);
      if IdOf(log[|log| - 1]) == id then rest else rest + [log[|log| - 1]]
  }

  /** The before value recorded for id, if there is an entry. */
  function Origin(log: seq<Change>, id: Id, default: Value): Value
  {
    if log == [] then default
    else if IdOf(log[|log| - 1]) == id then log[|log| - 1].before
    else Origin(log[..|log| - 1], id, default)
  }

  /** One more change: it takes the place of an earlier one of its object and moves to the end. */
  function Merge(cs: seq<Change>, c: Change): seq<Change>
  {
    var merged := c.(before := Origin(cs, IdOf(c), c.before));
    Without(cs, IdOf(c)) + (if Nothing(merged) then [] else [merged])
  }

  function Collapsed(log: seq<Change>): seq<Change>
  {
    if log == [] then [] else Merge(Collapsed(log[..|log| - 1]), log[|log| - 1])
  }

  // ---------------------------------------------------------------- lists with one entry per object

  lemma {:induction false} WithoutDistinct(cs: seq<Change>, id: Id)
    requires Distinct(cs)
    ensures Distinct(Without(cs, id)) && |Without(cs, id)| <= |cs|
  {
    if cs != [] {
      var rest, last := cs[..|cs| - 1], cs[|cs| - 1];
      WithoutDistinct(rest, id);
      forall i | 0 <= i < |Without(rest, id)|
        ensures IdOf(Without(rest, id)[i]) != IdOf(last)
      {
        assert Without(rest, id)[i] in rest;
      }
    }
  }

  lemma {:induction false} OriginOf(cs: seq<Change>, id: Id, default: Value)
    requires Distinct(cs)
    ensures forall c :: c in cs && IdOf(c) == id ==> Origin(cs, id, default) == c.before
    ensures (forall c :: c in cs ==> IdOf(c) != id) ==> Origin(cs, id, default) == default
  {
    if cs != [] {
      var rest, last := cs[..|cs| - 1], cs[|cs| - 1];
      assert cs == rest + [last];
      OriginOf(rest, id, default);
    }
  }

  lemma SameContent(m: Content, n: Content)
    requires forall id :: Held(m, id) == Held(n, id)
    ensures m == n
  {
    forall id
      ensures id in m <==> id in n
      ensures id in m && id in n ==> m[id] == n[id]
    {
      assert Held(m, id) == Held(n, id);
    }
  }

  /** The after value of the last entry for id, if there is one. */
  function Final(log: seq<Change>, id: Id, default: Value): Value
  {
    if log == [] then default
    else if IdOf(log[|log| - 1]) == id then log[|log| - 1].after
    else Final(log[..|log| - 1], id, default)
  }

  lemma {:induction false} ReplayFinal(m: Content, log: seq<Change>, id: Id)
    ensures Held(Replay(m, log), id) == Final(log, id, Held(m, id))
  {
    if log != [] {
      ReplayFinal(m, log[..|log| - 1], id);
    }
  }

  lemma {:induction false} FinalNone(log: seq<Change>, id: Id, default: Value)
    requires forall c :: c in log ==> IdOf(c) != id
    ensures Final(log, id, default) == default
  {
    if log != [] {
      assert log[|log| - 1] in log;
      FinalNone(log[..|log| - 1], id, default);
    }
  }

  /** A list with one entry per object is consistent if each entry is. */
  lemma {:induction false} DistinctConsistent(m: Content, cs: seq<Change>)
    requires Distinct(cs)
    ensures Consistent(m, cs) <==> forall c :: c in cs ==> c.before == Held(m, IdOf(c)) && !Nothing(c)
  {
    if cs != [] {
      var rest, last := cs[..|cs| - 1], cs[|cs| - 1];
      DistinctConsistent(m, rest);
      ReplayFinal(m, rest, IdOf(last));
      FinalNone(rest, IdOf(last), Held(m, IdOf(last)));
      hide Replay, Final, Held, Nothing;
      assert forall c :: c in cs <==> c in rest || c == last by { assert cs == rest + [last]; }
    }
  }

  lemma {:induction false} FinalWithout(log: seq<Change>, id: Id, x: Id, default: Value)
    ensures Final(Without(log, id), x, default) == if x == id then default else Final(log, x, default)
  {
    if log != [] {
      var rest := Without(log[..|log| - 1], id);
      FinalWithout(log[..|log| - 1], id, x, default);
      if IdOf(log[|log| - 1]) != id {
        assert (rest + [log[|log| - 1]])[..|rest|] == rest;
      }
    }
  }

  lemma FinalMerge(cs: seq<Change>, c: Change, x: Id, default: Value)
    requires IdOf(c) == x && Nothing(c.(before := Origin(cs, x, c.before))) ==> default == Nil
    ensures Final(Merge(cs, c), x, default) == if x == IdOf(c) then c.after else Final(cs, x, default)
  {
    var id := IdOf(c);
    var rest := Without(cs, id);
    var merged := c.(before := Origin(cs, id, c.before));
    FinalWithout(cs, id, x, default);
    if !Nothing(merged) {
      assert (rest + [merged])[..|rest|] == rest;
    } else {
      assert rest + [] == rest;
    }
  }

  lemma {:induction false} OriginKept(m: Content, cs: seq<Change>, id: Id, default: Value)
    requires Consistent(m, cs) && Distinct(cs) && default == Final(cs, id, Held(m, id))
    ensures Origin(cs, id, default) == Held(m, id)
  {
    DistinctConsistent(m, cs);
    OriginFinal(m, cs, id, default);
  }

  lemma {:induction false} OriginFinal(m: Content, cs: seq<Change>, id: Id, default: Value)
    requires forall c :: c in cs ==> c.before == Held(m, IdOf(c))
    requires default == Final(cs, id, Held(m, id)) || exists c :: c in cs && IdOf(c) == id
    ensures Origin(cs, id, default) == Held(m, id)
  {
    if cs != [] {
      var rest, last := cs[..|cs| - 1], cs[|cs| - 1];
      assert cs == rest + [last];
      if IdOf(last) != id {
        OriginFinal(m, rest, id, default);
      }
    }
  }

  lemma MergeDistinct(m: Content, cs: seq<Change>, c: Change)
    requires Distinct(cs) && Consistent(m, cs) && !Nothing(c)
    requires Origin(cs, IdOf(c), c.before) == Held(m, IdOf(c))
    ensures Distinct(Merge(cs, c)) && Consistent(m, Merge(cs, c))
  {
    hide Replay, Origin;
    var id := IdOf(c);
    WithoutDistinct(cs, id);
    DistinctConsistent(m, cs);
    var rest, now := Without(cs, id), Merge(cs, c);
    forall i | 0 <= i < |rest|
      ensures IdOf(rest[i]) != id
    {
      assert rest[i] in rest;
    }
    DistinctConsistent(m, now);
    forall d | d in now
      ensures d.before == Held(m, IdOf(d)) && !Nothing(d)
    {
      if d in rest { }
    }
  }

  lemma MergeStep(m: Content, cs: seq<Change>, c: Change)
    requires Distinct(cs) && Consistent(m, cs)
    requires Held(Replay(m, cs), IdOf(c)) == c.before && !Nothing(c)
    ensures Distinct(Merge(cs, c)) && Consistent(m, Merge(cs, c))
    ensures Replay(m, Merge(cs, c)) == Play(Replay(m, cs), c)
  {
    hide Replay, Origin, Merge, Final, Consistent, Distinct;
    var now := Merge(cs, c);
    ReplayFinal(m, cs, IdOf(c));
    OriginKept(m, cs, IdOf(c), c.before);
    MergeDistinct(m, cs, c);
    forall x: Id
      ensures Held(Replay(m, now), x) == Held(Play(Replay(m, cs), c), x)
    {
      ReplayFinal(m, now, x);
      ReplayFinal(m, cs, x);
      FinalMerge(cs, c, x, Held(m, x));
    }
    SameContent(Replay(m, now), Play(Replay(m, cs), c));
  }

  /** Collapsing keeps the net effect, has one entry per object, and none that says nothing. */
  lemma {:induction false} NetEffect(m: Content, log: seq<Change>)
    requires Consistent(m, log)
    ensures Replay(m, Collapsed(log)) == Replay(m, log)
    ensures Distinct(Collapsed(log)) && Consistent(m, Collapsed(log))
    ensures forall c :: c in Collapsed(log) ==> !Nothing(c) && c.before == Held(m, IdOf(c))
  {
    if log != [] {
      NetEffect(m, log[..|log| - 1]);
      MergeStep(m, Collapsed(log[..|log| - 1]), log[|log| - 1]);
    }
    DistinctConsistent(m, Collapsed(log));
  }

  lemma MergedEntries(cs: seq<Change>, c: Change, e: Change)
    ensures e in Merge(cs, c) <==>
      if IdOf(e) != IdOf(c) then e in cs else e == c.(before := Origin(cs, IdOf(c), c.before)) && !Nothing(e)
  {
    hide Origin;
  }

  lemma OneMoreEntry(m: Content, log: seq<Change>, e: Change)
    requires Consistent(m, log) && log != []
    ensures var rest, c := log[..|log| - 1], log[|log| - 1];
      e in Collapsed(log) <==>
        if IdOf(e) != IdOf(c) then e in Collapsed(rest) else e == c.(before := Held(m, IdOf(c))) && !Nothing(e)
  {
    hide Origin, Merge, Held;
    var rest, c := log[..|log| - 1], log[|log| - 1];
    MergedEntries(Collapsed(rest), c, e);
    EntryOrigin(m, rest, IdOf(c), c.before);
  }

  lemma EntryOrigin(m: Content, log: seq<Change>, id: Id, default: Value)
    requires Consistent(m, log) && default == Held(Replay(m, log), id)
    ensures Origin(Collapsed(log), id, default) == Held(m, id)
  {
    hide Origin, Final, Replay, Held;
    NetEffect(m, log);
    ReplayFinal(m, Collapsed(log), id);
    OriginKept(m, Collapsed(log), id, default);
  }

  /** Whether some change in a log is of the row under a key of a table. */
  predicate Touched(log: seq<Change>, table: string, key: Bytes)
  {
    exists c :: c in log && c.table == table && c.key == key
  }

  lemma TouchedMore(log: seq<Change>, c: Change, table: string, key: Bytes)
    ensures Touched(log + [c], table, key) <==> Touched(log, table, key) || (c.table == table && c.key == key)
  {
    if Touched(log, table, key) {
      var d :| d in log && d.table == table && d.key == key;
      assert d in log + [c];
    }
    assert c in log + [c];
  }

  lemma LastPlayed(m: Content, log: seq<Change>)
    requires Consistent(m, log) && log != []
    ensures Consistent(m, log[..|log| - 1])
    ensures Replay(m, log) == Play(Replay(m, log[..|log| - 1]), log[|log| - 1])
  {
  }

  lemma NoEntry(e: Change)
    ensures e !in Collapsed([]) && !Touched([], e.table, e.key)
  {
  }

  lemma EntryNow(m: Content, n: Content, c: Change, e: Change, touched: bool, was: bool, now: bool)
    requires var id := Id(e.table, e.key);
      was <==> touched && e.before == Held(m, id) && e.after == Held(n, id) && (e.before != Nil || e.after != Nil)
    requires now <==>
      if IdOf(e) != IdOf(c) then was else e == c.(before := Held(m, IdOf(c))) && !Nothing(e)
    ensures var id := Id(e.table, e.key);
      now <==>
        && (touched || (c.table == e.table && c.key == e.key))
        && e.before == Held(m, id) && e.after == Held(Play(n, c), id) && (e.before != Nil || e.after != Nil)
  {
  }

  /** A row that has been changed has one kind of entry, from what it was at the start to what it is now, and has
      it unless it was not there at the start and is not there now; no other row has any. */
  lemma {:induction false} EntryIff(m: Content, log: seq<Change>, e: Change)
    requires Consistent(m, log)
    ensures var id := Id(e.table, e.key);
      e in Collapsed(log) <==>
        && Touched(log, e.table, e.key) && e.before == Held(m, id) && e.after == Held(Replay(m, log), id)
        && (e.before != Nil || e.after != Nil)
  {
    hide Collapsed, Touched, Held, Play, Nothing, Consistent, Replay;
    if log == [] {
      NoEntry(e);
    } else {
      var rest, c := log[..|log| - 1], log[|log| - 1];
      assert log == rest + [c];
      LastPlayed(m, log);
      EntryIff(m, rest, e);
      OneMoreEntry(m, log, e);
      TouchedMore(rest, c, e.table, e.key);
      EntryNow(m, Replay(m, rest), c, e, Touched(rest, e.table, e.key), e in Collapsed(rest), e in Collapsed(log));
    }
  }

  /** Where the last change of an object is in a log; -1 if there is none. */
  function LastWrite(log: seq<Change>, id: Id): (i: int)
    ensures -1 <= i < |log|
  {
    if log == [] then -1
    else if IdOf(log[|log| - 1]) == id then |log| - 1
    else LastWrite(log[..|log| - 1], id)
  }

  /** The entries are in the order of the last changes of their objects, and end with what those made of them. */
  predicate InWriteOrder(cs: seq<Change>, log: seq<Change>)
  {
    && (forall i, j :: 0 <= i < j < |cs| ==> LastWrite(log, IdOf(cs[i])) < LastWrite(log, IdOf(cs[j])))
    && (forall c :: c in cs ==> LastWrite(log, IdOf(c)) >= 0 && c.after == log[LastWrite(log, IdOf(c))].after)
  }

  lemma {:induction false} WithoutInOrder(cs: seq<Change>, id: Id, log: seq<Change>)
    requires InWriteOrder(cs, log)
    ensures InWriteOrder(Without(cs, id), log)
  {
    hide LastWrite, InWriteOrder;
    if cs == [] {
    } else {
      var rest, last := cs[..|cs| - 1], cs[|cs| - 1];
      assert cs == rest + [last];
      OneLess(rest, last, log);
      WithoutInOrder(rest, id, log);
      if IdOf(last) != id {
        forall c | c in Without(rest, id)
          ensures LastWrite(log, IdOf(c)) < LastWrite(log, IdOf(last))
        {
          assert c in rest;
        }
        OneMore(Without(rest, id), last, log);
      }
    }
  }

  lemma OneLess(rest: seq<Change>, last: Change, log: seq<Change>)
    requires InWriteOrder(rest + [last], log)
    ensures InWriteOrder(rest, log) && LastWrite(log, IdOf(last)) >= 0
    ensures last.after == log[LastWrite(log, IdOf(last))].after
    ensures forall c :: c in rest ==> LastWrite(log, IdOf(c)) < LastWrite(log, IdOf(last))
  {
    hide LastWrite;
    var cs := rest + [last];
    assert forall i :: 0 <= i < |rest| ==> cs[i] == rest[i];
    assert cs[|rest|] == last && last in cs;
  }

  lemma OneMore(cs: seq<Change>, last: Change, log: seq<Change>)
    requires InWriteOrder(cs, log) && LastWrite(log, IdOf(last)) >= 0
    requires last.after == log[LastWrite(log, IdOf(last))].after
    requires forall c :: c in cs ==> LastWrite(log, IdOf(c)) < LastWrite(log, IdOf(last))
    ensures InWriteOrder(cs + [last], log)
  {
    hide LastWrite;
  }

  lemma LastWriteMore(log: seq<Change>, c: Change, id: Id)
    ensures LastWrite(log + [c], id) == if IdOf(c) == id then |log| else LastWrite(log, id)
  {
    assert (log + [c])[..|log|] == log;
  }

  /** A further write of another object changes nothing. */
  lemma OthersInOrder(cs: seq<Change>, log: seq<Change>, c: Change)
    requires InWriteOrder(cs, log) && forall d :: d in cs ==> IdOf(d) != IdOf(c)
    ensures InWriteOrder(cs, log + [c]) && LastWrite(log + [c], IdOf(c)) == |log|
    ensures forall d :: d in cs ==> LastWrite(log + [c], IdOf(d)) < |log|
  {
    hide LastWrite;
    LastWriteMore(log, c, IdOf(c));
    var now := log + [c];
    forall d | d in cs
      ensures 0 <= LastWrite(now, IdOf(d)) < |log| && d.after == now[LastWrite(now, IdOf(d))].after
      ensures LastWrite(now, IdOf(d)) == LastWrite(log, IdOf(d))
    {
      LastWriteMore(log, c, IdOf(d));
    }
    SamePlaces(cs, log, now);
  }

  lemma SamePlaces(cs: seq<Change>, log: seq<Change>, now: seq<Change>)
    requires InWriteOrder(cs, log) && forall d :: d in cs ==> LastWrite(now, IdOf(d)) == LastWrite(log, IdOf(d))
    ensures forall i, j :: 0 <= i < j < |cs| ==> LastWrite(now, IdOf(cs[i])) < LastWrite(now, IdOf(cs[j]))
  {
    hide LastWrite;
    forall i, j | 0 <= i < j < |cs|
      ensures LastWrite(now, IdOf(cs[i])) < LastWrite(now, IdOf(cs[j]))
    {
      assert cs[i] in cs && cs[j] in cs;
    }
  }

  /** The collapsed list is in the order of the last writes. */
  lemma {:induction false} CollapsedInOrder(log: seq<Change>)
    ensures InWriteOrder(Collapsed(log), log)
  {
    hide LastWrite, InWriteOrder, Origin;
    if log == [] {
      NoneInOrder();
    } else {
      var rest, c := log[..|log| - 1], log[|log| - 1];
      CollapsedInOrder(rest);
      var kept := Without(Collapsed(rest), IdOf(c));
      WithoutInOrder(Collapsed(rest), IdOf(c), rest);
      OthersInOrder(kept, rest, c);
      assert log == rest + [c];
      var merged := c.(before := Origin(Collapsed(rest), IdOf(c), c.before));
      OneMore(kept, merged, log);
      assert kept + [] == kept;
    }
  }

  lemma NoneInOrder()
    ensures InWriteOrder([], [])
  {
  }

  /** A list with one entry per object is not changed. */
  lemma {:induction false} CollapsedDistinct(cs: seq<Change>)
    requires Distinct(cs) && forall c :: c in cs ==> !Nothing(c)
    ensures Collapsed(cs) == cs
  {
    if cs != [] {
      var rest, last := cs[..|cs| - 1], cs[|cs| - 1];
      assert cs == rest + [last];
      CollapsedDistinct(rest);
      OriginOf(rest, IdOf(last), last.before);
      WithoutNone(rest, IdOf(last));
    }
  }

  lemma {:induction false} WithoutNone(cs: seq<Change>, id: Id)
    requires forall c :: c in cs ==> IdOf(c) != id
    ensures Without(cs, id) == cs
  {
    if cs != [] {
      WithoutNone(cs[..|cs| - 1], id);
      assert cs == cs[..|cs| - 1] + [cs[|cs| - 1]];
    }
  }

  lemma CollapsedOne(log: seq<Change>, c: Change)
    ensures Collapsed(log + [c]) == Merge(Collapsed(log), c)
  {
    assert (log + [c])[..|log|] == log;
  }

  /** Collapsing midway and going on comes to the same as collapsing once at the end. */
  lemma {:induction false} MidwayCollapse(m: Content, log: seq<Change>, more: seq<Change>)
    requires Consistent(m, log)
    ensures Collapsed(Collapsed(log) + more) == Collapsed(log + more)
  {
    hide Collapsed, Merge, Consistent, Distinct;
    if more == [] {
      NetEffect(m, log);
      CollapsedDistinct(Collapsed(log));
      assert Collapsed(log) + [] == Collapsed(log) && log + [] == log;
    } else {
      var rest, last := more[..|more| - 1], more[|more| - 1];
      MidwayCollapse(m, log, rest);
      assert log + more == log + rest + [last];
      assert Collapsed(log) + more == Collapsed(log) + rest + [last];
      CollapsedOne(log + rest, last);
      CollapsedOne(Collapsed(log) + rest, last);
    }
  }

  // ---------------------------------------------------------------- the two passes

  predicate Occurs(log: seq<Change>, id: Id)
  {
    exists i :: 0 <= i < |log| && IdOf(log[i]) == id
  }

  lemma OccursMore(log: seq<Change>, c: Change, id: Id)
    ensures Occurs(log + [c], id) <==> Occurs(log, id) || IdOf(c) == id
  {
    var now := log + [c];
    if Occurs(log, id) {
      var i :| 0 <= i < |log| && IdOf(log[i]) == id;
      assert IdOf(now[i]) == id;
    }
    if IdOf(c) == id {
      assert IdOf(now[|log|]) == id;
    }
  }

  /** The before value of the first entry for id. */
  function First(log: seq<Change>, id: Id): Value
  {
    if log == [] then Nil
    else if IdOf(log[0]) == id then log[0].before
    else First(log[1..], id)
  }

  lemma {:induction false} FirstGrows(log: seq<Change>, c: Change, id: Id)
    ensures First(log + [c], id) == if Occurs(log, id) then First(log, id) else if IdOf(c) == id then c.before else Nil
  {
    if log == [] {
    } else {
      assert (log + [c])[1..] == log[1..] + [c];
      FirstGrows(log[1..], c, id);
      if IdOf(log[0]) != id {
        assert Occurs(log, id) <==> Occurs(log[1..], id) by {
          if Occurs(log, id) {
            var i :| 0 <= i < |log| && IdOf(log[i]) == id;
            assert log[1..][i - 1] == log[i];
          }
        }
      }
    }
  }

  lemma {:induction false} NotOccurring(m: Content, log: seq<Change>, id: Id)
    requires !Occurs(log, id)
    ensures Held(Replay(m, log), id) == Held(m, id)
  {
    if log != [] {
      var rest, c := log[..|log| - 1], log[|log| - 1];
      assert log == rest + [c];
      OccursMore(rest, c, id);
      NotOccurring(m, rest, id);
    }
  }

  /** In a log of real writes the first before value is what was there at the start. */
  lemma {:induction false} FirstHeld(m: Content, log: seq<Change>, id: Id)
    requires Consistent(m, log) && Occurs(log, id)
    ensures First(log, id) == Held(m, id)
  {
    var rest, c := log[..|log| - 1], log[|log| - 1];
    assert log == rest + [c];
    FirstGrows(rest, c, id);
    OccursMore(rest, c, id);
    if Occurs(rest, id) {
      FirstHeld(m, rest, id);
    } else {
      NotOccurring(m, rest, id);
    }
  }

  /** No later entry is about the same object. */
  predicate Last(log: seq<Change>, i: nat)
    requires i < |log|
  {
    forall j :: i < j < |log| ==> IdOf(log[j]) != IdOf(log[i])
  }

  /** What the second pass has collected after n entries. */
  function Picked(log: seq<Change>, n: nat): seq<Change>
    requires n <= |log|
  {
    if n == 0 then [] else
      var c := log[n - 1].(before := First(log, IdOf(log[n - 1])));
      Picked(log, n - 1) + (if Last(log, n - 1) && !Nothing(c) then [c] else [])
  }

  lemma WithoutMore(cs: seq<Change>, c: Change, id: Id)
    ensures Without(cs + [c], id) == if IdOf(c) == id then Without(cs, id) else Without(cs, id) + [c]
  {
    assert (cs + [c])[..|cs|] == cs;
  }

  lemma LastLonger(log: seq<Change>, c: Change, i: nat)
    requires i < |log|
    ensures Last(log + [c], i) <==> Last(log, i) && IdOf(log[i]) != IdOf(c)
  {
    var now := log + [c];
    assert IdOf(now[|log|]) == IdOf(c);
    if Last(now, i) {
      forall j | i < j < |log|
        ensures IdOf(log[j]) != IdOf(log[i])
      {
        assert now[j] == log[j];
      }
    }
  }

  lemma PickedStep(log: seq<Change>, n: nat)
    requires 0 < n <= |log|
    ensures var c := log[n - 1].(before := First(log, IdOf(log[n - 1])));
      Picked(log, n) == if Last(log, n - 1) && !Nothing(c) then Picked(log, n - 1) + [c] else Picked(log, n - 1)
  {
    hide First, Last, Nothing;
    assert Picked(log, n - 1) + [] == Picked(log, n - 1);
  }

  lemma PickedNone(log: seq<Change>, id: Id)
    ensures Picked(log, 0) == [] && Without([], id) == []
  {
  }

  lemma OccursAt(log: seq<Change>, i: nat)
    requires i < |log|
    ensures Occurs(log, IdOf(log[i]))
  {
  }

  /** A further change of an object removes what was picked for it. */
  lemma {:induction false} PickedLonger(log: seq<Change>, c: Change, n: nat)
    requires n <= |log|
    ensures Picked(log + [c], n) == Without(Picked(log, n), IdOf(c))
  {
    hide First, Last, Nothing, Picked, Without, Occurs;
    if n == 0 {
      PickedNone(log, IdOf(c));
      PickedNone(log + [c], IdOf(c));
    } else {
      var e := log[n - 1];
      assert (log + [c])[n - 1] == e;
      PickedLonger(log, c, n - 1);
      PickedStep(log, n);
      PickedStep(log + [c], n);
      OccursAt(log, n - 1);
      FirstGrows(log, c, IdOf(e));
      LastLonger(log, c, n - 1);
      WithoutMore(Picked(log, n - 1), e.(before := First(log, IdOf(e))), IdOf(c));
    }
  }

  /** The two passes give what collapsing one change at a time gives. */
  lemma {:induction false} PickedCollapsed(m: Content, log: seq<Change>)
    requires Consistent(m, log)
    ensures Picked(log, |log|) == Collapsed(log)
  {
    if log != [] {
      var rest, c := log[..|log| - 1], log[|log| - 1];
      assert log == rest + [c];
      PickedCollapsed(m, rest);
      PickedLonger(rest, c, |rest|);
      NetEffect(m, rest);
      assert Occurs(log, IdOf(c)) by { assert IdOf(log[|rest|]) == IdOf(c); }
      FirstHeld(m, log, IdOf(c));
      ReplayFinal(m, Collapsed(rest), IdOf(c));
      OriginKept(m, Collapsed(rest), IdOf(c), c.before);
      assert Last(log, |rest|);
    }
  }

  datatype Info = Info(firstBefore: Value, lastIdx: nat)

  /** What the first pass knows after n entries. */
  ghost predicate Known(log: seq<Change>, n: nat, dups: map<Id, Info>)
    requires n <= |log|
  {
    && (forall id :: id in dups <==> Occurs(log[..n], id))
    && (forall id :: id in dups ==>
      dups[id].lastIdx < n && IdOf(log[dups[id].lastIdx]) == id && dups[id].firstBefore == First(log[..n], id))
    && (forall id, j :: id in dups && dups[id].lastIdx < j < n ==> IdOf(log[j]) != id)
  }

  lemma KnownStep(log: seq<Change>, n: nat, dups: map<Id, Info>)
    requires n < |log| && Known(log, n, dups)
    ensures var id := IdOf(log[n]);
      Known(log, n + 1, dups[id := Info(if id in dups then dups[id].firstBefore else log[n].before, n)])
  {
    hide First, Occurs;
    assert log[..n + 1] == log[..n] + [log[n]];
    forall id
      ensures Occurs(log[..n + 1], id) <==> Occurs(log[..n], id) || IdOf(log[n]) == id
      ensures Occurs(log[..n + 1], id) ==>
        First(log[..n + 1], id) == if Occurs(log[..n], id) then First(log[..n], id) else log[n].before
    {
      OccursMore(log[..n], log[n], id);
      FirstGrows(log[..n], log[n], id);
    }
  }

  /** As many objects as entries: no object twice. */
  lemma {:induction false} AllDifferent(log: seq<Change>, ids: set<Id>)
    requires forall id :: id in ids <==> Occurs(log, id)
    ensures |ids| <= |log| && (|ids| == |log| ==> Distinct(log))
  {
    if log == [] {
      assert ids == {};
    } else {
      var rest, c := log[..|log| - 1], log[|log| - 1];
      assert log == rest + [c];
      forall id
        ensures id in ids <==> Occurs(rest, id) || id == IdOf(c)
      {
        OccursMore(rest, c, id);
      }
      if Occurs(rest, IdOf(c)) {
        AllDifferent(rest, ids);
      } else {
        AllDifferent(rest, ids - {IdOf(c)});
        assert forall i :: 0 <= i < |rest| ==> IdOf(rest[i]) != IdOf(c);
      }
    }
  }

  /** Whether two changes may concern the same object; false is always right. Up to eight changes are
      compared pairwise, more by a hash. */
  method HasDuplicate(log: seq<Change>, hash: Id -> nat) returns (dup: bool)
    ensures !dup ==> Distinct(log)
    ensures |log| <= 8 ==> (dup <==> !Distinct(log))
  {
    var n := |log|;
    if n <= 8 {
      var i := 1;
      while i < n
        invariant 1 <= i && (i <= n || n == 0)
        invariant forall k, l :: 0 <= k < l < i && l < n ==> IdOf(log[k]) != IdOf(log[l])
      {
        var j := 0;
        while j < i
          invariant j <= i
          invariant forall k :: 0 <= k < j ==> IdOf(log[k]) != IdOf(log[i])
        {
          if IdOf(log[i]) == IdOf(log[j]) {
            return true;
          }
          j := j + 1;
        }
        i := i + 1;
      }
      return false;
    }
    var seen: set<nat> := {};
    var i := 0;
    while i < n
      invariant i <= n
      invariant forall k :: 0 <= k < i ==> hash(IdOf(log[k])) in seen
      invariant forall k, l :: 0 <= k < l < i ==> IdOf(log[k]) != IdOf(log[l])
    {
      var sum := hash(IdOf(log[i]));
      if sum in seen {
        return true;
      }
      seen := seen + {sum};
      i := i + 1;
    }
    dup := false;
  }

  class Tracker {
    var changes: seq<Change>

    constructor ()
      ensures changes == []
    {
      changes := [];
    }

    /** The collapsed list, which is also stored. start is the content the changes started from. */
    method Changes(hash: Id -> nat, ghost start: Content) returns (cs: seq<Change>)
      requires Consistent(start, changes)
      modifies this
      ensures cs == changes == Collapsed(old(changes))
    {
      hide Consistent, Collapsed, Picked, Known, Distinct, Occurs;
      NothingKnown(changes);
      PickedCollapsed(start, changes);
      NotNothing(start, changes);
      var dup := HasDuplicate(changes, hash);
      if !dup {
        CollapsedDistinct(changes);
        return changes;
      }
      var dups: map<Id, Info> := map[];
      var i := 0;
      while i < |changes|
        invariant i <= |changes| && Known(changes, i, dups) && changes == old(changes)
      {
        KnownStep(changes, i, dups);
        var id := IdOf(changes[i]);
        dups := dups[id := Info(if id in dups then dups[id].firstBefore else changes[i].before, i)];
        i := i + 1;
      }
      KnownIds(changes, dups);
      if |dups.Keys| == |changes| {
        CollapsedDistinct(changes);
        return changes;
      }
      cs := Pick(dups);
      changes := cs;
    }

    /** The second pass. */
    method Pick(dups: map<Id, Info>) returns (cs: seq<Change>)
      requires Known(changes, |changes|, dups)
      ensures cs == Picked(changes, |changes|)
    {
      assert changes[..|changes|] == changes;
      cs := [];
      var i := 0;
      while i < |changes|
        invariant i <= |changes| && cs == Picked(changes, i)
      {
        var c := changes[i];
        assert Occurs(changes, IdOf(c));
        var mi := dups[IdOf(c)];
        assert mi.lastIdx == i <==> Last(changes, i);
        if mi.lastIdx == i {
          c := c.(before := mi.firstBefore);
          if !Nothing(c) {
            cs := cs + [c];
          }
        }
        i := i + 1;
      }
    }
  }

  lemma NothingKnown(log: seq<Change>)
    ensures Known(log, 0, map[])
  {
  }

  lemma KnownIds(log: seq<Change>, dups: map<Id, Info>)
    requires Known(log, |log|, dups)
    ensures |dups.Keys| == |log| ==> Distinct(log)
  {
    hide Occurs, Distinct;
    assert log[..|log|] == log;
    AllDifferent(log, dups.Keys);
  }

  lemma {:induction false} NotNothing(m: Content, log: seq<Change>)
    requires Consistent(m, log)
    ensures forall c :: c in log ==> !Nothing(c)
  {
    if log != [] {
      NotNothing(m, log[..|log| - 1]);
      assert log == log[..|log| - 1] + [log[|log| - 1]];
    }
  }

  // ---------------------------------------------------------------- the log a transaction keeps

  /** The changes lead from the content at the start of the transaction to the table as it is. */
  ghost predicate Tracks(start: Content, name: string, t: Table)
  {
    && Consistent(start, t.changes)
    && forall k :: Held(Replay(start, t.changes), Id(name, k)) == RowAt(t.primary, k)
  }

  lemma TrackOne(start: Content, name: string, t: Table, k: Bytes, after: Value, t': Table)
    requires Tracks(start, name, t) && t'.changes == t.changes + [Change(name, k, RowAt(t.primary, k), after)]
    requires t'.primary == Written(t.primary, k, after) && (k in t.primary || after != Nil)
    ensures Tracks(start, name, t')
  {
    assert t'.changes[..|t'.changes| - 1] == t.changes;
    forall l: Bytes
      ensures Held(Replay(start, t'.changes), Id(name, l)) == RowAt(t'.primary, l)
    {
      assert Held(Replay(start, t.changes), Id(name, l)) == RowAt(t.primary, l);
    }
  }

  /** What Insert and Delete append to the list keeps it a log of real writes that leads to the table. */
  lemma InsertTracked(s: Schema, start: Content, name: string, t: Table, k: Bytes, row: Row, t': Table)
    requires Tracks(start, name, t) && InsertedRow(s, t, t', name, true, k, row)
    ensures Tracks(start, name, t')
  {
    hide Tracks, OrdinaryAfter, BooksAfter, LineAfter;
    TrackOne(start, name, t, k, row, t');
  }

  lemma DeleteTracked(s: Schema, start: Content, name: string, t: Table, k: Bytes, t': Table)
    requires Tracks(start, name, t) && k in t.primary && DeletedRow(s, t, t', name, true, k, t.primary[k])
    ensures Tracks(start, name, t')
  {
    hide Tracks, OrdinaryAfter, BooksAfter, LineAfter;
    TrackOne(start, name, t, k, Nil, t');
  }
}
