/** Queries over bitmap indexes, and the filtering scan of the table they must agree with. */
module RowQuery {
  import opened IdSpace
  import opened VecShapes
  import opened TableSchema
  import opened RowModel
  import S = SetStore

  /** What can be asked: the rows with a value, those with a value that starts with a prefix, all rows,
      and combinations. */
  datatype Query =
    | Where(index: nat, key: Bytes)
    | WherePrefix(index: nat, prefix: Bytes)
    | AllRows
    | And(left: Query, right: Query)
    | Or(left: Query, right: Query)
    | AndNot(left: Query, right: Query)

  predicate Starts(key: Bytes, prefix: Bytes)
  {
    prefix <= key
  }

  ghost function Ids(b: Books, q: Query): set<nat>
  {
    match q
    case Where(i, key) => S.SetAt(b.sets, S.ValueSet(i, key))
    case WherePrefix(i, prefix) => Under(b.sets, i, prefix)
    case AllRows => InUse(b)
    case And(l, r) => Ids(b, l) * Ids(b, r)
    case Or(l, r) => Ids(b, l) + Ids(b, r)
    case AndNot(l, r) => Ids(b, l) - Ids(b, r)
  }

  /** The union of the sets under a prefix. */
  ghost function Under(sets: map<S.Place, set<nat>>, i: nat, prefix: Bytes): set<nat>
  {
    set p, x | p in sets && p.ValueSet? && p.index == i && Starts(p.key, prefix) && x in sets[p] :: x
  }

  /** Whether a scan that looks at one row after the other would take this one. */
  ghost predicate Matches(s: Schema, q: Query, row: Row)
  {
    match q
    case Where(i, key) => i < |s.bitmaps| && Has(s.bitmaps[i], row, key)
    case WherePrefix(i, prefix) => i < |s.bitmaps| && exists key ::
      key in ListOf(s.bitmaps[i].values(row)) && Starts(key, prefix)
    case AllRows => true
    case And(l, r) => Matches(s, l, row) && Matches(s, r, row)
    case Or(l, r) => Matches(s, l, row) || Matches(s, r, row)
    case AndNot(l, r) => Matches(s, l, row) && !Matches(s, r, row)
  }

  /** Where finds exactly the rows of the scan. */
  lemma WhereIsScan(s: Schema, primary: map<Bytes, Row>, b: Books, i: nat, key: Bytes, k: Bytes)
    requires Agrees(s, primary, b) && k in primary
    ensures k in b.ids
    ensures b.ids[k] in S.SetAt(b.sets, S.ValueSet(i, key)) <==> i < |s.bitmaps| && Has(s.bitmaps[i], primary[k], key)
    ensures forall x :: x in S.SetAt(b.sets, S.ValueSet(i, key)) ==> x in InUse(b)
  {
    hide IdsOk, VecOk, InUse, Unused;
    IdsFacts(primary.Keys, b);
    if i < |s.bitmaps| {
      var found := Scan(s.bitmaps[i], key, primary, b.ids);
      assert S.SetAt(b.sets, S.ValueSet(i, key)) == found;
      if b.ids[k] in found {
        var l :| l in primary && l in b.ids && Has(s.bitmaps[i], primary[l], key) && b.ids[l] == b.ids[k];
        assert l == k;
      }
    }
  }

  /** Any combination of Where, prefix queries and AllRows over one state holds the id of a row exactly if
      a scan of the table would take the row, and holds no other ids. */
  lemma {:induction false} QueryIsScan(s: Schema, primary: map<Bytes, Row>, b: Books, q: Query)
    requires Agrees(s, primary, b)
    ensures primary.Keys == b.ids.Keys && Ids(b, q) <= InUse(b)
    ensures forall k :: k in primary ==> (b.ids[k] in Ids(b, q) <==> Matches(s, q, primary[k]))
  {
    IdsFacts(primary.Keys, b);
    match q
    case Where(i, key) =>
      forall k | k in primary
        ensures b.ids[k] in Ids(b, q) <==> Matches(s, q, primary[k])
      {
        WhereIsScan(s, primary, b, i, key, k);
      }
      forall x | x in Ids(b, q)
        ensures x in InUse(b)
      {
        SetInUse(s, primary, b, S.ValueSet(i, key), x);
      }
    case WherePrefix(i, prefix) =>
      PrefixIsScan(s, primary, b, i, prefix);
    case AllRows =>
    case And(l, r) =>
      QueryIsScan(s, primary, b, l);
      QueryIsScan(s, primary, b, r);
    case Or(l, r) =>
      QueryIsScan(s, primary, b, l);
      QueryIsScan(s, primary, b, r);
    case AndNot(l, r) =>
      QueryIsScan(s, primary, b, l);
      QueryIsScan(s, primary, b, r);
  }

  lemma SetInUse(s: Schema, primary: map<Bytes, Row>, b: Books, p: S.Place, x: nat)
    requires Agrees(s, primary, b) && p.ValueSet? && x in S.SetAt(b.sets, p)
    ensures x in InUse(b) && p in b.sets && p.index < |s.bitmaps|
  {
    hide IdsOk, VecOk, InUse, Unused;
    IdsFacts(primary.Keys, b);
    assert p == S.ValueSet(p.index, p.key);
    assert x in Scan(s.bitmaps[p.index], p.key, primary, b.ids);
  }

  lemma PrefixIsScan(s: Schema, primary: map<Bytes, Row>, b: Books, i: nat, prefix: Bytes)
    requires Agrees(s, primary, b)
    ensures primary.Keys == b.ids.Keys && Under(b.sets, i, prefix) <= InUse(b)
    ensures forall k :: k in primary ==>
      (b.ids[k] in Under(b.sets, i, prefix) <==> Matches(s, WherePrefix(i, prefix), primary[k]))
  {
    IdsFacts(primary.Keys, b);
    hide IdsOk, VecOk, InUse, Unused, Agrees;
    forall x | x in Under(b.sets, i, prefix)
      ensures x in InUse(b)
    {
      var p :| p in b.sets && p.ValueSet? && p.index == i && Starts(p.key, prefix) && x in b.sets[p];
      SetInUse(s, primary, b, p, x);
    }
    forall k | k in primary
      ensures b.ids[k] in Under(b.sets, i, prefix) <==> Matches(s, WherePrefix(i, prefix), primary[k])
    {
      var x := b.ids[k];
      if x in Under(b.sets, i, prefix) {
        var p :| p in b.sets && p.ValueSet? && p.index == i && Starts(p.key, prefix) && x in b.sets[p];
        assert p == S.ValueSet(i, p.key);
        WhereIsScan(s, primary, b, i, p.key, k);
        assert p.key in ListOf(s.bitmaps[i].values(primary[k]));
      }
      if Matches(s, WherePrefix(i, prefix), primary[k]) {
        var key :| key in ListOf(s.bitmaps[i].values(primary[k])) && Starts(key, prefix);
        WhereIsScan(s, primary, b, i, key, k);
        assert S.ValueSet(i, key) in b.sets;
      }
    }
  }

  /** What the three ways to ask find, in terms of the rows' values alone. */
  lemma WhereFinds(s: Schema, primary: map<Bytes, Row>, b: Books, i: nat, key: Bytes, k: Bytes)
    requires Agrees(s, primary, b) && k in primary && i < |s.bitmaps|
    ensures k in b.ids
    ensures b.ids[k] in Ids(b, Where(i, key)) <==> exists vals ::
      s.bitmaps[i].values(primary[k]) == Values(vals) && exists j :: 0 <= j < |vals| && vals[j] == key
  {
    hide Agrees;
    WhereIsScan(s, primary, b, i, key, k);
    var v := s.bitmaps[i].values(primary[k]);
    if v.Values? {
      assert v == Values(v.vals);
    }
  }

  lemma PrefixMatches(s: Schema, i: nat, prefix: Bytes, row: Row)
    requires i < |s.bitmaps|
    ensures Matches(s, WherePrefix(i, prefix), row) <==> exists v ::
      v in ListOf(s.bitmaps[i].values(row)) && |prefix| <= |v| && v[..|prefix|] == prefix
  {
    forall v: Bytes
      ensures Starts(v, prefix) <==> |prefix| <= |v| && v[..|prefix|] == prefix
    {
      StartsIff(v, prefix);
    }
  }

  lemma PrefixFinds(s: Schema, primary: map<Bytes, Row>, b: Books, i: nat, prefix: Bytes, k: Bytes)
    requires Agrees(s, primary, b) && k in primary && i < |s.bitmaps|
    ensures k in b.ids
    ensures b.ids[k] in Ids(b, WherePrefix(i, prefix)) <==> exists v ::
      v in ListOf(s.bitmaps[i].values(primary[k])) && |prefix| <= |v| && v[..|prefix|] == prefix
  {
    hide Agrees, Ids, Matches;
    QueryIsScan(s, primary, b, WherePrefix(i, prefix));
    PrefixMatches(s, i, prefix, primary[k]);
  }

  lemma StartsIff(key: Bytes, prefix: Bytes)
    ensures Starts(key, prefix) <==> |prefix| <= |key| && key[..|prefix|] == prefix
  {
  }

  lemma AllFound(s: Schema, primary: map<Bytes, Row>, b: Books, id: nat)
    requires Agrees(s, primary, b)
    ensures id in Ids(b, AllRows) <==> exists k :: k in primary && k in b.ids && b.ids[k] == id
  {
    QueryRows(s, primary, b, AllRows);
  }

  lemma AllHaveRows(s: Schema, primary: map<Bytes, Row>, b: Books)
    requires Agrees(s, primary, b)
    ensures b.vec.Keys == InUse(b)
  {
  }

  lemma RowInUse(s: Schema, primary: map<Bytes, Row>, b: Books, k: Bytes)
    requires Agrees(s, primary, b) && k in primary
    ensures k in b.ids && b.ids[k] in b.vec && b.vec[b.ids[k]] == primary[k]
  {
    IdsFacts(primary.Keys, b);
  }

  lemma NoRows(s: Schema, primary: map<Bytes, Row>, b: Books)
    requires Agrees(s, primary, b) && b.vec == map[]
    ensures primary == map[] && InUse(b) == {}
  {
    hide Agrees;
    AllHaveRows(s, primary, b);
    if primary != map[] {
      var k :| k in primary;
      RowInUse(s, primary, b, k);
      assert false;
    }
  }

  /** The rows a query yields, by way of the row vector: each matching row, under its own id. */
  lemma QueryRows(s: Schema, primary: map<Bytes, Row>, b: Books, q: Query)
    requires Agrees(s, primary, b)
    ensures Ids(b, q) <= b.vec.Keys
    ensures forall x :: x in Ids(b, q) ==>
      exists k :: k in primary && k in b.ids && b.ids[k] == x && b.vec[x] == primary[k] && Matches(s, q, primary[k])
    ensures forall k :: k in primary && Matches(s, q, primary[k]) ==>
      k in b.ids && b.ids[k] in Ids(b, q) && b.vec[b.ids[k]] == primary[k]
  {
    QueryIsScan(s, primary, b, q);
    hide SetsOk, Ids, Matches;
    forall x | x in Ids(b, q)
      ensures exists k ::
        k in primary && k in b.ids && b.ids[k] == x && b.vec[x] == primary[k] && Matches(s, q, primary[k])
    {
      assert x in InUse(b);
      var k :| k in b.ids && b.ids[k] == x;
    }
  }

  // ---------------------------------------------------------------- how many ids are ever needed

  /** As many ids are in use as there are rows. */
  lemma {:induction false} AsManyIds(ids: map<Bytes, nat>, used: set<nat>)
    requires forall k, l :: k in ids && l in ids && ids[k] == ids[l] ==> k == l
    requires forall id: nat :: id in used <==> exists k :: k in ids && ids[k] == id
    ensures |used| == |ids|
    decreases |ids|
  {
    assert |ids| == |ids.Keys|;
    if ids == map[] {
      assert used == {};
    } else {
      var k :| k in ids;
      var rest := ids - {k};
      assert rest.Keys == ids.Keys - {k} && |rest| == |rest.Keys|;
      forall id: nat
        ensures id in used - {ids[k]} <==> exists l :: l in rest && rest[l] == id
      {
        if id in used - {ids[k]} {
          var l :| l in ids && ids[l] == id;
          assert l in rest && rest[l] == id;
        }
        if l :| l in rest && rest[l] == id {
          assert l in ids && ids[l] == id;
        }
      }
      AsManyIds(rest, used - {ids[k]});
      assert ids[k] in used;
    }
  }

  /** The keys of the rows that a scan takes. */
  ghost function Hits(s: Schema, q: Query, primary: map<Bytes, Row>): (ks: set<Bytes>)
    ensures forall k :: k in ks ==> k in primary
  {
    set k | k in primary && Matches(s, q, primary[k])
  }

  /** A query has as many ids as a scan takes rows. */
  lemma QueryCount(s: Schema, primary: map<Bytes, Row>, b: Books, q: Query)
    requires Agrees(s, primary, b)
    ensures |Ids(b, q)| == |Hits(s, q, primary)|
  {
    hide Agrees, Ids, Matches;
    QueryRows(s, primary, b, q);
    OwnIds(s, primary, b);
    var ks := Hits(s, q, primary);
    var found := map k | k in ks :: b.ids[k];
    assert found.Keys == ks && |found| == |found.Keys|;
    forall id: nat
      ensures id in Ids(b, q) <==> exists k :: k in found && found[k] == id
    {
      if id in Ids(b, q) {
        var k :| k in primary && k in b.ids && b.ids[k] == id && b.vec[id] == primary[k] && Matches(s, q, primary[k]);
        assert k in found && found[k] == id;
      }
    }
    AsManyIds(found, Ids(b, q));
  }

  lemma OwnIds(s: Schema, primary: map<Bytes, Row>, b: Books)
    requires Agrees(s, primary, b)
    ensures primary.Keys == b.ids.Keys && forall k, l :: k in b.ids && l in b.ids && b.ids[k] == b.ids[l] ==> k == l
  {
    IdsFacts(primary.Keys, b);
  }

  /** The ids ever used are as many as the table had rows when it was largest: a write moves next to the
      greater of what it was and the number of rows there now are. */
  lemma NextIsPeak(s: Schema, primary: map<Bytes, Row>, b: Books, b': Books, k: Bytes, obj: Value)
    requires Agrees(s, primary, b) && Agrees(s, Written(primary, k, obj), b') && (obj == Nil ==> k in primary)
    requires b'.next == (if k in primary || Unused(b) != {} then b.next else b.next + 1)
    ensures |primary| <= b.next
    ensures b'.next == (if |Written(primary, k, obj)| > b.next then |Written(primary, k, obj)| else b.next)
  {
    hide VecOk, SetsOk, Written;
    Counted(primary.Keys, b);
    Counted(Written(primary, k, obj).Keys, b');
    assert |primary| == |primary.Keys| && |Written(primary, k, obj)| == |Written(primary, k, obj).Keys|;
    if k !in primary && Unused(b) == {} {
      assert InUse(b) + Unused(b) == InUse(b);
      assert obj == Nil || Written(primary, k, obj).Keys == primary.Keys + {k} by { WrittenKeys(primary, k, obj); }
      assert |primary.Keys + {k}| == |primary.Keys| + 1;
    }
  }

  lemma WrittenKeys(primary: map<Bytes, Row>, k: Bytes, obj: Value)
    ensures Written(primary, k, obj).Keys == if obj == Nil then primary.Keys - {k} else primary.Keys + {k}
  {
  }

  lemma Counted(keys: set<Bytes>, b: Books)
    requires IdsOk(keys, b.ids, InUse(b), Unused(b), b.next)
    ensures |keys| == |InUse(b)| && |InUse(b)| + |Unused(b)| == b.next
  {
    AsManyIds(b.ids, InUse(b));
    assert |b.ids| == |b.ids.Keys|;
    CardExact(InUse(b) + Unused(b), b.next);
  }
}
