/** A table's row bookkeeping and bitmap indexes as plain values: when they agree with the table, and that
    every write keeps them so. */
module RowModel {
  import opened IdSpace
  import opened VecShapes
  import opened TableSchema
  import opened SetStore

  /** ids: primary key to row id; vec: row id to row; sets: the ids in use, the free ones, and the ids per
      value of each bitmap index; next: the first id never used. */
  datatype Books = Books(ids: map<Bytes, nat>, vec: Contents, sets: map<Place, set<nat>>, next: nat)

  const NO_BOOKS: Books := Books(map[], map[], map[], 0)

  function InUse(b: Books): set<nat> { SetAt(b.sets, AllIds) }

  function Unused(b: Books): set<nat> { SetAt(b.sets, FreeIds) }

  // ---------------------------------------------------------------- agreement with the table

  /** The ids of the rows that have a value in an index: what a scan of the table would collect. */
  ghost function Scan(ix: Index, key: Bytes, primary: map<Bytes, Row>, ids: map<Bytes, nat>): set<nat>
  {
    set k | k in primary && k in ids && Has(ix, primary[k], key) :: ids[k]
  }

  /** The row ids: a bijection from the primary keys onto the ids in use; those and the free ones are
      exactly the ids below next. */
  ghost predicate IdsOk(keys: set<Bytes>, ids: map<Bytes, nat>, used: set<nat>, unused: set<nat>, next: nat)
  {
    && ids.Keys == keys
    && (forall k, l :: k in ids && l in ids && ids[k] == ids[l] ==> k == l)
    && (forall id: nat :: id in used <==> exists k :: k in ids && ids[k] == id)
    && (forall id: nat :: id in used || id in unused <==> id < next)
    && used !! unused
  }

  ghost predicate VecOk(primary: map<Bytes, Row>, ids: map<Bytes, nat>, used: set<nat>, vec: Contents)
  {
    && vec.Keys == used
    && forall k :: k in primary && k in ids ==> ids[k] in vec && vec[ids[k]] == primary[k]
  }

  ghost predicate SetsOk(bitmaps: seq<Index>, primary: map<Bytes, Row>, ids: map<Bytes, nat>, sets: map<Place,
                         set<nat>>)
  {
    && (forall i, key :: 0 <= i < |bitmaps| ==> SetAt(sets, ValueSet(i, key)) == Scan(bitmaps[i], key, primary, ids))
    && (forall p :: p in sets && p.ValueSet? ==> p.index < |bitmaps|)
    && NoneEmpty(sets)
  }

  ghost predicate NoneEmpty(sets: map<Place, set<nat>>)
  {
    forall p :: p in sets && p.ValueSet? ==> sets[p] != {}
  }

  ghost predicate Agrees(s: Schema, primary: map<Bytes, Row>, b: Books)
  {
    && IdsOk(primary.Keys, b.ids, InUse(b), Unused(b), b.next)
    && b.next < UINT32
    && VecOk(primary, b.ids, InUse(b), b.vec)
    && SetsOk(s.bitmaps, primary, b.ids, b.sets)
  }

  // ---------------------------------------------------------------- one write

  /** The id a new row gets: the least free one, else the next. */
  ghost function NewId(b: Books): nat
  {
    NextId(Unused(b), b.next)
  }

  ghost function NextId(unused: set<nat>, next: nat): nat
  {
    if unused == {} then next else Least(unused)
  }

  predicate IsLeast(m: nat, ids: set<nat>)
  {
    m in ids && forall x :: x in ids ==> m <= x
  }

  ghost function Least(ids: set<nat>): (m: nat)
    requires ids != {}
    ensures IsLeast(m, ids)
  {
    LeastExists(ids);
    var m :| IsLeast(m, ids);
    m
  }

  lemma LeastIs(m: nat, ids: set<nat>)
    requires m in ids && forall x :: x in ids ==> m <= x
    ensures Least(ids) == m && NextId(ids, 0) == m && forall n :: NextId(ids, n) == m
  {
  }

  lemma {:induction false} LeastExists(ids: set<nat>)
    requires ids != {}
    ensures exists m :: IsLeast(m, ids)
  {
    var y :| y in ids;
    var rest := ids - {y};
    if rest == {} {
      assert ids == {y};
      assert IsLeast(y, ids);
    } else {
      LeastExists(rest);
      var m :| IsLeast(m, rest);
      assert ids == {y} + rest;
      assert IsLeast(if m <= y then m else y, ids);
    }
  }

  /** What a write makes of the set at p, from the values the row had and those it has. */
  function MovedAt(s: set<nat>, p: Place, id: nat, olds: seq<seq<Bytes>>, news: seq<seq<Bytes>>): set<nat>
    requires |olds| == |news|
  {
    if !p.ValueSet? || p.index >= |news| then s
    else if p.key in olds[p.index] && p.key !in news[p.index] then s - {id}
    else if p.key !in olds[p.index] && p.key in news[p.index] then s + {id}
    else s
  }

  /** Only rows below the given index have been moved so far. */
  ghost predicate Moved(before: map<Place, set<nat>>, after: map<Place, set<nat>>, id: nat, olds: seq<seq<Bytes>>,
                        news: seq<seq<Bytes>>)
    requires |olds| == |news|
  {
    forall p: Place :: p.ValueSet? ==> SetAt(after, p) == MovedAt(SetAt(before, p), p, id, olds, news)
  }

  /** What one write does: obj (Nil for a delete) takes the place of the row under key k, if there was one. */
  ghost predicate Applied(b: Books, b': Books, k: Bytes, obj: Value, existed: bool, olds: seq<seq<Bytes>>,
                          news: seq<seq<Bytes>>)
    requires |olds| == |news| && (existed ==> k in b.ids)
  {
    var id := if existed then b.ids[k] else NewId(b);
    && b'.ids == (if obj == Nil then b.ids - {k} else b.ids[k := id])
    && b'.vec == Put(b.vec, id, obj)
    && b'.next == (if existed || Unused(b) != {} then b.next else b.next + 1)
    && InUse(b') == (if obj == Nil then InUse(b) - {id} else InUse(b) + {id})
    && Unused(b') == (if obj == Nil then Unused(b) + {id} else if existed then Unused(b) else Unused(b) - {id})
    && Moved(b.sets, b'.sets, id, olds, news)
    && NoneEmpty(b'.sets) && (forall p :: p in b'.sets && p.ValueSet? ==> p in b.sets || p.index < |news|)
  }

  /** The table after the write. */
  ghost function Written(primary: map<Bytes, Row>, k: Bytes, obj: Value): map<Bytes, Row>
  {
    if obj == Nil then primary - {k} else primary[k := obj]
  }

  ghost function ValuesOf(bitmaps: seq<Index>, row: Value): (r: seq<seq<Bytes>>)
    ensures |r| == |bitmaps|
    ensures forall i :: 0 <= i < |r| ==> r[i] == if row == Nil then [] else ListOf(bitmaps[i].values(row))
  {
    seq(|bitmaps|, i requires 0 <= i < |bitmaps| => if row == Nil then [] else ListOf(bitmaps[i].values(row)))
  }

  ghost function RowAt(primary: map<Bytes, Row>, k: Bytes): Value
  {
    if k in primary then primary[k] else Nil
  }

  /** A key keeps its id, a new key gets an unused one, a deleted key gives its id back. */
  lemma IdsKept(keys: set<Bytes>, b: Books, b': Books, k: Bytes, obj: Value)
    requires IdsOk(keys, b.ids, InUse(b), Unused(b), b.next) && (obj == Nil ==> k in keys)
    requires var id := if k in keys then b.ids[k] else NewId(b);
      && b'.ids == (if obj == Nil then b.ids - {k} else b.ids[k := id])
      && b'.next == (if k in keys || Unused(b) != {} then b.next else b.next + 1)
      && InUse(b') == (if obj == Nil then InUse(b) - {id} else InUse(b) + {id})
      && Unused(b') == (if obj == Nil then Unused(b) + {id} else if k in keys then Unused(b) else Unused(b) - {id})
    ensures IdsOk(if obj == Nil then keys - {k} else keys + {k}, b'.ids, InUse(b'), Unused(b'), b'.next)
    ensures k !in keys ==> NewId(b) !in InUse(b)
    ensures k in keys ==> b.ids[k] in InUse(b)
  {
    var id := if k in keys then b.ids[k] else NewId(b);
    forall x | x in InUse(b')
      ensures exists l :: l in b'.ids && b'.ids[l] == x
    {
      if x == id && obj != Nil {
        assert b'.ids[k] == x;
      } else {
        var l :| l in b.ids && b.ids[l] == x;
        assert l in b'.ids && b'.ids[l] == x;
      }
    }
    forall l | l in b'.ids
      ensures b'.ids[l] in InUse(b')
    {
      if l != k {
        assert l in b.ids && b.ids[l] in InUse(b);
      }
    }
    assert forall x: nat :: x in InUse(b) || x in Unused(b) <==> x < b.next;
  }

  lemma VecKept(primary: map<Bytes, Row>, b: Books, b': Books, k: Bytes, obj: Value, id: nat)
    requires VecOk(primary, b.ids, InUse(b), b.vec) && (obj == Nil ==> k in primary) && primary.Keys == b.ids.Keys
    requires b'.ids == (if obj == Nil then b.ids - {k} else b.ids[k := id]) && b'.vec == Put(b.vec, id, obj)
    requires InUse(b') == (if obj == Nil then InUse(b) - {id} else InUse(b) + {id})
    requires k in b.ids ==> id == b.ids[k]
    requires forall l :: l in b.ids && b.ids[l] == id ==> l == k
    ensures VecOk(Written(primary, k, obj), b'.ids, InUse(b'), b'.vec)
  {
  }

  lemma SetsKept(bitmaps: seq<Index>, primary: map<Bytes, Row>, b: Books, b': Books, k: Bytes, obj: Value, id: nat)
    requires SetsOk(bitmaps, primary, b.ids, b.sets) && (obj == Nil ==> k in primary) && primary.Keys == b.ids.Keys
    requires b'.ids == (if obj == Nil then b.ids - {k} else b.ids[k := id])
    requires k in b.ids ==> id == b.ids[k]
    requires forall l :: l in b.ids && b.ids[l] == id ==> l == k
    requires Moved(b.sets, b'.sets, id, ValuesOf(bitmaps, RowAt(primary, k)), ValuesOf(bitmaps, obj))
    requires NoneEmpty(b'.sets) && (forall p :: p in b'.sets && p.ValueSet? ==> p in b.sets || p.index < |bitmaps|)
    ensures SetsOk(bitmaps, Written(primary, k, obj), b'.ids, b'.sets)
  {
    hide NoneEmpty;
    forall i, key | 0 <= i < |bitmaps|
      ensures SetAt(b'.sets, ValueSet(i, key)) == Scan(bitmaps[i], key, Written(primary, k, obj), b'.ids)
    {
      ScanMoved(bitmaps, i, key, primary, b.ids, b'.ids, k, obj, id);
      assert SetAt(b.sets, ValueSet(i, key)) == Scan(bitmaps[i], key, primary, b.ids);
    }
  }

  /** A scan after the write finds what the scan before found, except for the row written. */
  lemma ScanMoved(bitmaps: seq<Index>, i: nat, key: Bytes, primary: map<Bytes, Row>, ids: map<Bytes, nat>,
                  ids': map<Bytes, nat>, k: Bytes, obj: Value, id: nat)
    requires i < |bitmaps| && (obj == Nil ==> k in primary) && primary.Keys == ids.Keys
    requires ids' == (if obj == Nil then ids - {k} else ids[k := id])
    requires k in ids ==> id == ids[k]
    requires forall l :: l in ids && ids[l] == id ==> l == k
    ensures Scan(bitmaps[i], key, Written(primary, k, obj), ids') ==
      MovedAt(Scan(bitmaps[i], key, primary, ids), ValueSet(i, key), id, ValuesOf(bitmaps, RowAt(primary, k)),
        ValuesOf(bitmaps, obj))
  {
    var was, now := Scan(bitmaps[i], key, primary, ids), Scan(bitmaps[i], key, Written(primary, k, obj), ids');
    forall x | x != id
      ensures x in was <==> x in now
    {
      if x in was {
        var l :| l in primary && l in ids && Has(bitmaps[i], primary[l], key) && ids[l] == x;
        assert l in Written(primary, k, obj) && l in ids' && ids'[l] == x;
      }
      if x in now {
        var l :|
          l in Written(primary, k, obj) && l in ids' && Has(bitmaps[i], Written(primary, k, obj)[l], key)
            && ids'[l] == x;
        assert l in primary && l in ids && ids[l] == x;
      }
    }
    assert id in was <==> k in primary && Has(bitmaps[i], primary[k], key) by {
      if k in primary && Has(bitmaps[i], primary[k], key) {
        assert ids[k] == id;
      }
    }
    assert id in now <==> obj != Nil && Has(bitmaps[i], obj, key) by {
      if obj != Nil && Has(bitmaps[i], obj, key) {
        assert k in Written(primary, k, obj) && ids'[k] == id;
      }
    }
    assert key in ValuesOf(bitmaps, RowAt(primary, k))[i] <==> k in primary && Has(bitmaps[i], primary[k], key);
    assert key in ValuesOf(bitmaps, obj)[i] <==> obj != Nil && Has(bitmaps[i], obj, key);
  }

  /** The main step: a write that moves the row from its old values to its new ones keeps the bitmap
      indexes in agreement with the table. */
  lemma WriteAgrees(s: Schema, primary: map<Bytes, Row>, b: Books, b': Books, k: Bytes, obj: Value)
    requires Agrees(s, primary, b) && (obj == Nil ==> k in primary)
    requires Applied(b, b', k, obj, k in primary, ValuesOf(s.bitmaps, RowAt(primary, k)), ValuesOf(s.bitmaps, obj))
    requires k !in primary && Unused(b) == {} ==> b.next + 1 < UINT32
    ensures Agrees(s, Written(primary, k, obj), b')
  {
    hide IdsOk, VecOk, SetsOk, Moved, NoneEmpty, InUse, Unused, NewId, ValuesOf, Put;
    IdsFacts(primary.Keys, b);
    var id := if k in primary then b.ids[k] else NewId(b);
    IdsKept(primary.Keys, b, b', k, obj);
    assert Written(primary, k, obj).Keys == if obj == Nil then primary.Keys - {k} else primary.Keys + {k};
    VecKept(primary, b, b', k, obj, id);
    SetsKept(s.bitmaps, primary, b, b', k, obj, id);
  }

  lemma IdsFacts(keys: set<Bytes>, b: Books)
    requires IdsOk(keys, b.ids, InUse(b), Unused(b), b.next)
    ensures b.ids.Keys == keys
    ensures forall k :: k in b.ids ==> b.ids[k] in InUse(b)
    ensures forall k, l :: k in b.ids && l in b.ids && b.ids[k] == b.ids[l] ==> k == l
    ensures NewId(b) !in InUse(b)
  {
  }

  /** The empty table agrees with the empty bookkeeping. */
  lemma EmptyAgrees(s: Schema)
    ensures Agrees(s, map[], NO_BOOKS)
  {
    forall i, key | 0 <= i < |s.bitmaps|
      ensures SetAt(map[], ValueSet(i, key)) == Scan(s.bitmaps[i], key, map[], map[])
    {
    }
  }
}
