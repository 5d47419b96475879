/** Ordinary indexes: how a write brings one in line with the table, and when that keeps them in agreement. */
module OrdinaryIndex {
  import opened VecShapes
  import opened TableSchema
  import opened RowModel
  import J = Juuri

  type Tree = map<Bytes, Row>

  /** The tree after all the old keys have been deleted and then all the new ones inserted. */
  function Replaced(m: Tree, olds: seq<Bytes>, news: seq<Bytes>, row: Row): Tree
  {
    map key | key in m.Keys + (set x | x in news) && (key in news || key !in olds) ::
      if key in news then row else m[key]
  }

  /** What the comparison by position leaves: old keys may stay only if they are inserted again. */
  ghost predicate Leaves(m: Tree, olds: seq<Bytes>, news: seq<Bytes>, left: Tree)
  {
    && (forall key :: key in left ==> key in m && left[key] == m[key])
    && (forall key :: key in m && key !in olds ==> key in left)
    && (forall key :: key in left && key in olds ==> key in news)
  }

  /** Old and new keys are compared position by position; only the positions that differ are deleted. The
      effect is that of deleting every old key and inserting every new one. */
  method Replace(it: J.Txn<Bytes, Row>, okOld: bool, olds: seq<Bytes>, news: seq<Bytes>, row: Row)
    requires it.Valid()
    modifies it`tree, it`dirty, it.Reach()
    ensures it.Valid() && it.Contents() == Replaced(old(it.Contents()), if okOld then olds else [], news, row)
    ensures forall x :: x in it.Reach() ==> x in old(it.Reach()) || fresh(x)
  {
    hide Leaves, Gains, Replaced, J.Txn.Valid, J.Txn.Reach;
    ghost var m := it.Contents();
    NoneLeaves(m, news);
    if okOld {
      var k := 0;
      while k < |olds|
        invariant k <= |olds| && it.Valid() && Leaves(m, olds[..k], news, it.Contents())
        invariant forall x :: x in it.Reach() ==> x in old(it.Reach()) || fresh(x)
      {
        OneLeaves(m, olds, k, news, it.Contents());
        if k >= |news| || olds[k] != news[k] {
          it.Delete(olds[k]);
        }
        k := k + 1;
      }
      assert olds[..|olds|] == olds;
    }
    ghost var left := it.Contents();
    NoneGains(left, row);
    var k := 0;
    while k < |news|
      invariant k <= |news| && it.Valid() && Gains(left, news[..k], row, it.Contents())
      invariant forall x :: x in it.Reach() ==> x in old(it.Reach()) || fresh(x)
    {
      OneGains(left, news, k, row, it.Contents());
      it.Insert(news[k], row);
      k := k + 1;
    }
    assert news[..|news|] == news;
    LeavesGains(m, if okOld then olds else [], news, row, left, it.Contents());
  }

  lemma NoneLeaves(m: Tree, news: seq<Bytes>)
    ensures Leaves(m, [], news, m)
  {
  }

  lemma OneLeaves(m: Tree, olds: seq<Bytes>, k: nat, news: seq<Bytes>, now: Tree)
    requires k < |olds| && Leaves(m, olds[..k], news, now)
    ensures Leaves(m, olds[..k + 1], news, if k >= |news| || olds[k] != news[k] then now - {olds[k]} else now)
  {
    assert olds[..k + 1] == olds[..k] + [olds[k]];
  }

  /** now is m with the row under the new keys. */
  ghost predicate Gains(m: Tree, news: seq<Bytes>, row: Row, now: Tree)
  {
    && (forall key :: key in now <==> key in m || key in news)
    && (forall key :: key in now ==> now[key] == if key in news then row else m[key])
  }

  lemma NoneGains(m: Tree, row: Row)
    ensures Gains(m, [], row, m)
  {
  }

  lemma OneGains(m: Tree, news: seq<Bytes>, k: nat, row: Row, now: Tree)
    requires k < |news| && Gains(m, news[..k], row, now)
    ensures Gains(m, news[..k + 1], row, now[news[k] := row])
  {
    assert news[..k + 1] == news[..k] + [news[k]];
  }

  lemma LeavesGains(m: Tree, olds: seq<Bytes>, news: seq<Bytes>, row: Row, left: Tree, now: Tree)
    requires Leaves(m, olds, news, left) && Gains(left, news, row, now)
    ensures now == Replaced(m, olds, news, row)
  {
  }

  /** Deleting the keys of a row, one after the other. */
  method Remove(it: J.Txn<Bytes, Row>, olds: seq<Bytes>)
    requires it.Valid()
    modifies it`tree, it`dirty, it.Reach()
    ensures it.Valid() && it.Contents() == old(it.Contents()) - (set x | x in olds)
    ensures forall x :: x in it.Reach() ==> x in old(it.Reach()) || fresh(x)
  {
    var k := 0;
    while k < |olds|
      invariant k <= |olds| && it.Valid() && it.Contents() == old(it.Contents()) - (set x | x in olds[..k])
      invariant forall x :: x in it.Reach() ==> x in old(it.Reach()) || fresh(x)
    {
      assert olds[..k + 1] == olds[..k] + [olds[k]];
      it.Delete(olds[k]);
      k := k + 1;
    }
    assert olds[..|olds|] == olds;
  }

  /** The keys of a row: its values, made unique by the primary key if need be. */
  function KeysAt(ix: Index, row: Value, k: Bytes): seq<Bytes>
  {
    if row == Nil then [] else Suffixed(ListOf(ix.values(row)), if ix.unique then [] else k)
  }

  /** The index holds exactly the keys of the rows of the table, each leading to its row. */
  predicate Indexed(ix: Index, primary: map<Bytes, Row>, m: Tree)
  {
    && (forall key :: key in m ==> exists k :: k in primary && key in KeysAt(ix, primary[k], k))
    && (forall k, key :: k in primary && key in KeysAt(ix, primary[k], k) ==> key in m && m[key] == primary[k])
  }

  /** No other row has any of the keys the new row has. */
  ghost predicate OwnKeys(ix: Index, primary: map<Bytes, Row>, k: Bytes, obj: Value)
  {
    forall l, key :: l in primary && l != k && key in KeysAt(ix, obj, k) ==> key !in KeysAt(ix, primary[l], l)
  }

  /** Rows are stored under their primary keys. */
  ghost predicate Keyed(s: Schema, primary: map<Bytes, Row>)
  {
    forall k :: k in primary ==> s.primaryKey(primary[k]) == Key(k)
  }

  lemma KeyedPut(s: Schema, primary: map<Bytes, Row>, k: Bytes, row: Row)
    requires Keyed(s, primary) && s.primaryKey(row) == Key(k)
    ensures Keyed(s, primary[k := row])
  {
  }

  lemma KeyedLess(s: Schema, primary: map<Bytes, Row>, k: Bytes)
    requires Keyed(s, primary)
    ensures Keyed(s, primary - {k})
  {
  }

  /** An index in agreement stays so exactly if no other row has a key of the new row; a delete always
      keeps it. */
  lemma ReplacedAgrees(s: Schema, ix: Index, primary: map<Bytes, Row>, m: Tree, k: Bytes, obj: Value)
    requires Indexed(ix, primary, m) && Keyed(s, primary) && (obj != Nil ==> s.primaryKey(obj) == Key(k))
    ensures obj != Nil ==>
      var m' := Replaced(m, KeysAt(ix, RowAt(primary, k), k), KeysAt(ix, obj, k), obj);
      Indexed(ix, Written(primary, k, obj), m') <==> OwnKeys(ix, primary, k, obj)
    ensures obj == Nil ==> Indexed(ix, Written(primary, k, obj), m - (set x | x in KeysAt(ix, RowAt(primary, k), k)))
  {
    hide KeysAt, Indexed, OwnKeys;
    if obj == Nil {
      DeleteAgrees(s, ix, primary, m, k);
    } else {
      if OwnKeys(ix, primary, k, obj) {
        InsertAgrees(s, ix, primary, m, k, obj);
      }
      var m' := Replaced(m, KeysAt(ix, RowAt(primary, k), k), KeysAt(ix, obj, k), obj);
      if Indexed(ix, primary[k := obj], m') {
        AgreesOwn(s, ix, primary, m', k, obj);
      }
    }
  }

  lemma NoKeysOfNil(ix: Index, k: Bytes)
    ensures KeysAt(ix, Nil, k) == []
  {
  }

  lemma DeleteAgrees(s: Schema, ix: Index, primary: map<Bytes, Row>, m: Tree, k: Bytes)
    requires Indexed(ix, primary, m) && Keyed(s, primary)
    ensures Indexed(ix, primary - {k}, m - (set x | x in KeysAt(ix, RowAt(primary, k), k)))
  {
    hide KeysAt, ListOf, Suffixed, Keyed;
    Separate(s, ix, primary, m);
    NoKeysOfNil(ix, k);
    var m' := m - (set x | x in KeysAt(ix, RowAt(primary, k), k));
    forall key | key in m'
      ensures exists l :: l in primary - {k} && key in KeysAt(ix, (primary - {k})[l], l)
    {
      var l :| l in primary && key in KeysAt(ix, primary[l], l);
      assert l in primary - {k} && key in KeysAt(ix, (primary - {k})[l], l);
    }
  }

  lemma InsertAgrees(s: Schema, ix: Index, primary: map<Bytes, Row>, m: Tree, k: Bytes, obj: Row)
    requires Indexed(ix, primary, m) && Keyed(s, primary) && OwnKeys(ix, primary, k, obj)
    ensures Indexed(ix, primary[k := obj], Replaced(m, KeysAt(ix, RowAt(primary, k), k), KeysAt(ix, obj, k), obj))
  {
    hide KeysAt, ListOf, Suffixed, Keyed;
    Separate(s, ix, primary, m);
    NoKeysOfNil(ix, k);
    var primary' := primary[k := obj];
    var news := KeysAt(ix, obj, k);
    var m' := Replaced(m, KeysAt(ix, RowAt(primary, k), k), news, obj);
    forall key | key in m'
      ensures exists l :: l in primary' && key in KeysAt(ix, primary'[l], l)
    {
      if key in news {
        assert k in primary' && key in KeysAt(ix, primary'[k], k);
      } else {
        var l :| l in primary && key in KeysAt(ix, primary[l], l);
        assert l in primary' && key in KeysAt(ix, primary'[l], l);
      }
    }
  }

  lemma AgreesOwn(s: Schema, ix: Index, primary: map<Bytes, Row>, m': Tree, k: Bytes, obj: Row)
    requires Keyed(s, primary) && s.primaryKey(obj) == Key(k) && Indexed(ix, primary[k := obj], m')
    ensures OwnKeys(ix, primary, k, obj)
  {
    hide KeysAt;
    Separate(s, ix, primary[k := obj], m');
  }

  /** In an index that agrees, different rows have different keys. */
  lemma Separate(s: Schema, ix: Index, primary: map<Bytes, Row>, m: Tree)
    requires Indexed(ix, primary, m) && Keyed(s, primary)
    ensures forall k, l, key ::
      k in primary && l in primary && key in KeysAt(ix, primary[k], k) && key in KeysAt(ix, primary[l], l) ==> k == l
  {
    forall k, l, key | k in primary && l in primary && key in KeysAt(ix, primary[k], k)
      && key in KeysAt(ix, primary[l], l)
      ensures k == l
    {
      assert m[key] == primary[k] && m[key] == primary[l];
      assert Key(k) == s.primaryKey(m[key]) == Key(l);
    }
  }

  /** No value is a proper prefix of another. */
  ghost predicate PrefixFree(vals: set<Bytes>)
  {
    forall v, w :: v in vals && w in vals && v <= w ==> v == w
  }

  lemma SuffixSplits(v: Bytes, k: Bytes, w: Bytes, l: Bytes)
    requires v + k == w + l && |v| <= |w|
    ensures v <= w && (v == w ==> k == l)
  {
    assert v == (v + k)[..|v|] == (w + l)[..|v|] == w[..|v|];
    if v == w {
      assert k == (v + k)[|v|..] == (w + l)[|w|..] == l;
    }
  }

  /** With prefix-free values, a non-unique index always gives different rows different keys. */
  lemma PrefixFreeOwn(ix: Index, primary: map<Bytes, Row>, k: Bytes, obj: Row, vals: set<Bytes>)
    requires !ix.unique && PrefixFree(vals)
    requires forall l, v :: l in primary && v in ListOf(ix.values(primary[l])) ==> v in vals
    requires forall v :: v in ListOf(ix.values(obj)) ==> v in vals
    ensures OwnKeys(ix, primary, k, obj)
  {
    forall l, key | l in primary && key in KeysAt(ix, obj, k) && key in KeysAt(ix, primary[l], l)
      ensures l == k
    {
      var v, w := SplitKey(ix, obj, k, key), SplitKey(ix, primary[l], l, key);
      if |v| <= |w| {
        SuffixSplits(v, k, w, l);
      } else {
        SuffixSplits(w, l, v, k);
      }
      assert v in vals && w in vals;
    }
  }

  /** The value a key was made from. */
  ghost function SplitKey(ix: Index, row: Row, k: Bytes, key: Bytes): (v: Bytes)
    requires !ix.unique && key in KeysAt(ix, row, k)
    ensures v in ListOf(ix.values(row)) && key == v + k
  {
    var i :| 0 <= i < |KeysAt(ix, row, k)| && KeysAt(ix, row, k)[i] == key;
    ix.values(row).vals[i]
  }

  /** Without prefix-free values two rows can have the same key, and the index then loses one of them:
      the value 1 under the primary key 2,3 and the value 1,2 under the primary key 3. */
  lemma SharedKeyBreaks(s: Schema, ix: Index)
    requires !ix.unique && s.primaryKey(Object(0)) == Key([2, 3]) && s.primaryKey(Object(1)) == Key([3])
    requires ix.values(Object(0)) == Values([[1]]) && ix.values(Object(1)) == Values([[1, 2]])
    ensures var one: map<Bytes, Row> := map[[2, 3] := Object(0)];
      var m := map[[1, 2, 3] := Object(0)];
      Indexed(ix, one, m) && Keyed(s, one)
      && !Indexed(ix, one[[3] := Object(1)], Replaced(m, [], KeysAt(ix, Object(1), [3]), Object(1)))
  {
    var one: map<Bytes, Row> := map[[2, 3] := Object(0)];
    var m: Tree := map[[1, 2, 3] := Object(0)];
    assert KeysAt(ix, Object(0), [2, 3]) == [[1, 2, 3]] by { assert [1] + [2, 3] == [1, 2, 3]; }
    assert KeysAt(ix, Object(1), [3]) == [[1, 2, 3]] by { assert [1, 2] + [3] == [1, 2, 3]; }
    assert [2, 3] in one && [1, 2, 3] in KeysAt(ix, one[[2, 3]], [2, 3]);
    assert [1, 2, 3] in KeysAt(ix, Object(1), [3]);
    ReplacedAgrees(s, ix, one, m, [3], Object(1));
    assert !OwnKeys(ix, one, [3], Object(1));
  }
}
