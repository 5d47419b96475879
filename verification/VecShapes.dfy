/** The shape of row-vector nodes as facts about values: 16 values to a leaf, 32 children to a directory node. */
module VecShapes {
  import opened IdSpace

  /** What a slot of the vector holds; Nil is the source's nil, an unset index. */
  datatype Value = Nil | Object(handle: nat)

  /** `(32 - leafBits + innerBits - 1) / innerBits`, which is `(32 - 4 + 5 - 1) / 5`. */
  const VEC_HEIGHT: nat := 6

  type Contents = map<nat, Value>

  function VecSpan(h: nat): nat { 4 + 5 * h }

  /** `i >> span(h)`. */
  function Above(h: nat, i: nat): nat
  {
    if h == 0 then i / 16 else Above(h - 1, i) / 32
  }

  /** `(i >> span(h-1)) & innerMask`. */
  function Branch(h: nat, i: nat): (s: nat)
    requires h > 0
    ensures s < 32
    ensures Above(h - 1, i) == 32 * Above(h, i) + s
  {
    Above(h - 1, i) % 32
  }

  /** `i & leafMask`. */
  function Low(i: nat): (s: nat)
    ensures s < 16
    ensures i == 16 * Above(0, i) + s
  {
    i % 16
  }

  /** The code's test for an index outside a vector of height h. */
  predicate Outside(h: nat, i: nat)
  {
    VecSpan(h) < 32 && Above(h, i) != 0
  }

  lemma InsideTop(i: nat, h: nat)
    requires i < UINT32 && h <= VEC_HEIGHT && !Outside(h, i)
    ensures Above(h, i) == 0
  {
    if h == 6 {
      assert Above(0, i) < 0x1000_0000;
      assert Above(1, i) < 0x80_0000;
      assert Above(2, i) < 0x4_0000;
      assert Above(3, i) < 0x2000;
      assert Above(4, i) < 0x100;
      assert Above(5, i) < 8;
    }
  }

  /** What a node's `used` counter holds: how many indexes are set, as a uint32. */
  function Used(m: Contents): nat
  {
    Wrap(|m|)
  }

  /** `used` as a uint32: zero exactly when nothing is set, or everything is. */
  lemma UsedZero(m: Contents)
    requires forall x :: x in m ==> x < UINT32
    ensures Used(m) == 0 <==> m == map[] || |m| == UINT32
    ensures |m| <= UINT32
  {
    assert |m| == |m.Keys|;
    CardBound(m.Keys, UINT32);
  }

  lemma UsedNone()
    ensures Used(map[]) == 0
  {
  }

  lemma UsedOne(i: nat, v: Value)
    ensures Used(map[i := v]) == 1
  {
    assert |map[i := v]| == 1;
  }

  function Put(m: Contents, i: nat, v: Value): Contents
  {
    if v == Nil then m - {i} else m[i := v]
  }

  // ---------------------------------------------------------------- leaves

  ghost predicate LeafShape(prefix: nat, vals: seq<Value>, m: Contents)
  {
    && |vals| == 16
    && (forall i :: i in m ==> Above(0, i) == prefix && m[i] == vals[Low(i)] && m[i] != Nil)
    && (forall i :: Above(0, i) == prefix && vals[Low(i)] != Nil ==> i in m)
  }

  lemma LeafPut(prefix: nat, vals: seq<Value>, m: Contents, i: nat, v: Value)
    requires LeafShape(prefix, vals, m) && Above(0, i) == prefix
    ensures i in m <==> vals[Low(i)] != Nil
    ensures LeafShape(prefix, vals[Low(i) := v], Put(m, i, v))
  {
    hide Above, Low;
    var now, m' := vals[Low(i) := v], Put(m, i, v);
    forall j | Above(0, j) == prefix && Low(j) == Low(i)
      ensures j == i
    {
      assert i == 16 * Above(0, i) + Low(i);
      assert j == 16 * Above(0, j) + Low(j);
    }
    forall j | Above(0, j) == prefix && now[Low(j)] != Nil
      ensures j in m'
    {
    }
  }

  // ---------------------------------------------------------------- directory nodes

  datatype VecPart = VecPart(prefix: nat, m: Contents)
  type VecParts = p: map<nat, VecPart> | forall s :: s in p ==> s < 32

  ghost predicate VecPartOk(h: nat, prefix: nat, s: nat, k: VecPart)
    requires h > 0
  {
    k.prefix == 32 * prefix + s && k.m != map[] && forall i :: i in k.m ==> Above(h - 1, i) == k.prefix && k.m[i] != Nil
  }

  ghost predicate InVecPart(h: nat, prefix: nat, parts: VecParts, m: Contents, i: nat)
    requires h > 0 && i in m
  {
    Above(h, i) == prefix && Branch(h, i) in parts && i in parts[Branch(h, i)].m && parts[Branch(h, i)].m[i] == m[i]
  }

  ghost predicate InnerShape(h: nat, prefix: nat, parts: VecParts, m: Contents)
  {
    && h > 0
    && (forall s :: s in parts ==> VecPartOk(h, prefix, s, parts[s]) && parts[s].m.Keys <= m.Keys)
    && (forall i :: i in m ==> InVecPart(h, prefix, parts, m, i))
  }

  ghost function PartAt(parts: VecParts, s: nat): Contents
  {
    if s in parts then parts[s].m else map[]
  }

  lemma PartsApart(h: nat, prefix: nat, s: nat, k: VecPart, t: nat, l: VecPart)
    requires h > 0 && VecPartOk(h, prefix, s, k) && VecPartOk(h, prefix, t, l) && s != t
    ensures k.m.Keys !! l.m.Keys
  {
    hide Above;
  }

  /** The other children keep their ids when the child in slot s loses its own. */
  lemma OthersStay(h: nat, prefix: nat, parts: VecParts, m: Contents, s: nat)
    requires InnerShape(h, prefix, parts, m)
    ensures forall t :: t in parts && t != s ==> parts[t].m.Keys <= (m - PartAt(parts, s).Keys).Keys
    ensures forall i :: i in m && i !in PartAt(parts, s) ==> InVecPart(h, prefix, parts, m, i) && Branch(h, i) != s
  {
    hide Above, Branch;
    forall t | t in parts && t != s
      ensures parts[t].m.Keys <= (m - PartAt(parts, s).Keys).Keys
    {
      assert VecPartOk(h, prefix, t, parts[t]);
      if s in parts {
        PartsApart(h, prefix, t, parts[t], s, parts[s]);
      }
    }
    forall i | i in m && i !in PartAt(parts, s)
      ensures InVecPart(h, prefix, parts, m, i) && Branch(h, i) != s
    {
      assert InVecPart(h, prefix, parts, m, i);
    }
  }

  lemma StaysIn(h: nat, prefix: nat, parts: VecParts, m: Contents, now: VecParts, m': Contents, i: nat)
    requires h > 0 && i in m && InVecPart(h, prefix, parts, m, i) && i in m' && m'[i] == m[i]
    requires Branch(h, i) in now && now[Branch(h, i)] == parts[Branch(h, i)]
    ensures InVecPart(h, prefix, now, m', i)
  {
    hide Above, Branch;
  }

  lemma InBranch(h: nat, prefix: nat, parts: VecParts, m: Contents, i: nat)
    requires h > 0 && i in m && InVecPart(h, prefix, parts, m, i)
    ensures Branch(h, i) in parts
  {
  }

  lemma ComesIn(h: nat, prefix: nat, s: nat, k: VecPart, now: VecParts, m': Contents, i: nat)
    requires h > 0 && VecPartOk(h, prefix, s, k) && s < 32 && s in now && now[s] == k && i in k.m && i in m'
    requires m'[i] == k.m[i]
    ensures InVecPart(h, prefix, now, m', i)
  {
    hide Above, Branch;
    assert Above(h - 1, i) == 32 * Above(h, i) + Branch(h, i);
  }

  /** A new child for slot s; an absent child counts as an empty one. */
  lemma InnerReplace(h: nat, prefix: nat, parts: VecParts, m: Contents, s: nat, k: VecPart)
    requires InnerShape(h, prefix, parts, m) && s < 32 && VecPartOk(h, prefix, s, k)
    ensures InnerShape(h, prefix, parts[s := k], (m - PartAt(parts, s).Keys) + k.m)
  {
    hide Above, Branch, InVecPart, VecPartOk, PartAt;
    OthersStay(h, prefix, parts, m, s);
    var now: VecParts := parts[s := k];
    var m' := (m - PartAt(parts, s).Keys) + k.m;
    forall i | i in m'
      ensures InVecPart(h, prefix, now, m', i)
    {
      if i in k.m {
        ComesIn(h, prefix, s, k, now, m', i);
      } else {
        InBranch(h, prefix, parts, m, i);
        StaysIn(h, prefix, parts, m, now, m', i);
      }
    }
  }

  lemma InnerDrop(h: nat, prefix: nat, parts: VecParts, m: Contents, s: nat)
    requires InnerShape(h, prefix, parts, m)
    ensures InnerShape(h, prefix, parts - {s}, m - PartAt(parts, s).Keys)
  {
    hide Above, Branch, InVecPart, VecPartOk, PartAt;
    OthersStay(h, prefix, parts, m, s);
    var now: VecParts := parts - {s};
    var m' := m - PartAt(parts, s).Keys;
    forall i | i in m'
      ensures InVecPart(h, prefix, now, m', i)
    {
      InBranch(h, prefix, parts, m, i);
      StaysIn(h, prefix, parts, m, now, m', i);
    }
  }

  /** A node holds of the range of slot s what the child there holds. */
  lemma PartDecides(h: nat, prefix: nat, parts: VecParts, m: Contents, i: nat)
    requires InnerShape(h, prefix, parts, m) && Above(h, i) == prefix
    ensures i in m <==> i in PartAt(parts, Branch(h, i))
    ensures i in m ==> m[i] == PartAt(parts, Branch(h, i))[i] && m[i] != Nil
  {
    hide Above, Branch;
    var s := Branch(h, i);
    if i in m {
      assert InVecPart(h, prefix, parts, m, i);
    }
    if s in parts {
      assert VecPartOk(h, prefix, s, parts[s]);
    }
  }

  lemma InRange(h: nat, prefix: nat, parts: VecParts, m: Contents, s: nat, j: nat)
    requires InnerShape(h, prefix, parts, m) && s in parts && j in parts[s].m
    ensures j in m && InVecPart(h, prefix, parts, m, j) && VecPartOk(h, prefix, s, parts[s])
  {
    hide Above, Branch, InVecPart, VecPartOk;
  }

  lemma SameBranch(h: nat, prefix: nat, s: nat, k: VecPart, j: nat)
    requires h > 0 && VecPartOk(h, prefix, s, k) && j in k.m && Above(h, j) == prefix
    ensures Branch(h, j) == s
  {
    hide Above, Branch;
  }

  /** A child agrees with its node. */
  lemma PartAgrees(h: nat, prefix: nat, parts: VecParts, m: Contents, s: nat, j: nat)
    requires InnerShape(h, prefix, parts, m) && s in parts && j in parts[s].m
    ensures j in m && m[j] == parts[s].m[j]
  {
    hide Above, Branch, VecPartOk, InnerShape;
    InnerTall(h, prefix, parts, m);
    InRange(h, prefix, parts, m, s, j);
    SameBranch(h, prefix, s, parts[s], j);
  }

  /** The contents of a node whose child in the slot of i changes at i. */
  lemma PutSplit(h: nat, prefix: nat, parts: VecParts, m: Contents, i: nat, v: Value)
    requires InnerShape(h, prefix, parts, m) && Above(h, i) == prefix
    ensures var was := PartAt(parts, Branch(h, i));
      (m - was.Keys) + Put(was, i, v) == Put(m, i, v) && (i in m <==> i in was) && was.Keys <= m.Keys
  {
    hide Above, Branch, InVecPart, VecPartOk, InnerShape;
    InnerTall(h, prefix, parts, m);
    PartDecides(h, prefix, parts, m, i);
    var s := Branch(h, i);
    var was := PartAt(parts, s);
    forall j | j in was
      ensures j in m && m[j] == was[j]
    {
      PartAgrees(h, prefix, parts, m, s, j);
    }
    PutJoin(m, was, i, v);
  }

  lemma InnerTall(h: nat, prefix: nat, parts: VecParts, m: Contents)
    requires InnerShape(h, prefix, parts, m)
    ensures h > 0
  {
  }

  lemma PutJoin(m: Contents, was: Contents, i: nat, v: Value)
    requires forall j :: j in was ==> j in m && m[j] == was[j]
    requires i in m <==> i in was
    ensures (m - was.Keys) + Put(was, i, v) == Put(m, i, v)
  {
  }

  // ---------------------------------------------------------------- the `used` counters

  /** The `used` bookkeeping: what one index adds or removes. */
  function UsedAfter(used: nat, was: bool, now: bool): nat
  {
    if was && !now then Wrap(used - 1) else if !was && now then Wrap(used + 1) else used
  }

  lemma UsedExact(m: Contents, i: nat, v: Value)
    ensures UsedAfter(Used(m), i in m, v != Nil) == Used(Put(m, i, v))
  {
    hide Put;
    CountPut(m, i, v);
    WrapAdd(|m|, if i in m && v == Nil then -1 else if i !in m && v != Nil then 1 else 0);
  }

  /** Adding the child's new count and subtracting its old one, modulo 2^32, keeps a directory node's count. */
  lemma UsedThrough(m: Contents, was: Contents, i: nat, v: Value)
    requires i in m <==> i in was
    ensures Wrap(Used(m) + Used(Put(was, i, v)) - Used(was)) == Used(Put(m, i, v))
  {
    hide Put;
    var d := if i in m && v == Nil then -1 else if i !in m && v != Nil then 1 else 0;
    CountPut(m, i, v);
    CountPut(was, i, v);
    WrapDiff(|m|, |was|, d);
  }

  lemma CountPut(m: Contents, i: nat, v: Value)
    ensures |Put(m, i, v)| == |m| + (if i in m && v == Nil then -1 else if i !in m && v != Nil then 1 else 0)
  {
    assert |m| == |m.Keys| && |Put(m, i, v)| == |Put(m, i, v).Keys|;
    if v == Nil {
      assert Put(m, i, v).Keys == m.Keys - {i};
    } else {
      assert Put(m, i, v).Keys == m.Keys + {i};
    }
  }

  /** Setting the only index that was still unset brings the count to zero: the vector then counts as empty. */
  lemma LastIndexEmpties(m: Contents, i: nat, v: Value)
    requires i < UINT32 && v != Nil && forall x: nat :: x in m <==> x < UINT32 && x != i
    ensures Put(m, i, v) != map[] && Used(Put(m, i, v)) == 0
  {
    assert i in Put(m, i, v);
    CardExact(Put(m, i, v).Keys, UINT32);
  }

  lemma WrapDiff(a: nat, b: nat, d: int)
    requires b + d >= 0
    ensures Wrap(Wrap(a) + Wrap(b + d) - Wrap(b)) == Wrap(a + d)
  {
  }

  /** A subtree below the top level misses some index, so its count never wraps to zero. */
  lemma NotFull(m: Contents, h: nat, prefix: nat)
    requires h < VEC_HEIGHT && forall i :: i in m ==> i < UINT32 && Above(h, i) == prefix
    ensures |m| < UINT32
  {
    var x := if prefix == 0 then UINT32 - 1 else 0;
    assert Above(h, x) != prefix by { AboveEnds(h); }
    assert x !in m;
    assert |m| == |m.Keys| && |m.Keys + {x}| == |m.Keys| + 1;
    CardBound(m.Keys + {x}, UINT32);
  }

  lemma AboveEnds(h: nat)
    requires h < VEC_HEIGHT
    ensures Above(h, 0) == 0 && Above(h, UINT32 - 1) != 0
  {
    assert Above(0, 0) == 0 && Above(1, 0) == 0 && Above(2, 0) == 0 && Above(3, 0) == 0 && Above(4, 0) == 0;
    var x := UINT32 - 1;
    assert Above(0, x) == 0xfff_ffff && Above(1, x) == 0x7f_ffff && Above(2, x) == 0x3_ffff && Above(3, x) == 0x1fff
      && Above(4, x) == 0xff;
  }
}
