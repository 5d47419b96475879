/** How many keys a compound product has and how long they are together, known before the first is built. */
module CompoundSizes {
  import opened TableSchema
  import opened KeyLists
  import opened CompoundKeys

  // ---------------------------------------------------------------- arithmetic

  lemma Distribute(a: nat, b: nat, c: nat)
    ensures a * (b + c) == a * b + a * c
  {
  }

  lemma Associate(a: nat, b: nat, c: nat)
    ensures a * (b * c) == (a * b) * c
    ensures a * (b * c) == b * (a * c)
  {
  }

  lemma DivideProduct(a: nat, q: nat, c: nat)
    requires c > 0
    ensures (a * (c * q)) / c == a * q && (c * q) / c == q
  {
    assert a * (c * q) == c * (a * q);
    Quotient(c, a * q);
    Quotient(c, q);
  }

  lemma Quotient(c: nat, n: nat)
    requires c > 0
    ensures (c * n) / c == n
  {
    UniqueQuotient(c, n, (c * n) / c, (c * n) % c);
  }

  lemma AtLeast(c: nat, x: int)
    ensures x >= 1 ==> c * x >= c
  {
  }

  lemma UniqueQuotient(c: nat, n: nat, q: int, r: nat)
    requires c * n == c * q + r && r < c
    ensures q == n
  {
    AtLeast(c, n - q);
    AtLeast(c, q - n);
    assert c * (n - q) == r;
  }

  // ---------------------------------------------------------------- level by level

  /** How many keys come from value i of a level on, whatever the prefix. */
  function Count(b: seq<seq<Bytes>>, allow: bool, d: nat, i: nat): nat
    requires d < |b|
    decreases |b| - d, if i < |b[d]| then |b[d]| - i else 0
  {
    if i >= |b[d]| then 0 else Each(b, allow, d) + Count(b, allow, d, i + 1)
  }

  /** How many keys begin with one value of a level. */
  function Each(b: seq<seq<Bytes>>, allow: bool, d: nat): nat
    requires d < |b|
    decreases |b| - d, -1
  {
    if d == |b| - 1 then 1 else (if allow then 1 else 0) + Count(b, allow, d + 1, 0)
  }

  /** The length of those keys without the prefix. */
  function Total(b: seq<seq<Bytes>>, allow: bool, d: nat, i: nat): nat
    requires d < |b|
    decreases |b| - d, if i < |b[d]| then |b[d]| - i else 0
  {
    if i >= |b[d]| then 0 else
      Each(b, allow, d) * |b[d][i]| + (if d == |b| - 1 then 0 else Total(b, allow, d + 1, 0))
        + Total(b, allow, d, i + 1)
  }

  lemma {:induction false} WalkSize(b: seq<seq<Bytes>>, allow: bool, p: Bytes, d: nat, i: nat)
    requires d < |b|
    ensures |Walk(b, allow, p, d, i)| == Count(b, allow, d, i)
    ensures Size(Walk(b, allow, p, d, i)) == Count(b, allow, d, i) * |p| + Total(b, allow, d, i)
    decreases |b| - d, if i < |b[d]| then |b[d]| - i else 0
  {
    hide Size;
    if i >= |b[d]| {
      NoSize(Walk(b, allow, p, d, i));
    } else {
      var next := p + b[d][i];
      var rest := Walk(b, allow, p, d, i + 1);
      WalkSize(b, allow, p, d, i + 1);
      if d == |b| - 1 {
        SizeAppend([next], rest);
        SizeOne(next);
      } else {
        WalkSize(b, allow, next, d + 1, 0);
        var first := if allow then [next] else [];
        NoSize([]);
        var below := Walk(b, allow, next, d + 1, 0);
        SizeAppend(first, below);
        SizeAppend(first + below, rest);
        SizeOne(next);
      }
      OneValue(Each(b, allow, d), |p|, |b[d][i]|, Count(b, allow, d, i + 1));
      if d < |b| - 1 {
        SplitEach(if allow then 1 else 0, Count(b, allow, d + 1, 0), |next|);
      }
    }
  }

  lemma SizeOne(v: Bytes)
    ensures Size([v]) == |v|
  {
    var one := [v];
    assert one[..0] == [];
  }

  lemma OneValue(e: nat, p: nat, v: nat, rest: nat)
    ensures e * (p + v) + rest * p == (e + rest) * p + e * v
  {
  }

  lemma SplitEach(one: nat, below: nat, next: nat)
    ensures (one + below) * next == one * next + below * next
  {
  }

  lemma {:induction false} SuffixedSize(keys: seq<Bytes>, suffix: Bytes)
    ensures Size(Suffixed(keys, suffix)) == Size(keys) + |keys| * |suffix|
  {
    if keys != [] {
      var rest := keys[..|keys| - 1];
      SuffixedSize(rest, suffix);
      assert Suffixed(keys, suffix)[..|keys| - 1] == Suffixed(rest, suffix);
      assert (|rest| + 1) * |suffix| == |rest| * |suffix| + |suffix|;
    }
  }

  // ---------------------------------------------------------------- depth by depth

  /** The number of combinations of the levels d..k. */
  function Combos(b: seq<seq<Bytes>>, d: nat, k: nat): nat
    requires k < |b|
    decreases |b| - d
  {
    if d > k then 1 else |b[d]| * Combos(b, d + 1, k)
  }

  /** Their total length. */
  function Length(b: seq<seq<Bytes>>, d: nat, k: nat): nat
    requires k < |b|
    decreases |b| - d
  {
    if d > k then 0 else Size(b[d]) * Combos(b, d + 1, k) + |b[d]| * Length(b, d + 1, k)
  }

  function SumCombos(b: seq<seq<Bytes>>, d: nat, k: nat): nat
    decreases |b| - k
  {
    if k >= |b| then 0 else Combos(b, d, k) + SumCombos(b, d, k + 1)
  }

  function SumLength(b: seq<seq<Bytes>>, d: nat, k: nat): nat
    decreases |b| - k
  {
    if k >= |b| then 0 else Length(b, d, k) + SumLength(b, d, k + 1)
  }

  lemma {:induction false} SumsBelow(b: seq<seq<Bytes>>, d: nat, k: nat)
    requires d < k
    ensures d < |b| ==> SumCombos(b, d, k) == |b[d]| * SumCombos(b, d + 1, k)
    ensures d < |b| ==> SumLength(b, d, k) == Size(b[d]) * SumCombos(b, d + 1, k) + |b[d]| * SumLength(b, d + 1, k)
    decreases |b| - k
  {
    if k < |b| {
      SumsBelow(b, d, k + 1);
      Distribute(|b[d]|, Combos(b, d + 1, k), SumCombos(b, d + 1, k + 1));
      Distribute(Size(b[d]), Combos(b, d + 1, k), SumCombos(b, d + 1, k + 1));
      Distribute(|b[d]|, Length(b, d + 1, k), SumLength(b, d + 1, k + 1));
    }
  }

  lemma {:induction false} CountFrom(b: seq<seq<Bytes>>, allow: bool, d: nat, i: nat)
    requires d < |b| && i <= |b[d]|
    ensures Count(b, allow, d, i) == (|b[d]| - i) * Each(b, allow, d)
    ensures Total(b, allow, d, i) ==
      Size(b[d][i..]) * Each(b, allow, d) + (|b[d]| - i) * (if d == |b| - 1 then 0 else Total(b, allow, d + 1, 0))
    decreases |b[d]| - i
  {
    hide Each, Size, Count, Total;
    CountStep(b, allow, d, i);
    var e, t := Each(b, allow, d), if d == |b| - 1 then 0 else Total(b, allow, d + 1, 0);
    if i < |b[d]| {
      CountFrom(b, allow, d, i + 1);
      var v, rest := b[d][i], b[d][i + 1..];
      assert b[d][i..] == [v] + rest;
      SizeAppend([v], rest);
      SizeOne(v);
      ValueMore(|v|, Size(rest), e, t, |b[d]| - i - 1);
    } else {
      NoSize(b[d][i..]);
    }
  }

  lemma NoSize(keys: seq<Bytes>)
    requires keys == []
    ensures Size(keys) == 0
  {
  }

  lemma CountStep(b: seq<seq<Bytes>>, allow: bool, d: nat, i: nat)
    requires d < |b| && i <= |b[d]|
    ensures i == |b[d]| ==> Count(b, allow, d, i) == 0 && Total(b, allow, d, i) == 0
    ensures i < |b[d]| ==> Count(b, allow, d, i) == Each(b, allow, d) + Count(b, allow, d, i + 1)
    ensures i < |b[d]| ==>
      Total(b, allow, d, i) ==
        Each(b, allow, d) * |b[d][i]| + (if d == |b| - 1 then 0 else Total(b, allow, d + 1, 0))
          + Total(b, allow, d, i + 1)
  {
    hide Each;
  }

  lemma ValueMore(v: nat, rest: nat, e: nat, t: nat, n: nat)
    ensures e + n * e == (n + 1) * e
    ensures e * v + t + (rest * e + n * t) == (v + rest) * e + (n + 1) * t
  {
  }

  /** The depth at which the keys of a product start. */
  function First(b: seq<seq<Bytes>>, allow: bool): nat
    requires b != []
  {
    if allow then 0 else |b| - 1
  }

  function From(b: seq<seq<Bytes>>, allow: bool, d: nat): nat
    requires b != []
  {
    if d < First(b, allow) then First(b, allow) else d
  }

  lemma {:induction false} CountSums(b: seq<seq<Bytes>>, allow: bool, d: nat)
    requires d < |b|
    ensures Count(b, allow, d, 0) == SumCombos(b, d, From(b, allow, d))
    ensures Total(b, allow, d, 0) == SumLength(b, d, From(b, allow, d))
    decreases |b| - d
  {
    CountFrom(b, allow, d, 0);
    assert b[d][0..] == b[d];
    var c, l := |b[d]|, Size(b[d]);
    if d == |b| - 1 {
      assert Combos(b, d + 1, d) == 1 && Length(b, d + 1, d) == 0;
      assert SumCombos(b, d, d) == Combos(b, d, d) + SumCombos(b, d, d + 1);
      assert SumLength(b, d, d) == Length(b, d, d) + SumLength(b, d, d + 1);
    } else {
      CountSums(b, allow, d + 1);
      SumsBelow(b, d, From(b, allow, d + 1));
      if allow {
        assert Combos(b, d + 1, d) == 1 && Length(b, d + 1, d) == 0;
        assert SumCombos(b, d, d) == Combos(b, d, d) + SumCombos(b, d, d + 1);
        assert SumLength(b, d, d) == Length(b, d, d) + SumLength(b, d, d + 1);
        Distribute(c, 1, SumCombos(b, d + 1, d + 1));
        Distribute(l, 1, SumCombos(b, d + 1, d + 1));
      }
    }
  }

  // ---------------------------------------------------------------- the code's formula

  predicate NonEmpty(b: seq<seq<Bytes>>)
  {
    forall d :: 0 <= d < |b| ==> |b[d]| > 0
  }

  /** Every value of a level with c values occurs in count / c of the combinations. */
  function Share(l: nat, count: nat, c: nat): nat
    requires c > 0
  {
    l * (count / c)
  }

  /** count / c for one level, summed from level e on, weighted by the lengths of the levels. */
  function Terms(b: seq<seq<Bytes>>, lo: nat, k: nat, e: nat): nat
    requires k < |b| && NonEmpty(b)
    decreases |b| - e
  {
    if e > k then 0 else Share(Size(b[e]), Combos(b, lo, k), |b[e]|) + Terms(b, lo, k, e + 1)
  }

  /** The number of combinations is a multiple of the number of values of each level. */
  lemma {:induction false} Multiple(b: seq<seq<Bytes>>, lo: nat, k: nat, e: nat) returns (q: nat)
    requires lo <= e <= k < |b| && NonEmpty(b)
    ensures Combos(b, lo, k) == |b[e]| * q
    decreases e - lo
  {
    if lo == e {
      q := Combos(b, lo + 1, k);
    } else {
      var r := Multiple(b, lo + 1, k, e);
      q := |b[lo]| * r;
      Associate(|b[lo]|, |b[e]|, r);
    }
  }

  lemma {:induction false} TermsBelow(b: seq<seq<Bytes>>, lo: nat, k: nat, e: nat)
    requires lo < e && lo <= k < |b| && NonEmpty(b)
    ensures Terms(b, lo, k, e) == |b[lo]| * Terms(b, lo + 1, k, e)
    decreases |b| - e
  {
    if e <= k {
      TermsBelow(b, lo, k, e + 1);
      var q := Multiple(b, lo + 1, k, e);
      DivideProduct(|b[lo]|, q, |b[e]|);
      Associate(|b[lo]|, Size(b[e]), q);
      Distribute(|b[lo]|, Size(b[e]) * q, Terms(b, lo + 1, k, e + 1));
    }
  }

  lemma {:induction false} TermsLength(b: seq<seq<Bytes>>, lo: nat, k: nat)
    requires lo <= k + 1 && k < |b| && NonEmpty(b)
    ensures Terms(b, lo, k, lo) == Length(b, lo, k)
    decreases |b| - lo
  {
    if lo <= k {
      TermsLength(b, lo + 1, k);
      TermsBelow(b, lo, k, lo + 1);
      Quotient(|b[lo]|, Combos(b, lo + 1, k));
    }
  }

  lemma {:induction false} CombosStep(b: seq<seq<Bytes>>, d: nat, k: nat)
    requires d <= k < |b|
    ensures Combos(b, 0, k) == Upto(b, d) * Combos(b, d, k)
    ensures Upto(b, d + 1) == Upto(b, d) * |b[d]|
  {
    if d > 0 {
      CombosStep(b, d - 1, k);
      Associate(Upto(b, d - 1), |b[d - 1]|, Combos(b, d, k));
    }
  }

  function Upto(b: seq<seq<Bytes>>, d: nat): nat
    requires d <= |b|
  {
    if d == 0 then 1 else Upto(b, d - 1) * |b[d - 1]|
  }

  /** The sizing loops: the number of keys to come and the bytes they need, exactly. */
  method Measure(tmp: KeyList, bounds: seq<nat>, allow: bool, suffix: Bytes) returns (size: nat, keys: nat)
    requires tmp.Valid() && BoundsOk(tmp.keys, bounds) && 1 < |bounds| <= 9 && NonEmpty(BuilderOf(tmp.keys, bounds))
    ensures keys == |WalkAll(BuilderOf(tmp.keys, bounds), allow)|
    ensures size == Size(Suffixed(WalkAll(BuilderOf(tmp.keys, bounds), allow), suffix))
  {
    hide KeyList.Valid, Walk, Suffixed, Combos, Length, Upto, Size;
    var levels := |bounds| - 1;
    ghost var b := BuilderOf(tmp.keys, bounds);
    size, keys := 0, 0;
    var k := if allow then 0 else levels - 1;
    ghost var first := k;
    while k < levels
      invariant first <= k <= levels
      invariant keys + SumCombos(b, 0, k) == SumCombos(b, 0, first)
      invariant size + SumLength(b, 0, k) + SumCombos(b, 0, k) * |suffix| ==
        SumLength(b, 0, first) + SumCombos(b, 0, first) * |suffix|
    {
      var count, bytes := MeasureDepth(tmp, bounds, k);
      OneDepth(Combos(b, 0, k), SumCombos(b, 0, k + 1), |suffix|);
      size := size + bytes + count * |suffix|;
      keys := keys + count;
      k := k + 1;
    }
    WalkSize(b, allow, [], 0, 0);
    CountSums(b, allow, 0);
    SuffixedSize(WalkAll(b, allow), suffix);
  }

  lemma OneDepth(count: nat, rest: nat, suffix: nat)
    ensures (count + rest) * suffix == count * suffix + rest * suffix
  {
  }

  /** The keys of one depth. */
  method MeasureDepth(tmp: KeyList, bounds: seq<nat>, k: nat) returns (count: nat, bytes: nat)
    requires tmp.Valid() && BoundsOk(tmp.keys, bounds) && k + 1 < |bounds| && NonEmpty(BuilderOf(tmp.keys, bounds))
    ensures count == Combos(BuilderOf(tmp.keys, bounds), 0, k) && bytes == Length(BuilderOf(tmp.keys, bounds), 0, k)
  {
    count := CountDepth(tmp, bounds, k);
    bytes := BytesDepth(tmp, bounds, k, count);
  }

  method CountDepth(tmp: KeyList, bounds: seq<nat>, k: nat) returns (count: nat)
    requires tmp.Valid() && BoundsOk(tmp.keys, bounds) && k + 1 < |bounds|
    ensures count == Combos(BuilderOf(tmp.keys, bounds), 0, k)
  {
    hide KeyList.Valid, Size, Combos, Upto;
    ghost var b := BuilderOf(tmp.keys, bounds);
    count := 1;
    UptoNone(b);
    var d := 0;
    while d <= k
      invariant d <= k + 1 && count == Upto(b, d)
    {
      CombosStep(b, d, k);
      count := count * (bounds[d + 1] - bounds[d]);
      d := d + 1;
    }
    CombosAll(b, k);
  }

  lemma UptoNone(b: seq<seq<Bytes>>)
    ensures Upto(b, 0) == 1
  {
  }

  lemma CombosAll(b: seq<seq<Bytes>>, k: nat)
    requires k < |b|
    ensures Upto(b, k + 1) == Combos(b, 0, k)
  {
    CombosStep(b, k, k);
    assert Combos(b, k + 1, k) == 1;
    assert Combos(b, k, k) == |b[k]| * 1;
  }

  lemma TermsStep(b: seq<seq<Bytes>>, k: nat, d: nat, l: nat, count: nat, c: nat)
    requires d <= k < |b| && NonEmpty(b) && l == Size(b[d]) && count == Combos(b, 0, k) && c == |b[d]|
    ensures c > 0 && Terms(b, 0, k, d) == Share(l, count, c) + Terms(b, 0, k, d + 1)
  {
  }

  lemma NoTerms(b: seq<seq<Bytes>>, k: nat, d: nat)
    requires k < d && k < |b| && NonEmpty(b)
    ensures Terms(b, 0, k, d) == 0
  {
  }

  method BytesDepth(tmp: KeyList, bounds: seq<nat>, k: nat, count: nat) returns (bytes: nat)
    requires tmp.Valid() && BoundsOk(tmp.keys, bounds) && k + 1 < |bounds| && NonEmpty(BuilderOf(tmp.keys, bounds))
    requires count == Combos(BuilderOf(tmp.keys, bounds), 0, k)
    ensures bytes == Length(BuilderOf(tmp.keys, bounds), 0, k)
  {
    hide KeyList.Valid, Size, Combos, Length, Terms, Share;
    ghost var b := BuilderOf(tmp.keys, bounds);
    TermsLength(b, 0, k);
    bytes := 0;
    var d := 0;
    while d <= k
      invariant d <= k + 1 && bytes + Terms(b, 0, k, d) == Length(b, 0, k)
    {
      var c := bounds[d + 1] - bounds[d];
      assert c == |b[d]|;
      var l := LevelLength(tmp, bounds, d);
      TermsStep(b, k, d, l, count, c);
      bytes := bytes + Share(l, count, c);
      d := d + 1;
    }
    NoTerms(b, k, d);
  }

  /** The length of all values of a level, from where the keys end in the buffer. */
  method LevelLength(tmp: KeyList, bounds: seq<nat>, d: nat) returns (l: nat)
    requires tmp.Valid() && BoundsOk(tmp.keys, bounds) && d + 1 < |bounds| && NonEmpty(BuilderOf(tmp.keys, bounds))
    ensures l == Size(BuilderOf(tmp.keys, bounds)[d])
  {
    assert |BuilderOf(tmp.keys, bounds)[d]| > 0;
    var upper := tmp.ends[bounds[d + 1] - 1];
    var lower := 0;
    if bounds[d] > 0 {
      lower := tmp.ends[bounds[d] - 1];
    }
    assert tmp.keys[..bounds[d + 1]] == tmp.keys[..bounds[d]] + tmp.keys[bounds[d]..bounds[d + 1]];
    SizeAppend(tmp.keys[..bounds[d]], tmp.keys[bounds[d]..bounds[d + 1]]);
    l := upper - lower;
  }
}
