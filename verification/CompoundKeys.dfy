/** The keys of a compound multi-index: a depth-first product over one list of values per sub-index. The
    recursive walk is the reference; the loop over fixed arrays gives the same keys, and their number and
    size are known beforehand. */
module CompoundKeys {
  import opened TableSchema
  import opened KeyLists

  /** The reference: from value i of one level on, every combination below the given prefix. With
      AllowMissing, proper prefixes of combinations are keys too. */
  function Walk(builder: seq<seq<Bytes>>, allow: bool, prefix: Bytes, depth: nat, i: nat): seq<Bytes>
    requires depth < |builder|
    decreases |builder| - depth, if i < |builder[depth]| then |builder[depth]| - i else 0
  {
    if i >= |builder[depth]| then [] else
      var next := prefix + builder[depth][i];
      (if depth == |builder| - 1 then [next]
        else (if allow then [next] else []) + Walk(builder, allow, next, depth + 1, 0))
      + Walk(builder, allow, prefix, depth, i + 1)
  }

  function WalkAll(builder: seq<seq<Bytes>>, allow: bool): seq<Bytes>
  {
    if builder == [] then [] else Walk(builder, allow, [], 0, 0)
  }

  // ---------------------------------------------------------------- which keys there are

  /** One value from each level from depth on, the first of them at i or later. With AllowMissing, from some levels
      only, without a gap. */
  ghost predicate Combination(builder: seq<seq<Bytes>>, allow: bool, depth: nat, i: nat, vals: seq<Bytes>)
    requires depth < |builder|
  {
    && 0 < |vals| <= |builder| - depth && (allow || |vals| == |builder| - depth)
    && (i < |builder[depth]| && vals[0] in builder[depth][i..])
    && forall e :: 0 < e < |vals| ==> vals[e] in builder[depth + e]
  }

  lemma WalkParts(builder: seq<seq<Bytes>>, allow: bool, prefix: Bytes, depth: nat, i: nat, key: Bytes)
    requires depth < |builder| && i < |builder[depth]|
    ensures key in Walk(builder, allow, prefix, depth, i) <==>
      || (key == prefix + builder[depth][i] && (allow || depth + 1 == |builder|))
      || (depth + 1 < |builder| && key in Walk(builder, allow, prefix + builder[depth][i], depth + 1, 0))
      || key in Walk(builder, allow, prefix, depth, i + 1)
  {
  }

  /** The keys are the combinations, each run together behind the prefix. */
  lemma {:induction false} WalkIff(builder: seq<seq<Bytes>>, allow: bool, prefix: Bytes, depth: nat, i: nat, key: Bytes)
    requires depth < |builder|
    ensures key in Walk(builder, allow, prefix, depth, i) <==> exists vals ::
      Combination(builder, allow, depth, i, vals) && key == prefix + Joined(vals)
    decreases |builder| - depth, if i < |builder[depth]| then |builder[depth]| - i else 0
  {
    if i < |builder[depth]| {
      var v := builder[depth][i];
      WalkIff(builder, allow, prefix, depth, i + 1, key);
      if depth + 1 < |builder| {
        WalkIff(builder, allow, prefix + v, depth + 1, 0, key);
      }
      if key in Walk(builder, allow, prefix, depth, i) {
        SomeCombination(builder, allow, prefix, depth, i, key);
      }
      if vals :| Combination(builder, allow, depth, i, vals) && key == prefix + Joined(vals) {
        CombinationWalked(builder, allow, prefix, depth, i, vals);
      }
    }
  }

  lemma SomeCombination(builder: seq<seq<Bytes>>, allow: bool, prefix: Bytes, depth: nat, i: nat, key: Bytes)
    requires depth < |builder| && i < |builder[depth]| && key in Walk(builder, allow, prefix, depth, i)
    requires key in Walk(builder, allow, prefix, depth, i + 1) ==> exists vals ::
      Combination(builder, allow, depth, i + 1, vals) && key == prefix + Joined(vals)
    requires depth + 1 < |builder| && key in Walk(builder, allow, prefix + builder[depth][i], depth + 1, 0) ==>
      exists vals ::
        Combination(builder, allow, depth + 1, 0, vals) && key == prefix + builder[depth][i] + Joined(vals)
    ensures exists vals :: Combination(builder, allow, depth, i, vals) && key == prefix + Joined(vals)
  {
    hide Walk, Joined;
    WalkParts(builder, allow, prefix, depth, i, key);
    var v := builder[depth][i];
    if key in Walk(builder, allow, prefix, depth, i + 1) {
      var vals :| Combination(builder, allow, depth, i + 1, vals) && key == prefix + Joined(vals);
      assert Combination(builder, allow, depth, i, vals);
    } else if key == prefix + v && (allow || depth == |builder| - 1) {
      JoinedOne(v);
      assert Combination(builder, allow, depth, i, [v]);
    } else {
      var vals :| Combination(builder, allow, depth + 1, 0, vals) && key == prefix + v + Joined(vals);
      JoinedBehind(v, vals);
      MoreLevels(builder, allow, depth, i, vals);
      assert key == prefix + Joined([v] + vals);
    }
  }

  lemma MoreLevels(builder: seq<seq<Bytes>>, allow: bool, depth: nat, i: nat, vals: seq<Bytes>)
    requires depth + 1 < |builder| && i < |builder[depth]| && Combination(builder, allow, depth + 1, 0, vals)
    ensures Combination(builder, allow, depth, i, [builder[depth][i]] + vals)
  {
    var all := [builder[depth][i]] + vals;
    forall e | 0 < e < |all|
      ensures all[e] in builder[depth + e]
    {
      assert all[e] == vals[e - 1];
    }
  }

  lemma JoinedOne(v: Bytes)
    ensures Joined([v]) == v && Joined([]) == []
  {
  }

  lemma FewerLevels(builder: seq<seq<Bytes>>, allow: bool, depth: nat, i: nat, vals: seq<Bytes>)
    requires depth < |builder| && Combination(builder, allow, depth, i, vals) && |vals| > 1
    ensures depth + 1 < |builder| && Combination(builder, allow, depth + 1, 0, vals[1..])
  {
    assert builder[depth + 1][0..] == builder[depth + 1];
    forall e | 0 <= e < |vals| - 1
      ensures vals[1..][e] in builder[depth + 1 + e]
    {
      assert vals[1..][e] == vals[e + 1];
    }
    assert vals[1..][0] in builder[depth + 1];
  }

  lemma {:induction false} JoinedBehind(v: Bytes, vals: seq<Bytes>)
    ensures Joined([v] + vals) == v + Joined(vals)
  {
    var all := [v] + vals;
    if vals == [] {
      assert all[..0] == [];
    } else {
      JoinedBehind(v, vals[..|vals| - 1]);
      assert all[..|all| - 1] == [v] + vals[..|vals| - 1];
    }
  }

  lemma CombinationWalked(builder: seq<seq<Bytes>>, allow: bool, prefix: Bytes, depth: nat, i: nat, vals: seq<Bytes>)
    requires depth < |builder| && Combination(builder, allow, depth, i, vals)
    requires (exists vs ::
      Combination(builder, allow, depth, i + 1, vs) && prefix + Joined(vals) == prefix + Joined(vs))
      ==> prefix + Joined(vals) in Walk(builder, allow, prefix, depth, i + 1)
    requires depth + 1 < |builder| && (exists vs ::
      Combination(builder, allow, depth + 1, 0, vs)
      && prefix + Joined(vals) == prefix + builder[depth][i] + Joined(vs)) ==>
      prefix + Joined(vals) in Walk(builder, allow, prefix + builder[depth][i], depth + 1, 0)
    ensures prefix + Joined(vals) in Walk(builder, allow, prefix, depth, i)
  {
    hide Walk, Joined;
    WalkParts(builder, allow, prefix, depth, i, prefix + Joined(vals));
    JoinedOne(builder[depth][i]);
    var v := builder[depth][i];
    if vals[0] in builder[depth][i + 1..] {
      assert Combination(builder, allow, depth, i + 1, vals);
    } else {
      assert vals[0] == v;
      var rest := vals[1..];
      assert vals == [v] + rest;
      JoinedBehind(v, rest);
      assert prefix + v + Joined(rest) == prefix + Joined(vals);
      if rest != [] {
        FewerLevels(builder, allow, depth, i, vals);
      } else {
        assert prefix + Joined(vals) == prefix + v;
      }
    }
  }

  /** The keys of a whole product: every combination of one value from each sub-index run together, with AllowMissing
      also those of the first sub-indexes only. */
  lemma KeysAre(builder: seq<seq<Bytes>>, allow: bool, key: Bytes)
    ensures key in WalkAll(builder, allow) <==> exists vals: seq<Bytes> ::
      && 0 < |vals| <= |builder| && (allow || |vals| == |builder|)
      && (forall e :: 0 <= e < |vals| ==> vals[e] in builder[e]) && key == Joined(vals)
  {
    hide Walk, Joined;
    if builder != [] {
      WalkIff(builder, allow, [], 0, 0, key);
      forall vals: seq<Bytes>
        ensures Combination(builder, allow, 0, 0, vals) <==>
          0 < |vals| <= |builder| && (allow || |vals| == |builder|)
          && forall e :: 0 <= e < |vals| ==> vals[e] in builder[e]
      {
        assert builder[0][0..] == builder[0];
      }
      assert forall vals :: [] + Joined(vals) == Joined(vals);
    }
  }

  // ---------------------------------------------------------------- the loop

  /** The prefix the loop has at a level: the current one, or a part of it. */
  function PrefixAt(pfx: Bytes, plen: seq<nat>, depth: nat, d: nat): Bytes
    requires d < |plen| && d <= depth && (d < depth ==> plen[d] <= |pfx|)
  {
    if d == depth then pfx else pfx[..plen[d]]
  }

  ghost predicate PrefixesOk(pfx: Bytes, plen: seq<nat>, depth: nat)
    requires depth < |plen|
  {
    && (forall d :: 0 <= d < depth ==> plen[d] <= |pfx|)
    && (forall d, e :: 0 <= d < e < depth ==> plen[d] <= plen[e])
    && PrefixAt(pfx, plen, depth, 0) == []
  }

  /** The keys still to come, from the levels up to d. */
  ghost function Todo(builder: seq<seq<Bytes>>, allow: bool, pos: seq<nat>, plen: seq<nat>, pfx: Bytes, depth: nat,
                      d: nat): seq<Bytes>
    requires |builder| <= |pos| == |plen| && d <= depth < |builder| && PrefixesOk(pfx, plen, depth)
  {
    Walk(builder, allow, PrefixAt(pfx, plen, depth, d), d, pos[d])
    + if d == 0 then [] else Todo(builder, allow, pos, plen, pfx, depth, d - 1)
  }

  /** Steps of the loop to work off one level from value i on, including the step back. */
  ghost function Steps(builder: seq<seq<Bytes>>, depth: nat, i: nat): nat
    requires depth < |builder|
    decreases |builder| - depth, if i < |builder[depth]| then |builder[depth]| - i else 0
  {
    if i >= |builder[depth]| then 1
    else 1 + (if depth == |builder| - 1 then 0 else Steps(builder, depth + 1, 0)) + Steps(builder, depth, i + 1)
  }

  ghost function StepsLeft(builder: seq<seq<Bytes>>, pos: seq<nat>, d: nat): nat
    requires |builder| <= |pos| && d < |builder|
  {
    Steps(builder, d, pos[d]) + if d == 0 then 0 else StepsLeft(builder, pos, d - 1)
  }

  lemma {:induction false} StepsSame(builder: seq<seq<Bytes>>, pos: seq<nat>, pos': seq<nat>, d: nat)
    requires |builder| <= |pos| == |pos'| && d < |builder| && forall e :: 0 <= e <= d ==> pos[e] == pos'[e]
    ensures StepsLeft(builder, pos, d) == StepsLeft(builder, pos', d)
  {
    if d > 0 {
      StepsSame(builder, pos, pos', d - 1);
    }
  }

  /** What is still to come at the levels up to d depends only on their positions and prefixes. */
  lemma {:induction false} TodoSame(builder: seq<seq<Bytes>>, allow: bool, pos: seq<nat>, plen: seq<nat>, pfx: Bytes,
                                    depth: nat,
                                    pos': seq<nat>, plen': seq<nat>, pfx': Bytes, depth': nat, d: nat)
    requires |builder| <= |pos| == |plen| == |pos'| == |plen'| && d <= depth < |builder| && d <= depth' < |builder|
    requires PrefixesOk(pfx, plen, depth) && PrefixesOk(pfx', plen', depth')
    requires forall e :: 0 <= e <= d ==>
      pos[e] == pos'[e] && PrefixAt(pfx, plen, depth, e) == PrefixAt(pfx', plen', depth', e)
    ensures Todo(builder, allow, pos, plen, pfx, depth, d) == Todo(builder, allow, pos', plen', pfx', depth', d)
  {
    if d > 0 {
      TodoSame(builder, allow, pos, plen, pfx, depth, pos', plen', pfx', depth', d - 1);
    }
  }

  /** All values of a level are done: back to the level above. */
  lemma PopStep(builder: seq<seq<Bytes>>, allow: bool, pos: seq<nat>, plen: seq<nat>, pfx: Bytes, depth: nat)
    requires |builder| <= |pos| == |plen| && depth < |builder| && PrefixesOk(pfx, plen, depth)
    requires pos[depth] >= |builder[depth]|
    ensures depth == 0 ==> Todo(builder, allow, pos, plen, pfx, depth, depth) == []
    ensures depth > 0 ==> plen[depth - 1] <= |pfx| && PrefixesOk(pfx[..plen[depth - 1]], plen, depth - 1)
    ensures depth > 0 ==>
      Todo(builder, allow, pos[depth := 0], plen, pfx[..plen[depth - 1]], depth - 1, depth - 1) ==
        Todo(builder, allow, pos, plen, pfx, depth, depth)
    ensures depth > 0 ==> StepsLeft(builder, pos[depth := 0], depth - 1) < StepsLeft(builder, pos, depth)
  {
    hide Walk, PrefixesOk, PrefixAt, Todo, Steps;
    WalkDone(builder, allow, pfx, depth, pos[depth]);
    Ends(plen, pfx, depth);
    TodoIs(builder, allow, pos, plen, pfx, depth, depth);
    if depth > 0 {
      UpPrefixes(plen, pfx, depth);
      TodoSame(builder, allow, pos, plen, pfx, depth, pos[depth := 0], plen, pfx[..plen[depth - 1]], depth - 1,
        depth - 1);
      NoneBefore([], Above(builder, allow, pos, plen, pfx, depth, depth));
      StepsSame(builder, pos, pos[depth := 0], depth - 1);
    }
  }

  lemma WalkDone(builder: seq<seq<Bytes>>, allow: bool, prefix: Bytes, depth: nat, i: nat)
    requires depth < |builder| && i >= |builder[depth]|
    ensures Walk(builder, allow, prefix, depth, i) == [] && Steps(builder, depth, i) == 1
  {
  }

  lemma UpPrefixes(plen: seq<nat>, pfx: Bytes, depth: nat)
    requires 0 < depth < |plen| && PrefixesOk(pfx, plen, depth)
    ensures plen[depth - 1] <= |pfx| && PrefixesOk(pfx[..plen[depth - 1]], plen, depth - 1)
    ensures forall e :: 0 <= e <= depth - 1 ==>
      PrefixAt(pfx[..plen[depth - 1]], plen, depth - 1, e) == PrefixAt(pfx, plen, depth, e)
  {
    var up := pfx[..plen[depth - 1]];
    forall e | 0 <= e <= depth - 1
      ensures PrefixAt(up, plen, depth - 1, e) == PrefixAt(pfx, plen, depth, e)
    {
      if e < depth - 1 {
        assert up[..plen[e]] == pfx[..plen[e]];
      }
    }
  }

  ghost function Above(builder: seq<seq<Bytes>>, allow: bool, pos: seq<nat>, plen: seq<nat>, pfx: Bytes, depth: nat,
                       d: nat): seq<Bytes>
    requires |builder| <= |pos| == |plen| && d <= depth < |builder| && PrefixesOk(pfx, plen, depth)
  {
    if d == 0 then [] else Todo(builder, allow, pos, plen, pfx, depth, d - 1)
  }

  lemma TodoIs(builder: seq<seq<Bytes>>, allow: bool, pos: seq<nat>, plen: seq<nat>, pfx: Bytes, depth: nat, d: nat)
    requires |builder| <= |pos| == |plen| && d <= depth < |builder| && PrefixesOk(pfx, plen, depth)
    ensures Todo(builder, allow, pos, plen, pfx, depth, d) ==
      Walk(builder, allow, PrefixAt(pfx, plen, depth, d), d, pos[d]) + Above(builder, allow, pos, plen, pfx, depth, d)
  {
    hide Walk, PrefixesOk, PrefixAt;
  }

  lemma Regroup(a: seq<Bytes>, b: seq<Bytes>, c: seq<Bytes>, d: seq<Bytes>)
    ensures ((a + b) + c) + d == a + (b + (c + d))
  {
  }

  /** A value of the last level completes a key. */
  lemma LeafStep(builder: seq<seq<Bytes>>, allow: bool, pos: seq<nat>, plen: seq<nat>, pfx: Bytes, depth: nat)
    requires |builder| <= |pos| == |plen| && depth == |builder| - 1 && PrefixesOk(pfx, plen, depth)
    requires pos[depth] < |builder[depth]|
    ensures var now := pos[depth := pos[depth] + 1];
      && Todo(builder, allow, pos, plen, pfx, depth, depth) ==
        [pfx + builder[depth][pos[depth]]] + Todo(builder, allow, now, plen, pfx, depth, depth)
      && StepsLeft(builder, now, depth) < StepsLeft(builder, pos, depth)
  {
    hide Walk, PrefixesOk, PrefixAt, Todo, Steps;
    var now := pos[depth := pos[depth] + 1];
    Ends(plen, pfx, depth);
    if depth > 0 {
      TodoSame(builder, allow, pos, plen, pfx, depth, now, plen, pfx, depth, depth - 1);
      StepsSame(builder, pos, now, depth - 1);
    }
    TodoIs(builder, allow, pos, plen, pfx, depth, depth);
    TodoIs(builder, allow, now, plen, pfx, depth, depth);
    WalkLeaf(builder, allow, pfx, depth, pos[depth]);
    Regroup([pfx + builder[depth][pos[depth]]], [], Walk(builder, allow, pfx, depth, pos[depth] + 1),
      Above(builder, allow, pos, plen, pfx, depth, depth));
    NoneBefore([pfx + builder[depth][pos[depth]]],
      Walk(builder, allow, pfx, depth, pos[depth] + 1) + Above(builder, allow, pos, plen, pfx, depth, depth));
  }

  lemma NoneBefore(a: seq<Bytes>, b: seq<Bytes>)
    ensures a + [] == a && [] + b == b
  {
  }

  lemma WalkLeaf(builder: seq<seq<Bytes>>, allow: bool, prefix: Bytes, depth: nat, i: nat)
    requires depth + 1 == |builder| && i < |builder[depth]|
    ensures Walk(builder, allow, prefix, depth, i) ==
      [prefix + builder[depth][i]] + Walk(builder, allow, prefix, depth, i + 1)
    ensures Steps(builder, depth, i) == 1 + Steps(builder, depth, i + 1)
  {
  }

  /** A value of another level becomes part of the prefix, and the next level starts. */
  lemma DownStep(builder: seq<seq<Bytes>>, allow: bool, pos: seq<nat>, plen: seq<nat>, pfx: Bytes, depth: nat)
    requires |builder| <= |pos| == |plen| && depth + 1 < |builder| && PrefixesOk(pfx, plen, depth)
    requires pos[depth] < |builder[depth]| && pos[depth + 1] == 0
    ensures var now, lens, next := pos[depth := pos[depth] + 1], plen[depth := |pfx|], pfx + builder[depth][pos[depth]];
      && PrefixesOk(next, lens, depth + 1)
      && Todo(builder, allow, pos, plen, pfx, depth, depth) ==
        (if allow then [next] else []) + Todo(builder, allow, now, lens, next, depth + 1, depth + 1)
  {
    hide Walk, PrefixesOk, PrefixAt, Todo;
    var now, lens, next := pos[depth := pos[depth] + 1], plen[depth := |pfx|], pfx + builder[depth][pos[depth]];
    DownPrefixes(plen, pfx, depth, builder[depth][pos[depth]]);
    Ends(lens, next, depth + 1);
    Ends(plen, pfx, depth);
    if depth > 0 {
      TodoSame(builder, allow, pos, plen, pfx, depth, now, lens, next, depth + 1, depth - 1);
    }
    TodoIs(builder, allow, pos, plen, pfx, depth, depth);
    TodoIs(builder, allow, now, lens, next, depth + 1, depth + 1);
    TodoIs(builder, allow, now, lens, next, depth + 1, depth);
    WalkDown(builder, allow, pfx, depth, pos[depth]);
    Regroup(if allow then [next] else [], Walk(builder, allow, next, depth + 1, 0),
      Walk(builder, allow, pfx, depth, pos[depth] + 1),
      Above(builder, allow, pos, plen, pfx, depth, depth));
  }

  lemma DownFewer(builder: seq<seq<Bytes>>, pos: seq<nat>, depth: nat)
    requires |builder| <= |pos| && depth + 1 < |builder| && pos[depth] < |builder[depth]| && pos[depth + 1] == 0
    ensures StepsLeft(builder, pos[depth := pos[depth] + 1], depth + 1) < StepsLeft(builder, pos, depth)
  {
    hide Steps;
    var now := pos[depth := pos[depth] + 1];
    StepsDown(builder, depth, pos[depth]);
    if depth > 0 {
      StepsSame(builder, pos, now, depth - 1);
    }
  }

  lemma Ends(plen: seq<nat>, pfx: Bytes, depth: nat)
    requires depth < |plen|
    ensures PrefixAt(pfx, plen, depth, depth) == pfx
  {
  }

  lemma DownPrefixes(plen: seq<nat>, pfx: Bytes, depth: nat, v: Bytes)
    requires depth + 1 < |plen| && PrefixesOk(pfx, plen, depth)
    ensures PrefixesOk(pfx + v, plen[depth := |pfx|], depth + 1)
    ensures forall e :: 0 <= e <= depth ==>
      PrefixAt(pfx + v, plen[depth := |pfx|], depth + 1, e) == PrefixAt(pfx, plen, depth, e)
  {
    forall e | 0 <= e <= depth
      ensures PrefixAt(pfx + v, plen[depth := |pfx|], depth + 1, e) == PrefixAt(pfx, plen, depth, e)
    {
      if e < depth {
        assert (pfx + v)[..plen[e]] == pfx[..plen[e]];
      } else {
        assert (pfx + v)[..|pfx|] == pfx;
      }
    }
  }

  lemma WalkDown(builder: seq<seq<Bytes>>, allow: bool, prefix: Bytes, depth: nat, i: nat)
    requires depth + 1 < |builder| && i < |builder[depth]|
    ensures var next := prefix + builder[depth][i];
      Walk(builder, allow, prefix, depth, i) ==
        ((if allow then [next] else []) + Walk(builder, allow, next, depth + 1, 0))
          + Walk(builder, allow, prefix, depth, i + 1)
  {
  }

  lemma StepsDown(builder: seq<seq<Bytes>>, depth: nat, i: nat)
    requires depth + 1 < |builder| && i < |builder[depth]|
    ensures Steps(builder, depth, i) == 1 + Steps(builder, depth + 1, 0) + Steps(builder, depth, i + 1)
  {
  }

  ghost function BuilderOf(keys: seq<Bytes>, bounds: seq<nat>): (b: seq<seq<Bytes>>)
    requires BoundsOk(keys, bounds)
    ensures |b| == |bounds| - 1 && forall d :: 0 <= d < |b| ==> b[d] == keys[bounds[d]..bounds[d + 1]]
  {
    seq(|bounds| - 1, d requires 0 <= d < |bounds| - 1 => keys[bounds[d]..bounds[d + 1]])
  }

  ghost predicate BoundsOk(keys: seq<Bytes>, bounds: seq<nat>)
  {
    && |bounds| > 0 && bounds[0] == 0 && bounds[|bounds| - 1] == |keys|
    && forall d, e :: 0 <= d < e < |bounds| ==> bounds[d] <= bounds[e] <= |keys|
  }

  /** What has been emitted, and what is still to come. */
  ghost predicate Emitted(builder: seq<seq<Bytes>>, allow: bool, out: seq<Bytes>, pos: seq<nat>, plen: seq<nat>,
                          pfx: Bytes, depth: int)
  {
    && |builder| <= |pos| == |plen| && -1 <= depth < |builder|
    && (forall d :: depth < d < |builder| ==> pos[d] == 0)
    && (forall d :: 0 <= d < |builder| ==> pos[d] <= |builder[d]|)
    && (depth < 0 ==> out == WalkAll(builder, allow))
    && (depth >= 0 ==>
      && PrefixesOk(pfx, plen, depth)
      && out + Todo(builder, allow, pos, plen, pfx, depth, depth) == WalkAll(builder, allow))
  }

  ghost function Left(builder: seq<seq<Bytes>>, pos: seq<nat>, depth: int): nat
    requires |builder| <= |pos| && depth < |builder|
  {
    if depth < 0 then 0 else StepsLeft(builder, pos, depth)
  }

  lemma EmittedFacts(builder: seq<seq<Bytes>>, allow: bool, out: seq<Bytes>, pos: seq<nat>, plen: seq<nat>, pfx: Bytes,
                     depth: int)
    requires Emitted(builder, allow, out, pos, plen, pfx, depth)
    ensures -1 <= depth < |builder| <= |pos|
    ensures (depth >= 0 ==> pos[depth] <= |builder[depth]| && PrefixesOk(pfx, plen, depth))
    ensures depth > 0 ==> plen[depth - 1] <= |pfx|
    ensures depth < 0 ==> out == WalkAll(builder, allow)
  {
    hide Todo, WalkAll;
  }

  lemma PopEmitted(builder: seq<seq<Bytes>>, allow: bool, out: seq<Bytes>, pos: seq<nat>, plen: seq<nat>, pfx: Bytes,
                   depth: nat)
    requires Emitted(builder, allow, out, pos, plen, pfx, depth) && pos[depth] == |builder[depth]|
    ensures depth == 0 || plen[depth - 1] <= |pfx|
    ensures Emitted(builder, allow, out, pos[depth := 0], plen, if depth > 0 then pfx[..plen[depth - 1]] else pfx,
      depth - 1)
    ensures Left(builder, pos[depth := 0], depth - 1) < Left(builder, pos, depth)
  {
    PopStep(builder, allow, pos, plen, pfx, depth);
    hide Todo, WalkAll, PrefixesOk, StepsLeft;
    if depth == 0 {
      assert out + [] == out;
      SomeLeft(builder, pos, 0);
    }
  }

  lemma SomeLeft(builder: seq<seq<Bytes>>, pos: seq<nat>, depth: nat)
    requires |builder| <= |pos| && depth < |builder|
    ensures StepsLeft(builder, pos, depth) > 0
  {
  }

  lemma LeafEmitted(builder: seq<seq<Bytes>>, allow: bool, out: seq<Bytes>, pos: seq<nat>, plen: seq<nat>, pfx: Bytes,
                    depth: nat)
    requires Emitted(builder, allow, out, pos, plen, pfx, depth) && pos[depth] < |builder[depth]|
    requires depth == |builder| - 1
    ensures var now := pos[depth := pos[depth] + 1];
      Emitted(builder, allow, out + [pfx + builder[depth][pos[depth]]], now, plen, pfx, depth)
        && Left(builder, now, depth) < Left(builder, pos, depth)
  {
    LeafStep(builder, allow, pos, plen, pfx, depth);
    hide Todo, WalkAll, PrefixesOk, StepsLeft;
    var now := pos[depth := pos[depth] + 1];
    Shift(out, pfx + builder[depth][pos[depth]], Todo(builder, allow, now, plen, pfx, depth, depth));
  }

  lemma DownEmitted(builder: seq<seq<Bytes>>, allow: bool, out: seq<Bytes>, pos: seq<nat>, plen: seq<nat>, pfx: Bytes,
                    depth: nat)
    requires Emitted(builder, allow, out, pos, plen, pfx, depth) && pos[depth] < |builder[depth]|
    requires depth < |builder| - 1
    ensures var now, lens, next := pos[depth := pos[depth] + 1], plen[depth := |pfx|], pfx + builder[depth][pos[depth]];
      Emitted(builder, allow, if allow then out + [next] else out, now, lens, next, depth + 1)
        && Left(builder, now, depth + 1) < Left(builder, pos, depth)
  {
    DownStep(builder, allow, pos, plen, pfx, depth);
    DownFewer(builder, pos, depth);
    hide Todo, WalkAll, PrefixesOk, StepsLeft;
    var now, lens, next := pos[depth := pos[depth] + 1], plen[depth := |pfx|], pfx + builder[depth][pos[depth]];
    var rest := Todo(builder, allow, now, lens, next, depth + 1, depth + 1);
    Shift(out, next, rest);
  }

  lemma Shift(out: seq<Bytes>, next: Bytes, rest: seq<Bytes>)
    ensures (out + [next]) + rest == out + ([next] + rest) && out + ([] + rest) == out + rest
  {
  }

  lemma SuffixedMore(out: seq<Bytes>, key: Bytes, suffix: Bytes)
    ensures Suffixed(out + [key], suffix) == Suffixed(out, suffix) + [key + suffix]
  {
  }

  /** The loop: every key of the recursive walk, in its order, each followed by the suffix. Level d has the
      values bounds[d]..bounds[d + 1] of tmp. */
  method Product(tmp: KeyList, bounds: seq<nat>, allow: bool, suffix: Bytes, kl: KeyList)
    requires tmp.Valid() && kl.Valid() && tmp != kl && BoundsOk(tmp.keys, bounds) && |bounds| <= 9
    modifies kl
    ensures kl.Valid() && kl.keys == old(kl.keys) + Suffixed(WalkAll(BuilderOf(tmp.keys, bounds), allow), suffix)
  {
    hide KeyList.Valid, WalkAll, Emitted, PrefixesOk, Left, Suffixed;
    var levels := |bounds| - 1;
    ghost var builder, out, was := BuilderOf(tmp.keys, bounds), [], kl.keys;
    var pos, plen: seq<nat> := [0, 0, 0, 0, 0, 0, 0, 0], [0, 0, 0, 0, 0, 0, 0, 0];
    var pfx: Bytes := [];
    if levels == 0 {
      NoLevels(builder, allow, suffix);
      return;
    }
    var depth := 0;
    Start(builder, allow, pos, plen, suffix);
    while depth >= 0
      invariant kl.Valid() && tmp.Valid() && kl.keys == was + Suffixed(out, suffix)
      invariant Emitted(builder, allow, out, pos, plen, pfx, depth)
      invariant |pos| == |plen| == 8 && depth < levels
      decreases Left(builder, pos, depth)
    {
      EmittedFacts(builder, allow, out, pos, plen, pfx, depth);
      if pos[depth] == bounds[depth + 1] - bounds[depth] {
        PopEmitted(builder, allow, out, pos, plen, pfx, depth);
        pos := pos[depth := 0];
        depth := depth - 1;
        if depth >= 0 {
          pfx := pfx[..plen[depth]];
        }
        continue;
      }
      var v := tmp.Key(bounds[depth] + pos[depth]);
      assert v == builder[depth][pos[depth]];
      if depth == levels - 1 {
        LeafEmitted(builder, allow, out, pos, plen, pfx, depth);
        pos := pos[depth := pos[depth] + 1];
        kl.Add(pfx, v, suffix);
        SuffixedMore(out, pfx + v, suffix);
        out := out + [pfx + v];
        continue;
      }
      DownEmitted(builder, allow, out, pos, plen, pfx, depth);
      pos, plen := pos[depth := pos[depth] + 1], plen[depth := |pfx|];
      pfx := pfx + v;
      if allow {
        kl.Add(pfx, [], suffix);
        assert pfx + [] == pfx;
        SuffixedMore(out, pfx, suffix);
        out := out + [pfx];
      }
      depth := depth + 1;
    }
    EmittedFacts(builder, allow, out, pos, plen, pfx, depth);
  }

  lemma NoLevels(builder: seq<seq<Bytes>>, allow: bool, suffix: Bytes)
    requires builder == []
    ensures WalkAll(builder, allow) == [] && Suffixed([], suffix) == []
  {
  }

  lemma Start(builder: seq<seq<Bytes>>, allow: bool, pos: seq<nat>, plen: seq<nat>, suffix: Bytes)
    requires 0 < |builder| <= |pos| == |plen| && forall d :: 0 <= d < |pos| ==> pos[d] == 0
    ensures Emitted(builder, allow, [], pos, plen, [], 0) && Suffixed([], suffix) == []
  {
    assert [] + Todo(builder, allow, pos, plen, [], 0, 0) == WalkAll(builder, allow);
  }
}
