/** The shape of trie nodes as facts about values: which ids a chunk or a directory node
    holds, given its words, or its presence bits and what its children hold. */
module Shapes {
  import opened Words
  import opened IdSpace

  /** What a parent knows of a child: the high bits all its ids share, and the ids. */
  datatype Part = Part(prefix: nat, ids: set<nat>)

  const NO_WORDS: seq<Bits> := [{}, {}, {}, {}]

  /** `(id & chunkMask) >> 6` and `id & 63`: the word and the bit of an id in its chunk. */
  function WordOf(x: nat): (w: nat)
    ensures w < 4
  {
    x % 256 / 64
  }

  function BitOf(x: nat): (b: nat)
    ensures b < 64
  {
    x % 64
  }

  /** The id of bit b of word w in the chunk whose ids have the given high bits. */
  function ChunkId(prefix: nat, w: nat, b: nat): nat { 256 * prefix + 64 * w + b }

  lemma ChunkIdSplit(x: nat)
    ensures x == ChunkId(High(0, x), WordOf(x), BitOf(x))
  {
  }

  lemma ChunkIdJoin(prefix: nat, w: nat, b: nat)
    requires w < 4 && b < 64
    ensures var x := ChunkId(prefix, w, b); High(0, x) == prefix && WordOf(x) == w && BitOf(x) == b
  {
  }

  lemma SameChunkId(x: nat, y: nat)
    requires High(0, x) == High(0, y) && WordOf(x) == WordOf(y) && BitOf(x) == BitOf(y)
    ensures x == y
  {
    ChunkIdSplit(x);
    ChunkIdSplit(y);
  }

  /** The ids of a chunk are those whose bit is set. */
  ghost predicate ChunkShape(prefix: nat, words: seq<Bits>, ids: set<nat>)
  {
    && |words| == 4
    && (forall x :: x in ids ==> InChunk(prefix, words, x))
    && (forall x :: InChunk(prefix, words, x) ==> x in ids)
  }

  ghost predicate InChunk(prefix: nat, words: seq<Bits>, x: nat)
    requires |words| == 4
  {
    High(0, x) == prefix && BitOf(x) in words[WordOf(x)]
  }

  type Parts = m: map<nat, Part> | forall s :: s in m ==> s < 64

  /** The child in slot s holds exactly the ids of the node with that slot; none is empty. */
  ghost predicate DirShape(h: nat, prefix: nat, parts: Parts, ids: set<nat>)
  {
    && h > 0
    && (forall s :: s in parts ==> PartOk(h, prefix, s, parts[s]) && parts[s].ids <= ids)
    && (forall x :: x in ids ==> InPart(h, prefix, parts, x))
  }

  /** k can be the child in slot s: it is not empty and all its ids have that slot. */
  ghost predicate PartOk(h: nat, prefix: nat, s: nat, k: Part)
    requires h > 0
  {
    && k.prefix == 64 * prefix + s && k.ids != {}
    && (forall x :: x in k.ids ==> High(h - 1, x) == k.prefix)
  }

  ghost predicate InPart(h: nat, prefix: nat, parts: Parts, x: nat)
    requires h > 0
  {
    High(h, x) == prefix && Slot(h, x) in parts && x in parts[Slot(h, x)].ids
  }

  lemma ChunkAdd(prefix: nat, words: seq<Bits>, ids: set<nat>, x: nat)
    requires ChunkShape(prefix, words, ids) && High(0, x) == prefix
    ensures BitOf(x) in words[WordOf(x)] <==> x in ids
    ensures ChunkShape(prefix, words[WordOf(x) := words[WordOf(x)] + {BitOf(x)}], ids + {x})
  {
    hide WordOf, BitOf, High;
    assert InChunk(prefix, words, x) <==> x in ids;
    var more := words[WordOf(x) := words[WordOf(x)] + {BitOf(x)}];
    forall y
      ensures InChunk(prefix, more, y) <==> y in ids + {x}
    {
      assert InChunk(prefix, words, y) <==> y in ids;
      if High(0, x) == High(0, y) && WordOf(x) == WordOf(y) && BitOf(x) == BitOf(y) {
        SameChunkId(x, y);
      }
    }
  }

  lemma ChunkRemove(prefix: nat, words: seq<Bits>, ids: set<nat>, x: nat)
    requires ChunkShape(prefix, words, ids) && High(0, x) == prefix
    ensures ChunkShape(prefix, words[WordOf(x) := words[WordOf(x)] - {BitOf(x)}], ids - {x})
  {
    hide WordOf, BitOf, High;
    var less := words[WordOf(x) := words[WordOf(x)] - {BitOf(x)}];
    forall y
      ensures InChunk(prefix, less, y) <==> y in ids - {x}
    {
      assert InChunk(prefix, words, y) <==> y in ids;
      if High(0, x) == High(0, y) && WordOf(x) == WordOf(y) && BitOf(x) == BitOf(y) {
        SameChunkId(x, y);
      }
    }
  }

  lemma SingleChunk(x: nat)
    ensures ChunkShape(High(0, x), NO_WORDS[WordOf(x) := {BitOf(x)}], {x})
  {
    hide WordOf, BitOf, High;
    assert ChunkShape(High(0, x), NO_WORDS, {});
    ChunkAdd(High(0, x), NO_WORDS, {}, x);
    assert NO_WORDS[WordOf(x)] + {BitOf(x)} == {BitOf(x)} && {} + {x} == {x};
  }

  /** A child whose ids change within its slot changes the node's ids by the same difference.
      An absent child counts as an empty one. */
  lemma DirUpdate(h: nat, prefix: nat, parts: Parts, ids: set<nat>, s: nat, k: Part)
    requires DirShape(h, prefix, parts, ids) && s < 64 && PartOk(h, prefix, s, k)
    ensures DirShape(h, prefix, parts[s := k], ids - (if s in parts then parts[s].ids else {}) + k.ids)
    ensures s !in parts ==> ids !! k.ids
  {
    var was := if s in parts then parts[s].ids else {};
    var now := ids - was + k.ids;
    forall x | x in now
      ensures InPart(h, prefix, parts[s := k], x)
    {
      if x in k.ids {
        assert High(h - 1, x) == 64 * High(h, x) + Slot(h, x);
      } else {
        assert InPart(h, prefix, parts, x);
      }
    }
    forall t | t in parts && t != s
      ensures parts[t].ids <= now
    {
      assert PartOk(h, prefix, t, parts[t]);
      assert parts[t].ids !! was;
    }
    if s !in parts {
      forall x | x in ids
        ensures x !in k.ids
      {
        assert InPart(h, prefix, parts, x);
      }
    }
  }

  lemma DirRemove(h: nat, prefix: nat, parts: Parts, ids: set<nat>, s: nat)
    requires DirShape(h, prefix, parts, ids) && s in parts
    ensures DirShape(h, prefix, parts - {s}, ids - parts[s].ids)
  {
    forall x | x in ids - parts[s].ids
      ensures InPart(h, prefix, parts - {s}, x)
    {
      assert InPart(h, prefix, parts, x);
    }
    forall t | t in parts && t != s
      ensures parts[t].ids !! parts[s].ids
    {
      assert PartOk(h, prefix, t, parts[t]);
    }
  }

  lemma DirEmpty(h: nat, prefix: nat)
    requires h > 0
    ensures DirShape(h, prefix, map[], {})
  {
  }

  /** A node's count is its number of ids as a uint32; it tells a single id apart from more. */
  lemma CountIsOne(ids: set<nat>, x: nat)
    requires x in ids && forall y :: y in ids ==> y < UINT32
    ensures Wrap(|ids|) == 1 <==> ids == {x}
  {
    CardBound(ids, UINT32);
    assert ids == {x} + (ids - {x});
    if ids != {x} {
      assert ids - {x} != {};
    }
  }

  lemma CountAdded(ids: set<nat>, x: nat)
    requires x !in ids
    ensures Wrap(Wrap(|ids|) + 1) == Wrap(|ids + {x}|)
  {
    WrapAdd(|ids|, 1);
  }

  lemma CountRemoved(ids: set<nat>, x: nat)
    requires x in ids
    ensures Wrap(Wrap(|ids|) - 1) == Wrap(|ids - {x}|)
  {
    WrapAdd(|ids|, -1);
  }

  // ---------------------------------------------------------------- whole chunks

  function Intersect(v: seq<Bits>, w: seq<Bits>): seq<Bits>
    requires |v| == |w| == 4
  {
    [v[0] * w[0], v[1] * w[1], v[2] * w[2], v[3] * w[3]]
  }

  function Unite(v: seq<Bits>, w: seq<Bits>): seq<Bits>
    requires |v| == |w| == 4
  {
    [v[0] + w[0], v[1] + w[1], v[2] + w[2], v[3] + w[3]]
  }

  function Subtract(v: seq<Bits>, w: seq<Bits>): seq<Bits>
    requires |v| == |w| == 4
  {
    [v[0] - w[0], v[1] - w[1], v[2] - w[2], v[3] - w[3]]
  }

  /** Word by word operations on chunks are the set operations on their ids. */
  lemma ChunkAlgebra(prefix: nat, v: seq<Bits>, ids: set<nat>, w: seq<Bits>, ids': set<nat>)
    requires ChunkShape(prefix, v, ids) && ChunkShape(prefix, w, ids')
    ensures ChunkShape(prefix, Intersect(v, w), ids * ids')
    ensures ChunkShape(prefix, Unite(v, w), ids + ids')
    ensures ChunkShape(prefix, Subtract(v, w), ids - ids')
  {
    hide WordOf, BitOf, High;
    forall x
      ensures InChunk(prefix, Intersect(v, w), x) <==> x in ids * ids'
      ensures InChunk(prefix, Unite(v, w), x) <==> x in ids + ids'
      ensures InChunk(prefix, Subtract(v, w), x) <==> x in ids - ids'
    {
      assert InChunk(prefix, v, x) <==> x in ids;
      assert InChunk(prefix, w, x) <==> x in ids';
      var i := WordOf(x);
    }
  }

  /** A chunk's words and its ids determine each other. */
  lemma ChunkUnique(prefix: nat, v: seq<Bits>, ids: set<nat>, w: seq<Bits>, ids': set<nat>)
    requires ChunkShape(prefix, v, ids) && ChunkShape(prefix, w, ids')
    ensures v == w <==> ids == ids'
  {
    hide WordOf, BitOf, High;
    if v == w {
      forall x
        ensures x in ids <==> x in ids'
      {
        assert InChunk(prefix, v, x) <==> x in ids;
      }
    }
    if ids == ids' {
      forall i, b | 0 <= i < 4 && b < 64
        ensures b in v[i] <==> b in w[i]
      {
        var x := ChunkId(prefix, i, b);
        ChunkIdJoin(prefix, i, b);
        assert InChunk(prefix, v, x) <==> x in ids;
        assert InChunk(prefix, w, x) <==> x in ids;
      }
      assert forall i :: 0 <= i < 4 ==> v[i] == w[i];
    }
  }

  function PopCount(w: seq<Bits>): nat
    requires |w| == 4
  {
    |w[0]| + |w[1]| + |w[2]| + |w[3]|
  }

  /** The population count of a chunk's words is its number of ids. */
  lemma {:induction false} ChunkCount(prefix: nat, w: seq<Bits>, ids: set<nat>)
    requires ChunkShape(prefix, w, ids)
    ensures PopCount(w) == |ids|
    decreases |ids|
  {
    hide WordOf, BitOf, High;
    if ids == {} {
      assert ChunkShape(prefix, NO_WORDS, {});
      ChunkUnique(prefix, w, ids, NO_WORDS, {});
    } else {
      var x :| x in ids;
      assert InChunk(prefix, w, x);
      var less := w[WordOf(x) := w[WordOf(x)] - {BitOf(x)}];
      ChunkRemove(prefix, w, ids, x);
      ChunkCount(prefix, less, ids - {x});
      assert |w[WordOf(x)]| == |less[WordOf(x)]| + 1;
    }
  }
}
