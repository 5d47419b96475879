/** The iterator over a set: a stack of partly visited directory nodes above the current chunk. */
module BitmapIterator {
  import opened Words
  import opened IdSpace
  import opened Shapes
  import opened BitmapNode
  import opened BitmapOps

  /** A directory node on the path: present has the slots of the children not visited yet. */
  datatype Frame = Frame(n: Node?, next: nat, present: Bits, base: nat)

  const NO_FRAME := Frame(null, 0, {}, 0)

  ghost predicate FrameOk(f: Frame, h: nat)
    reads f.n, if f.n == null then {} else f.n.repr
  {
    && f.n != null && f.n.Valid() && f.n.height == h > 0
    && f.base == Shl(h, f.n.prefix)
    && f.present <= f.n.present && f.next == |f.n.present - f.present|
    && (forall t, u :: t in f.n.present - f.present && u in f.present ==> t < u)
  }

  /** The ids below a frame that are still to come. */
  ghost function RestOf(f: Frame): set<nat>
    reads f.n
  {
    if f.n == null || f.n.height == 0 then {} else set x | x in f.n.ids && Slot(f.n.height, x) in f.present
  }

  /** The ids of a chunk still to come: those of the bits left in the current word and all later words. */
  ghost function ChunkRest(c: Node?, word: nat, bits: Bits): set<nat>
    reads c
  {
    if c == null then {} else set x | x in c.ids && (word < WordOf(x) || (word == WordOf(x) && BitOf(x) in bits))
  }

  ghost function Union(rest: seq<set<nat>>): set<nat>
  {
    if rest == [] then {} else Union(rest[..|rest| - 1]) + rest[|rest| - 1]
  }

  /** Whatever is left of a deeper frame comes before whatever is left of the frames above it. */
  ghost predicate Ordered(rest: seq<set<nat>>)
  {
    rest != [] ==> Ordered(rest[..|rest| - 1]) && Before(rest[|rest| - 1], Union(rest[..|rest| - 1]))
  }

  ghost predicate Before(a: set<nat>, b: set<nat>)
  {
    forall x, y :: x in a && y in b ==> x < y
  }

  function Advanced(f: Frame): Frame
  {
    f.(next := f.next + 1, present := DropLowest(f.present))
  }

  /** The lowest remaining child of a frame. */
  lemma ChildFacts(f: Frame, h: nat)
    requires FrameOk(f, h) && f.present != {}
    ensures f.next < |f.n.kids|
    ensures var s, k := TrailingZeros(f.present), f.n.kids[f.next];
      && k.Valid() && k.height + 1 == h && k.repr <= f.n.repr && k.ids != {}
      && f.base + Shl(h - 1, s) == Shl(h - 1, k.prefix)
      && (forall x :: x in k.ids <==> x in f.n.ids && Slot(h, x) == s)
  {
    hide Node.Valid, Node.Shape, DirShape, ChunkShape, Wrap, High, Slot, Kid;
    var n := f.n;
    var s := TrailingZeros(f.present);
    assert Below(n.present, s) == n.present - f.present;
    KidFacts(n, s);
    KidIds(n, s);
    var k := Kid(n.present, n.kids, s);
    NodeFacts(k);
    ShlAdd(h - 1, 64 * n.prefix, s);
  }

  /** Taking the lowest remaining child of a frame. */
  lemma NextChild(f: Frame, h: nat)
    requires FrameOk(f, h) && f.present != {}
    ensures f.next < |f.n.kids| && FrameOk(Advanced(f), h)
    ensures var k := f.n.kids[f.next];
      RestOf(Advanced(f)) + k.ids == RestOf(f) && Before(k.ids, RestOf(Advanced(f)))
  {
    hide Node.Valid, Slot;
    ChildFacts(f, h);
    AdvancedOk(f, h);
    hide FrameOk;
    LaterSlots(f.n, TrailingZeros(f.present), DropLowest(f.present));
  }

  lemma AdvancedOk(f: Frame, h: nat)
    requires FrameOk(f, h) && f.present != {}
    ensures FrameOk(Advanced(f), h)
  {
    hide Node.Valid, Shl, DropLowest;
    LowestTaken(f.n.present, f.present);
  }

  lemma LowestTaken(all: Bits, rest: Bits)
    requires rest <= all && rest != {} && forall t, u :: t in all - rest && u in rest ==> t < u
    ensures DropLowest(rest) <= rest && |all - DropLowest(rest)| == |all - rest| + 1
    ensures forall t, u :: t in all - DropLowest(rest) && u in DropLowest(rest) ==> t < u
  {
    assert all - DropLowest(rest) == (all - rest) + {TrailingZeros(rest)};
  }

  /** Ids in higher slots are larger. */
  lemma LaterSlots(n: Node, s: nat, later: Bits)
    requires n.Valid() && n.height > 0 && forall t :: t in later ==> s < t
    ensures forall x, y :: x in n.ids && y in n.ids && Slot(n.height, x) == s && Slot(n.height, y) in later ==> x < y
  {
    hide Node.Valid, Node.Shape, DirShape, ChunkShape, Wrap, High, Slot;
    NodeFacts(n);
    forall x, y | x in n.ids && y in n.ids && Slot(n.height, x) == s && Slot(n.height, y) in later
      ensures x < y
    {
      if y <= x {
        HighMono(n.height - 1, y, x);
      }
    }
  }

  // ---------------------------------------------------------------- inside a chunk

  lemma ChunkStart(c: Node)
    requires c.Valid() && c.height == 0
    ensures |c.words| == 4 && ChunkRest(c, 0, c.words[0]) == c.ids
  {
    hide Node.Valid, Node.Shape, WordOf, BitOf, High, Wrap;
    NodeFacts(c);
    forall x | x in c.ids
      ensures x in ChunkRest(c, 0, c.words[0])
    {
      assert InChunk(c.prefix, c.words, x);
    }
  }

  lemma ChunkStep(c: Node, word: nat)
    requires c.Valid() && c.height == 0 && word < 4
    ensures |c.words| == 4
    ensures ChunkRest(c, word, {}) == if word < 3 then ChunkRest(c, word + 1, c.words[word + 1]) else {}
  {
    hide Node.Valid, Node.Shape, WordOf, BitOf, High, Wrap;
    NodeFacts(c);
    forall x | x in c.ids && word < WordOf(x)
      ensures word < 3 && x in ChunkRest(c, word + 1, c.words[word + 1])
    {
      assert InChunk(c.prefix, c.words, x);
    }
  }

  lemma ChunkNext(c: Node, word: nat, bits: Bits)
    requires c.Valid() && c.height == 0 && word < 4 == |c.words| && bits <= c.words[word] && bits != {}
    ensures var id := Shl(0, c.prefix) + 64 * word + TrailingZeros(bits);
      && id in ChunkRest(c, word, bits) && (forall x :: x in ChunkRest(c, word, bits) ==> id <= x)
      && ChunkRest(c, word, DropLowest(bits)) == ChunkRest(c, word, bits) - {id}
  {
    hide Node.Valid, Node.Shape, WordOf, BitOf, High, Wrap;
    NodeFacts(c);
    var b := TrailingZeros(bits);
    var id := ChunkId(c.prefix, word, b);
    ChunkIdJoin(c.prefix, word, b);
    assert InChunk(c.prefix, c.words, id);
    forall x | x in ChunkRest(c, word, bits)
      ensures id <= x && (x != id ==> x in ChunkRest(c, word, DropLowest(bits)))
    {
      assert InChunk(c.prefix, c.words, x);
      ChunkIdSplit(x);
    }
  }

  // ---------------------------------------------------------------- the stack

  /** The path has a fixed number of frames; frame d stands at height tall - d. */
  ghost predicate StackOk(path: seq<Frame>, depth: nat, rest: seq<set<nat>>, tall: nat, nodes: set<Node>)
    reads nodes
  {
    && |path| == MAX_HEIGHT && tall <= MAX_HEIGHT && depth == |rest| <= tall
    && (forall d :: 0 <= d < depth ==>
      path[d].n != null && path[d].n in nodes && path[d].n.repr <= nodes && FrameOk(path[d], tall - d))
    && (forall d :: 0 <= d < depth ==> rest[d] == RestOf(path[d]))
    && Ordered(rest)
  }

  /** Taking the next child of the top frame; what the stack is then, and what it is with the child pushed. */
  lemma TakeChild(path: seq<Frame>, depth: nat, rest: seq<set<nat>>, tall: nat, nodes: set<Node>)
    requires StackOk(path, depth, rest, tall, nodes) && depth > 0 && path[depth - 1].present != {}
    ensures var f, h := path[depth - 1], tall - depth + 1;
      && f.n != null && f.n in nodes && FrameOk(f, h) && h > 0 && f.next < |f.n.kids|
      && var k, below := f.n.kids[f.next], f.base + Shl(h - 1, TrailingZeros(f.present));
      var path', rest' := path[depth - 1 := Advanced(f)], rest[depth - 1 := RestOf(Advanced(f))];
      && k.Valid() && k in nodes && k.repr <= nodes && k.height + 1 == h && below == Shl(h - 1, k.prefix)
      && StackOk(path', depth, rest', tall, nodes)
      && Before(k.ids, Union(rest')) && Union(rest') + k.ids == Union(rest) && Union(rest') < Union(rest)
      && (h > 1 ==> k.present != {} && depth < MAX_HEIGHT
                    && StackOk(path'[depth := Frame(k, 0, k.present, below)], depth + 1, rest' + [k.ids], tall, nodes)
                    && Union(rest' + [k.ids]) == Union(rest))
  {
    hide Node.Valid, Node.Shape, DirShape, ChunkShape, Wrap, High, Slot, Kid, Rank, FrameOk, RestOf, Ordered, Union;
    hide Before;
    var f, h := path[depth - 1], tall - depth + 1;
    FrameHeight(f, h);
    ChildFacts(f, h);
    NextChild(f, h);
    var k, below := f.n.kids[f.next], f.base + Shl(h - 1, TrailingZeros(f.present));
    ValidSelf(k);
    StackPush(rest, RestOf(Advanced(f)), k.ids);
    Smaller(rest, rest[depth - 1 := RestOf(Advanced(f))], k.ids);
    if h > 1 {
      FreshFrame(k, below);
    }
  }

  lemma StackSizes(path: seq<Frame>, depth: nat, rest: seq<set<nat>>, tall: nat, nodes: set<Node>)
    requires StackOk(path, depth, rest, tall, nodes)
    ensures |path| == MAX_HEIGHT && depth == |rest| <= tall <= MAX_HEIGHT
  {
  }

  lemma EmptyFrame(path: seq<Frame>, depth: nat, rest: seq<set<nat>>, tall: nat, nodes: set<Node>)
    requires StackOk(path, depth, rest, tall, nodes) && depth > 0 && path[depth - 1].present == {}
    ensures StackOk(path, depth - 1, rest[..depth - 1], tall, nodes) && Union(rest[..depth - 1]) == Union(rest)
  {
    hide Node.Valid, Node.Shape, DirShape, ChunkShape, Wrap, High, Slot;
    assert rest[depth - 1] == RestOf(path[depth - 1]) == {};
    StackPop(rest);
  }

  lemma FirstOfBoth(chunk: set<nat>, later: set<nat>, id: nat)
    requires Before(chunk, later) && id in chunk && forall x :: x in chunk ==> id <= x
    ensures forall x :: x in chunk + later ==> id <= x
    ensures chunk + later - {id} == (chunk - {id}) + later && Before(chunk - {id}, later)
  {
  }

  lemma NothingLeft(it: Iterator)
    requires it.PathOk() && it.depth == 0 && it.chunk == null
    ensures it.Todo() == {}
  {
    hide FrameOk, RestOf;
  }

  lemma NoFrames(path: seq<Frame>, nodes: set<Node>)
    requires |path| == MAX_HEIGHT
    ensures StackOk(path, 0, [], 0, nodes)
  {
  }

  lemma OneFrame(b: Node, path: seq<Frame>)
    requires b.Valid() && b.prefix == 0 && b.height > 0 && |path| == MAX_HEIGHT
    ensures StackOk(path[0 := Frame(b, 0, b.present, 0)], 1, [b.ids], b.height, b.repr)
    ensures b.present != {} && Union([b.ids]) == b.ids
  {
    hide Node.Valid, Node.Shape, DirShape, ChunkShape, Wrap, High, Slot, FrameOk, RestOf;
    NodeFacts(b);
    ShlAdd(b.height, 0, 0);
    FreshFrame(b, 0);
    var rest := [b.ids];
    assert rest[..|rest| - 1] == [];
    assert Ordered(rest);
  }

  lemma FrameHeight(f: Frame, h: nat)
    requires FrameOk(f, h)
    ensures h > 0 && f.n != null
  {
  }

  lemma StackPush(rest: seq<set<nat>>, left: set<nat>, kid: set<nat>)
    requires Ordered(rest) && rest != [] && left + kid == rest[|rest| - 1] && Before(kid, left)
    ensures var now := rest[|rest| - 1 := left];
      && Ordered(now) && Before(kid, Union(now)) && Union(now) + kid == Union(rest)
      && Ordered(now + [kid]) && Union(now + [kid]) == Union(rest)
  {
    var now := rest[|rest| - 1 := left];
    assert now[..|now| - 1] == rest[..|rest| - 1];
    assert (now + [kid])[..|now|] == now;
  }

  lemma StackPop(rest: seq<set<nat>>)
    requires Ordered(rest) && rest != [] && rest[|rest| - 1] == {}
    ensures Ordered(rest[..|rest| - 1]) && Union(rest[..|rest| - 1]) == Union(rest)
  {
  }

  class Iterator {
    var depth: nat
    var path: seq<Frame>
    var chunk: Node?
    var base: nat
    var word: nat
    var bits: Bits
    /** The height of the trie, what is left of each frame, and the nodes read. */
    ghost var tall: nat
    ghost var rest: seq<set<nat>>
    ghost var nodes: set<Node>

    ghost predicate PathOk()
      reads this, nodes
    {
      StackOk(path, depth, rest, tall, nodes)
    }

    ghost predicate ChunkOk()
      reads this, nodes
    {
      && (chunk == null ==> bits == {})
      && (chunk != null ==>
        chunk in nodes && chunk.repr <= nodes && chunk.Valid() && chunk.height == 0
        && base == Shl(0, chunk.prefix) && word < 4 == |chunk.words| && bits <= chunk.words[word])
      && Before(ChunkRest(chunk, word, bits), Union(rest))
    }

    /** Between calls: either inside a chunk at the end of a full path, or exhausted. */
    ghost predicate Valid()
      reads this, nodes
    {
      PathOk() && ChunkOk() && depth == (if chunk == null then 0 else tall)
    }

    /** The ids still to come. */
    ghost function Todo(): set<nat>
      reads this, nodes, chunk
    {
      ChunkRest(chunk, word, bits) + Union(rest)
    }

    /** An iterator over the set. */
    constructor Iterate(b: Bitmap)
      requires Canon(b) && AllBacked(Repr(b))
      ensures Valid() && Todo() == Ids(b) && nodes == Repr(b)
    {
      hide Node.Valid, Node.Shape, DirShape, ChunkShape, Wrap, High, Slot, Kid, Rank, FrameOk, RestOf, StackOk, Ordered;
      depth, path, chunk, base, word, bits := 0, seq(MAX_HEIGHT, i => NO_FRAME), null, 0, 0, {};
      tall, rest, nodes := 0, [], Repr(b);
      new;
      NoFrames(path, nodes);
      if b != null {
        NodeFacts(b);
        ShlAdd(b.height, 0, 0);
        if b.height == 0 {
          ChunkStart(b);
          chunk, bits := b, b.words[0];
        } else {
          OneFrame(b, path);
          path := path[0 := Frame(b, 0, b.present, 0)];
          depth, tall, rest := 1, b.height, [b.ids];
          Descend(b.height);
        }
      }
    }

    /** The next id: the smallest still to come, which is thereby used up; false once none is left. */
    method Next() returns (id: nat, ok: bool)
      requires Valid() && AllBacked(nodes)
      modifies this
      ensures Valid() && nodes == old(nodes)
      ensures ok <==> old(Todo()) != {}
      ensures ok ==> id in old(Todo()) && (forall x :: x in old(Todo()) ==> id <= x) && Todo() == old(Todo()) - {id}
      ensures !ok ==> Todo() == {}
    {
      hide Node.Valid, Node.Shape, DirShape, ChunkShape, Wrap, High, Slot, Kid, Rank, FrameOk, RestOf, Ordered, Union;
      hide ChunkRest, Backed;
      while true
        invariant Valid() && Todo() == old(Todo()) && nodes == old(nodes) && AllBacked(nodes)
        decreases Union(rest), if chunk == null then 0 else 5 - word
      {
        if bits != {} {
          ChunkNext(chunk, word, bits);
          id := base + (64 * word + TrailingZeros(bits));
          FirstOfBoth(ChunkRest(chunk, word, bits), Union(rest), id);
          bits := DropLowest(bits);
          return id, true;
        }
        if chunk == null {
          NothingLeft(this);
          return 0, false;
        }
        ChunkStep(chunk, word);
        if word < 3 {
          word := word + 1;
          bits := chunk.words[word];
          continue;
        }
        chunk := null;
        var height := Climb();
        if depth == 0 {
          NothingLeft(this);
          return 0, false;
        }
        Descend(height);
      }
    }

    /** From a finished chunk up to a node with children left, if there is one; height is that of the node. */
    method Climb() returns (height: nat)
      requires PathOk() && depth == tall && chunk == null
      modifies this`depth, this`rest
      ensures PathOk() && height == tall - depth + 1 && Union(rest) == old(Union(rest))
      ensures depth > 0 ==> path[depth - 1].present != {}
    {
      hide Node.Valid, Node.Shape, DirShape, ChunkShape, Wrap, High, Slot, Kid, Rank, FrameOk, RestOf, Ordered, Union;
      height := 1;
      while depth > 0 && path[depth - 1].present == {}
        invariant PathOk() && height == tall - depth + 1 && Union(rest) == old(Union(rest))
        decreases depth
      {
        EmptyFrame(path, depth, rest, tall, nodes);
        rest := rest[..depth - 1];
        depth := depth - 1;
        height := height + 1;
      }
    }

    /** From the top frame, which has children left, down to the next chunk; height is that of its node. */
    method Descend(height: nat)
      requires PathOk() && depth > 0 && height == tall - depth + 1 && path[depth - 1].present != {}
      requires AllBacked(nodes)
      modifies this
      ensures Valid() && chunk != null && nodes == old(nodes) && tall == old(tall)
      ensures Todo() == old(Union(rest)) && Union(rest) < old(Union(rest))
    {
      hide Node.Valid, Node.Shape, DirShape, ChunkShape, Wrap, High, Slot, Kid, Rank, FrameOk, RestOf, Ordered, Union;
      hide Before, ChunkRest, StackOk;
      StackSizes(path, depth, rest, tall, nodes);
      var h := height;
      while true
        invariant |path| == MAX_HEIGHT && depth == |rest| <= tall <= MAX_HEIGHT
        invariant PathOk() && depth > 0 && h == tall - depth + 1 && path[depth - 1].present != {}
        invariant Union(rest) == old(Union(rest)) && nodes == old(nodes) && tall == old(tall) && AllBacked(nodes)
        decreases h
      {
        var f := path[depth - 1];
        TakeChild(path, depth, rest, tall, nodes);
        var slot := TrailingZeros(f.present);
        assert Backed(f.n);
        var child := f.n.slots.items[f.next];
        var below := f.base + Shl(h - 1, slot);
        h := h - 1;
        if h == 0 {
          ChunkStart(child);
          Enter(path[depth - 1 := Advanced(f)], rest[depth - 1 := RestOf(Advanced(f))], child, below);
          return;
        }
        Push(path[depth - 1 := Advanced(f)][depth := Frame(child, 0, child.present, below)],
             rest[depth - 1 := RestOf(Advanced(f))] + [child.ids]);
      }
    }

    method Push(path: seq<Frame>, ghost rest: seq<set<nat>>)
      modifies this
      ensures this.path == path && this.rest == rest && depth == old(depth) + 1
      ensures nodes == old(nodes) && tall == old(tall)
    {
      this.path, this.rest, depth := path, rest, depth + 1;
    }

    method Enter(path: seq<Frame>, ghost rest: seq<set<nat>>, chunk: Node, base: nat)
      requires |chunk.words| == 4
      modifies this
      ensures this.path == path && this.rest == rest && depth == old(depth) && nodes == old(nodes) && tall == old(tall)
      ensures this.chunk == chunk && this.base == base && word == 0 && bits == chunk.words[0]
    {
      this.path, this.rest := path, rest;
      this.chunk, this.base, word, bits := chunk, base, 0, chunk.words[0];
    }
  }

  lemma Smaller(rest: seq<set<nat>>, now: seq<set<nat>>, kid: set<nat>)
    requires Union(now) + kid == Union(rest) && Before(kid, Union(now)) && kid != {}
    ensures Union(now) < Union(rest)
  {
    var x :| x in kid;
  }

  lemma FreshFrame(n: Node, base: nat)
    requires n.Valid() && n.height > 0 && base == Shl(n.height, n.prefix)
    ensures FrameOk(Frame(n, 0, n.present, base), n.height) && RestOf(Frame(n, 0, n.present, base)) == n.ids
    ensures n.present != {}
  {
    hide Node.Valid, Node.Shape, DirShape, ChunkShape, Wrap, High, Slot;
    SlotPresent(n);
    PresentNotEmpty(n);
    assert n.present - n.present == {};
  }

  ghost predicate Ascending(s: seq<nat>)
  {
    forall i, j :: 0 <= i < j < |s| ==> s[i] < s[j]
  }

  /** Running an iterator to its end: every id exactly once, in ascending order, starting with
      what Min returns. */
  method Collect(b: Bitmap) returns (out: seq<nat>)
    requires Canon(b) && AllBacked(Repr(b))
    ensures Ascending(out) && |out| == |Ids(b)| && (forall x :: x in out <==> x in Ids(b))
    ensures out != [] ==> forall x :: x in Ids(b) ==> out[0] <= x
  {
    hide Node.Valid, Node.Shape, Iterator.Valid, Iterator.Todo, Listed;
    var it := new Iterator.Iterate(b);
    out := [];
    ghost var todo := Ids(b);
    NothingListed(todo);
    while true
      invariant fresh(it) && it.Valid() && it.Todo() == todo && Listed(out, todo, Ids(b)) && it.nodes == Repr(b)
      decreases todo
    {
      var id, ok := it.Next();
      if !ok {
        AllListed(out, todo, Ids(b));
        return;
      }
      OneListed(out, todo, Ids(b), id);
      out := out + [id];
      todo := todo - {id};
    }
  }

  /** out lists, in order, the ids of all below those still to come. */
  ghost predicate Listed(out: seq<nat>, todo: set<nat>, all: set<nat>)
  {
    && Ascending(out) && |all| == |out| + |todo| && todo <= all
    && (forall x, y :: x in out && y in todo ==> x < y)
    && (forall x :: x in all <==> x in out || x in todo)
  }

  lemma NothingListed(all: set<nat>)
    ensures Listed([], all, all)
  {
  }

  lemma OneListed(out: seq<nat>, todo: set<nat>, all: set<nat>, id: nat)
    requires Listed(out, todo, all) && id in todo && forall x :: x in todo ==> id <= x
    ensures Listed(out + [id], todo - {id}, all)
  {
    assert forall x :: x in out + [id] <==> x in out || x == id;
    assert forall i :: 0 <= i < |out| ==> out[i] in out;
  }

  lemma AllListed(out: seq<nat>, todo: set<nat>, all: set<nat>)
    requires Listed(out, todo, all) && todo == {}
    ensures Ascending(out) && |out| == |all| && (forall x :: x in out <==> x in all)
  {
  }
}
