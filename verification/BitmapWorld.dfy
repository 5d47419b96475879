/** Any number of writers at work on any number of sets, and the sets they have let go of.

    A set is live while its writer may still change it in place, and kept once it has been handed out
    after a Freeze. However writes, freezes and set algebra interleave, every set holds exactly the ids
    that a machine over plain sets would give it; so a kept set never changes. */
module BitmapWorld {
  import opened Epochs
  import opened IdSpace
  import opened BitmapNode
  import opened BitmapWriter
  import opened BitmapAlgebra

  datatype Op = AndOp | OrOp | AndNotOp

  /** What the holders of sets can do, in any order. */
  datatype Command =
    | AddWriter
    | Fresh(writer: nat)                    // an empty set for a writer
    | Adopt(target: nat, writer: nat)         // a kept set becomes the start of a writer's next one
    | Change(target: nat, id: nat, add: bool) // Set or Clear by the set's writer
    | Publish(target: nat)                    // Freeze the writer and hand the set out
    | Combine(op: Op, left: nat, right: nat)

  // ---------------------------------------------------------------- the machine over plain sets

  datatype Held = HeldKept(ids: set<nat>) | HeldLive(owner: nat, ids: set<nat>)
  datatype Model = Model(writers: nat, sets: seq<Held>)

  function Algebra(op: Op, a: set<nat>, b: set<nat>): set<nat>
  {
    match op
    case AndOp => a * b
    case OrOp => a + b
    case AndNotOp => a - b
  }

  /** Whether a command refers to things that exist. */
  predicate Enabled(m: Model, c: Command)
  {
    match c
    case AddWriter => true
    case Fresh(w) => w < m.writers
    case Adopt(k, w) => k < |m.sets| && m.sets[k].HeldKept? && w < m.writers
    case Change(l, id, add) => l < |m.sets| && m.sets[l].HeldLive? && id < UINT32
    case Publish(l) => l < |m.sets| && m.sets[l].HeldLive?
    case Combine(op, a, b) => a < |m.sets| && b < |m.sets| && m.sets[a].HeldKept? && m.sets[b].HeldKept?
  }

  function Step(m: Model, c: Command): Model
  {
    if !Enabled(m, c) then m else
    match c
    case AddWriter => m.(writers := m.writers + 1)
    case Fresh(w) => m.(sets := m.sets + [HeldLive(w, {})])
    case Adopt(k, w) => m.(sets := m.sets + [HeldLive(w, m.sets[k].ids)])
    case Change(l, id, add) =>
      var s := m.sets[l];
      m.(sets := m.sets[l := HeldLive(s.owner, if add then s.ids + {id} else s.ids - {id})])
    case Publish(l) => m.(sets := m.sets + [HeldKept(m.sets[l].ids)])
    case Combine(op, a, b) => m.(sets := m.sets + [HeldKept(Algebra(op, m.sets[a].ids, m.sets[b].ids))])
  }

  function Steps(m: Model, cs: seq<Command>): Model
  {
    if cs == [] then m else Step(Steps(m, cs[..|cs| - 1]), cs[|cs| - 1])
  }

  // ---------------------------------------------------------------- the machine on the heap

  datatype Entry = Kept(bitmap: Bitmap) | Live(owner: nat, bitmap: Bitmap)

  /** No node carries epoch e: nothing a writer of that epoch does reaches these nodes. */
  ghost predicate Free(nodes: set<Node>, e: nat)
  {
    forall x :: x in nodes ==> x.epoch != e || e == 0
  }

  ghost predicate NoShare(a: set<Node>, b: set<Node>, e: nat)
  {
    forall x :: x in a && x in b ==> x.epoch != e || e == 0
  }

  ghost predicate Past(nodes: set<Node>, last: nat)
  {
    forall x :: x in nodes ==> x.epoch <= last
  }

  /** b is well-formed and holds exactly ids. */
  ghost predicate Holds(b: Bitmap, ids: set<nat>)
    reads b, Repr(b)
  {
    Canon(b) && Ids(b) == ids
  }

  /** What is required of one entry with respect to one writer with epoch e. */
  ghost predicate Respects(s: Entry, i: nat, e: nat, last: nat)
    reads s.bitmap, Repr(s.bitmap)
  {
    if s == Live(i, s.bitmap) then Sealed(Repr(s.bitmap), e, last) else Free(Repr(s.bitmap), e)
  }

  /** An entry is in order with respect to writers of the given epochs. */
  ghost predicate Carried(s: Entry, ids: set<nat>, epochs: seq<nat>, last: nat)
    reads s.bitmap, Repr(s.bitmap)
  {
    && Holds(s.bitmap, ids) && Past(Repr(s.bitmap), last)
    && (s.Live? ==> s.owner < |epochs|)
    && (forall i :: 0 <= i < |epochs| ==> Respects(s, i, epochs[i], last))
  }

  lemma CarriedSelf(s: Entry, ids: set<nat>, epochs: seq<nat>, last: nat, o: nat)
    requires Carried(s, ids, epochs, last) && s.Live? && s.owner == o
    ensures o < |epochs| && Holds(s.bitmap, ids) && Sealed(Repr(s.bitmap), epochs[o], last)
    ensures forall i :: 0 <= i < |epochs| && i != o ==> Free(Repr(s.bitmap), epochs[i])
  {
    forall i | 0 <= i < |epochs| && i != o
      ensures Free(Repr(s.bitmap), epochs[i])
    {
      assert Respects(s, i, epochs[i], last);
    }
    assert Respects(s, o, epochs[o], last);
  }

  lemma SealedPast(nodes: set<Node>, e: nat, last: nat)
    requires Sealed(nodes, e, last)
    ensures Past(nodes, last)
  {
  }

  lemma SealedFree(b: Bitmap, e: nat, last: nat)
    requires Canon(b) && Past(Repr(b), last) && Free(Repr(b), e)
    ensures Sealed(Repr(b), e, last)
  {
    hide Node.Shape;
    if b != null {
      NodeFacts(b);
      forall x | x in b.repr
        ensures Guards(x, e, last)
      {
        assert x.repr <= b.repr;
      }
    }
  }

  /** Time passes: the counter moves on, and a writer's epoch stays, is newly drawn, or is given up. */
  ghost predicate Later(e: nat, last: nat, e': nat, last': nat)
  {
    last <= last' && (e' == e || e' > last || e' == 0)
  }

  lemma RespectsLater(s: Entry, i: nat, e: nat, last: nat, e': nat, last': nat)
    requires Respects(s, i, e, last) && Past(Repr(s.bitmap), last) && Later(e, last, e', last')
    ensures Respects(s, i, e', last') && Past(Repr(s.bitmap), last')
  {
    hide Node.Valid;
    if s == Live(i, s.bitmap) {
      forall x | x in Repr(s.bitmap)
        ensures Guards(x, e', last')
      {
        assert Guards(x, e, last);
      }
    }
  }

  /** Live sets of one writer share no node it may change. */
  ghost predicate PairOk(s: Entry, t: Entry, epochs: seq<nat>)
    reads s.bitmap, t.bitmap
  {
    s.Live? && t.Live? && s.owner == t.owner && s.owner < |epochs| ==>
      NoShare(Repr(s.bitmap), Repr(t.bitmap), epochs[s.owner])
  }

  ghost function EpochsOf(writers: seq<Writer>): (r: seq<nat>)
    reads writers
    ensures |r| == |writers| && forall i :: 0 <= i < |r| ==> r[i] == writers[i].epoch
  {
    seq(|writers|, i requires 0 <= i < |writers| reads writers => writers[i].epoch)
  }

  ghost predicate Distinct(epochs: seq<nat>, last: nat)
  {
    && (forall i :: 0 <= i < |epochs| ==> epochs[i] <= last)
    && (forall i, j :: 0 <= i < j < |epochs| && epochs[i] == epochs[j] ==> epochs[i] == 0)
  }

  lemma CarriedLater(s: Entry, ids: set<nat>, epochs: seq<nat>, last: nat, o: nat, e': nat, last': nat)
    requires Carried(s, ids, epochs, last) && o < |epochs| && Later(epochs[o], last, e', last')
    ensures Carried(s, ids, epochs[o := e'], last')
  {
    hide Node.Valid, Holds, Respects;
    var now := epochs[o := e'];
    forall i | 0 <= i < |now|
      ensures Respects(s, i, now[i], last')
    {
      RespectsLater(s, i, epochs[i], last, now[i], last');
    }
    PastLater(Repr(s.bitmap), last, last');
  }

  lemma PastLater(nodes: set<Node>, last: nat, last': nat)
    requires Past(nodes, last) && last <= last'
    ensures Past(nodes, last')
  {
  }

  lemma PairLater(s: Entry, t: Entry, epochs: seq<nat>, last: nat, o: nat, e': nat, last': nat)
    requires PairOk(s, t, epochs) && o < |epochs| && Later(epochs[o], last, e', last') && Past(Repr(t.bitmap), last)
    ensures PairOk(s, t, epochs[o := e'])
  {
  }

  lemma PairMore(s: Entry, t: Entry, ids: set<nat>, epochs: seq<nat>, last: nat)
    requires PairOk(s, t, epochs) && Carried(s, ids, epochs, last)
    ensures PairOk(s, t, epochs + [0])
  {
    hide Node.Valid, Holds;
  }

  lemma CarriedPast(s: Entry, ids: set<nat>, epochs: seq<nat>, last: nat)
    requires Carried(s, ids, epochs, last)
    ensures Past(Repr(s.bitmap), last)
  {
  }

  lemma PairFlip(s: Entry, t: Entry, epochs: seq<nat>)
    requires PairOk(s, t, epochs)
    ensures PairOk(t, s, epochs)
  {
  }

  /** A changed set shares nothing new with another one. */
  lemma ChangedPair(s: Entry, t: Entry, before: set<Node>, epochs: seq<nat>, last: nat, e': nat, last': nat)
    requires s.Live? && s.owner < |epochs| && Later(epochs[s.owner], last, e', last')
    requires t.Live? && t.owner == s.owner ==> NoShare(before, Repr(t.bitmap), epochs[s.owner])
    requires Past(Repr(t.bitmap), last)
    requires forall x :: x in Repr(s.bitmap) && x in Repr(t.bitmap) ==> x in before
    ensures PairOk(s, t, epochs[s.owner := e'])
  {
  }

  /** After set l has changed, no two live sets of one writer share an owned node. */
  lemma PairsAfter(sets: seq<Entry>, ids: seq<set<nat>>, l: nat, before: set<Node>, epochs: seq<nat>, last: nat,
                   e': nat, last': nat)
    requires l < |sets| == |ids| && sets[l].Live? && sets[l].owner < |epochs|
    requires Later(epochs[sets[l].owner], last, e', last')
    requires forall m :: 0 <= m < |sets| && m != l ==> Carried(sets[m], ids[m], epochs, last)
    requires forall m :: 0 <= m < |sets| && m != l && sets[m].Live? && sets[m].owner == sets[l].owner ==>
                           NoShare(before, Repr(sets[m].bitmap), epochs[sets[l].owner])
    requires forall m, x :: 0 <= m < |sets| && m != l && x in Repr(sets[l].bitmap) && x in Repr(sets[m].bitmap) ==>
      x in before
    requires forall i, j :: 0 <= i < j < |sets| && i != l && j != l ==> PairOk(sets[i], sets[j], epochs)
    ensures forall i, j :: 0 <= i < j < |sets| ==> PairOk(sets[i], sets[j], epochs[sets[l].owner := e'])
  {
    hide Node.Valid, Node.Shape, Holds, Respects, PairOk, NoShare, Past, Later, Carried;
    forall i, j | 0 <= i < j < |sets|
      ensures PairOk(sets[i], sets[j], epochs[sets[l].owner := e'])
    {
      if i == l {
        CarriedPast(sets[j], ids[j], epochs, last);
        ChangedPair(sets[l], sets[j], before, epochs, last, e', last');
      } else if j == l {
        CarriedPast(sets[i], ids[i], epochs, last);
        ChangedPair(sets[l], sets[i], before, epochs, last, e', last');
        PairFlip(sets[l], sets[i], epochs[sets[l].owner := e']);
      } else {
        CarriedPast(sets[j], ids[j], epochs, last);
        PairLater(sets[i], sets[j], epochs, last, sets[l].owner, e', last');
      }
    }
  }

  /** One more writer, which owns nothing yet. */
  lemma CarriedMore(s: Entry, ids: set<nat>, epochs: seq<nat>, last: nat)
    requires Carried(s, ids, epochs, last)
    ensures Carried(s, ids, epochs + [0], last)
  {
    hide Node.Valid, Holds;
    forall i | 0 <= i < |epochs| + 1
      ensures Respects(s, i, (epochs + [0])[i], last)
    {
      if i < |epochs| {
        assert Respects(s, i, epochs[i], last);
      }
    }
  }

  /** A set handed out while its writer is frozen is out of every writer's reach. */
  lemma PublishedCarried(s: Entry, ids: set<nat>, epochs: seq<nat>, last: nat)
    requires Carried(s, ids, epochs, last) && s.Live? && s.owner < |epochs| && epochs[s.owner] == 0
    ensures Carried(Kept(s.bitmap), ids, epochs, last)
  {
    hide Node.Valid, Holds;
    forall i | 0 <= i < |epochs|
      ensures Respects(Kept(s.bitmap), i, epochs[i], last)
    {
      assert Respects(s, i, epochs[i], last);
    }
  }

  /** A kept set can become the start of any writer's next set. */
  lemma AdoptedCarried(s: Entry, ids: set<nat>, epochs: seq<nat>, last: nat, w: nat)
    requires Carried(s, ids, epochs, last) && s.Kept? && w < |epochs|
    ensures Carried(Live(w, s.bitmap), ids, epochs, last)
    ensures Free(Repr(s.bitmap), epochs[w])
  {
    hide Node.Valid;
    forall i | 0 <= i < |epochs|
      ensures Respects(Live(w, s.bitmap), i, epochs[i], last)
    {
      assert Respects(s, i, epochs[i], last);
      if i == w {
        SealedFree(s.bitmap, epochs[i], last);
      }
    }
    assert Respects(s, w, epochs[w], last);
  }

  lemma CombinedCarried(r: Bitmap, ids: set<nat>, a: Entry, idsA: set<nat>, b: Entry, idsB: set<nat>, epochs: seq<nat>,
                        last: nat)
    requires Holds(r, ids) && a.Kept? && b.Kept? && Carried(a, idsA, epochs, last) && Carried(b, idsB, epochs, last)
    requires forall x :: x in Repr(r) ==> x in Repr(a.bitmap) || x in Repr(b.bitmap) || x.epoch == 0
    ensures Carried(Kept(r), ids, epochs, last)
  {
    hide Node.Valid, Holds;
    forall i | 0 <= i < |epochs|
      ensures Respects(Kept(r), i, epochs[i], last)
    {
      assert Respects(a, i, epochs[i], last);
      assert Respects(b, i, epochs[i], last);
    }
  }

  /** The set a writer has changed, after the change: before has the nodes it had. */
  lemma ChangedCarried(r: Bitmap, ids: set<nat>, before: set<Node>, epochs: seq<nat>, last: nat, o: nat, e': nat,
                       last': nat)
    requires Holds(r, ids) && Sealed(Repr(r), e', last') && o < |epochs|
    requires Later(epochs[o], last, e', last') && Distinct(epochs, last) && e' <= last'
    requires forall x :: x in Repr(r) ==> x in before || x.epoch == e'
    requires forall i :: 0 <= i < |epochs| && i != o ==> Free(before, epochs[i])
    ensures Carried(Live(o, r), ids, epochs[o := e'], last') && Distinct(epochs[o := e'], last')
  {
    hide Node.Valid, Holds;
    SealedPast(Repr(r), e', last');
    forall i | 0 <= i < |epochs| && i != o
      ensures e' == epochs[i] ==> e' == 0
    {
      assert i < o || o < i;
    }
  }

  /** Every node of every set. */
  ghost function NodesOf(sets: seq<Entry>): set<Node>
    reads set s | s in sets && s.bitmap != null :: s.bitmap
  {
    set l, x | 0 <= l < |sets| && x in Repr(sets[l].bitmap) :: x
  }

  lemma NodesWithin(sets: seq<Entry>, l: nat, was: set<Node>)
    requires l < |sets| && forall m :: 0 <= m < |sets| && m != l ==> Repr(sets[m].bitmap) <= was
    ensures forall x :: x in NodesOf(sets) ==> x in was || x in Repr(sets[l].bitmap)
  {
  }

  lemma NodesCover(sets: seq<Entry>, l: nat)
    requires l < |sets|
    ensures Repr(sets[l].bitmap) <= NodesOf(sets)
  {
  }

  ghost function HeldOf(s: Entry, ids: set<nat>): Held
  {
    if s.Kept? then HeldKept(ids) else HeldLive(s.owner, ids)
  }

  ghost function HeldAll(sets: seq<Entry>, ids: seq<set<nat>>): (r: seq<Held>)
    requires |ids| == |sets|
    ensures |r| == |sets|
    ensures forall l :: 0 <= l < |sets| ==> r[l] == HeldOf(sets[l], ids[l])
  {
    seq(|sets|, l requires 0 <= l < |sets| && |ids| == |sets| => HeldOf(sets[l], ids[l]))
  }

  lemma HeldAppend(sets: seq<Entry>, ids: seq<set<nat>>, s: Entry, held: set<nat>)
    requires |ids| == |sets|
    ensures HeldAll(sets + [s], ids + [held]) == HeldAll(sets, ids) + [HeldOf(s, held)]
  {
  }

  lemma HeldUpdate(sets: seq<Entry>, ids: seq<set<nat>>, l: nat, s: Entry, held: set<nat>)
    requires |ids| == |sets| && l < |sets|
    ensures HeldAll(sets[l := s], ids[l := held]) == HeldAll(sets, ids)[l := HeldOf(s, held)]
  {
  }

  /** One call of Set or Clear, seen from outside; nodes has those of all sets. */
  method Write(w: Writer, b: Bitmap, id: nat, add: bool, ghost ids: set<nat>, ghost e: nat, ghost last: nat,
               ghost nodes: set<Node>) returns (r: Bitmap)
    requires Holds(b, ids) && id < UINT32 && w.epoch == e <= last == w.counter.last && Sealed(Repr(b), e, last)
    requires AllBacked(nodes) && Repr(b) <= nodes
    modifies w, w.counter, if b == null then {} else Owned(b, w.epoch)
    ensures Holds(r, if add then ids + {id} else ids - {id}) && Sealed(Repr(r), w.epoch, w.counter.last)
    ensures Later(e, last, w.epoch, w.counter.last) && w.epoch <= w.counter.last
    ensures forall x :: x in Repr(r) ==> x in old(Repr(b)) || (fresh(x) && fresh(x.slots) && x.epoch == w.epoch)
    ensures AllBacked(nodes + Repr(r))
  {
    hide Backed, AllBacked, Node.Valid, Node.Shape, Sealed, Guards, Canon;
    ghost var before, rest := Repr(b), nodes - Repr(b);
    RestBacked(nodes, before, e);
    if add {
      var added;
      r, added := w.Set(b, id);
      assert before + Repr(r) == Repr(r);
    } else {
      var removed;
      r, removed := w.Clear(b, id);
    }
    BothBacked(rest, before + Repr(r));
    assert rest + (before + Repr(r)) == nodes + Repr(r);
  }

  /** And, Or or AndNot. */
  method CombineSets(op: Op, a: Bitmap, b: Bitmap) returns (r: Bitmap)
    requires Canon(a) && Canon(b) && AllBacked(Repr(a)) && AllBacked(Repr(b))
    ensures Canon(r) && Ids(r) == Algebra(op, Ids(a), Ids(b)) && AllBacked(Repr(r))
    ensures forall x :: x in Repr(r) ==>
      x in Repr(a) || x in Repr(b) || (fresh(x) && fresh(x.slots) && x.epoch == 0)
  {
    hide Canon, Backed, AllBacked;
    match op {
      case AndOp => r := And(a, b);
      case OrOp => r := Or(a, b);
      case AndNotOp => r := AndNot(a, b);
    }
  }

  class World {
    var counter: EpochCounter
    var writers: seq<Writer>
    var sets: seq<Entry>
    ghost var ids: seq<set<nat>>

    ghost predicate WritersOk()
      reads this, counter, writers
    {
      && (forall i :: 0 <= i < |writers| ==> writers[i].counter == counter)
      && (forall i, j :: 0 <= i < j < |writers| ==> writers[i] != writers[j])
      && Distinct(EpochsOf(writers), counter.last)
    }

    ghost predicate Valid()
      reads *
    {
      && WritersOk() && |ids| == |sets| && AllBacked(NodesOf(sets))
      && (forall l :: 0 <= l < |sets| ==> Carried(sets[l], ids[l], EpochsOf(writers), counter.last))
      && (forall l, m :: 0 <= l < m < |sets| ==> PairOk(sets[l], sets[m], EpochsOf(writers)))
    }

    constructor ()
      ensures Valid() && sets == [] && writers == []
    {
      counter := new EpochCounter();
      writers, sets, ids := [], [], [];
    }

    /** What the writer of set l may change is out of reach of every other set. */
    lemma OutOfReach(l: nat, m: nat)
      requires Valid() && l < |sets| && m < |sets| && l != m && sets[l].Live?
      ensures sets[l].owner < |writers|
      ensures sets[l].bitmap != null ==> Repr(sets[m].bitmap) !! Owned(sets[l].bitmap, writers[sets[l].owner].epoch)
      ensures sets[m].bitmap != null ==> sets[m].bitmap in Repr(sets[m].bitmap)
      ensures sets[m].Live? && sets[m].owner == sets[l].owner ==>
        NoShare(Repr(sets[l].bitmap), Repr(sets[m].bitmap), writers[sets[l].owner].epoch)
    {
      hide Node.Shape, Node.Valid, Holds;
      var o := sets[l].owner;
      assert Carried(sets[m], ids[m], EpochsOf(writers), counter.last)
        && Carried(sets[l], ids[l], EpochsOf(writers), counter.last);
      assert Respects(sets[m], o, EpochsOf(writers)[o], counter.last);
      HoldsSelf(sets[m].bitmap, ids[m]);
      if sets[m].Live? && sets[m].owner == o {
        if l < m {
          assert PairOk(sets[l], sets[m], EpochsOf(writers));
        } else {
          assert PairOk(sets[m], sets[l], EpochsOf(writers));
        }
      }
    }

    /** Before a change of set l by its writer. */
    lemma Ready(l: nat)
      requires Valid() && l < |sets| && sets[l].Live?
      ensures sets[l].owner < |writers| && writers[sets[l].owner].counter == counter
      ensures Distinct(EpochsOf(writers), counter.last) && writers[sets[l].owner].epoch <= counter.last
      ensures Holds(sets[l].bitmap, ids[l]) && Sealed(Repr(sets[l].bitmap), writers[sets[l].owner].epoch, counter.last)
      ensures forall i :: 0 <= i < |writers| && i != sets[l].owner ==>
        writers[i] != writers[sets[l].owner] && Free(Repr(sets[l].bitmap), EpochsOf(writers)[i])
      ensures forall m :: 0 <= m < |sets| && m != l ==>
        && (sets[l].bitmap != null ==> Repr(sets[m].bitmap) !! Owned(sets[l].bitmap, writers[sets[l].owner].epoch))
        && (sets[m].bitmap != null ==> sets[m].bitmap in Repr(sets[m].bitmap))
        && (sets[m].Live? && sets[m].owner == sets[l].owner ==>
             NoShare(Repr(sets[l].bitmap), Repr(sets[m].bitmap), writers[sets[l].owner].epoch))
    {
      hide Node.Shape, Node.Valid, Holds, Respects, NoShare, Free, PairOk;
      CarriedSelf(sets[l], ids[l], EpochsOf(writers), counter.last, sets[l].owner);
      forall i | 0 <= i < |writers| && i != sets[l].owner
        ensures writers[i] != writers[sets[l].owner]
      {
        if i < sets[l].owner { } else { }
      }
      forall m | 0 <= m < |sets| && m != l
        ensures sets[l].bitmap != null ==> Repr(sets[m].bitmap) !! Owned(sets[l].bitmap, writers[sets[l].owner].epoch)
        ensures sets[m].bitmap != null ==> sets[m].bitmap in Repr(sets[m].bitmap)
        ensures sets[m].Live? && sets[m].owner == sets[l].owner ==>
             NoShare(Repr(sets[l].bitmap), Repr(sets[m].bitmap), writers[sets[l].owner].epoch)
      {
        OutOfReach(l, m);
      }
    }

    /** A writer changes one of its live sets, in place where it can. */
    method Change(l: nat, id: nat, add: bool)
      requires Valid() && l < |sets| && sets[l].Live? && id < UINT32
      modifies this`sets, this`ids, counter, writers[..], Changed(l)
      ensures Valid() && writers == old(writers) && |sets| == |old(sets)| && sets[l].Live?
      ensures sets[l].owner == old(sets[l].owner)
      ensures forall m :: 0 <= m < |sets| && m != l ==> sets[m] == old(sets)[m]
      ensures ids == old(ids)[l := if add then old(ids)[l] + {id} else old(ids)[l] - {id}]
      ensures forall x :: x in NodesOf(sets) ==> x in old(NodesOf(sets)) || (fresh(x) && fresh(x.slots))
    {
      hide Backed, AllBacked, Node.Valid, Node.Shape, Sealed, Guards, Canon, Respects, PairOk, Free, NoShare, Past;
      hide Holds, Later, Carried, Distinct, NodesOf;
      Ready(l);
      ghost var nodes := NodesOf(sets);
      forall m | 0 <= m < |sets|
        ensures Repr(sets[m].bitmap) <= nodes
      {
        NodesCover(sets, m);
      }
      var b, o := sets[l].bitmap, sets[l].owner;
      ghost var epochs, last, before := EpochsOf(writers), counter.last, Repr(b);
      var r := Write(writers[o], b, id, add, ids[l], epochs[o], last, nodes);
      ghost var all := nodes + Repr(r);
      ghost var area := Area(all);
      sets, ids := sets[l := Live(o, r)], ids[l := if add then ids[l] + {id} else ids[l] - {id}];
      forall m | 0 <= m < |sets| && m != l
        ensures Carried(sets[m], ids[m], epochs, last) && Repr(sets[m].bitmap) == old(Repr(sets[m].bitmap))
      {
        assert old(Carried(sets[m], ids[m], epochs, last));
      }
      forall i, j | 0 <= i < j < |sets| && i != l && j != l
        ensures PairOk(sets[i], sets[j], epochs)
      {
        assert old(PairOk(sets[i], sets[j], epochs));
      }
      NodesWithin(sets, l, nodes);
      PartBacked(NodesOf(sets), all);
      StillValid(l, before, epochs, last);
    }

    /** After set l has been changed by its writer: all is in order under the writer's new epoch. */
    lemma StillValid(l: nat, before: set<Node>, epochs: seq<nat>, last: nat)
      requires l < |sets| == |ids| && sets[l].Live? && sets[l].owner < |writers| == |epochs|
      requires forall i :: 0 <= i < |writers| ==> writers[i].counter == counter
      requires forall i, j :: 0 <= i < j < |writers| ==> writers[i] != writers[j]
      requires Distinct(epochs, last) && Later(epochs[sets[l].owner], last, writers[sets[l].owner].epoch, counter.last)
      requires forall i :: 0 <= i < |writers| && i != sets[l].owner ==>
        writers[i].epoch == epochs[i] && Free(before, epochs[i])
      requires Holds(sets[l].bitmap, ids[l]) && Sealed(Repr(sets[l].bitmap), writers[sets[l].owner].epoch, counter.last)
      requires writers[sets[l].owner].epoch <= counter.last
      requires forall x :: x in Repr(sets[l].bitmap) ==> x in before || x.epoch == writers[sets[l].owner].epoch
      requires forall m :: 0 <= m < |sets| && m != l ==> Carried(sets[m], ids[m], epochs, last)
      requires forall m :: 0 <= m < |sets| && m != l && sets[m].Live? && sets[m].owner == sets[l].owner ==>
                             NoShare(before, Repr(sets[m].bitmap), epochs[sets[l].owner])
      requires forall m, x :: 0 <= m < |sets| && m != l && x in Repr(sets[l].bitmap) && x in Repr(sets[m].bitmap) ==>
        x in before
      requires forall i, j :: 0 <= i < j < |sets| && i != l && j != l ==> PairOk(sets[i], sets[j], epochs)
      requires AllBacked(NodesOf(sets))
      ensures Valid()
    {
      hide Node.Valid, Node.Shape, Sealed, Guards, Canon, Respects, PairOk, Free, NoShare, Past, Holds, Later, Carried;
      hide Distinct;
      var o := sets[l].owner;
      var e', last' := writers[o].epoch, counter.last;
      var now := epochs[o := e'];
      assert EpochsOf(writers) == now;
      ChangedCarried(sets[l].bitmap, ids[l], before, epochs, last, o, e', last');
      forall m | 0 <= m < |sets| && m != l
        ensures Carried(sets[m], ids[m], now, last')
      {
        CarriedLater(sets[m], ids[m], epochs, last, o, e', last');
      }
      PairsAfter(sets, ids, l, before, epochs, last, e', last');
    }

    /** One more entry that is in order beside all the others. */
    method Append(s: Entry, ghost held: set<nat>)
      requires Valid() && Carried(s, held, EpochsOf(writers), counter.last) && AllBacked(Repr(s.bitmap))
      requires forall l :: 0 <= l < |sets| ==> PairOk(sets[l], s, EpochsOf(writers))
      modifies this`sets, this`ids
      ensures Valid() && sets == old(sets) + [s] && ids == old(ids) + [held]
      ensures forall x :: x in NodesOf(sets) ==> x in old(NodesOf(sets)) || x in Repr(s.bitmap)
    {
      hide Node.Valid, Node.Shape, Holds, Respects, PairOk, Distinct;
      ghost var epochs, last := EpochsOf(writers), counter.last;
      sets, ids := sets + [s], ids + [held];
      assert EpochsOf(writers) == epochs;
      forall l | 0 <= l < |sets|
        ensures Carried(sets[l], ids[l], epochs, last)
      {
        if l < |sets| - 1 {
          assert old(Carried(sets[l], ids[l], epochs, last));
        }
      }
      forall l, m | 0 <= l < m < |sets|
        ensures PairOk(sets[l], sets[m], epochs)
      {
        if m < |sets| - 1 {
          assert old(PairOk(sets[l], sets[m], epochs));
        }
      }
    }

    method NewWriter()
      requires Valid()
      modifies this`writers
      ensures Valid() && |writers| == |old(writers)| + 1 && sets == old(sets) && ids == old(ids)
      ensures fresh(writers[|old(writers)|]) && writers[..|old(writers)|] == old(writers)
    {
      hide Node.Valid, Node.Shape, Holds, Respects, PairOk;
      ghost var epochs, last := EpochsOf(writers), counter.last;
      var w := new Writer(counter);
      writers := writers + [w];
      assert EpochsOf(writers) == epochs + [0];
      forall l | 0 <= l < |sets|
        ensures Carried(sets[l], ids[l], epochs + [0], last)
      {
        assert old(Carried(sets[l], ids[l], epochs, last));
        CarriedMore(sets[l], ids[l], epochs, last);
      }
      forall l, m | 0 <= l < m < |sets|
        ensures PairOk(sets[l], sets[m], epochs + [0])
      {
        assert old(PairOk(sets[l], sets[m], epochs));
        assert old(Carried(sets[l], ids[l], epochs, last));
        PairMore(sets[l], sets[m], ids[l], epochs, last);
      }
    }

    method Freeze(o: nat)
      requires Valid() && o < |writers|
      modifies writers[o]
      ensures Valid() && writers[o].epoch == 0
    {
      hide Node.Valid, Node.Shape, Holds, Respects, PairOk;
      ghost var epochs, last := EpochsOf(writers), counter.last;
      writers[o].Freeze();
      assert EpochsOf(writers) == epochs[o := 0] by {
        forall i | 0 <= i < |writers| && i != o
          ensures writers[i].epoch == epochs[i]
        {
          if i < o { } else { }
        }
      }
      forall l | 0 <= l < |sets|
        ensures Carried(sets[l], ids[l], epochs[o := 0], last) && Carried(sets[l], ids[l], epochs, last)
      {
        assert old(Carried(sets[l], ids[l], epochs, last));
        CarriedLater(sets[l], ids[l], epochs, last, o, 0, last);
      }
      forall l, m | 0 <= l < m < |sets|
        ensures PairOk(sets[l], sets[m], epochs[o := 0])
      {
        assert old(PairOk(sets[l], sets[m], epochs));
        CarriedPast(sets[m], ids[m], epochs, last);
        PairLater(sets[l], sets[m], epochs, last, o, 0, last);
      }
    }

    /** And, Or or AndNot of two kept sets, as a kept set. */
    method CombineKept(op: Op, i: nat, j: nat)
      requires Valid() && i < |sets| && j < |sets| && sets[i].Kept? && sets[j].Kept?
      modifies this`sets, this`ids
      ensures Valid() && |sets| == |old(sets)| + 1 && sets == old(sets) + [sets[|old(sets)|]] && sets[|old(sets)|].Kept?
      ensures ids == old(ids) + [Algebra(op, old(ids)[i], old(ids)[j])]
      ensures forall x :: x in NodesOf(sets) ==> x in old(NodesOf(sets)) || (fresh(x) && fresh(x.slots))
    {
      hide Node.Valid, Node.Shape, Respects, Canon;
      ghost var epochs, last := EpochsOf(writers), counter.last;
      var a, b := sets[i].bitmap, sets[j].bitmap;
      assert Carried(sets[i], ids[i], epochs, last) && Carried(sets[j], ids[j], epochs, last);
      var r := CombineSets(op, a, b);
      forall l | 0 <= l < |sets|
        ensures Carried(sets[l], ids[l], epochs, last)
      {
        assert old(Carried(sets[l], ids[l], epochs, last));
      }
      forall l, m | 0 <= l < m < |sets|
        ensures PairOk(sets[l], sets[m], epochs)
      {
        assert old(PairOk(sets[l], sets[m], epochs));
      }
      assert EpochsOf(writers) == epochs;
      CombinedCarried(r, Algebra(op, ids[i], ids[j]), sets[i], ids[i], sets[j], ids[j], epochs, last);
      Append(Kept(r), Algebra(op, ids[i], ids[j]));
    }

    /** The plain sets this world stands for. */
    ghost function Abs(): Model
      requires |ids| == |sets|
      reads this
    {
      Model(|writers|, HeldAll(sets, ids))
    }

    ghost function Changed(l: nat): set<object>
      reads this, writers, if l < |sets| then (if sets[l].bitmap == null then {} else {sets[l].bitmap}) else {}
    {
      if l < |sets| && sets[l].Live? && sets[l].owner < |writers| && sets[l].bitmap != null
      then Owned(sets[l].bitmap, writers[sets[l].owner].epoch) else {}
    }

    /** Everything a run may change. */
    ghost function Footprint(): set<object>
      reads this, set s | s in sets && s.bitmap != null :: s.bitmap
    {
      {this, counter} + (set w | w in writers) + Area(NodesOf(sets))
    }

    /** One command, if it is enabled; the world then stands for what the plain machine would have. */
    method Do(c: Command)
      requires Valid()
      modifies Footprint()
      ensures Valid() && Abs() == Step(old(Abs()), c)
      ensures forall l :: 0 <= l < |old(sets)| && old(sets)[l].Kept? ==>
        l < |sets| && sets[l] == old(sets)[l] && ids[l] == old(ids)[l]
      ensures forall x :: x in Footprint() ==> x in old(Footprint()) || fresh(x)
    {
      hide Backed, AllBacked, World.WritersOk, Node.Valid, Node.Shape, Respects, Canon, Carried, PairOk, NodesOf;
      hide HeldAll;
      if c.AddWriter? {
        NewWriter();
      } else if c.Change? && c.target < |sets| && sets[c.target].Live? && c.id < UINT32 {
        Alter(c);
      } else if c.Combine? && c.left < |sets| && c.right < |sets| && sets[c.left].Kept? && sets[c.right].Kept? {
        Mix(c);
      } else if c.Fresh? || c.Adopt? || c.Publish? {
        Share(c);
      }
    }

    /** A change of a live set. */
    method Alter(c: Command)
      requires Valid() && c.Change? && c.target < |sets| && sets[c.target].Live? && c.id < UINT32
      modifies Footprint()
      ensures Valid() && Abs() == Step(old(Abs()), c)
      ensures forall l :: 0 <= l < |old(sets)| && old(sets)[l].Kept? ==>
        l < |sets| && sets[l] == old(sets)[l] && ids[l] == old(ids)[l]
      ensures forall x :: x in Footprint() ==> x in old(Footprint()) || fresh(x)
    {
      hide Backed, AllBacked, World.WritersOk, Node.Valid, Node.Shape, Respects, Canon, Carried, PairOk, NodesOf;
      hide HeldAll;
      NodesCover(sets, c.target);
      Change(c.target, c.id, c.add);
      assert sets == old(sets)[c.target := sets[c.target]];
      HeldUpdate(old(sets), old(ids), c.target, sets[c.target], ids[c.target]);
    }

    /** A combination of two kept sets. */
    method Mix(c: Command)
      requires Valid() && c.Combine? && c.left < |sets| && c.right < |sets|
      requires sets[c.left].Kept? && sets[c.right].Kept?
      modifies this`sets, this`ids
      ensures Valid() && Abs() == Step(old(Abs()), c)
      ensures |old(sets)| <= |sets| && sets[..|old(sets)|] == old(sets) && ids[..|old(ids)|] == old(ids)
      ensures forall x :: x in Footprint() ==> x in old(Footprint()) || fresh(x)
    {
      hide Backed, AllBacked, World.WritersOk, Node.Valid, Node.Shape, Respects, Canon, Carried, PairOk, NodesOf;
      hide HeldAll;
      CombineKept(c.op, c.left, c.right);
      HeldAppend(old(sets), old(ids), sets[|old(sets)|], ids[|old(ids)|]);
    }

    /** The commands that add a set without making or changing one. */
    method Share(c: Command)
      requires Valid() && (c.Fresh? || c.Adopt? || c.Publish?)
      modifies this`sets, this`ids, writers[..]
      ensures Valid() && Abs() == Step(old(Abs()), c) && writers == old(writers) && counter == old(counter)
      ensures |old(sets)| <= |sets| && sets[..|old(sets)|] == old(sets) && ids[..|old(ids)|] == old(ids)
      ensures forall x :: x in NodesOf(sets) ==> x in old(NodesOf(sets))
    {
      hide Node.Valid, Node.Shape, Respects, Canon, Carried, PairOk, NodesOf, HeldAll;
      if c.Fresh? && c.writer < |writers| {
        HeldAppend(sets, ids, Live(c.writer, null), {});
        AppendNothing(c.writer);
      } else if c.Adopt? && c.target < |sets| && sets[c.target].Kept? && c.writer < |writers| {
        HeldAppend(sets, ids, Live(c.writer, sets[c.target].bitmap), ids[c.target]);
        AppendAdopted(c.target, c.writer);
      } else if c.Publish? && c.target < |sets| && sets[c.target].Live? {
        HeldAppend(sets, ids, Kept(sets[c.target].bitmap), ids[c.target]);
        AppendPublished(c.target);
      }
    }

    method AppendNothing(w: nat)
      requires Valid() && w < |writers|
      modifies this`sets, this`ids
      ensures Valid() && sets == old(sets) + [Live(w, null)] && ids == old(ids) + [{}]
      ensures forall x :: x in NodesOf(sets) ==> x in old(NodesOf(sets))
    {
      Append(Live(w, null), {});
    }

    method AppendAdopted(k: nat, w: nat)
      requires Valid() && k < |sets| && sets[k].Kept? && w < |writers|
      modifies this`sets, this`ids
      ensures Valid() && sets == old(sets) + [Live(w, old(sets)[k].bitmap)] && ids == old(ids) + [old(ids)[k]]
      ensures forall x :: x in NodesOf(sets) ==> x in old(NodesOf(sets))
    {
      hide Node.Valid, Node.Shape, Respects, Canon;
      AdoptedCarried(sets[k], ids[k], EpochsOf(writers), counter.last, w);
      Append(Live(w, sets[k].bitmap), ids[k]);
    }

    /** The writer of a live set is frozen, and the set handed out. */
    method AppendPublished(l: nat)
      requires Valid() && l < |sets| && sets[l].Live?
      modifies this`sets, this`ids, writers[..]
      ensures Valid() && sets == old(sets) + [Kept(old(sets)[l].bitmap)] && ids == old(ids) + [old(ids)[l]]
      ensures forall x :: x in NodesOf(sets) ==> x in old(NodesOf(sets))
    {
      hide Node.Valid, Node.Shape, Respects, Canon;
      Ready(l);
      Freeze(sets[l].owner);
      PublishedCarried(sets[l], ids[l], EpochsOf(writers), counter.last);
      Append(Kept(sets[l].bitmap), ids[l]);
    }

    /** Any run: the heap machine ends where the machine over plain sets ends, and every set that was
        kept when the run began is untouched and still holds its ids. */
    method Run(cs: seq<Command>)
      requires Valid()
      modifies Footprint()
      ensures Valid() && Abs() == Steps(old(Abs()), cs)
      ensures forall l :: 0 <= l < |old(sets)| && old(sets)[l].Kept? ==>
        l < |sets| && sets[l] == old(sets)[l] && ids[l] == old(ids)[l] && Holds(sets[l].bitmap, ids[l])
    {
      hide Node.Valid, Node.Shape, Respects, Canon, Holds, PairOk, Step;
      var i := 0;
      while i < |cs|
        invariant i <= |cs| && Valid() && Abs() == Steps(old(Abs()), cs[..i])
        invariant forall x :: x in Footprint() ==> x in old(Footprint()) || fresh(x)
        invariant forall l :: 0 <= l < |old(sets)| && old(sets)[l].Kept? ==>
          l < |sets| && sets[l] == old(sets)[l] && ids[l] == old(ids)[l]
      {
        Do(cs[i]);
        assert cs[..i + 1][..i] == cs[..i];
        i := i + 1;
      }
      assert cs[..|cs|] == cs;
      forall l | 0 <= l < |sets|
        ensures Holds(sets[l].bitmap, ids[l])
      {
        assert Carried(sets[l], ids[l], EpochsOf(writers), counter.last);
      }
    }
  }

  /** A kept set stays what it is, whatever is done. */
  lemma {:induction false} KeptForever(m: Model, cs: seq<Command>, l: nat)
    requires l < |m.sets| && m.sets[l].HeldKept?
    ensures l < |Steps(m, cs).sets| && Steps(m, cs).sets[l] == m.sets[l]
  {
    if cs != [] {
      KeptForever(m, cs[..|cs| - 1], l);
    }
  }

  lemma HoldsSelf(b: Bitmap, ids: set<nat>)
    requires Holds(b, ids)
    ensures b != null ==> b in Repr(b)
  {
  }
}
