/** The index of names: entries placed by length in linear time, looked up by comparing or bisecting the
    names of one length. */
module NameIndexes {
  import opened TableSchema
  import opened OrderedKeys

  /** The number of names of one length beyond which they are sorted and bisected. */
  const CROWDED: nat := 4

  datatype Slot<V> = Unset | Entry(name: Bytes, val: V)

  /** The names of length l are entries[off[l]..off[l + 1]]. */
  datatype NameIndex<V> = NameIndex(entries: seq<Slot<V>>, off: seq<nat>)

  predicate AllSet<V>(names: seq<Slot<V>>)
  {
    forall i :: 0 <= i < |names| ==> names[i].Entry?
  }

  // ---------------------------------------------------------------- counting

  function CountOf(lens: seq<nat>, l: nat): nat
  {
    if lens == [] then 0 else CountOf(lens[..|lens| - 1], l) + (if lens[|lens| - 1] == l then 1 else 0)
  }

  /** How many of the lengths are below l: where the names of length l start. */
  function Before(lens: seq<nat>, l: nat): nat
  {
    if l == 0 then 0 else Before(lens, l - 1) + CountOf(lens, l - 1)
  }

  lemma {:induction false} BeforeMono(lens: seq<nat>, l: nat, m: nat)
    requires l <= m
    ensures Before(lens, l) <= Before(lens, m)
    ensures l < m ==> Before(lens, l) + CountOf(lens, l) <= Before(lens, m)
    decreases m
  {
    if l < m {
      BeforeMono(lens, l, m - 1);
    }
  }

  lemma {:induction false} BeforeMore(lens: seq<nat>, x: nat, l: nat)
    ensures Before(lens + [x], l) == Before(lens, l) + if x < l then 1 else 0
  {
    assert (lens + [x])[..|lens|] == lens;
    if l > 0 {
      BeforeMore(lens, x, l - 1);
    }
  }

  lemma {:induction false} BeforeAll(lens: seq<nat>, l: nat)
    requires forall i :: 0 <= i < |lens| ==> lens[i] < l
    ensures Before(lens, l) == |lens|
  {
    if lens == [] {
      BeforeNone(l);
    } else {
      var rest := lens[..|lens| - 1];
      BeforeAll(rest, l);
      BeforeMore(rest, lens[|lens| - 1], l);
      assert lens == rest + [lens[|lens| - 1]];
    }
  }

  lemma {:induction false} BeforeNone(l: nat)
    ensures Before([], l) == 0
  {
    if l > 0 {
      BeforeNone(l - 1);
    }
  }

  /** The names of one length, in the order they were given. */
  function OfLength<V>(names: seq<Slot<V>>, l: nat): (r: seq<Slot<V>>)
    requires AllSet(names)
    ensures AllSet(r) && forall i :: 0 <= i < |r| ==> r[i] in names && |r[i].name| == l
  {
    if names == [] then [] else
      var last := names[|names| - 1];
      OfLength(names[..|names| - 1], l) + (if |last.name| == l then [last] else [])
  }

  lemma {:induction false} OfLengthHas<V>(names: seq<Slot<V>>, l: nat, e: Slot<V>)
    requires AllSet(names)
    ensures e in OfLength(names, l) <==> e in names && |e.name| == l
  {
    if names != [] {
      OfLengthHas(names[..|names| - 1], l, e);
      assert names == names[..|names| - 1] + [names[|names| - 1]];
    }
  }

  /** The names of length l placed so far are where that length starts. */
  ghost predicate Spot<V>(lens: seq<nat>, placed: seq<Slot<V>>, entries: seq<Slot<V>>, l: nat)
    requires AllSet(placed)
  {
    Before(lens, l) + |OfLength(placed, l)| <= |entries|
    && entries[Before(lens, l)..Before(lens, l) + |OfLength(placed, l)|] == OfLength(placed, l)
  }

  /** Places names by length: announce every length, then place every name. */
  class Builder<V> {
    var entries: array<Slot<V>>
    var off: array<nat>
    ghost var lens: seq<nat>
    ghost var placed: seq<Slot<V>>

    /** While lengths are announced, off[l + 1] is the number of names of length l. */
    ghost predicate Counting()
      reads this, off, entries
    {
      && off.Length >= 2 && off[0] == 0
      && (forall l :: 0 <= l < off.Length - 1 ==> off[l + 1] == CountOf(lens, l))
      && (forall i :: 0 <= i < |lens| ==> lens[i] + 1 < off.Length)
      && placed == []
    }

    /** While names are placed, off[l] is the cursor of length l: the names of length l placed so far are
        the entries from where that length starts up to the cursor. */
    ghost predicate Placing()
      reads this, off, entries
    {
      && off.Length >= 2 && AllSet(placed) && |lens| == entries.Length
      && (forall i :: 0 <= i < |lens| ==> lens[i] + 1 < off.Length)
      && (forall i :: 0 <= i < |placed| ==> |placed[i].name| + 1 < off.Length)
      && (forall l :: 0 <= l < off.Length ==> off[l] == Before(lens, l) + |OfLength(placed, l)|)
      && (forall l :: 0 <= l < off.Length ==> |OfLength(placed, l)| <= CountOf(lens, l))
      && (forall l :: 0 <= l < off.Length ==> Spot(lens, placed, entries[..], l))
    }

    constructor Start(names: nat, longest: nat)
      ensures Counting() && lens == [] && entries.Length == names && off.Length == longest + 2
      ensures fresh(entries) && fresh(off)
    {
      entries := new Slot<V>[names](i => Unset);
      off := new nat[longest + 2](i => 0);
      lens, placed := [], [];
    }

    method Count(l: nat)
      requires Counting() && l + 1 < off.Length
      modifies this`lens, off
      ensures Counting() && lens == old(lens) + [l]
    {
      off[l + 1] := off[l + 1] + 1;
      lens := lens + [l];
      assert lens[..|lens| - 1] == old(lens);
    }

    /** Turns the counts into the positions where each length starts. */
    method Counted()
      requires Counting() && |lens| == entries.Length
      modifies off
      ensures Placing() && placed == [] && lens == old(lens)
    {
      hide Before, CountOf;
      BeforeStep(lens, 0);
      var l := 1;
      while l < off.Length
        invariant 1 <= l <= off.Length
        invariant forall m :: 0 <= m < l ==> off[m] == Before(lens, m)
        invariant forall m :: l <= m < off.Length ==> off[m] == CountOf(lens, m - 1)
      {
        BeforeStep(lens, l);
        off[l] := off[l] + off[l - 1];
        l := l + 1;
      }
      forall m | 0 <= m < off.Length
        ensures Spot(lens, placed, entries[..], m) && OfLength(placed, m) == []
      {
        Room(lens, m, off.Length);
      }
    }

    /** Stores a name at the cursor of its length and advances the cursor. */
    method Place(name: Bytes, val: V)
      requires Placing() && |name| + 1 < off.Length && |OfLength(placed, |name|)| < CountOf(lens, |name|)
      modifies this`placed, entries, off
      ensures Placing() && placed == old(placed) + [Entry(name, val)]
    {
      hide Before, CountOf, OfLength, Spot;
      var l, e := |name|, Entry(name, val);
      ghost var was, es := placed, entries[..];
      Room(lens, l, off.Length);
      entries[off[l]] := e;
      off[l] := off[l] + 1;
      placed := placed + [e];
      assert entries[..] == es[off[l] - 1 := e];
      forall m | 0 <= m < off.Length
        ensures OfLength(placed, m) == OfLength(was, m) + (if m == l then [e] else [])
        ensures Spot(lens, placed, entries[..], m)
      {
        OfLengthMore(was, e, m);
        SpotMore(lens, was, es, e, m, off.Length);
      }
    }

    /** Shifts the cursors back and sorts the crowded lengths. */
    method Done() returns (x: NameIndex<V>)
      requires Placing() && |placed| == entries.Length
      modifies off
      ensures Represents(x, placed)
    {
      hide Before, CountOf, OfLength, Represents, Holds, Spot;
      ghost var cursors, es := off[..], entries[..];
      Complete(lens, placed, |cursors|);
      var l := off.Length - 1;
      while l > 0
        invariant 0 <= l < off.Length
        invariant forall m :: 0 <= m <= l ==> off[m] == cursors[m]
        invariant forall m :: l < m < off.Length ==> off[m] == cursors[m - 1]
      {
        off[l] := off[l - 1];
        l := l - 1;
      }
      off[0] := 0;
      Shifted(lens, placed, cursors, off[..], es);
      x := SortCrowded(NameIndex(entries[..], off[..]), placed);
    }
  }

  /** Once all names are placed every cursor stands where the next length starts. */
  lemma Complete<V>(lens: seq<nat>, placed: seq<Slot<V>>, n: nat)
    requires AllSet(placed) && |placed| == |lens|
    requires forall i :: 0 <= i < |lens| ==> lens[i] + 1 < n
    requires forall i :: 0 <= i < |placed| ==> |placed[i].name| + 1 < n
    requires forall l :: 0 <= l < n ==> |OfLength(placed, l)| <= CountOf(lens, l)
    ensures forall l :: 0 <= l < n ==> |OfLength(placed, l)| == CountOf(lens, l)
  {
    hide CountOf, Before, OfLength, LensOf;
    forall l | 0 <= l < n
      ensures |OfLength(placed, l)| == CountOf(lens, l)
    {
      CompleteAt(lens, placed, n, l);
    }
  }

  lemma CompleteAt<V>(lens: seq<nat>, placed: seq<Slot<V>>, n: nat, l: nat)
    requires AllSet(placed) && |placed| == |lens| && l < n
    requires forall i :: 0 <= i < |lens| ==> lens[i] + 1 < n
    requires forall i :: 0 <= i < |placed| ==> |placed[i].name| + 1 < n
    requires forall m :: 0 <= m < n ==> |OfLength(placed, m)| <= CountOf(lens, m)
    ensures |OfLength(placed, l)| == CountOf(lens, l)
  {
    hide CountOf, Before, OfLength;
    BeforeAll(LensOf(placed), n);
    BeforeAll(lens, n);
    hide LensOf;
    forall m | 0 <= m < n
      ensures CountOf(LensOf(placed), m) <= CountOf(lens, m)
    {
      LengthsOf(placed, m);
    }
    LengthsOf(placed, l);
    Squeeze(LensOf(placed), lens, l, n);
  }

  function LensOf<V>(placed: seq<Slot<V>>): (r: seq<nat>)
    requires AllSet(placed)
    ensures |r| == |placed| && forall i :: 0 <= i < |r| ==> r[i] == |placed[i].name|
  {
    if placed == [] then [] else LensOf(placed[..|placed| - 1]) + [|placed[|placed| - 1].name|]
  }

  lemma {:induction false} LengthsOf<V>(placed: seq<Slot<V>>, l: nat)
    requires AllSet(placed)
    ensures CountOf(LensOf(placed), l) == |OfLength(placed, l)|
  {
    if placed != [] {
      var rest := placed[..|placed| - 1];
      LengthsOf(rest, l);
      assert LensOf(placed)[..|placed| - 1] == LensOf(rest);
    }
  }

  /** Counts that are nowhere larger and have the same sum are the same. */
  lemma {:induction false} Squeeze(a: seq<nat>, b: seq<nat>, l: nat, n: nat)
    requires l < n && Before(a, n) == Before(b, n) && forall m :: 0 <= m < n ==> CountOf(a, m) <= CountOf(b, m)
    ensures CountOf(a, l) == CountOf(b, l)
  {
    hide CountOf;
    BeforeLess(a, b, n - 1);
    if l < n - 1 {
      assert Before(a, n - 1) == Before(b, n - 1);
      Squeeze(a, b, l, n - 1);
    }
  }

  lemma {:induction false} BeforeLess(a: seq<nat>, b: seq<nat>, n: nat)
    requires forall m :: 0 <= m < n ==> CountOf(a, m) <= CountOf(b, m)
    ensures Before(a, n) <= Before(b, n)
  {
    hide CountOf;
    if n > 0 {
      BeforeLess(a, b, n - 1);
    }
  }

  // ---------------------------------------------------------------- the finished index

  function Bucket<V>(x: NameIndex<V>, l: nat): seq<Slot<V>>
    requires l + 1 < |x.off| && x.off[l] <= x.off[l + 1] <= |x.entries|
  {
    x.entries[x.off[l]..x.off[l + 1]]
  }

  ghost predicate OffsOk(off: seq<nat>, n: nat)
  {
    && |off| >= 2 && off[0] == 0 && off[|off| - 1] <= n
    && forall l, m :: 0 <= l < m < |off| ==> off[l] <= off[m]
  }

  /** The names of one length, in some order; in ascending order if they are many. */
  ghost predicate Holds<V>(bucket: seq<Slot<V>>, names: seq<Slot<V>>)
  {
    && multiset(bucket) == multiset(names) && AllSet(bucket)
    && (|bucket| > CROWDED ==> Ascending(bucket))
  }

  ghost predicate Ascending<V>(bucket: seq<Slot<V>>)
    requires AllSet(bucket)
  {
    forall i, j :: 0 <= i < j < |bucket| ==> !Less(bucket[j].name, bucket[i].name)
  }

  /** The index of exactly the given names. */
  ghost predicate Represents<V>(x: NameIndex<V>, names: seq<Slot<V>>)
  {
    && AllSet(names) && OffsOk(x.off, |x.entries|)
    && (forall i :: 0 <= i < |names| ==> |names[i].name| + 1 < |x.off|)
    && (forall l :: 0 <= l < |x.off| - 1 ==> Holds(Bucket(x, l), OfLength(names, l)))
  }

  /** Before the crowded lengths are sorted. */
  ghost predicate Grouped<V>(x: NameIndex<V>, names: seq<Slot<V>>)
  {
    && AllSet(names) && OffsOk(x.off, |x.entries|)
    && (forall i :: 0 <= i < |names| ==> |names[i].name| + 1 < |x.off|)
    && (forall l :: 0 <= l < |x.off| - 1 ==> Bucket(x, l) == OfLength(names, l))
  }

  lemma Shifted<V>(lens: seq<nat>, placed: seq<Slot<V>>, cursors: seq<nat>, off: seq<nat>, entries: seq<Slot<V>>)
    requires AllSet(placed) && |off| == |cursors| >= 2 && |lens| == |entries|
    requires forall i :: 0 <= i < |lens| ==> lens[i] + 1 < |off|
    requires forall i :: 0 <= i < |placed| ==> |placed[i].name| + 1 < |off|
    requires forall l :: 0 <= l < |off| ==> |OfLength(placed, l)| == CountOf(lens, l)
    requires forall l :: 0 <= l < |off| ==> cursors[l] == Before(lens, l) + |OfLength(placed, l)|
    requires off[0] == 0 && forall l :: 0 < l < |off| ==> off[l] == cursors[l - 1]
    requires forall l :: 0 <= l < |off| ==> Spot(lens, placed, entries, l)
    ensures Grouped(NameIndex(entries, off), placed)
  {
    hide CountOf, OfLength, AllSet, Before, Spot;
    forall l | 0 <= l < |off|
      ensures off[l] == Before(lens, l)
    {
      BeforeStep(lens, l);
    }
    OffsOf(lens, off);
    var x := NameIndex(entries, off);
    forall l | 0 <= l < |off| - 1
      ensures Bucket(x, l) == OfLength(placed, l)
    {
      BeforeStep(lens, l + 1);
      SpotBucket(lens, placed, x, l);
    }
  }

  lemma OffsOf(lens: seq<nat>, off: seq<nat>)
    requires |off| >= 2 && forall i :: 0 <= i < |lens| ==> lens[i] + 1 < |off|
    requires forall l :: 0 <= l < |off| ==> off[l] == Before(lens, l)
    ensures OffsOk(off, |lens|)
  {
    hide CountOf, Before;
    BeforeStep(lens, 0);
    BeforeAll(lens, |off| - 1);
    forall l, m | 0 <= l < m < |off|
      ensures off[l] <= off[m]
    {
      BeforeMono(lens, l, m);
    }
  }

  lemma SpotBucket<V>(lens: seq<nat>, placed: seq<Slot<V>>, x: NameIndex<V>, l: nat)
    requires AllSet(placed) && Spot(lens, placed, x.entries, l) && OffsOk(x.off, |x.entries|) && l + 1 < |x.off|
    requires x.off[l] == Before(lens, l) && x.off[l + 1] == Before(lens, l) + |OfLength(placed, l)|
    ensures Bucket(x, l) == OfLength(placed, l)
  {
    hide Before, OfLength;
  }

  // ---------------------------------------------------------------- sorting a crowded length

  lemma {:induction false} LessTotal(a: Bytes, b: Bytes)
    ensures Less(a, b) || Less(b, a) || a == b
  {
    if a != [] && b != [] && a[0] == b[0] {
      LessTotal(a[1..], b[1..]);
      assert a == [a[0]] + a[1..] && b == [b[0]] + b[1..];
    }
  }

  lemma {:induction false} LessTrans(a: Bytes, b: Bytes, c: Bytes)
    requires !Less(b, a) && !Less(c, b)
    ensures !Less(c, a)
  {
    if a != [] && b != [] && c != [] && a[0] == b[0] == c[0] {
      LessTrans(a[1..], b[1..], c[1..]);
    }
  }

  lemma LessAsym(a: Bytes, b: Bytes)
    requires Less(a, b)
    ensures !Less(b, a)
  {
    if a != [] && a[0] == b[0] {
      LessAsym(a[1..], b[1..]);
    }
  }

  function Insert<V>(e: Slot<V>, sorted: seq<Slot<V>>): (r: seq<Slot<V>>)
    requires e.Entry? && AllSet(sorted)
    ensures AllSet(r) && multiset(r) == multiset(sorted) + multiset{e}
  {
    if sorted == [] then [e]
    else
      assert sorted == sorted[..|sorted| - 1] + [sorted[|sorted| - 1]];
      if Less(e.name, sorted[|sorted| - 1].name) then Insert(e, sorted[..|sorted| - 1]) + [sorted[|sorted| - 1]]
      else sorted + [e]
  }

  lemma {:induction false} InsertAscending<V>(e: Slot<V>, sorted: seq<Slot<V>>)
    requires e.Entry? && AllSet(sorted) && Ascending(sorted)
    ensures Ascending(Insert(e, sorted))
  {
    if sorted != [] {
      var rest, last := sorted[..|sorted| - 1], sorted[|sorted| - 1];
      assert sorted == rest + [last];
      var r := Insert(e, rest);
      if Less(e.name, last.name) {
        InsertAscending(e, rest);
        LessAsym(e.name, last.name);
        forall i | 0 <= i < |r|
          ensures !Less(last.name, r[i].name)
        {
          assert r[i] in multiset(r);
          assert r[i] == e || r[i] in rest;
        }
      } else {
        forall i | 0 <= i < |sorted|
          ensures !Less(e.name, sorted[i].name)
        {
          if i < |sorted| - 1 {
            LessTrans(sorted[i].name, last.name, e.name);
          }
        }
      }
    }
  }

  /** A stand-in for the library's sort: any order that ascends. */
  function Sorted<V>(bucket: seq<Slot<V>>): (r: seq<Slot<V>>)
    requires AllSet(bucket)
    ensures AllSet(r) && multiset(r) == multiset(bucket)
  {
    if bucket == [] then []
    else
      assert bucket == bucket[..|bucket| - 1] + [bucket[|bucket| - 1]];
      Insert(bucket[|bucket| - 1], Sorted(bucket[..|bucket| - 1]))
  }

  lemma {:induction false} SortedAscending<V>(bucket: seq<Slot<V>>)
    requires AllSet(bucket)
    ensures Ascending(Sorted(bucket))
  {
    if bucket != [] {
      SortedAscending(bucket[..|bucket| - 1]);
      InsertAscending(bucket[|bucket| - 1], Sorted(bucket[..|bucket| - 1]));
    }
  }

  lemma SameSize<V>(a: seq<Slot<V>>, b: seq<Slot<V>>)
    requires multiset(a) == multiset(b)
    ensures |a| == |b|
  {
    assert |multiset(a)| == |a| && |multiset(b)| == |b|;
  }

  method SortCrowded<V>(x: NameIndex<V>, ghost names: seq<Slot<V>>) returns (r: NameIndex<V>)
    requires Grouped(x, names)
    ensures Represents(r, names)
  {
    hide OfLength, Holds, Sorted, SortedBelow, Grouped, Represents;
    var entries := x.entries;
    SortedNone(x, names);
    var l := 0;
    while l + 1 < |x.off|
      invariant l < |x.off| && SortedBelow(x, entries, names, l)
    {
      Between(x, entries, names, l);
      var a, b := x.off[l], x.off[l + 1];
      var bucket := entries[a..b];
      var now := bucket;
      if |bucket| > CROWDED {
        now := Sorted(bucket);
        SortedAscending(bucket);
      }
      SameSize(now, bucket);
      MakesHold(now, OfLength(names, l));
      var after := entries[..a] + now + entries[b..];
      assert Swapped(entries, a, b, now, after);
      SortedMore(x, entries, names, l, now, after);
      entries := after;
      l := l + 1;
    }
    r := NameIndex(entries, x.off);
    SortedAll(x, entries, names, l);
  }

  /** The lengths below l are sorted if crowded; the others are as they were placed. */
  ghost predicate SortedBelow<V>(x: NameIndex<V>, entries: seq<Slot<V>>, names: seq<Slot<V>>, l: nat)
  {
    && Grouped(x, names) && |entries| == |x.entries|
    && (forall m: nat {:trigger OfLength(names, m)} :: m < |x.off| - 1 && m < l ==>
      Holds(entries[x.off[m]..x.off[m + 1]], OfLength(names, m)))
    && (forall m: nat {:trigger OfLength(names, m)} :: l <= m < |x.off| - 1 ==>
      entries[x.off[m]..x.off[m + 1]] == OfLength(names, m))
  }

  lemma SortedNone<V>(x: NameIndex<V>, names: seq<Slot<V>>)
    requires Grouped(x, names)
    ensures SortedBelow(x, x.entries, names, 0) && |x.off| >= 2
  {
    hide OfLength;
    forall m | 0 <= m < |x.off| - 1
      ensures x.entries[x.off[m]..x.off[m + 1]] == OfLength(names, m)
    {
      assert Bucket(x, m) == OfLength(names, m);
    }
  }

  lemma Between<V>(x: NameIndex<V>, entries: seq<Slot<V>>, names: seq<Slot<V>>, l: nat)
    requires SortedBelow(x, entries, names, l) && l + 1 < |x.off|
    ensures AllSet(names) && x.off[l] <= x.off[l + 1] <= |entries|
    ensures entries[x.off[l]..x.off[l + 1]] == OfLength(names, l)
  {
    hide OfLength, Holds;
  }

  /** after is entries with the names of length l sorted. */
  ghost predicate Swapped<V>(entries: seq<Slot<V>>, a: nat, b: nat, now: seq<Slot<V>>, after: seq<Slot<V>>)
  {
    a <= b <= |entries| == |after| && after[..a] == entries[..a] && after[a..b] == now && after[b..] == entries[b..]
  }

  lemma SortedMore<V>(x: NameIndex<V>, entries: seq<Slot<V>>, names: seq<Slot<V>>, l: nat, now: seq<Slot<V>>,
                      after: seq<Slot<V>>)
    requires SortedBelow(x, entries, names, l) && l + 1 < |x.off|
    requires AllSet(names) && Swapped(entries, x.off[l], x.off[l + 1], now, after) && Holds(now, OfLength(names, l))
    ensures SortedBelow(x, after, names, l + 1)
  {
    hide OfLength, Holds, AllSet, Bucket, OffsOk;
    assert |after| == |entries|;
    forall m: nat {:trigger OfLength(names, m)} | m < |x.off| - 1
      ensures x.off[m] <= x.off[m + 1] <= |entries|
      ensures m < l + 1 ==> Holds(after[x.off[m]..x.off[m + 1]], OfLength(names, m))
      ensures m >= l + 1 ==> after[x.off[m]..x.off[m + 1]] == OfLength(names, m)
    {
      SortedAt(x, entries, names, l, now, after, m);
    }
  }

  lemma SortedAt<V>(x: NameIndex<V>, entries: seq<Slot<V>>, names: seq<Slot<V>>, l: nat, now: seq<Slot<V>>,
                    after: seq<Slot<V>>, m: nat)
    requires SortedBelow(x, entries, names, l) && l + 1 < |x.off| && m + 1 < |x.off|
    requires AllSet(names) && Swapped(entries, x.off[l], x.off[l + 1], now, after) && Holds(now, OfLength(names, l))
    ensures |after| == |entries| && x.off[m] <= x.off[m + 1] <= |entries|
    ensures m < l + 1 ==> Holds(after[x.off[m]..x.off[m + 1]], OfLength(names, m))
    ensures m >= l + 1 ==> after[x.off[m]..x.off[m + 1]] == OfLength(names, m)
  {
    hide OfLength, Holds, AllSet, Bucket, OffsOk;
    Apart(x.off, |entries|, l, m);
    if m != l {
      Outside(entries, after, x.off[l], x.off[l + 1], x.off[m], x.off[m + 1]);
    }
  }

  lemma Apart(off: seq<nat>, n: nat, l: nat, m: nat)
    requires OffsOk(off, n) && l + 1 < |off| && m + 1 < |off|
    ensures off[m] <= off[m + 1] <= n
    ensures m < l ==> off[m + 1] <= off[l]
    ensures l < m ==> off[l + 1] <= off[m]
  {
    assert m + 1 == |off| - 1 || off[m + 1] <= off[|off| - 1];
  }

  lemma SortedAll<V>(x: NameIndex<V>, entries: seq<Slot<V>>, names: seq<Slot<V>>, l: nat)
    requires SortedBelow(x, entries, names, l) && l + 1 >= |x.off|
    ensures Represents(NameIndex(entries, x.off), names)
  {
    hide OfLength, Holds;
  }

  lemma MakesHold<V>(bucket: seq<Slot<V>>, names: seq<Slot<V>>)
    requires AllSet(bucket) && multiset(bucket) == multiset(names) && (|bucket| > CROWDED ==> Ascending(bucket))
    ensures Holds(bucket, names)
  {
  }

  lemma Outside<V>(was: seq<Slot<V>>, now: seq<Slot<V>>, a: nat, b: nat, c: nat, d: nat)
    requires a <= b <= |was| == |now| && c <= d <= |was| && (d <= a || b <= c)
    requires now[..a] == was[..a] && now[b..] == was[b..]
    ensures now[c..d] == was[c..d]
  {
    forall i | c <= i < d
      ensures now[i] == was[i]
    {
      if i < a {
        assert now[i] == now[..a][i] == was[..a][i];
      } else {
        assert now[i] == now[b..][i - b] == was[b..][i - b];
      }
    }
  }

  lemma BeforeStep(lens: seq<nat>, l: nat)
    ensures Before(lens, l) == if l == 0 then 0 else Before(lens, l - 1) + CountOf(lens, l - 1)
  {
  }

  /** The names of one length fit. */
  lemma Room(lens: seq<nat>, l: nat, n: nat)
    requires l < n && forall i :: 0 <= i < |lens| ==> lens[i] + 1 < n
    ensures Before(lens, l) + CountOf(lens, l) <= |lens|
  {
    BeforeAll(lens, n);
    BeforeMono(lens, l, n);
  }

  lemma SpotMore<V>(lens: seq<nat>, was: seq<Slot<V>>, es: seq<Slot<V>>, e: Slot<V>, m: nat, n: nat)
    requires AllSet(was) && e.Entry? && Spot(lens, was, es, m) && Spot(lens, was, es, |e.name|) && |e.name| < n && m < n
    requires |OfLength(was, |e.name|)| < CountOf(lens, |e.name|) && |OfLength(was, m)| <= CountOf(lens, m)
    requires |es| == |lens| && forall i :: 0 <= i < |lens| ==> lens[i] + 1 < n
    ensures Before(lens, |e.name|) + |OfLength(was, |e.name|)| < |es|
    ensures AllSet(was + [e]) && Spot(lens, was + [e], es[Before(lens, |e.name|) + |OfLength(was, |e.name|)| := e], m)
  {
    hide Before, CountOf, OfLength;
    var l := |e.name|;
    OfLengthMore(was, e, m);
    Room(lens, l, n);
    Room(lens, m, n);
    if m < l {
      BeforeMono(lens, m, l);
    } else if l < m {
      BeforeMono(lens, l, m);
    }
  }

  lemma OfLengthMore<V>(names: seq<Slot<V>>, e: Slot<V>, l: nat)
    requires AllSet(names) && e.Entry?
    ensures AllSet(names + [e]) && OfLength(names + [e], l) == OfLength(names, l) + if |e.name| == l then [e] else []
  {
    assert (names + [e])[..|names|] == names;
  }

  // ---------------------------------------------------------------- building and looking up

  /** A finished index: of no names at all, it has no lengths either. */
  ghost predicate IndexOf<V>(x: NameIndex<V>, names: seq<Slot<V>>)
  {
    if names == [] then x.off == [] else Represents(x, names)
  }

  lemma {:induction false} PartCount<V>(names: seq<Slot<V>>, i: nat)
    requires AllSet(names) && i < |names|
    ensures AllSet(names[..i]) && |OfLength(names[..i], |names[i].name|)| < CountOf(LensOf(names), |names[i].name|)
  {
    var l := |names[i].name|;
    LengthsOf(names, l);
    PartLess(names, i, l);
  }

  lemma {:induction false} PartLess<V>(names: seq<Slot<V>>, i: nat, l: nat)
    requires AllSet(names) && i < |names| && |names[i].name| == l
    ensures AllSet(names[..i]) && |OfLength(names[..i], l)| < |OfLength(names, l)|
  {
    var rest := names[..|names| - 1];
    if i < |names| - 1 {
      PartLess(rest, i, l);
      assert rest[..i] == names[..i];
    } else {
      assert rest == names[..i];
    }
  }

  /** Start, count every name, Counted, place every name, Done. */
  method New<V>(names: seq<Slot<V>>) returns (x: NameIndex<V>)
    requires AllSet(names)
    ensures IndexOf(x, names)
  {
    hide OfLength, CountOf, LensOf, Represents, Builder.Counting, Builder.Placing;
    if names == [] {
      return NameIndex([], []);
    }
    var longest: nat := 0;
    var i := 0;
    while i < |names|
      invariant i <= |names| && forall k :: 0 <= k < i ==> |names[k].name| <= longest
    {
      longest := if |names[i].name| > longest then |names[i].name| else longest;
      i := i + 1;
    }
    var b := new Builder<V>.Start(|names|, longest);
    i := 0;
    while i < |names|
      invariant i <= |names| && b.Counting() && b.lens == LensOf(names)[..i] && fresh(b) && fresh(b.off)
      invariant fresh(b.entries)
      invariant b.off.Length == longest + 2 && b.entries.Length == |names|
    {
      b.Count(|names[i].name|);
      i := i + 1;
    }
    assert LensOf(names)[..|names|] == LensOf(names);
    b.Counted();
    i := 0;
    while i < |names|
      invariant i <= |names| && b.Placing() && b.lens == LensOf(names) && b.placed == names[..i] && fresh(b)
      invariant fresh(b.off) && fresh(b.entries)
      invariant b.off.Length == longest + 2 && b.entries.Length == |names|
    {
      PartCount(names, i);
      b.Place(names[i].name, names[i].val);
      i := i + 1;
    }
    assert names[..|names|] == names;
    x := b.Done();
  }

  lemma BucketHas<V>(x: NameIndex<V>, names: seq<Slot<V>>, l: nat, e: Slot<V>)
    requires Represents(x, names) && l + 1 < |x.off|
    ensures x.off[l] <= x.off[l + 1] <= |x.entries| && AllSet(Bucket(x, l)) && Holds(Bucket(x, l), OfLength(names, l))
    ensures e in Bucket(x, l) <==> e in names && e.Entry? && |e.name| == l
  {
    OfLengthHas(names, l, e);
    hide OfLength;
    assert x.off[l] <= x.off[l + 1] <= x.off[|x.off| - 1];
    assert Holds(Bucket(x, l), OfLength(names, l));
    assert e in Bucket(x, l) <==> e in multiset(Bucket(x, l));
    assert e in OfLength(names, l) <==> e in multiset(OfLength(names, l));
  }

  /** The first of an ascending bucket that is not below the name. */
  method Bisect<V>(bucket: seq<Slot<V>>, name: Bytes) returns (lo: nat)
    requires AllSet(bucket) && Ascending(bucket)
    ensures lo <= |bucket|
    ensures forall i :: 0 <= i < |bucket| && bucket[i].name == name ==> lo < |bucket| && bucket[lo].name == name
  {
    lo := 0;
    var hi := |bucket|;
    while lo < hi
      invariant lo <= hi <= |bucket|
      invariant forall i :: 0 <= i < lo ==> Less(bucket[i].name, name)
      invariant forall i :: hi <= i < |bucket| ==> !Less(bucket[i].name, name)
    {
      var mid := (lo + hi) / 2;
      if Less(bucket[mid].name, name) {
        forall i | 0 <= i <= mid
          ensures Less(bucket[i].name, name)
        {
          Below(bucket, i, mid, name);
        }
        lo := mid + 1;
      } else {
        forall i | mid <= i < |bucket|
          ensures !Less(bucket[i].name, name)
        {
          if i > mid {
            LessTrans(name, bucket[mid].name, bucket[i].name);
          }
        }
        hi := mid;
      }
    }
    NotLess(name);
    forall i | 0 <= i < |bucket| && bucket[i].name == name
      ensures lo < |bucket| && bucket[lo].name == name
    {
      LessTotal(bucket[lo].name, name);
    }
  }

  lemma Below<V>(bucket: seq<Slot<V>>, i: nat, mid: nat, name: Bytes)
    requires AllSet(bucket) && Ascending(bucket) && i <= mid < |bucket| && Less(bucket[mid].name, name)
    ensures Less(bucket[i].name, name)
  {
    if i < mid {
      LessAsym(bucket[mid].name, name);
      LessTrans(bucket[i].name, bucket[mid].name, name);
      LessTotal(bucket[i].name, name);
      if bucket[i].name == name {
        assert false;
      }
    }
  }

  lemma NotAround<V>(all: seq<Slot<V>>, lo: nat, bucket: seq<Slot<V>>, name: Bytes)
    requires AllSet(all) && AllSet(bucket) && lo <= |all|
    requires bucket == all || (bucket == all[lo..if lo + 1 < |all| then lo + 1 else |all|]
      && forall i :: 0 <= i < |all| && all[i].name == name ==> lo < |all| && all[lo].name == name)
    requires forall k :: 0 <= k < |bucket| ==> bucket[k].name != name
    ensures forall j :: 0 <= j < |all| ==> all[j].name != name
  {
    if bucket != all && lo < |all| {
      assert bucket[0] == all[lo];
    }
  }

  /** The value of a name, if it is one of the names. */
  method Get<V>(x: NameIndex<V>, name: Bytes, ghost names: seq<Slot<V>>) returns (r: Slot<V>)
    requires AllSet(names) && IndexOf(x, names)
    ensures r.Entry? ==> r in names && r.name == name
    ensures r.Unset? ==> forall i :: 0 <= i < |names| ==> names[i].name != name
  {
    hide OfLength;
    var l := |name|;
    if l + 1 < |x.off| {
      BucketHas(x, names, l, Unset);
      var bucket := x.entries[x.off[l]..x.off[l + 1]];
      ghost var all := bucket;
      var lo := 0;
      if |bucket| > CROWDED {
        lo := Bisect(bucket, name);
        bucket := bucket[lo..if lo + 1 < |bucket| then lo + 1 else |bucket|];
      }
      var i := 0;
      while i < |bucket|
        invariant i <= |bucket| && forall k :: 0 <= k < i ==> bucket[k].name != name
      {
        if bucket[i].name == name {
          BucketHas(x, names, l, bucket[i]);
          assert bucket[i] in all;
          return bucket[i];
        }
        i := i + 1;
      }
      NotAround(all, lo, bucket, name);
      forall k | 0 <= k < |names|
        ensures names[k].name != name
      {
        BucketHas(x, names, l, names[k]);
        assert names[k] in all ==> names[k].name != name;
      }
    }
    r := Unset;
  }

  // ---------------------------------------------------------------- index names

  /** What an index name given to a query stands for. */
  datatype Ref = Ref(index: nat, prefixScan: bool)

  /** "_prefix" */
  const PREFIX_SUFFIX: Bytes := [95, 112, 114, 101, 102, 105, 120]

  predicate HasSuffix(name: Bytes)
  {
    |name| >= 7 && name[|name| - 7..] == PREFIX_SUFFIX
  }

  function Trim(name: Bytes): Bytes
    requires HasSuffix(name)
  {
    name[..|name| - 7]
  }

  /** The rule: a trailing "_prefix" is always stripped first and turns the query into a prefix scan. */
  predicate Resolves(indexes: seq<Bytes>, name: Bytes, ref: Ref)
  {
    && ref.index < |indexes| && ref.prefixScan == HasSuffix(name)
    && indexes[ref.index] == if HasSuffix(name) then Trim(name) else name
  }

  function NamesFor(name: Bytes, i: nat): (r: seq<Slot<Ref>>)
    ensures AllSet(r)
  {
    (if HasSuffix(name) then [] else [Entry(name, Ref(i, false))]) + [Entry(name + PREFIX_SUFFIX, Ref(i, true))]
  }

  function NamesOf(indexes: seq<Bytes>): (r: seq<Slot<Ref>>)
    ensures AllSet(r)
  {
    if indexes == [] then [] else NamesOf(indexes[..|indexes| - 1]) + NamesFor(indexes[|indexes| - 1], |indexes| - 1)
  }

  lemma ForResolves(name: Bytes, i: nat, e: Slot<Ref>)
    requires e in NamesFor(name, i)
    ensures e.Entry? && e.val.index == i
    ensures if HasSuffix(e.name) then e.val.prefixScan && Trim(e.name) == name else !e.val.prefixScan && e.name == name
  {
    var long := name + PREFIX_SUFFIX;
    assert long[|long| - 7..] == PREFIX_SUFFIX && long[..|long| - 7] == name;
  }

  lemma ForAll(name: Bytes, i: nat, q: Bytes, scan: bool)
    requires if HasSuffix(q) then scan && Trim(q) == name else !scan && q == name
    ensures Entry(q, Ref(i, scan)) in NamesFor(name, i)
  {
    if HasSuffix(q) {
      assert q == Trim(q) + PREFIX_SUFFIX;
    }
  }

  /** The names an index list yields are exactly those the rule resolves. */
  lemma {:induction false} NamesResolve(indexes: seq<Bytes>, q: Bytes, ref: Ref)
    ensures Entry(q, ref) in NamesOf(indexes) <==> Resolves(indexes, q, ref)
  {
    if indexes != [] {
      var rest, n := indexes[..|indexes| - 1], |indexes| - 1;
      NamesResolve(rest, q, ref);
      if Entry(q, ref) in NamesFor(indexes[n], n) {
        ForResolves(indexes[n], n, Entry(q, ref));
      }
      if Resolves(indexes, q, ref) && ref.index == n {
        ForAll(indexes[n], n, q, ref.prefixScan);
      }
    }
  }

  /** The bytes of a string. */
  function BytesOf(text: string): (b: Bytes)
    requires forall i :: 0 <= i < |text| ==> text[i] as int < 256
    ensures |b| == |text| && forall i :: 0 <= i < |b| ==> b[i] == text[i] as int
  {
    seq(|text|, i requires 0 <= i < |text| => text[i] as int)
  }

  /** The suffix, spelled out. */
  lemma SuffixIs()
    ensures PREFIX_SUFFIX == BytesOf("_prefix")
  {
    assert '_' as int == 95 && 'p' as int == 112 && 'r' as int == 114 && 'e' as int == 101;
    assert 'f' as int == 102 && 'i' as int == 105 && 'x' as int == 120;
  }

  /** For every index there is its name with "_prefix" after it, and it stands for nothing but a prefix scan of an index
      of that name. */
  lemma PrefixNameResolves(indexes: seq<Bytes>, i: nat, ref: Ref)
    requires i < |indexes|
    ensures var q := indexes[i] + BytesOf("_prefix");
      && Entry(q, Ref(i, true)) in NamesOf(indexes)
      && (Entry(q, ref) in NamesOf(indexes) <==>
        ref.prefixScan && ref.index < |indexes| && indexes[ref.index] == indexes[i])
  {
    SuffixIs();
    var q := indexes[i] + BytesOf("_prefix");
    assert q[|q| - 7..] == PREFIX_SUFFIX && q[..|q| - 7] == indexes[i];
    NamesResolve(indexes, q, Ref(i, true));
    NamesResolve(indexes, q, ref);
  }

  /** A name that does not end in "_prefix" stands for an index of exactly that name, and never for a prefix scan. */
  lemma PlainNameResolves(indexes: seq<Bytes>, q: Bytes, ref: Ref)
    requires |q| < 7 || q[|q| - 7..] != BytesOf("_prefix")
    ensures Entry(q, ref) in NamesOf(indexes) <==>
      !ref.prefixScan && ref.index < |indexes| && indexes[ref.index] == q
  {
    SuffixIs();
    NamesResolve(indexes, q, ref);
  }

  method IndexNames(indexes: seq<Bytes>) returns (x: NameIndex<Ref>)
    ensures IndexOf(x, NamesOf(indexes))
  {
    var names: seq<Slot<Ref>> := [];
    var i := 0;
    while i < |indexes|
      invariant i <= |indexes| && names == NamesOf(indexes[..i])
    {
      assert indexes[..i + 1][..i] == indexes[..i];
      if !HasSuffix(indexes[i]) {
        names := names + [Entry(indexes[i], Ref(i, false))];
      }
      names := names + [Entry(indexes[i] + PREFIX_SUFFIX, Ref(i, true))];
      i := i + 1;
    }
    assert indexes[..|indexes|] == indexes;
    x := New(names);
  }

  /** What a lookup gives, in terms of the spelled-out suffix. */
  lemma PrefixLookup(indexes: seq<Bytes>, name: Bytes, i: nat, r: Slot<Ref>)
    requires r.Entry? ==> r.name == name && r in NamesOf(indexes)
    requires r.Unset? ==> forall ref :: Entry(name, ref) !in NamesOf(indexes)
    requires i < |indexes| && name == indexes[i] + BytesOf("_prefix")
    ensures r.Entry? && r.val.prefixScan && r.val.index < |indexes| && indexes[r.val.index] == indexes[i]
  {
    hide NamesOf, BytesOf;
    PrefixNameResolves(indexes, i, if r.Entry? then r.val else Ref(i, true));
    assert r.Entry? ==> r == Entry(name, r.val);
  }

  lemma PlainLookup(indexes: seq<Bytes>, name: Bytes, r: Slot<Ref>)
    requires r.Entry? ==> r.name == name && r in NamesOf(indexes)
    requires r.Unset? ==> forall ref :: Entry(name, ref) !in NamesOf(indexes)
    requires |name| < 7 || name[|name| - 7..] != BytesOf("_prefix")
    ensures if r.Entry? then !r.val.prefixScan && r.val.index < |indexes| && indexes[r.val.index] == name
      else name !in indexes
  {
    hide NamesOf, BytesOf;
    if r.Entry? {
      PlainNameResolves(indexes, name, r.val);
      assert r == Entry(name, r.val);
    } else if name in indexes {
      var i :| 0 <= i < |indexes| && indexes[i] == name;
      PlainNameResolves(indexes, name, Ref(i, false));
    }
  }

  /** Resolving a name: for every string, the rule and nothing else. */
  method Resolve(x: NameIndex<Ref>, name: Bytes, ghost indexes: seq<Bytes>) returns (r: Slot<Ref>)
    requires IndexOf(x, NamesOf(indexes))
    ensures r.Entry? ==> Resolves(indexes, name, r.val)
    ensures r.Unset? ==> forall ref :: !Resolves(indexes, name, ref)
    ensures forall i :: 0 <= i < |indexes| && name == indexes[i] + BytesOf("_prefix") ==>
      r.Entry? && r.val.prefixScan && r.val.index < |indexes| && indexes[r.val.index] == indexes[i]
    ensures |name| < 7 || name[|name| - 7..] != BytesOf("_prefix") ==>
      if r.Entry? then !r.val.prefixScan && r.val.index < |indexes|
        && indexes[r.val.index] == name else name !in indexes
  {
    r := Get(x, name, NamesOf(indexes));
    forall i | 0 <= i < |indexes| && name == indexes[i] + BytesOf("_prefix")
      ensures r.Entry? && r.val.prefixScan && r.val.index < |indexes| && indexes[r.val.index] == indexes[i]
    {
      PrefixLookup(indexes, name, i, r);
    }
    if |name| < 7 || name[|name| - 7..] != BytesOf("_prefix") {
      PlainLookup(indexes, name, r);
    }
    if r.Entry? {
      NamesResolve(indexes, name, r.val);
    } else {
      forall ref
        ensures !Resolves(indexes, name, ref)
      {
        NamesResolve(indexes, name, ref);
      }
    }
  }
}
