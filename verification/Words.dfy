/** The 64-bit words of the tries, read as sets of bit positions.

    `&`, `|` and `&^` are then intersection, union and difference, a population count is a
    cardinality, and `1<<s - 1` selects the positions below s. Module MachineWords proves these
    readings correct for the bit-vector operations themselves. */
module Words {

  type Bits = b: set<nat> | forall i :: i in b ==> i < 64

  /** `b & (1<<s - 1)`. */
  function Below(b: Bits, s: nat): Bits
  {
    set i | i in b && i < s
  }

  /** `bits.OnesCount64(b & (1<<s - 1))`: the index of child s in the dense child list. */
  function Rank(b: Bits, s: nat): nat
  {
    |Below(b, s)|
  }

  function NextBit(b: Bits, i: nat): (n: nat)
    requires i <= 64
    ensures i <= n <= 64
    ensures n < 64 ==> n in b
    ensures forall j :: i <= j < n ==> j !in b
    decreases 64 - i
  {
    if i == 64 || i in b then i else NextBit(b, i + 1)
  }

  /** `bits.TrailingZeros64`: the lowest set bit, 64 for the zero word. */
  function TrailingZeros(b: Bits): (n: nat)
    ensures b == {} <==> n == 64
    ensures b != {} ==> n in b
    ensures forall j :: j in b ==> n <= j
  {
    NextBit(b, 0)
  }

  /** `b & (b-1)`. */
  function DropLowest(b: Bits): Bits
  {
    b - {TrailingZeros(b)}
  }

  lemma BelowStep(b: Bits, s: nat)
    ensures Below(b, s + 1) == Below(b, s) + (if s in b then {s} else {})
    ensures Rank(b, s + 1) == Rank(b, s) + (if s in b then 1 else 0)
  {
  }

  lemma {:induction false} RankMono(b: Bits, s: nat, t: nat)
    requires s <= t
    ensures Rank(b, s) <= Rank(b, t)
  {
    if s < t {
      RankMono(b, s, t - 1);
      BelowStep(b, t - 1);
    }
  }

  lemma RankAll(b: Bits)
    ensures Rank(b, 64) == |b|
  {
    assert Below(b, 64) == b;
  }

  /** Ranks of set bits are valid child indexes, in the order of the bits. */
  lemma RankOrder(b: Bits)
    ensures forall s :: s in b ==> Rank(b, s) < |b|
    ensures forall s, t :: s in b && s < t < 64 ==> Rank(b, s) < Rank(b, t)
  {
    RankAll(b);
    forall s, t | s in b && s < t <= 64
      ensures Rank(b, s) < Rank(b, t)
    {
      BelowStep(b, s);
      RankMono(b, s + 1, t);
    }
  }

  /** Every child index is the rank of a set bit. */
  lemma {:induction false} SlotOfRank(b: Bits, n: nat, i: nat) returns (s: nat)
    requires i < Rank(b, n)
    ensures s in b && s < n && Rank(b, s) == i
  {
    BelowStep(b, n - 1);
    if n - 1 in b && Rank(b, n - 1) == i {
      s := n - 1;
    } else {
      s := SlotOfRank(b, n - 1, i);
    }
  }

  /** Setting bit s moves the children above it up by one. */
  lemma RankInsert(b: Bits, s: nat)
    requires s < 64 && s !in b
    ensures |b + {s}| == |b| + 1 && Rank(b, s) <= |b|
    ensures forall t :: 0 <= t < 64 ==> Rank(b + {s}, t) == Rank(b, t) + (if s < t then 1 else 0)
  {
    RankMono(b, s, 64);
    RankAll(b);
    forall t | 0 <= t < 64
      ensures Rank(b + {s}, t) == Rank(b, t) + (if s < t then 1 else 0)
    {
      assert Below(b + {s}, t) == Below(b, t) + (if s < t then {s} else {});
    }
  }

  /** The child of a set bit, found by rank. */
  function Kid<T>(b: Bits, kids: seq<T>, s: nat): (k: T)
    requires |kids| == |b| && s in b
  {
    RankOrder(b);
    kids[Rank(b, s)]
  }

  lemma KidIn<T>(b: Bits, kids: seq<T>, s: nat)
    requires |kids| == |b| && s in b
    ensures Kid(b, kids, s) in kids
  {
    RankOrder(b);
  }

  function Inserted<T>(kids: seq<T>, i: nat, k: T): seq<T>
    requires i <= |kids|
  {
    kids[..i] + [k] + kids[i..]
  }

  function Removed<T>(kids: seq<T>, i: nat): seq<T>
    requires i < |kids|
  {
    kids[..i] + kids[i + 1..]
  }

  lemma RankInsertAt(b: Bits, s: nat, t: nat)
    requires s < 64 && s !in b && t in b
    ensures Rank(b, t) < |b|
    ensures t < s ==> Rank(b + {s}, t) == Rank(b, t) < Rank(b, s)
    ensures s < t ==> Rank(b + {s}, t) == Rank(b, t) + 1 && Rank(b, s) <= Rank(b, t)
  {
    RankInsert(b, s);
    RankOrder(b);
    BelowStep(b, t);
    if t < s {
      RankMono(b, t + 1, s);
    } else {
      RankMono(b, s, t);
    }
  }

  lemma KidInsertedAt<T>(b: Bits, kids: seq<T>, s: nat, k: T, t: nat)
    requires |kids| == |b| && s < 64 && s !in b && t in b
    requires Rank(b, s) <= |b|
    requires |Inserted(kids, Rank(b, s), k)| == |b + {s}|
    ensures Kid(b + {s}, Inserted(kids, Rank(b, s), k), t) == Kid(b, kids, t)
  {
    RankInsertAt(b, s, t);
  }

  /** Opening a gap at the new child's rank leaves every other slot with its child. */
  lemma KidInserted<T>(b: Bits, kids: seq<T>, s: nat, k: T)
    requires |kids| == |b| && s < 64 && s !in b
    ensures Rank(b, s) <= |kids| && |Inserted(kids, Rank(b, s), k)| == |b + {s}|
    ensures Kid(b + {s}, Inserted(kids, Rank(b, s), k), s) == k
    ensures forall t :: t in b ==> Kid(b + {s}, Inserted(kids, Rank(b, s), k), t) == Kid(b, kids, t)
  {
    RankInsert(b, s);
    assert Rank(b + {s}, s) == Rank(b, s);
    forall t | t in b
      ensures Kid(b + {s}, Inserted(kids, Rank(b, s), k), t) == Kid(b, kids, t)
    {
      KidInsertedAt(b, kids, s, k, t);
    }
  }

  lemma KidRemovedAt<T>(b: Bits, kids: seq<T>, s: nat, t: nat)
    requires |kids| == |b| && s in b && t in b && t != s
    requires Rank(b, s) < |kids|
    requires |Removed(kids, Rank(b, s))| == |b - {s}|
    ensures Kid(b - {s}, Removed(kids, Rank(b, s)), t) == Kid(b, kids, t)
  {
    var c := b - {s};
    assert c + {s} == b;
    RankInsert(c, s);
    RankInsertAt(c, s, t);
  }

  /** Closing the gap of a removed child is the inverse. */
  lemma KidRemoved<T>(b: Bits, kids: seq<T>, s: nat)
    requires |kids| == |b| && s in b
    ensures Rank(b, s) < |kids| && |Removed(kids, Rank(b, s))| == |b - {s}|
    ensures forall t :: t in b && t != s ==> Kid(b - {s}, Removed(kids, Rank(b, s)), t) == Kid(b, kids, t)
  {
    RankOrder(b);
    forall t | t in b && t != s
      ensures Kid(b - {s}, Removed(kids, Rank(b, s)), t) == Kid(b, kids, t)
    {
      KidRemovedAt(b, kids, s, t);
    }
  }

  /** Replacing the child of one slot leaves the others. */
  lemma KidUpdated<T>(b: Bits, kids: seq<T>, s: nat, k: T)
    requires |kids| == |b| && s in b
    ensures Rank(b, s) < |kids| && Kid(b, kids[Rank(b, s) := k], s) == k
    ensures forall t :: t in b && t != s ==> Kid(b, kids[Rank(b, s) := k], t) == Kid(b, kids, t)
  {
    RankOrder(b);
  }

  /** Every element of a child list is the child of some slot. */
  lemma KidOf<T>(b: Bits, kids: seq<T>, i: nat) returns (s: nat)
    requires |kids| == |b| && i < |kids|
    ensures s in b && Rank(b, s) == i && Kid(b, kids, s) == kids[i]
  {
    RankAll(b);
    s := SlotOfRank(b, 64, i);
  }
}
