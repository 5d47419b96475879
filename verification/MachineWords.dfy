/** The readings of module Words are those of 64-bit machine words: what the operators of the source do to
    the bits of a word is what the set operations do to their positions. */
module MachineWords {
  import opened Words

  type Word = bv64

  /** `1 << i`. */
  function Bit(i: nat): Word
    requires i < 64
  {
    if i == 0 then 1 else Bit(i - 1) << 1
  }

  predicate Odd(w: Word)
  {
    w & 1 == 1
  }

  /** Whether bit i is set. */
  predicate Has(w: Word, i: nat)
  {
    if i == 0 then Odd(w) else Has(w >> 1, i - 1)
  }

  /** The positions of the set bits. */
  function Positions(w: Word): (r: Bits)
    ensures forall i :: i in r <==> 0 <= i < 64 && Has(w, i)
  {
    set i: nat | i < 64 && Has(w, i)
  }

  /** `x & y`, `x | y`, `x &^ y`, `b - 1`, by name: the solver then need not look inside. */
  function Both(x: Word, y: Word): Word { x & y }
  function Either(x: Word, y: Word): Word { x | y }
  function Without(x: Word, y: Word): Word { x & !y }
  function Mask(b: Word): Word { b - 1 }

  function Halve(w: Word): Word { w >> 1 }
  function Double(w: Word): Word { w << 1 }
  predicate Lower(a: Word, b: Word) { a < b }
  predicate AtMost(a: Word, b: Word) { a <= b }
  predicate Zero(a: Word) { a == 0 }

  // ---------------------------------------------------------------- facts about bit vectors alone

  lemma ShiftAnd(x: Word, y: Word)
    ensures (x & y) >> 1 == (x >> 1) & (y >> 1)
  {
  }

  lemma ShiftOr(x: Word, y: Word)
    ensures (x | y) >> 1 == (x >> 1) | (y >> 1)
  {
  }

  lemma ShiftAndNot(x: Word, y: Word)
    ensures (x & !y) >> 1 == (x >> 1) & !(y >> 1)
  {
  }

  lemma HalveBoth(x: Word, y: Word)
    ensures Halve(Both(x, y)) == Both(Halve(x), Halve(y))
  {
    ShiftAnd(x, y);
  }

  lemma HalveEither(x: Word, y: Word)
    ensures Halve(Either(x, y)) == Either(Halve(x), Halve(y))
  {
    ShiftOr(x, y);
  }

  lemma HalveWithout(x: Word, y: Word)
    ensures Halve(Without(x, y)) == Without(Halve(x), Halve(y))
  {
    ShiftAndNot(x, y);
  }

  lemma OddBoth(x: Word, y: Word)
    ensures Odd(Both(x, y)) <==> Odd(x) && Odd(y)
  {
  }

  lemma OddEither(x: Word, y: Word)
    ensures Odd(Either(x, y)) <==> Odd(x) || Odd(y)
  {
  }

  lemma OddWithout(x: Word, y: Word)
    ensures Odd(Without(x, y)) <==> Odd(x) && !Odd(y)
  {
  }

  lemma HalveZero(w: Word)
    ensures Halve(0) == 0 && !Odd(0)
    ensures Zero(Halve(w)) && !Odd(w) ==> Zero(w)
  {
  }

  /** An odd word loses its lowest bit; an even one borrows from the next. */
  lemma HalveDrop(w: Word)
    ensures !Odd(Both(w, Mask(w)))
    ensures Odd(w) ==> Halve(Both(w, Mask(w))) == Halve(w)
    ensures !Odd(w) ==> Halve(Both(w, Mask(w))) == Both(Halve(w), Mask(Halve(w)))
  {
  }

  lemma HalveBit(b: Word)
    requires Lower(b, 0x8000_0000_0000_0000) && !Zero(b)
    ensures Halve(Double(b)) == b && !Odd(Double(b))
    ensures Halve(Mask(Double(b))) == Mask(b) && Odd(Mask(Double(b)))
  {
  }

  lemma NoDifference(x: Word, y: Word)
    requires Without(x, y) == 0 && Without(y, x) == 0
    ensures x == y
  {
  }

  lemma HalfLower(b: Word, t: Word)
    requires AtMost(b, Halve(t))
    ensures Lower(b, 0x8000_0000_0000_0000)
  {
  }

  lemma DoubleAtMost(b: Word, t: Word)
    requires AtMost(b, Halve(t))
    ensures AtMost(Double(b), t)
  {
  }

  lemma DoubleNotZero(b: Word)
    requires !Zero(b) && Lower(b, 0x8000_0000_0000_0000)
    ensures !Zero(Double(b))
  {
  }

  lemma ShiftFits(b: Word, t: Word)
    requires !Zero(b) && AtMost(b, Halve(t))
    ensures !Zero(Double(b)) && AtMost(Double(b), t) && Lower(b, 0x8000_0000_0000_0000)
  {
    hide Zero, AtMost, Double, Halve, Lower;
    HalfLower(b, t);
    DoubleAtMost(b, t);
    DoubleNotZero(b);
  }

  lemma Shift4(t: Word)
    ensures (((t >> 1) >> 1) >> 1) >> 1 == t >> 4
    ensures (t >> 4) >> 4 == t >> 8
  {
  }

  // ---------------------------------------------------------------- single bits

  /** The largest word with its top n bits clear. */
  function Limit(n: nat): Word
  {
    if n == 0 then 0xffff_ffff_ffff_ffff else Limit(n - 1) >> 1
  }

  lemma LimitStep(n: nat)
    ensures Limit(n + 1) == Halve(Limit(n))
  {
  }

  lemma LimitShift(n: nat)
    ensures Limit(n + 1) == Limit(n) >> 1
  {
  }

  lemma Limit4(n: nat)
    ensures Limit(n + 4) == Limit(n) >> 4
  {
    hide Limit;
    LimitShift(n);
    LimitShift(n + 1);
    LimitShift(n + 2);
    LimitShift(n + 3);
    Shift4(Limit(n));
  }

  lemma Limit8(n: nat)
    ensures Limit(n + 8) == Limit(n) >> 8
  {
    hide Limit;
    Limit4(n);
    Limit4(n + 4);
    Shift4(Limit(n));
  }

  lemma LimitNone()
    ensures Limit(0) == 0xffff_ffff_ffff_ffff
  {
  }

  lemma ShiftsTo1(t: Word)
    requires t == 0xffff_ffff_ffff_ffff
    ensures (((((((t >> 8) >> 8) >> 8) >> 8) >> 8) >> 8) >> 8) >> 4 == 0xf
    ensures (((0xf as Word) >> 1) >> 1) >> 1 == 1
  {
  }

  lemma LimitOne()
    ensures Limit(63) == 1
  {
    hide Limit;
    LimitNone();
    Limit8(0);
    Limit8(8);
    Limit8(16);
    Limit8(24);
    Limit8(32);
    Limit8(40);
    Limit8(48);
    Limit4(56);
    ShiftsTo1(Limit(0));
    LimitShift(60);
    LimitShift(61);
    LimitShift(62);
  }

  lemma FirstBit()
    ensures Bit(0) == 1
  {
  }

  lemma BitStep(i: nat)
    requires i + 1 < 64
    ensures Bit(i + 1) == Double(Bit(i))
  {
  }

  /** No bit is shifted out of the word. */
  lemma {:induction false} BitFits(i: nat)
    requires i < 64
    ensures !Zero(Bit(i)) && AtMost(Bit(i), Limit(63 - i))
  {
    hide Bit, Limit, Zero, AtMost, Double, Halve, Lower;
    if i == 0 {
      FirstBit();
      LimitOne();
      OneIsOne();
    } else {
      BitFits(i - 1);
      LimitStep(63 - i);
      ShiftFits(Bit(i - 1), Limit(63 - i));
      BitStep(i - 1);
    }
  }

  lemma OneIsOne()
    ensures !Zero(1) && AtMost(1, 1)
  {
  }

  lemma BitBelow(i: nat)
    requires i < 63
    ensures !Zero(Bit(i)) && Lower(Bit(i), 0x8000_0000_0000_0000)
  {
    hide Bit, Limit, Lower, Zero, AtMost, Double, Halve;
    BitFits(i);
    LimitStep(62 - i);
    ShiftFits(Bit(i), Limit(62 - i));
  }

  lemma HasStep(w: Word, i: nat)
    ensures Has(w, i) <==> if i == 0 then Odd(w) else Has(Halve(w), i - 1)
  {
  }

  lemma OddFirst()
    ensures Odd(1) && !Odd(Mask(1)) && Halve(1) == 0 && Mask(1) == 0
  {
  }

  lemma {:induction false} HasZero(i: nat)
    ensures !Has(0, i)
  {
    hide Has, Odd, Halve;
    HasStep(0, i);
    HalveZero(0);
    if i > 0 {
      HasZero(i - 1);
    }
  }

  /** `1<<s` has bit s alone, and `1<<s - 1` those below s. */
  lemma {:induction false} HasBit(s: nat, i: nat)
    requires s < 64
    ensures Has(Bit(s), i) <==> i == s
    ensures Has(Mask(Bit(s)), i) <==> i < s
  {
    hide Has, Odd, Halve, Bit, Mask, Lower, Double, Zero;
    HasStep(Bit(s), i);
    HasStep(Mask(Bit(s)), i);
    if s == 0 {
      FirstBit();
      OddFirst();
      HasZero(i);
      if i > 0 {
        HasZero(i - 1);
      }
    } else {
      BitBelow(s - 1);
      BitStep(s - 1);
      HalveBit(Bit(s - 1));
      if i > 0 {
        HasBit(s - 1, i - 1);
      }
    }
  }

  // ---------------------------------------------------------------- words as sets

  lemma {:induction false} HasOps(x: Word, y: Word, i: nat)
    ensures Has(Both(x, y), i) <==> Has(x, i) && Has(y, i)
    ensures Has(Either(x, y), i) <==> Has(x, i) || Has(y, i)
    ensures Has(Without(x, y), i) <==> Has(x, i) && !Has(y, i)
    decreases i
  {
    hide Has, Odd, Halve, Both, Either, Without;
    HasStep(x, i);
    HasStep(y, i);
    HasStep(Both(x, y), i);
    HasStep(Either(x, y), i);
    HasStep(Without(x, y), i);
    if i == 0 {
      OddBoth(x, y);
      OddEither(x, y);
      OddWithout(x, y);
    } else {
      HalveBoth(x, y);
      HalveEither(x, y);
      HalveWithout(x, y);
      HasOps(Halve(x), Halve(y), i - 1);
    }
  }

  /** `&`, `|` and `&^` are intersection, union and difference. */
  lemma WordOps(x: Word, y: Word)
    ensures Positions(Both(x, y)) == Positions(x) * Positions(y)
    ensures Positions(Either(x, y)) == Positions(x) + Positions(y)
    ensures Positions(Without(x, y)) == Positions(x) - Positions(y)
  {
    hide Has, Both, Either, Without;
    forall i | 0 <= i < 64
      ensures Has(Both(x, y), i) <==> Has(x, i) && Has(y, i)
      ensures Has(Either(x, y), i) <==> Has(x, i) || Has(y, i)
      ensures Has(Without(x, y), i) <==> Has(x, i) && !Has(y, i)
    {
      HasOps(x, y, i);
    }
  }

  /** `b | 1<<s` inserts s, `b &^ (1<<s)` removes it, and `b & (1<<s - 1)` keeps what is below s, so that its
      population count is the rank of s. */
  lemma WordBits(w: Word, s: nat)
    requires s < 64
    ensures Positions(Either(w, Bit(s))) == Positions(w) + {s}
    ensures Positions(Without(w, Bit(s))) == Positions(w) - {s}
    ensures Positions(Both(w, Mask(Bit(s)))) == Below(Positions(w), s)
    ensures |Positions(Both(w, Mask(Bit(s))))| == Rank(Positions(w), s)
  {
    hide Has, Both, Either, Without, Bit, Mask;
    forall i | 0 <= i < 64
      ensures Has(Bit(s), i) <==> i == s
      ensures Has(Mask(Bit(s)), i) <==> i < s
    {
      HasBit(s, i);
    }
    WordOps(w, Mask(Bit(s)));
    WordOps(w, Bit(s));
    assert Positions(Bit(s)) == {s};
  }

  lemma {:induction false} NoBits(w: Word, n: nat)
    requires n < 64 && AtMost(w, Limit(63 - n)) && forall i :: 0 <= i <= n ==> !Has(w, i)
    ensures Zero(w)
    decreases n
  {
    hide Has, Odd, Halve, Limit, AtMost, Zero;
    HasStep(w, 0);
    assert !Has(w, 0);
    HalveZero(w);
    if n == 0 {
      LimitOne();
      AtMostOne(w);
    } else {
      forall i | 0 <= i <= n - 1
        ensures !Has(Halve(w), i)
      {
        HasStep(w, i + 1);
        assert !Has(w, i + 1);
      }
      LimitStep(63 - n);
      HalveLimit(w, Limit(63 - n));
      NoBits(Halve(w), n - 1);
    }
  }

  lemma AtMostOne(w: Word)
    requires AtMost(w, 1) && !Odd(w)
    ensures Zero(w)
  {
  }

  lemma HalveLimit(w: Word, t: Word)
    requires AtMost(w, t)
    ensures AtMost(Halve(w), Halve(t))
  {
  }

  /** The zero word is the empty set. */
  lemma ZeroWord(x: Word)
    ensures x == 0 <==> Positions(x) == {}
  {
    hide Has, Limit;
    if Positions(x) == {} {
      forall i | 0 <= i <= 63
        ensures !Has(x, i)
      {
        assert i !in Positions(x);
      }
      LimitNone();
      AtMostAll(x);
      NoBits(x, 63);
    }
    if x == 0 {
      forall i | 0 <= i < 64
        ensures !Has(x, i)
      {
        HasZero(i);
      }
    }
  }

  lemma AtMostAll(x: Word)
    ensures AtMost(x, 0xffff_ffff_ffff_ffff)
  {
  }

  /** Words with the same set bits are the same word. */
  lemma SameWord(x: Word, y: Word)
    requires Positions(x) == Positions(y)
    ensures x == y
  {
    hide Has, Positions, Without, Both, Either;
    WordOps(x, y);
    WordOps(y, x);
    ZeroWord(Without(x, y));
    ZeroWord(Without(y, x));
    NoDifference(x, y);
  }

  /** A bit survives `w & (w-1)` exactly if there is a set bit below it. */
  lemma {:induction false} HasDropped(w: Word, i: nat, low: nat)
    requires Has(w, low) && forall j :: 0 <= j < low ==> !Has(w, j)
    ensures Has(Both(w, Mask(w)), i) <==> Has(w, i) && i != low
    decreases i
  {
    hide Has, Odd, Halve, Both, Mask;
    var d := Both(w, Mask(w));
    HasStep(w, i);
    HasStep(w, low);
    HasStep(w, 0);
    HasStep(d, i);
    HalveDrop(w);
    if low == 0 {
      if i > 0 {
        assert Halve(d) == Halve(w);
      }
    } else {
      assert !Has(w, 0);
      if i > 0 {
        forall j | 0 <= j < low - 1
          ensures !Has(Halve(w), j)
        {
          HasStep(w, j + 1);
          assert !Has(w, j + 1);
        }
        HasDropped(Halve(w), i - 1, low - 1);
      }
    }
  }

  /** `b & (b-1)` removes the lowest set bit: every loop over set bits relies on it. */
  lemma LowestDropped(w: Word)
    requires w != 0
    ensures Positions(Both(w, Mask(w))) == DropLowest(Positions(w))
  {
    hide Has, Both, Mask;
    ZeroWord(w);
    var t := TrailingZeros(Positions(w));
    forall j | 0 <= j < t
      ensures !Has(w, j)
    {
      assert j !in Positions(w);
    }
    forall i | 0 <= i < 64
      ensures Has(Both(w, Mask(w)), i) <==> Has(w, i) && i != t
    {
      HasDropped(w, i, t);
    }
  }
}
