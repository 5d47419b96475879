/** How a uint32 id is split by the trie: 8 bits inside a chunk, then 6 bits per directory level. */
module IdSpace {

  const UINT32: nat := 0x1_0000_0000

  /** `(32 - chunkBits + fanBits - 1) / fanBits`, which is `(32 - 8 + 6 - 1) / 6`. */
  const MAX_HEIGHT: nat := 4

  /** uint32 arithmetic. */
  function Wrap(n: int): (r: nat)
    ensures r < UINT32
    ensures 0 <= n < UINT32 ==> r == n
  {
    n % 0x1_0000_0000
  }

  /** How many low bits of an id a tree of the given height covers. */
  function Span(h: nat): nat { 8 + 6 * h }

  /** `id >> span(h)`. */
  function High(h: nat, id: nat): (r: nat)
  {
    if h == 0 then id / 256 else High(h - 1, id) / 64
  }

  /** `(id >> span(h-1)) & fanMask`: the slot of id in a directory node of height h. */
  function Slot(h: nat, id: nat): (s: nat)
    requires h > 0
    ensures s < 64
    ensures High(h - 1, id) == 64 * High(h, id) + s
  {
    High(h - 1, id) % 64
  }

  /** The code's test for an id outside a tree of height h: `span(h) < 32 && id>>span(h) != 0`. */
  predicate Beyond(h: nat, id: nat)
  {
    Span(h) < 32 && High(h, id) != 0
  }

  /** 1 << span(h). */
  function Size(h: nat): (n: nat)
    ensures n > 0
  {
    if h == 0 then 256 else 64 * Size(h - 1)
  }

  lemma LevelUp(q: nat, s: nat, z: nat, id: nat)
    requires s < 64 && (64 * q + s) * z <= id < (64 * q + s + 1) * z
    ensures q * (64 * z) <= id < (q + 1) * (64 * z)
  {
    assert (64 * q + s) * z == q * (64 * z) + s * z;
    assert (64 * q + s + 1) * z == q * (64 * z) + (s + 1) * z;
    assert (s + 1) * z <= 64 * z;
  }

  lemma {:induction false} HighRange(h: nat, id: nat)
    ensures High(h, id) * Size(h) <= id < (High(h, id) + 1) * Size(h)
  {
    if h > 0 {
      HighRange(h - 1, id);
      LevelUp(High(h, id), Slot(h, id), Size(h - 1), id);
    }
  }

  lemma TopCovers(id: nat)
    requires id < UINT32
    ensures High(MAX_HEIGHT, id) == 0
  {
    HighRange(MAX_HEIGHT, id);
    assert Size(4) == UINT32 by { assert Size(2) == 0x10_0000; }
  }

  lemma {:induction false} HighMono(h: nat, x: nat, y: nat)
    requires x <= y
    ensures High(h, x) <= High(h, y)
  {
    if h > 0 {
      HighMono(h - 1, x, y);
    }
  }

  /** `p << span(h)`. */
  function Shl(h: nat, p: nat): nat
  {
    if h == 0 then 256 * p else Shl(h - 1, 64 * p)
  }

  lemma {:induction false} ShlAdd(h: nat, p: nat, q: nat)
    ensures Shl(h, p + q) == Shl(h, p) + Shl(h, q)
  {
    if h > 0 {
      ShlAdd(h - 1, 64 * p, 64 * q);
    }
  }

  /** An id outside one level but inside the next has a non-zero slot there. */
  lemma TopSlot(h: nat, id: nat)
    requires 0 < h && High(h, id) == 0 && High(h - 1, id) != 0
    ensures Slot(h, id) == High(h - 1, id) != 0
  {
  }

  lemma NotBeyond(h: nat, id: nat)
    requires id < UINT32 && h <= MAX_HEIGHT && !Beyond(h, id)
    ensures High(h, id) == 0
  {
    if h == MAX_HEIGHT {
      TopCovers(id);
    }
  }

  lemma WrapAdd(n: int, d: int)
    ensures Wrap(Wrap(n) + d) == Wrap(n + d)
  {
  }

  /** A set of numbers below n has at most n elements, and n if it has them all. */
  lemma {:induction false} CardBound(ids: set<nat>, n: nat)
    requires forall x :: x in ids ==> x < n
    ensures |ids| <= n
  {
    if n > 0 {
      CardBound(ids - {n - 1}, n - 1);
    } else {
      assert forall x :: x !in ids;
    }
  }

  lemma {:induction false} CardExact(ids: set<nat>, n: nat)
    requires forall x: nat :: x in ids <==> x < n
    ensures |ids| == n
  {
    if n == 0 {
      assert ids == {};
    } else {
      CardExact(ids - {n - 1}, n - 1);
    }
  }
}
