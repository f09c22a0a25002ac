/** Integer helpers for the byte-position arithmetic of the file system:
    a position q of a file lives in pointer slot q / BLOCK_SIZE at offset q % BLOCK_SIZE. */
module Arith {

  /** The `min` macro of the source: the smaller of a and b. */
  function Min(a: int, b: int): (m: int)
    ensures m <= a && m <= b && (m == a || m == b)
  {
    if a < b then a else b
  }

  /** The larger of a and b. */
  function Max(a: int, b: int): (m: int)
    ensures m >= a && m >= b && (m == a || m == b)
  {
    if a < b then b else a
  }

  /** The slot of the first block boundary at or after position x: the rounded-up quotient. */
  function FirstBoundarySlot(x: int, bs: int): (s: int)
    requires x >= 0 && bs > 0
    ensures s == if x % bs == 0 then x / bs else x / bs + 1
  {
    if x % bs == 0 then
      SameBlock(x, bs - 1, bs);
      (x + bs - 1) / bs
    else
      DivModUnique(x + bs - 1, bs, x / bs + 1, x % bs - 1);
      (x + bs - 1) / bs
  }

  /** One past the last slot that holds a byte of positions p .. p + n - 1 (p's own slot when n is 0). */
  function SlotEnd(p: int, n: int, bs: int): (e: int)
    requires bs > 0
  {
    if n <= 0 then p / bs else (p + n - 1) / bs + 1
  }

  /** Storing n > 0 more bytes from p + m on, inside the slot of p + m, makes that slot the last one. */
  lemma SlotEndNext(p: int, m: int, n: int, bs: int)
    requires bs > 0 && 0 <= m && 1 <= n <= bs - (p + m) % bs
    ensures SlotEnd(p, m + n, bs) == (p + m) / bs + 1
  {
    SameBlock(p + m, n - 1, bs);
  }

  /** Storing n more bytes from p + m on, inside the slot of p + m: the slot that holds the last of
      them, and where the next byte goes when the slot is filled to its end. */
  lemma StepEnds(p: int, m: int, n: int, bs: int)
    requires bs > 0 && 0 <= m && 0 <= n <= bs - (p + m) % bs
    ensures n > 0 ==> SlotEnd(p, m + n, bs) == (p + m) / bs + 1
    ensures n == bs - (p + m) % bs ==> (p + m + n) / bs == (p + m) / bs + 1 && (p + m + n) % bs == 0
  {
    if n > 0 {
      SlotEndNext(p, m, n, bs);
    }
    NextBlock(p + m, bs);
  }

  /** A positive multiple of a positive number is at least that number. */
  lemma {:induction false} MulAtLeast(e: int, bs: int)
    requires e >= 1 && bs > 0
    ensures e * bs >= bs
    decreases e
  {
    if e > 1 {
      MulAtLeast(e - 1, bs);
      assert e * bs == (e - 1) * bs + bs;
    }
  }

  /** Quotient and remainder are determined by any decomposition q == d * bs + m with 0 <= m < bs. */
  lemma DivModUnique(q: int, bs: int, d: int, m: int)
    requires bs > 0 && 0 <= m < bs && q == d * bs + m
    ensures q / bs == d && q % bs == m
  {
    var d', m' := q / bs, q % bs;
    assert q == d' * bs + m';
    assert (d' - d) * bs == m - m';
    if d' > d {
      MulAtLeast(d' - d, bs);
    } else if d' < d {
      MulAtLeast(d - d', bs);
    }
  }

  /** Moving forward inside the remainder of a block keeps the slot and shifts the offset. */
  lemma SameBlock(x: int, t: int, bs: int)
    requires bs > 0 && 0 <= t < bs - x % bs
    ensures (x + t) / bs == x / bs && (x + t) % bs == x % bs + t
  {
    DivModUnique(x + t, bs, x / bs, x % bs + t);
  }

  /** Filling the rest of a block lands on the start of the next slot. */
  lemma NextBlock(x: int, bs: int)
    requires bs > 0
    ensures (x + (bs - x % bs)) / bs == x / bs + 1 && (x + (bs - x % bs)) % bs == 0
  {
    DivModUnique(x + (bs - x % bs), bs, x / bs + 1, 0);
  }

  /** A position before a block boundary lies in an earlier slot. */
  lemma BeforeBoundary(y: int, x: int, bs: int)
    requires bs > 0 && y < x && x % bs == 0
    ensures y / bs < x / bs
  {
    DivMonotone(y, x, bs);
    if y / bs == x / bs {
      SameSlot(y, x, bs);
    }
  }

  /** Slots never decrease as the position grows. */
  lemma DivMonotone(y: int, x: int, bs: int)
    requires bs > 0 && y <= x
    ensures y / bs <= x / bs
  {
    var dy, dx := y / bs, x / bs;
    assert y == dy * bs + y % bs && x == dx * bs + x % bs;
    if dy > dx {
      MulAtLeast(dy - dx, bs);
    }
  }

  /** Two positions in the same slot differ exactly by their offsets. */
  lemma SameSlot(y: int, x: int, bs: int)
    requires bs > 0 && y / bs == x / bs
    ensures y - x == y % bs - x % bs
  {
  }
}
