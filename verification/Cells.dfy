// 64-bit cycle arithmetic of the shared-memory protocol (ctables/shared/shared.h and shared.c).
//
// A cycle is the value of a 64-bit counter that skips 0. Proofs speak of ticks: the same counter
// without the wrap, so that a cycle is always its tick modulo 2^64.

module Cells {

  const CELL_LIMIT := 0x1_0000_0000_0000_0000
  const WINDOW := 0x8000_0000
  const TWILIGHT_ZONE := 64
  const LOST_HORIZON: Cell := 0

  type Cell = x: int | 0 <= x < CELL_LIMIT

  function CellOf(t: nat): Cell {
    t % CELL_LIMIT
  }

  /** Unsigned 64-bit subtraction. */
  function Minus(a: Cell, b: int): Cell {
    (a - b) % CELL_LIMIT
  }

  /** Conversion of a 64-bit difference to a 32-bit `int`. */
  function ToInt(x: Cell): int {
    var low := x % (2 * WINDOW);
    if low < WINDOW then low else low - 2 * WINDOW
  }

  function Age(a: Cell, b: Cell): int {
    ToInt(Minus(a, b))
  }

  /** One pass of the increment loop in write_lock. */
  function NextTick(t: nat): (r: nat)
    ensures r > t && CellOf(r) != LOST_HORIZON
  {
    if CellOf(t + 1) == LOST_HORIZON then t + 2 else t + 1
  }

  lemma ModShift(d: int, m: int)
    ensures (d + 2 * WINDOW * m) % (2 * WINDOW) == d % (2 * WINDOW)
  {
  }

  /** Truncation to `int` is the true difference up to a multiple of 2^32. */
  lemma AgeTruncates(a: int, b: int, k: int)
    requires -WINDOW <= a - b + 2 * WINDOW * k < WINDOW
    ensures ToInt((a % CELL_LIMIT - b % CELL_LIMIT) % CELL_LIMIT) == a - b + 2 * WINDOW * k
  {
    var d := a - b + 2 * WINDOW * k;
    var m := b / CELL_LIMIT - a / CELL_LIMIT;
    assert a % CELL_LIMIT - b % CELL_LIMIT == a - b + CELL_LIMIT * m;
    var q := (a - b + CELL_LIMIT * m) / CELL_LIMIT;
    var x := (a - b + CELL_LIMIT * m) % CELL_LIMIT;
    assert x == d + 2 * WINDOW * (0x1_0000_0000 * (m - q) - k);
    ModShift(d, 0x1_0000_0000 * (m - q) - k);
  }

  lemma ToIntIs(c: Cell)
    ensures -WINDOW <= ToInt(c) < WINDOW && (c - ToInt(c)) % 0x1_0000_0000 == 0
  {
  }

  /** Incrementing a cycle increments its tick, and no two cycles in a row are 0. */
  lemma CellAfter(t: nat)
    ensures (CellOf(t) + 1) % CELL_LIMIT == CellOf(t + 1)
    ensures CellOf(t) == LOST_HORIZON ==> CellOf(t + 1) != LOST_HORIZON
  {
  }

  /**
   * read_lock and write_lock answer the cycle as an `int`, which is 0 for one cycle in 2^32 and not just for cycle 0.
   */
  lemma ZeroAnswers(c: Cell)
    ensures ToInt(c) == 0 <==> c % 0x1_0000_0000 == 0
  {
  }

  /** The write after cycle 0xFFFF_FFFF answers 0, though its cycle is not LOST_HORIZON. */
  lemma ZeroAnswerInput()
    ensures CellOf(NextTick(0xFFFF_FFFF)) == 0x1_0000_0000 != LOST_HORIZON && ToInt(CellOf(NextTick(0xFFFF_FFFF))) == 0
  {
  }

  /** Within half the range of an `int`, the truncated difference is the true one. */
  lemma AgeIsTrue(a: int, b: int)
    requires -WINDOW <= a - b < WINDOW
    ensures ToInt((a % CELL_LIMIT - b % CELL_LIMIT) % CELL_LIMIT) == a - b
  {
    AgeTruncates(a, b, 0);
  }

  /** garbage_collect's cutoff: the horizon less the twilight zone, never 0. */
  function CollectLimit(horizon: Cell): Cell {
    if horizon == LOST_HORIZON then LOST_HORIZON
    else
      var limit := Minus(horizon, TWILIGHT_ZONE);
      if limit == LOST_HORIZON then CELL_LIMIT - 1 else limit
  }

  /** garbage_collect's test on one block. */
  predicate Collectible(limit: Cell, cycle: Cell) {
    limit == LOST_HORIZON || cycle == LOST_HORIZON || Age(limit, cycle) > 0
  }

  /** The cutoff as a tick; it stands one lower when the subtraction lands on 0. */
  function CollectLine(horizonTick: int): (r: int)
    ensures r <= horizonTick - TWILIGHT_ZONE
  {
    if (horizonTick - TWILIGHT_ZONE) % CELL_LIMIT == 0 then horizonTick - TWILIGHT_ZONE - 1
      else horizonTick - TWILIGHT_ZONE
  }

  lemma CollectLineIs(h: int)
    ensures h - TWILIGHT_ZONE - 1 <= CollectLine(h) <= h - TWILIGHT_ZONE
  {
  }

  lemma CollectLimitIsLine(h: nat)
    requires CellOf(h) != LOST_HORIZON
    ensures CollectLimit(CellOf(h)) == CollectLine(h) % CELL_LIMIT != LOST_HORIZON
  {
    assert (h % CELL_LIMIT - TWILIGHT_ZONE) % CELL_LIMIT == (h - TWILIGHT_ZONE) % CELL_LIMIT;
  }

  /** Within the window, garbage_collect's test is the order of ticks. */
  lemma CollectibleIsOlder(h: nat, g: nat)
    requires CellOf(h) != LOST_HORIZON && CellOf(g) != LOST_HORIZON
    requires -WINDOW <= CollectLine(h) - g < WINDOW
    ensures Collectible(CollectLimit(CellOf(h)), CellOf(g)) <==> g < CollectLine(h)
  {
    CollectLimitIsLine(h);
    AgeIsTrue(CollectLine(h), g);
  }

  /**
   * In numbers: what was freed more than 64 cycles before the horizon goes, or more than 65 when 64 before it is a
   * multiple of 2^64.
   */
  lemma CollectsInNumbers(h: nat, g: nat)
    requires h % 0x1_0000_0000_0000_0000 != 0 && g % 0x1_0000_0000_0000_0000 != 0 && -0x7000_0000 < h - g < 0x7000_0000
    ensures Collectible(CollectLimit(h % 0x1_0000_0000_0000_0000), g % 0x1_0000_0000_0000_0000) <==>
              g < if (h - 64) % 0x1_0000_0000_0000_0000 == 0 then h - 65 else h - 64
  {
    CollectibleIsOlder(h, g);
  }

  /** Exactly how far a reader at tick `c` may lag for all that it can still reach to be kept. */
  lemma ProtectionWindow(c: nat, now: nat)
    requires c <= now < c + WINDOW && CellOf(c) != LOST_HORIZON && CellOf(now) != LOST_HORIZON
    ensures (forall g: nat :: c <= g <= now && CellOf(g) != LOST_HORIZON ==>
            !Collectible(CollectLimit(CellOf(c)), CellOf(g)))
       <==> now - CollectLine(c) <= WINDOW
  {
    if now - CollectLine(c) <= WINDOW {
      forall g: nat | c <= g <= now && CellOf(g) != LOST_HORIZON
        ensures !Collectible(CollectLimit(CellOf(c)), CellOf(g))
      {
        CollectibleIsOlder(c, g);
      }
    } else {
      CollectLimitIsLine(c);
      AgeTruncates(CollectLine(c), now, 1);
      assert Collectible(CollectLimit(CellOf(c)), CellOf(now));
    }
  }

  /** The tick after `n` calls of write_lock: one lap of the counter takes 2^64 - 1 of them. */
  function TickOfLocks(n: nat): nat {
    if n == 0 then 0 else n + (n - 1) / 0xFFFF_FFFF_FFFF_FFFF
  }

  lemma TickIs(q: nat, r: nat)
    requires r < 0xFFFF_FFFF_FFFF_FFFF
    ensures TickOfLocks(0xFFFF_FFFF_FFFF_FFFF * q + r + 1) == 0x1_0000_0000_0000_0000 * q + r + 1
  {
  }

  lemma CellIs(q: nat, r: nat)
    requires r < 0x1_0000_0000_0000_0000
    ensures CellOf(0x1_0000_0000_0000_0000 * q + r) == r
  {
  }

  lemma NextTickIs(q: nat, r: nat)
    requires r < 0xFFFF_FFFF_FFFF_FFFF
    ensures NextTick(0x1_0000_0000_0000_0000 * q + r + 1) ==
            if r + 2 < 0x1_0000_0000_0000_0000 then 0x1_0000_0000_0000_0000 * q + r + 2
              else 0x1_0000_0000_0000_0000 * (q + 1) + 1
  {
    if r + 2 < 0x1_0000_0000_0000_0000 {
      CellIs(q, r + 2);
    } else {
      CellIs(q + 1, 0);
    }
  }

  lemma NextTickOfLocks(n: nat)
    ensures NextTick(TickOfLocks(n)) == TickOfLocks(n + 1)
  {
    if n > 0 {
      var q, r := (n - 1) / 0xFFFF_FFFF_FFFF_FFFF, (n - 1) % 0xFFFF_FFFF_FFFF_FFFF;
      hide NextTick, TickOfLocks;
      TickIs(q, r);
      NextTickIs(q, r);
      if r + 2 < 0x1_0000_0000_0000_0000 {
        TickIs(q, r + 1);
      } else {
        TickIs(q + 1, 0);
      }
    }
  }

  /** Fewer than 2^31 - 64 writes behind is near enough. */
  lemma LocksBehind(m: nat, n: nat)
    requires 1 <= m <= n < m + WINDOW - TWILIGHT_ZONE
    ensures TickOfLocks(n) - CollectLine(TickOfLocks(m)) <= WINDOW
  {
    var q, r := (m - 1) / 0xFFFF_FFFF_FFFF_FFFF, (m - 1) % 0xFFFF_FFFF_FFFF_FFFF;
    var d := n - m;
    TickIs(q, r);
    if r + d < 0xFFFF_FFFF_FFFF_FFFF {
      TickIs(q, r + d);
    } else {
      TickIs(q + 1, r + d - 0xFFFF_FFFF_FFFF_FFFF);
      CellIs(q, r + 1 - TWILIGHT_ZONE);
    }
  }
}
