/** Unsigned 64-bit words as naturals: bitwise operations, powers of two, and the
    identities that turn masks into remainders. */
module Words {

  /** The number of values of a 64-bit `size_t`. */
  const WORD: nat := 0x1_0000_0000_0000_0000

  /** `std::has_single_bit`. */
  predicate IsPow2(n: nat) {
    n == 1 || (n > 1 && n % 2 == 0 && IsPow2(n / 2))
  }

  /** What `valid_init` of the concurrent rings accepts. */
  predicate AcceptedByInit(cap: nat) {
    0 < cap < WORD && IsPow2(cap)
  }

  /** What a ring can be used with: `idx` demands a mask that is not zero, and so does
      `valid_init` of the sequential ring. */
  predicate ValidCapacity(cap: nat) {
    AcceptedByInit(cap) && cap - 1 > 0
  }

  /** An accepted ring cannot be used exactly when its capacity is one. */
  lemma AcceptedIsValidIff(cap: nat)
    requires AcceptedByInit(cap)
    ensures ValidCapacity(cap) <==> cap != 1
  {
  }

  lemma CapacityOneIsAccepted()
    ensures AcceptedByInit(1) && !ValidCapacity(1)
  {
  }

  /** Bitwise and, bit by bit from the low end. */
  function BitAnd(a: nat, b: nat): nat {
    if a == 0 || b == 0 then 0
    else (if a % 2 == 1 && b % 2 == 1 then 1 else 0) + 2 * BitAnd(a / 2, b / 2)
  }

  /** Bitwise or, bit by bit from the low end. */
  function BitOr(a: nat, b: nat): nat {
    if a == 0 then b else if b == 0 then a
    else (if a % 2 == 1 || b % 2 == 1 then 1 else 0) + 2 * BitOr(a / 2, b / 2)
  }

  /** Quotient and remainder are determined by the division equation. */
  lemma DivModUnique(x: int, m: nat, q: int, r: int)
    requires m > 0 && x == q * m + r && 0 <= r < m
    ensures x / m == q && x % m == r
  {
    var d := q - x / m;
    assert x == (x / m) * m + x % m;
    assert d * m == x % m - r by {
      assert d * m == q * m - (x / m) * m;
    }
    assert d >= 1 ==> d * m >= m;
    assert d <= -1 ==> d * m <= 0 - m;
  }

  lemma ModDouble(x: nat, k: nat)
    requires k > 0
    ensures x % (2 * k) == x % 2 + 2 * ((x / 2) % k)
  {
    var q, r := (x / 2) / k, (x / 2) % k;
    assert x / 2 == q * k + r;
    assert x == q * (2 * k) + (2 * r + x % 2);
    DivModUnique(x, 2 * k, q, 2 * r + x % 2);
  }

  /** Masking with `c - 1` is the remainder modulo `c`, for a power of two. */
  lemma {:induction false} AndMask(x: nat, c: nat)
    requires IsPow2(c)
    ensures BitAnd(x, c - 1) == x % c
    decreases c
  {
    if c == 1 {
      assert x % 1 == 0;
    } else {
      var k := c / 2;
      AndMask(x / 2, k);
      ModDouble(x, k);
      assert c - 1 == 2 * (k - 1) + 1;
      if x == 0 { assert x % c == 0; }
    }
  }

  /** Masking with the complement of `c - 1` clears the remainder modulo `c`. */
  lemma {:induction false} AndHighMask(x: nat, c: nat, w: nat)
    requires IsPow2(c) && IsPow2(w) && c <= w && x < w
    ensures BitAnd(x, w - c) == x - x % c
    decreases w
  {
    if c == 1 {
      AndMask(x, w);
      DivModUnique(x, w, 0, x);
      assert x % 1 == 0;
    } else {
      var k := c / 2;
      AndHighMask(x / 2, k, w / 2);
      ModDouble(x, k);
      assert w - c == 2 * (w / 2 - k);
      if x == 0 { assert x % c == 0; }
    }
  }

  /** Or-ing an index into a multiple of `c` is addition. */
  lemma {:induction false} OrIsAdd(g: nat, i: nat, c: nat)
    requires IsPow2(c) && g % c == 0 && i < c
    ensures BitOr(g, i) == g + i
    decreases c
  {
    if c == 1 {
    } else if g > 0 && i > 0 {
      var k := c / 2;
      ModDouble(g, k);
      OrIsAdd(g / 2, i / 2, k);
    }
  }

  /** A power of two not above another one divides it. */
  lemma {:induction false} Pow2Divides(c: nat, w: nat)
    requires IsPow2(c) && IsPow2(w) && c <= w
    ensures w % c == 0
    decreases c
  {
    if c == 1 {
      assert w % 1 == 0;
    } else {
      Pow2Divides(c / 2, w / 2);
      ModDouble(w, c / 2);
    }
  }

  /** Reducing modulo a multiple of `c` first changes nothing modulo `c`. */
  lemma ModMod(x: nat, c: nat, w: nat)
    requires c > 0 && w > 0 && w % c == 0
    ensures (x % w) % c == x % c
  {
    var q, k, y := x / w, w / c, x % w;
    assert x == q * w + y && w == k * c;
    assert y == (y / c) * c + y % c;
    assert x == (q * k + y / c) * c + y % c by {
      assert q * w == (q * k) * c;
    }
    DivModUnique(x, c, q * k + y / c, y % c);
  }

  /** Wrapped subtraction recovers the true difference of unbounded counters. */
  lemma WrappedDifference(a: nat, b: nat, w: nat)
    requires w > 0 && b <= a < b + w
    ensures (a % w - b % w) % w == a - b
  {
    var qa, qb := a / w, b / w;
    assert a == qa * w + a % w && b == qb * w + b % w;
    assert a % w - b % w == (qb - qa) * w + (a - b);
    DivModUnique(a % w - b % w, w, qb - qa, a - b);
  }

  lemma WordIsPow2()
    ensures IsPow2(WORD)
  {
    assert IsPow2(0x10000);
    Pow2Times(0x10000, 0x10000);
    Pow2Times(0x1_0000_0000, 0x1_0000_0000);
  }

  lemma Pow2Double(n: nat)
    requires IsPow2(n)
    ensures IsPow2(2 * n)
  {
    assert 2 * n / 2 == n;
  }

  lemma {:induction false} Pow2Times(a: nat, b: nat)
    requires IsPow2(a) && IsPow2(b)
    ensures IsPow2(a * b)
    decreases a
  {
    if a == 1 {
      assert a * b == b;
    } else {
      var h := a / 2;
      Pow2Times(h, b);
      Pow2Double(h * b);
      assert a * b == 2 * (h * b) by { assert a == 2 * h; }
    }
  }

  /** The ring slot of counter value `n`: `n & (cap - 1)`. */
  function SlotOf(n: nat, cap: nat): (i: nat)
    requires IsPow2(cap)
    ensures i < cap
  {
    AndMask(n, cap);
    BitAnd(n, cap - 1)
  }

  /** Two counters less than one lap apart never share a slot. */
  lemma SlotsDistinct(m: nat, n: nat, cap: nat)
    requires IsPow2(cap) && m < n < m + cap
    ensures SlotOf(m, cap) != SlotOf(n, cap)
  {
    AndMask(m, cap);
    AndMask(n, cap);
    ModDistinct(m, n, cap);
  }

  lemma ModDistinct(m: nat, n: nat, c: nat)
    requires m < n < m + c
    ensures m % c != n % c
  {
    var q, r := m / c, m % c;
    assert m == q * c + r;
    if r + (n - m) < c {
      DivModUnique(n, c, q, r + (n - m));
    } else {
      assert (q + 1) * c == q * c + c;
      DivModUnique(n, c, q + 1, r + (n - m) - c);
    }
  }

  lemma ModOfFloor(x: nat, c: nat)
    requires c > 0
    ensures (x - x % c) % c == 0 && x % c <= x
  {
    var q := x / c;
    assert x == q * c + x % c;
    assert q * c >= 0;
    DivModUnique(x - x % c, c, q, 0);
  }

  /** A multiple of `c` plus something smaller than `c` splits back into the two. */
  lemma FloorPlus(g: nat, r: nat, c: nat)
    requires c > 0 && g % c == 0 && r < c
    ensures (g + r) % c == r
  {
    assert g == (g / c) * c;
    DivModUnique(g + r, c, g / c, r);
  }

  /** Multiples of `c` below a multiple of `c` leave room for one more `c`. */
  lemma FloorRoom(g: nat, w: nat, c: nat)
    requires c > 0 && g % c == 0 && w % c == 0 && g < w
    ensures g + c <= w
  {
    if w < g + c {
      ModDistinct(g, w, c);
    }
  }

  lemma MulMod(k: nat, c: nat)
    requires c > 0
    ensures (k * c) % c == 0 && (k * c) / c == k && k * c >= 0
  {
    DivModUnique(k * c, c, k, 0);
  }

  /** Sums of multiples are multiples. */
  lemma SumOfMultiples(a: nat, b: nat, c: nat)
    requires c > 0 && a % c == 0 && b % c == 0
    ensures (a + b) % c == 0
  {
    assert a == (a / c) * c && b == (b / c) * c;
    assert a + b == (a / c + b / c) * c;
    DivModUnique(a + b, c, a / c + b / c, 0);
  }

  /** Multiples of multiples are multiples. */
  lemma MultipleOfMultiple(k: nat, b: nat, c: nat)
    requires c > 0 && b % c == 0
    ensures (k * b) % c == 0
  {
    var q := b / c;
    assert b == q * c;
    assert k * (q * c) == (k * q) * c;
    MulMod(k * q, c);
  }

  lemma ModPeriod(n: nat, c: nat)
    requires c > 0
    ensures (n + c) % c == n % c
  {
    var q, r := n / c, n % c;
    assert n == q * c + r;
    assert (q + 1) * c == q * c + c;
    DivModUnique(n + c, c, q + 1, r);
  }

  /** One full lap later the slot is the same. */
  lemma SlotPeriod(n: nat, cap: nat)
    requires IsPow2(cap)
    ensures SlotOf(n + cap, cap) == SlotOf(n, cap)
  {
    AndMask(n, cap);
    AndMask(n + cap, cap);
    ModPeriod(n, cap);
  }

  /** Incrementing a 64-bit counter follows the unbounded one. */
  lemma NextWord(n: nat)
    ensures (n % WORD + 1) % WORD == (n + 1) % WORD
  {
    var q, r := n / WORD, n % WORD;
    assert n + 1 == q * WORD + (r + 1);
    DivModUnique(n + 1, WORD, q + (r + 1) / WORD, (r + 1) % WORD);
  }

  /** Every slot of the ring is named by some counter in any window of one lap. */
  lemma SlotCovered(base: nat, i: nat, cap: nat) returns (n: nat)
    requires IsPow2(cap) && i < cap
    ensures base <= n < base + cap && SlotOf(n, cap) == i
  {
    var q, r := base / cap, base % cap;
    assert base == q * cap + r;
    assert (q + 1) * cap == q * cap + cap;
    if r <= i {
      n := q * cap + i;
      DivModUnique(n, cap, q, i);
    } else {
      n := (q + 1) * cap + i;
      DivModUnique(n, cap, q + 1, i);
    }
    AndMask(n, cap);
  }

  /** A counter kept modulo 2^64 still selects the slot of the unbounded counter. */
  lemma SlotOfWrapped(n: nat, cap: nat)
    requires IsPow2(cap) && cap <= WORD
    ensures SlotOf(n % WORD, cap) == SlotOf(n, cap)
  {
    WordIsPow2();
    Pow2Divides(cap, WORD);
    ModMod(n, cap, WORD);
    AndMask(n, cap);
    AndMask(n % WORD, cap);
  }
}
