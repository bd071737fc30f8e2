/** Machine words: the byte and free-running index types, powers of two, and the two masking
    idioms of the rings (`index & mask`) and of the frame allocator (`addr & !(frame_size - 1)`). */
module Words {
  type byte = x: int | 0 <= x < 256
  type u16 = x: int | 0 <= x < 0x1_0000
  type u32 = x: int | 0 <= x < 0x1_0000_0000

  const WORD32: nat := 0x1_0000_0000
  const WORD64: nat := 0x1_0000_0000_0000_0000

  function Min(a: nat, b: nat): (r: nat) {
    if a <= b then a else b
  }

  function Pow2(k: nat): (p: nat)
    ensures p > 0
  {
    if k == 0 then 1 else 2 * Pow2(k - 1)
  }

  /** Bitwise AND of two unsigned values of any width. */
  function And(x: nat, y: nat): nat {
    if x == 0 || y == 0 then 0 else (if x % 2 == 1 && y % 2 == 1 then 1 else 0) + 2 * And(x / 2, y / 2)
  }

  ghost predicate IsPow2(n: nat) {
    exists k: nat :: n == Pow2(k)
  }

  /** What a ring size can be: the kernel accepts powers of two, and indices are 32 bits wide. */
  ghost predicate RingSize(n: nat) {
    IsPow2(n) && n <= 0x8000_0000
  }

  lemma {:induction false} Pow2Add(a: nat, b: nat)
    ensures Pow2(a + b) == Pow2(a) * Pow2(b)
  {
    if a == 0 {
    } else {
      Pow2Add(a - 1, b);
    }
  }

  lemma {:induction false} Pow2Mono(a: nat, b: nat)
    requires a <= b
    ensures Pow2(a) <= Pow2(b)
    decreases b
  {
    if a < b {
      Pow2Mono(a, b - 1);
    }
  }

  /** Masking with `2^k - 1` keeps the remainder modulo `2^k`. */
  lemma {:induction false} AndLowMask(x: nat, k: nat)
    ensures And(x, Pow2(k) - 1) == x % Pow2(k)
  {
    if k == 0 {
    } else {
      AndLowMask(x / 2, k - 1);
      var h := Pow2(k - 1);
      assert (Pow2(k) - 1) / 2 == h - 1 && (Pow2(k) - 1) % 2 == 1;
      HalveMod(x, h);
    }
  }

  lemma HalveMod(x: nat, h: nat)
    requires h > 0
    ensures x % (2 * h) == x % 2 + 2 * ((x / 2) % h)
  {
    var q, r := (x / 2) / h, (x / 2) % h;
    assert x == x % 2 + 2 * (q * h + r);
    assert x == q * (2 * h) + (x % 2 + 2 * r) by {
      assert 2 * (q * h) == q * (2 * h);
    }
    ModUnique(x, 2 * h, q, x % 2 + 2 * r);
  }

  /** A quotient and remainder that fit are the quotient and remainder. */
  lemma ModUnique(x: nat, n: nat, q: int, r: nat)
    requires n > 0 && x == q * n + r && r < n
    ensures x / n == q && x % n == r
  {
    var q', r' := x / n, x % n;
    assert x == q' * n + r';
    assert (q - q') * n == r' - r;
    StepsApart(q - q', n);
  }

  lemma MulBound(a: nat, b: nat, c: nat)
    requires a <= c
    ensures a * b <= c * b
  {
    assert (c - a) * b >= 0;
  }

  lemma StepsApart(d: int, n: int)
    requires n > 0
    ensures d >= 1 ==> d * n >= n
    ensures d <= -1 ==> d * n <= -n
  {
    if d >= 1 {
      assert (d - 1) * n >= 0;
    } else if d <= -1 {
      assert (-d - 1) * n >= 0;
    }
  }

  lemma AndEven(x: nat, y: nat)
    ensures And(x, 2 * y) == 2 * And(x / 2, y)
  {
    assert (2 * y) % 2 == 0 && (2 * y) / 2 == y;
  }

  /** Masking an n-bit value with the complement of `2^k - 1` rounds it down to a multiple of `2^k`. */
  lemma {:induction false} AndHighMask(x: nat, n: nat, k: nat)
    requires x < Pow2(n) && k <= n
    ensures Pow2(k) <= Pow2(n)
    ensures And(x, Pow2(n) - Pow2(k)) == x - x % Pow2(k)
  {
    Pow2Mono(k, n);
    if k == 0 {
      AndLowMask(x, n);
      ModUnique(x, Pow2(n), 0, x);
    } else {
      AndHighMask(x / 2, n - 1, k - 1);
      HalveMod(x, Pow2(k - 1));
      RoundDownStep(x, Pow2(n - 1) - Pow2(k - 1), (x / 2) % Pow2(k - 1));
    }
  }

  lemma RoundDownStep(x: nat, y: nat, r: nat)
    requires And(x / 2, y) == x / 2 - r
    ensures And(x, 2 * y) == x - (x % 2 + 2 * r)
  {
    AndEven(x, y);
  }

  lemma Word32IsPow2()
    ensures Pow2(32) == WORD32
  {
    assert Pow2(8) == 256;
    Pow2Add(8, 8);
    Pow2Add(16, 16);
  }

  lemma Word64IsPow2()
    ensures Pow2(64) == WORD64
  {
    Word32IsPow2();
    Pow2Add(32, 32);
  }

  /** A power of two up to 2^32 divides the index space, so a wrapped index selects the slot its
      unbounded position would. */
  lemma WrappedSlot(i: nat, size: nat)
    requires IsPow2(size) && size <= WORD32
    ensures And(Wrap(i), size - 1) == i % size
  {
    var k: nat :| size == Pow2(k);
    Word32IsPow2();
    if k > 32 {
      Pow2Mono(33, k);
      assert false;
    }
    AndLowMask(Wrap(i), k);
    Pow2Add(k, 32 - k);
    ModMod(i, size, Pow2(32 - k));
  }

  lemma ModMod(i: nat, m: nat, c: nat)
    requires m > 0 && c > 0
    ensures m * c > 0 && (i % (m * c)) % m == i % m
  {
    var q, r := i / (m * c), i % (m * c);
    assert i == q * (m * c) + r;
    var q', r' := r / m, r % m;
    assert r == q' * m + r';
    assert i == (q * c + q') * m + r' by {
      assert q * (m * c) == (q * c) * m;
    }
    ModUnique(i, m, q * c + q', r');
  }

  /** The free-running 32-bit index of an unbounded position. */
  function Wrap(n: nat): u32 {
    n % WORD32
  }

  /** `c.wrapping_add(1)`. */
  function Next(c: u32): u32 {
    (c + 1) % WORD32
  }

  /** `p.wrapping_sub(c)`. */
  function Distance(p: u32, c: u32): u32 {
    (p - c) % WORD32
  }

  lemma WrapSmall(n: nat)
    requires n < WORD32
    ensures Wrap(n) == n
  {
  }

  lemma NextWraps(n: nat)
    ensures Next(Wrap(n)) == Wrap(n + 1)
  {
  }

  /** Wrapped indices at most half the index space apart are equal only if the positions are, and
      their wrapped distance is the distance of the positions. */
  lemma WrapFaithful(p: nat, c: nat)
    requires c <= p <= c + 0x8000_0000
    ensures Wrap(p) == Wrap(c) <==> p == c
    ensures Distance(Wrap(p), Wrap(c)) == p - c
  {
  }

  /** Two positions less than a ring apart share a slot only if they are equal. */
  lemma SlotInjective(i: nat, j: nat, size: nat)
    requires size > 0 && i <= j < i + size && i % size == j % size
    ensures i == j
  {
    var qi, qj := i / size, j / size;
    assert j - i == (qj - qi) * size;
    StepsApart(qj - qi, size);
  }
}
