/** Shared vocabulary: bytes, the width of `size_t`, an optional value, and the
    facts about Euclidean `%` that ring-buffer indexing rests on. */
module Basics {

  /** `std::byte` (and the arena's `char`) as an integer in [0, 256). */
  type byte = b: int | 0 <= b < 256

  /** 2^64: one past the largest `size_t` / `uint64_t` value. */
  const WORD: nat := 0x1_0000_0000_0000_0000

  /** `std::optional`: `None` is `std::nullopt`. */
  datatype Option<T> = None | Some(value: T)

  /** A positive multiple of a positive n is at least n. */
  lemma MulAtLeast(k: int, n: int)
    requires 1 <= k && 0 < n
    ensures k * n >= n
  {
    assert k * n == n + (k - 1) * n;
    assert (k - 1) * n >= 0;
  }

  /** Division with remainder has exactly one solution with 0 <= r < n. */
  lemma ModUnique(x: int, n: int, q: int, r: int)
    requires 0 < n && 0 <= r < n && x == q * n + r
    ensures x % n == r && x / n == q
  {
    var q', r' := x / n, x % n;
    assert x == q' * n + r';
    assert (q - q') * n == q * n - q' * n;
    if q' < q {
      MulAtLeast(q - q', n);
    } else if q < q' {
      MulAtLeast(q' - q, n);
    }
  }

  /** Adding a multiple of n does not change the remainder modulo n. */
  lemma ModShift(x: int, k: int, n: int)
    requires 0 < n
    ensures (x + k * n) % n == x % n
  {
    var q := x / n;
    assert x == q * n + x % n;
    assert x + k * n == (q + k) * n + x % n;
    ModUnique(x + k * n, n, q + k, x % n);
  }

  /** Two numbers with the same remainder differ by a multiple of n. */
  lemma SameResidue(x: int, y: int, n: int)
    requires 0 < n && x % n == y % n
    ensures x == y + (x / n - y / n) * n
  {
    assert x == (x / n) * n + x % n;
    assert y == (y / n) * n + y % n;
  }

  /** Remainders of numbers in [-n, n). */
  lemma ModSmall(x: int, n: int)
    requires 0 < n && -n <= x < n
    ensures x % n == if x < 0 then x + n else x
  {
    if x < 0 {
      ModUnique(x, n, -1, x + n);
    } else {
      ModUnique(x, n, 0, x);
    }
  }

  /** Reducing the minuend modulo n first does not change the remainder. */
  lemma ModSubReduce(x: int, y: int, n: int)
    requires 0 < n
    ensures (x % n - y) % n == (x - y) % n
  {
    var q := x / n;
    assert x % n - y == (x - y) + (-q) * n;
    ModShift(x - y, -q, n);
  }

  /** Reducing an addend modulo n first does not change the remainder. */
  lemma ModAddReduce(x: int, y: int, n: int)
    requires 0 < n
    ensures (x + y % n) % n == (x + y) % n
  {
    var q := y / n;
    assert x + y % n == (x + y) + (-q) * n;
    ModShift(x + y, -q, n);
  }
}
