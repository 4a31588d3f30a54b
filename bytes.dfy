/** Shared vocabulary: Go's `byte`, error-carrying results and a little arithmetic. */
module Bytes {

  /** Go's `byte` (uint8). */
  type byte = x: int | 0 <= x < 256

  /** The value or the error a Go function returns as its `(T, error)` pair. */
  datatype Result<+T, +E> = Ok(value: T) | Err(error: E)

  /** Euclidean division and remainder are determined by any decomposition
      `x == q * d + r` with `0 <= r < d`. */
  lemma DivModUnique(x: int, d: int, q: int, r: int)
    requires d > 0 && 0 <= r < d && x == q * d + r
    ensures x / d == q && x % d == r
  {
    var q', r' := x / d, x % d;
    assert x == q' * d + r';
    assert (q - q') * d == r' - r;
    if q > q' {
      MulAtLeast(q - q', d);
    } else if q' > q {
      MulAtLeast(q' - q, d);
    }
  }

  lemma MulAtLeast(a: int, d: int)
    requires a >= 1 && d > 0
    ensures a * d >= d
  {
  }

  /** Multiplication by a non-negative factor is monotonic. */
  lemma MulMonotonic(a: int, b: int, c: int)
    requires a <= b && c >= 0
    ensures a * c <= b * c
  {
    if a < b && c > 0 {
      MulAtLeast(b - a, c);
    }
  }

  /** Go's `copy(dst[at:], src)` when `src` fits: the bytes of `src` land at
      offset `at`, everything else in `dst` is kept. */
  method CopyAt(dst: array<byte>, at: nat, src: seq<byte>)
    requires at + |src| <= dst.Length
    modifies dst
    ensures dst[..at + |src|] == old(dst[..at]) + src
    ensures dst[at + |src|..] == old(dst[at + |src|..])
  {
    forall j | 0 <= j < |src| {
      dst[at + j] := src[j];
    }
    assert dst[..at + |src|] == dst[..at] + dst[at..at + |src|];
  }
}
