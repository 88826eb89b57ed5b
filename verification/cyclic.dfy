/**
 Facts about walking a cyclic index `(n + i) % L`, the position the round-robin
 cursor selects `i` steps after it stood at `n` over a list of length `L`.
 */
module Cyclic {

  /** `x` wrapped into `[0, L)` by subtracting whole laps; equal to `x % L`
      (WrapIsMod), but unfolded only on demand by the verifier. */
  function Wrap(x: nat, L: nat): (w: nat)
    requires 0 < L
    ensures w < L
    decreases x
  {
    if x < L then x else Wrap(x - L, L)
  }

  /** Wrapping is the remainder of division. */
  lemma {:induction false} WrapIsMod(x: nat, L: nat)
    requires 0 < L
    ensures Wrap(x, L) == x % L
    decreases x
  {
    if x < L {
      ModUnique(x, L, 0, x);
    } else {
      WrapIsMod(x - L, L);
      ModPeriod(x - L, L);
    }
  }

  /** A cursor that wraps at `L` lands at `Wrap(n, L) + i`, wrapped at most once. */
  lemma WrapShift(n: nat, i: nat, L: nat)
    requires 0 < L && i < L
    ensures Wrap(n + i, L) == if Wrap(n, L) + i < L then Wrap(n, L) + i else Wrap(n, L) + i - L
  {
    WrapIsMod(n, L);
    WrapIsMod(n + i, L);
    ModShift(n, i, L);
  }

  /** Advancing the cursor by a whole lap does not change its position. */
  lemma WrapPeriod(n: nat, L: nat)
    requires 0 < L
    ensures Wrap(n + L, L) == Wrap(n, L)
  {
  }

  /** Fewer than `L` steps never revisit a position. */
  lemma WrapDistinct(n: nat, j: nat, k: nat, L: nat)
    requires j < k < L
    ensures Wrap(n + j, L) != Wrap(n + k, L)
  {
    WrapShift(n, j, L);
    WrapShift(n, k, L);
  }

  /** A cursor that wraps at `L` lands at `n % L + i`, wrapped at most once. */
  lemma ModShift(n: nat, i: nat, L: nat)
    requires 0 < L && i < L
    ensures (n + i) % L == if n % L + i < L then n % L + i else n % L + i - L
  {
    var q, s := n / L, n % L;
    assert n == q * L + s;
    if s + i < L {
      ModUnique(n + i, L, q, s + i);
    } else {
      assert n + i == (q + 1) * L + (s + i - L);
      ModUnique(n + i, L, q + 1, s + i - L);
    }
  }

  /** The remainder is the unique `s` in `[0, L)` with `a == q * L + s`. */
  lemma ModUnique(a: nat, L: nat, q: int, s: int)
    requires 0 < L && 0 <= s < L && a == q * L + s
    ensures a % L == s
  {
    var q', s' := a / L, a % L;
    var d := q - q';
    assert d * L == s' - s by {
      assert a == q' * L + s';
      assert q * L - q' * L == (q - q') * L;
    }
    MultipleBounds(d, L);
  }

  /** A non-zero multiple of `L` is at least `L` away from zero. */
  lemma MultipleBounds(d: int, L: nat)
    requires 0 < L
    ensures d >= 1 ==> d * L >= L
    ensures d <= -1 ==> d * L <= 0 - L
  {
    if d >= 1 {
      NonNegProduct(d - 1, L);
      assert d * L == (d - 1) * L + L;
    } else if d <= -1 {
      NonNegProduct(-d - 1, L);
      assert -d * L == (-d - 1) * L + L;
    }
  }

  lemma NonNegProduct(x: nat, y: nat)
    ensures x * y >= 0
  {
  }

  /** Advancing the cursor by a whole lap does not change its position. */
  lemma ModPeriod(n: nat, L: nat)
    requires 0 < L
    ensures (n + L) % L == n % L
  {
    assert n + L == (n / L + 1) * L + n % L;
    ModUnique(n + L, L, n / L + 1, n % L);
  }

}
