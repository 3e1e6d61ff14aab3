/**
 * Counting R-byte blocks.  The sponge splits a byte string into blocks of
 * R bytes, with R a variable; the recursive definitions here let the
 * proofs step one block at a time, and are tied to Euclidean division
 * once, in BlockCountIsDiv.
 */
module Blocks {

  /** n bytes are a whole number of R-byte blocks. */
  predicate IsMultiple(n: nat, R: nat)
    requires 0 < R
    decreases n
  {
    n == 0 || (R <= n && IsMultiple(n - R, R))
  }

  /** The number of whole R-byte blocks in n bytes. */
  function BlockCount(n: nat, R: nat): nat
    requires 0 < R
    decreases n
  {
    if n < R then 0 else 1 + BlockCount(n - R, R)
  }

  /** The bytes left over after the whole R-byte blocks of n bytes. */
  function BlockRem(n: nat, R: nat): nat
    requires 0 < R
    decreases n
  {
    if n < R then n else BlockRem(n - R, R)
  }

  lemma MulAtLeast(a: int, R: int)
    requires a >= 1 && R > 0
    ensures a * R >= R
  {
  }

  /** Euclidean division is unique: n = q*R + r with 0 <= r < R fixes q and r. */
  lemma DivModUnique(n: int, R: int, q: int, r: int)
    requires R > 0 && n == q * R + r && 0 <= r < R
    ensures q == n / R && r == n % R
  {
    var q', r' := n / R, n % R;
    assert n == q' * R + r';
    assert (q - q') * R == q * R - q' * R;
    assert (q' - q) * R == q' * R - q * R;
    if q > q' {
      MulAtLeast(q - q', R);
      assert false;
    } else if q < q' {
      MulAtLeast(q' - q, R);
      assert false;
    }
  }

  /** n is BlockCount(n, R) blocks and BlockRem(n, R) < R bytes more. */
  lemma {:induction false} BlockSplit(n: nat, R: nat)
    requires 0 < R
    ensures n == BlockCount(n, R) * R + BlockRem(n, R) && BlockRem(n, R) < R
    decreases n
  {
    if R <= n {
      BlockSplit(n - R, R);
      assert (1 + BlockCount(n - R, R)) * R == BlockCount(n - R, R) * R + R;
    }
  }

  /** BlockCount and BlockRem are the quotient and remainder of Euclidean division. */
  lemma BlockCountIsDiv(n: nat, R: nat)
    requires 0 < R
    ensures BlockCount(n, R) == n / R && BlockRem(n, R) == n % R
  {
    BlockSplit(n, R);
    DivModUnique(n, R, BlockCount(n, R), BlockRem(n, R));
  }

  /** A whole number of blocks followed by b < R bytes: b is the remainder, and the blocks are the quotient. */
  lemma {:induction false} MultiplePlusRem(m: nat, b: nat, R: nat)
    requires 0 < R && IsMultiple(m, R) && b < R
    ensures BlockCount(m + b, R) == BlockCount(m, R) && BlockRem(m + b, R) == b
    ensures (m + b) / R == BlockCount(m, R) && (m + b) % R == b
    decreases m
  {
    if m > 0 {
      MultiplePlusRem(m - R, b, R);
    }
    BlockCountIsDiv(m + b, R);
  }

  /** q blocks of R bytes are a whole number of blocks. */
  lemma {:induction false} MultipleOf(q: nat, R: nat)
    requires 0 < R
    ensures IsMultiple(q * R, R)
    decreases q
  {
    if q > 0 {
      MultipleOf(q - 1, R);
      assert q * R - R == (q - 1) * R;
    }
  }

  /** One more block after a whole number of blocks: still whole, and one block more. */
  lemma MultipleNext(n: nat, R: nat)
    requires 0 < R && IsMultiple(n, R)
    ensures IsMultiple(n + R, R) && BlockCount(n + R, R) == BlockCount(n, R) + 1
  {
    assert n + R - R == n;
  }
}
