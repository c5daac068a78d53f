/** The optional value used wherever the allocator may hand back NULL. */
module Wrappers {
  datatype Option<+T> = None | Some(value: T)
}

/**
 * The compile-time constants the allocator is built with, and the alignment
 * arithmetic on them.  The header that defines them is not part of this
 * model, so the constants are a parameter and `Valid` lists what the
 * allocator silently relies on.
 */
module Arena {

  /** `alignment` is the ALIGN boundary, `header` is METADATA_T_ALIGNED and
      `maxHeapSize` is MAX_HEAP_SIZE. */
  datatype Config = Config(alignment: nat, header: nat, maxHeapSize: nat)

  /** True if `x` lies on the alignment boundary: a whole number of
      alignment units.  Stated by repeated subtraction so that it stays linear;
      `AlignedIsMultiple` shows it is the remainder test. */
  predicate IsAligned(c: Config, x: nat)
    requires c.alignment > 0
    decreases x
  {
    x == 0 || (x >= c.alignment && IsAligned(c, x - c.alignment))
  }

  /** ALIGN(n): rounds a byte count up to the next alignment boundary.  The
      result is the least aligned value that is at least `n`; `AlignRoundsUp`
      shows it is the usual `((n + A - 1) / A) * A`. */
  function Align(c: Config, n: nat): (r: nat)
    requires c.alignment > 0
    ensures n <= r < n + c.alignment
    ensures IsAligned(c, r)
    decreases n
  {
    if n == 0 then 0
    else if n <= c.alignment then (assert IsAligned(c, c.alignment - c.alignment); c.alignment)
    else c.alignment + Align(c, n - c.alignment)
  }

  /** The size of the one region requested from the environment. */
  function MaxBytes(c: Config): nat
    requires c.alignment > 0
  {
    Align(c, c.maxHeapSize)
  }

  /** What the allocator assumes of its constants: a positive alignment, a
      positive header size that is itself aligned, and a region that has room
      for the two sentinels and one block header. */
  predicate Valid(c: Config) {
    && c.alignment > 0
    && c.header > 0
    && IsAligned(c, c.header)
    && MaxBytes(c) >= 3 * c.header
  }

  /** The alignment test is the remainder test of the C code. */
  lemma {:induction false} AlignedIsMultiple(c: Config, x: nat)
    requires c.alignment > 0
    ensures IsAligned(c, x) <==> x % c.alignment == 0
    decreases x
  {
    var m := c.alignment;
    if x >= m {
      AlignedIsMultiple(c, x - m);
      ModShift(x - m, m);
    }
  }

  /** Adding one modulus leaves the remainder and raises the quotient by one. */
  lemma {:induction false} ModShift(y: nat, m: nat)
    requires m > 0
    ensures (y + m) % m == y % m && (y + m) / m == y / m + 1
  {
    var q, r := y / m, y % m;
    assert y == q * m + r;
    assert y + m == (q + 1) * m + r;
    DivModUnique(y + m, m, q + 1, r);
  }

  /** Quotient and remainder are determined by any decomposition with the
      remainder in range. */
  lemma {:induction false} DivModUnique(x: nat, m: nat, q: nat, r: nat)
    requires m > 0 && x == q * m + r && r < m
    ensures x / m == q && x % m == r
  {
    var d, e := x / m, x % m;
    assert x == d * m + e && 0 <= e < m;
    assert (q - d) * m == e - r;
    if q - d >= 1 {
      assert false;
    } else if q - d <= -1 {
      assert false;
    }
  }

  /** `Align` computes the rounding formula of the C code. */
  lemma {:induction false} AlignRoundsUp(c: Config, n: nat)
    requires c.alignment > 0
    ensures Align(c, n) == ((n + c.alignment - 1) / c.alignment) * c.alignment
    decreases n
  {
    var m := c.alignment;
    if n == 0 {
      DivModUnique(m - 1, m, 0, m - 1);
    } else if n <= m {
      DivModUnique(n + m - 1, m, 1, n - 1);
    } else {
      AlignRoundsUp(c, n - m);
      ModShift(n - m + m - 1, m);
      assert n + m - 1 == (n - m + m - 1) + m;
    }
  }

  /** Sums of aligned quantities are aligned. */
  lemma {:induction false} AlignedSum(c: Config, x: nat, y: nat)
    requires c.alignment > 0 && IsAligned(c, x) && IsAligned(c, y)
    ensures IsAligned(c, x + y)
    decreases x
  {
    if x != 0 {
      AlignedSum(c, x - c.alignment, y);
      assert x + y - c.alignment == (x - c.alignment) + y;
    }
  }

  /** Differences of aligned quantities are aligned. */
  lemma {:induction false} AlignedDiff(c: Config, x: nat, y: nat)
    requires c.alignment > 0 && IsAligned(c, x) && IsAligned(c, y) && y <= x
    ensures IsAligned(c, x - y)
    decreases y
  {
    if y != 0 {
      AlignedDiff(c, x - c.alignment, y - c.alignment);
      assert x - y == (x - c.alignment) - (y - c.alignment);
    }
  }
}
