/**
 * Two's-complement machine integers as Go has them: signed arithmetic on
 * int32 and int64 wraps around silently. A value of width w is an `int`
 * in [-2^(w-1), 2^(w-1)), and every arithmetic result is reduced with Wrap.
 */
module Machine {

  const TWO_POW_32: int := 0x1_0000_0000
  const TWO_POW_64: int := 0x1_0000_0000_0000_0000

  predicate InRange(x: int, m: int)
    requires m > 0
  {
    -(m / 2) <= x < m - m / 2
  }

  /** The representative of x modulo m in [-m/2, m - m/2). */
  function Wrap(x: int, m: int): (r: int)
    requires m > 0
    ensures InRange(r, m)
  {
    (x + m / 2) % m - m / 2
  }

  predicate IsInt32(x: int) { InRange(x, TWO_POW_32) }
  predicate IsInt64(x: int) { InRange(x, TWO_POW_64) }

  /** Go's int32 and int64. */
  type int32 = x: int | -0x8000_0000 <= x < 0x8000_0000
  type int64 = x: int | -0x8000_0000_0000_0000 <= x < 0x8000_0000_0000_0000

  /** The int32 result of an int32 operation whose exact result is x. */
  function Wrap32(x: int): (r: int32)
    ensures IsInt32(r)
  {
    Wrap(x, TWO_POW_32)
  }

  /** The int64 result of an int64 operation whose exact result is x. */
  function Wrap64(x: int): (r: int64)
    ensures IsInt64(r)
  {
    Wrap(x, TWO_POW_64)
  }

  /** Euclidean division is unique: a quotient/remainder pair pins down x / m and x % m. */
  lemma DivModUnique(x: int, m: int, q: int, r: int)
    requires m > 0 && 0 <= r < m && x == q * m + r
    ensures x / m == q && x % m == r
  {
    var q', r' := x / m, x % m;
    assert x == q' * m + r';
    if q' < q {
      assert (q - q') * m >= m by { MulAtLeast(q - q', m); }
      assert false;
    } else if q' > q {
      assert (q' - q) * m >= m by { MulAtLeast(q' - q, m); }
      assert false;
    }
  }

  lemma MulAtLeast(k: int, m: int)
    requires k >= 1 && m > 0
    ensures k * m >= m
  {
  }

  /** Adding a multiple of m does not change the remainder. */
  lemma ModShift(x: int, k: int, m: int)
    requires m > 0
    ensures (x + k * m) % m == x % m
  {
    DivModUnique(x + k * m, m, x / m + k, x % m);
  }

  /** The wrapped value differs from x by a multiple of m. */
  lemma WrapOffset(x: int, m: int) returns (k: int)
    requires m > 0
    ensures Wrap(x, m) == x + k * m
  {
    k := -((x + m / 2) / m);
  }

  /** Wrapping an operand early gives the same result as wrapping once at the end. */
  lemma WrapAddLeft(a: int, b: int, m: int)
    requires m > 0
    ensures Wrap(Wrap(a, m) + b, m) == Wrap(a + b, m)
  {
    var k := WrapOffset(a, m);
    ModShift(a + b + m / 2, k, m);
  }

  lemma WrapMulLeft(a: int, c: int, m: int)
    requires m > 0
    ensures Wrap(Wrap(a, m) * c, m) == Wrap(a * c, m)
  {
    var k := WrapOffset(a, m);
    assert Wrap(a, m) * c == a * c + (k * c) * m;
    ModShift(a * c + m / 2, k * c, m);
  }

  lemma WrapIdentity(x: int, m: int)
    requires m > 0 && InRange(x, m)
    ensures Wrap(x, m) == x
  {
    DivModUnique(x + m / 2, m, 0, x + m / 2);
  }

  lemma Wrap32Add(a: int, b: int)
    ensures Wrap32(Wrap32(a) + b) == Wrap32(a + b)
    ensures Wrap32(a + Wrap32(b)) == Wrap32(a + b)
  {
    WrapAddLeft(a, b, TWO_POW_32);
    WrapAddLeft(b, a, TWO_POW_32);
  }

  lemma Wrap64Add(a: int, b: int)
    ensures Wrap64(Wrap64(a) + b) == Wrap64(a + b)
    ensures Wrap64(a + Wrap64(b)) == Wrap64(a + b)
  {
    WrapAddLeft(a, b, TWO_POW_64);
    WrapAddLeft(b, a, TWO_POW_64);
  }

  lemma Wrap32Mul(a: int, c: int)
    ensures Wrap32(Wrap32(a) * c) == Wrap32(a * c)
  {
    WrapMulLeft(a, c, TWO_POW_32);
  }

  lemma Wrap32Shift(x: int, j: int)
    ensures Wrap32(x + j * TWO_POW_32) == Wrap32(x)
  {
    ModShift(x + TWO_POW_32 / 2, j, TWO_POW_32);
  }

  lemma Wrap32Identity(x: int)
    requires IsInt32(x)
    ensures Wrap32(x) == x
  {
    WrapIdentity(x, TWO_POW_32);
  }

  lemma Wrap64Identity(x: int)
    requires IsInt64(x)
    ensures Wrap64(x) == x
  {
    WrapIdentity(x, TWO_POW_64);
  }
}
