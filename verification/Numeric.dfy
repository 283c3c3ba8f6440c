/**
 The number ranges an exact aggregate works in, checked arithmetic on them, and the few
 nonlinear facts the arithmetic proofs share.

 A machine integer is an `int` together with the predicate saying it is in range; a checked
 operation is the mathematical one followed by `CheckedI256`.
 */
module Numeric {

  /** The source's `Option`, usable with `:-` like its `?` operator. */
  datatype Option<+T> = None | Some(value: T) {
    predicate IsFailure() {
      None?
    }

    function PropagateFailure<U>(): Option<U>
      requires None?
    {
      None
    }

    function Extract(): T
      requires Some?
    {
      value
    }
  }

  const I256_MAX: int := 0x7FFF_FFFF_FFFF_FFFF_FFFF_FFFF_FFFF_FFFF_FFFF_FFFF_FFFF_FFFF_FFFF_FFFF_FFFF_FFFF
  const I128_MAX: int := 0x7FFF_FFFF_FFFF_FFFF_FFFF_FFFF_FFFF_FFFF
  const U128_MAX: int := 0xFFFF_FFFF_FFFF_FFFF_FFFF_FFFF_FFFF_FFFF
  const I64_MAX: int := 0x7FFF_FFFF_FFFF_FFFF
  const I32_MAX: int := 0x7FFF_FFFF
  const U64_MAX: int := 0xFFFF_FFFF_FFFF_FFFF

  /** `10^38`, one past the widest magnitude of a 38-digit decimal. */
  const DECIMAL128_CEILING: int := 100_000_000_000_000_000_000_000_000_000_000_000_000

  /** The decimal places of every exact answer. */
  const RESULT_SCALE: nat := 16

  /** `10^16`. */
  const RESULT_MULTIPLIER: int := 10_000_000_000_000_000

  predicate IsI256(x: int) {
    -I256_MAX - 1 <= x <= I256_MAX
  }

  predicate IsI128(x: int) {
    -I128_MAX - 1 <= x <= I128_MAX
  }

  predicate IsU128(x: int) {
    0 <= x <= U128_MAX
  }

  predicate IsI64(x: int) {
    -I64_MAX - 1 <= x <= I64_MAX
  }

  predicate IsI32(x: int) {
    -I32_MAX - 1 <= x <= I32_MAX
  }

  predicate IsU64(x: int) {
    0 <= x <= U64_MAX
  }

  function CheckedI256(x: int): Option<int> {
    if IsI256(x) then Some(x) else None
  }

  function CheckedI128(x: int): Option<int> {
    if IsI128(x) then Some(x) else None
  }

  function CheckedU128(x: int): Option<int> {
    if IsU128(x) then Some(x) else None
  }

  function CheckedU64(x: int): Option<int> {
    if IsU64(x) then Some(x) else None
  }

  function Abs(x: int): int {
    if x < 0 then -x else x
  }

  function Max(x: int, y: int): int {
    if x < y then y else x
  }

  function Pow10(k: nat): (p: int)
    ensures p >= 1
  {
    if k == 0 then 1 else 10 * Pow10(k - 1)
  }

  function Pow2(k: nat): (p: int)
    ensures p >= 1
  {
    if k == 0 then 1 else 2 * Pow2(k - 1)
  }

  lemma {:induction false} Pow10Adds(a: nat, b: nat)
    ensures Pow10(a + b) == Pow10(a) * Pow10(b)
  {
    if a == 0 {
    } else {
      Pow10Adds(a - 1, b);
      MulAssociates(10, Pow10(a - 1), Pow10(b));
    }
  }

  lemma {:induction false} Pow2Adds(a: nat, b: nat)
    ensures Pow2(a + b) == Pow2(a) * Pow2(b)
  {
    if a == 0 {
    } else {
      Pow2Adds(a - 1, b);
      MulAssociates(2, Pow2(a - 1), Pow2(b));
    }
  }

  lemma {:induction false} Pow2Increases(a: nat, b: nat)
    requires a <= b
    ensures Pow2(a) <= Pow2(b)
  {
    if a < b {
      Pow2Increases(a, b - 1);
    }
  }

  lemma {:induction false} Pow10Increases(a: nat, b: nat)
    requires a <= b
    ensures Pow10(a) <= Pow10(b)
  {
    if a < b {
      Pow10Increases(a, b - 1);
    }
  }

  lemma Pow2Doubles(a: nat, p: int)
    requires Pow2(a) == p
    ensures Pow2(a + a) == p * p
  {
    Pow2Adds(a, a);
  }

  /** Powers of the machine widths, for widths the caller names. */
  lemma Pow2Of32(width: nat)
    requires width == 32
    ensures Pow2(width) == 0x1_0000_0000
  {
    assert Pow2(4) == 16;
    Pow2Doubles(4, 16);
    Pow2Doubles(8, 0x100);
    Pow2Doubles(width / 2, 0x1_0000);
  }

  lemma Pow2Of64(width: nat)
    requires width == 64
    ensures Pow2(width) == U64_MAX + 1
  {
    Pow2Of32(width / 2);
    Pow2Doubles(width / 2, 0x1_0000_0000);
  }

  lemma Pow2Of128(width: nat)
    requires width == 128
    ensures Pow2(width) == U128_MAX + 1
  {
    Pow2Of64(width / 2);
    Pow2Doubles(width / 2, U64_MAX + 1);
  }

  lemma SignedRange(width: nat, p: int, max: int)
    requires width > 0 && Pow2(width) == p && p == 2 * (max + 1)
    ensures Pow2(width - 1) == max + 1
  {
  }

  /** The 32- and 64-bit ranges are those of their widths. */
  lemma WordRanges(w32: nat, w64: nat, x: int)
    requires w32 == 32 && w64 == 64
    ensures IsI32(x) <==> -Pow2(w32 - 1) <= x < Pow2(w32 - 1)
    ensures IsI64(x) <==> -Pow2(w64 - 1) <= x < Pow2(w64 - 1)
    ensures IsU64(x) <==> 0 <= x < Pow2(w64)
  {
    Pow2Of32(w32);
    Pow2Of64(w64);
    SignedRange(w32, 0x1_0000_0000, I32_MAX);
    SignedRange(w64, U64_MAX + 1, I64_MAX);
  }

  /** And so are the wide ones. */
  lemma WideRanges(w128: nat, w256: nat, x: int)
    requires w128 == 128 && w256 == w128 + w128
    ensures IsI128(x) <==> -Pow2(w128 - 1) <= x < Pow2(w128 - 1)
    ensures IsU128(x) <==> 0 <= x < Pow2(w128)
    ensures IsI256(x) <==> -Pow2(w256 - 1) <= x < Pow2(w256 - 1)
  {
    Pow2Of128(w128);
    Pow2Doubles(w128, U128_MAX + 1);
    SignedRange(w128, U128_MAX + 1, I128_MAX);
    SignedRange(w256, (U128_MAX + 1) * (U128_MAX + 1), I256_MAX);
  }

  // ----- nonlinear facts, each small enough for the solver on its own

  lemma MulAssociates(x: int, y: int, z: int)
    ensures x * (y * z) == (x * y) * z
  {
  }

  lemma MulMonotonic(x: int, y: int, z: int)
    requires x <= y && 0 <= z
    ensures x * z <= y * z
  {
  }

  lemma MulStrictlyMonotonic(x: int, y: int, z: int)
    requires x < y && 0 < z
    ensures x * z < y * z
  {
  }

  lemma MulBothMonotonic(x: int, y: int, a: int, b: int)
    requires 0 <= x <= a && 0 <= y <= b
    ensures 0 <= x * y <= a * b
  {
    MulMonotonic(x, a, y);
    MulMonotonic(y, b, a);
    MulMonotonic(0, x, y);
  }

  lemma MulCancels(x: int, y: int, z: int)
    requires x * z < y * z && 0 < z
    ensures x < y
  {
    if y <= x {
      MulMonotonic(y, x, z);
    }
  }

  lemma DivMod(x: int, d: int)
    requires 0 < d
    ensures x == (x / d) * d + x % d
    ensures 0 <= x % d < d
  {
  }

  /** Quotient and remainder are the only pair that divides `x` by `d`. */
  lemma DivModUnique(x: int, d: int, q: int, r: int)
    requires 0 < d && x == q * d + r && 0 <= r < d
    ensures q == x / d && r == x % d
  {
    DivMod(x, d);
    if q < x / d {
      MulMonotonic(q + 1, x / d, d);
    } else if x / d < q {
      MulMonotonic(x / d + 1, q, d);
    }
  }

  /** Counting on by one. */
  lemma NextQuotient(m: int, n: int)
    requires n > 0
    ensures (m + 1) / n == if m % n == n - 1 then m / n + 1 else m / n
    ensures (m + 1) % n == if m % n == n - 1 then 0 else m % n + 1
  {
    var q, r := m / n, m % n;
    DivMod(m, n);
    if r == n - 1 {
      assert m + 1 == (q + 1) * n;
      DivModUnique(m + 1, n, q + 1, 0);
    } else {
      DivModUnique(m + 1, n, q, r + 1);
    }
  }

  lemma DivMonotonic(x: int, y: int, d: int)
    requires x <= y && 0 < d
    ensures x / d <= y / d
  {
    DivMod(x, d);
    DivMod(y, d);
    if y / d < x / d {
      MulMonotonic(y / d + 1, x / d, d);
    }
  }
}
