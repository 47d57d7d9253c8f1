/** Machine integers: the widths, the truncating division and the clamps that the
    Rust code relies on, stated over Dafny's unbounded integers. */
module Arith {
  const U32: int := 0x1_0000_0000
  const U64: int := 0x1_0000_0000_0000_0000
  const I64_MAX: int := 0x7FFF_FFFF_FFFF_FFFF
  const I64_MIN: int := -0x8000_0000_0000_0000

  /** One whole price or size unit: one hundred million. */
  const E8: int := 100_000_000

  type pos = n: nat | n > 0 witness 1

  predicate IsI64(x: int) {
    I64_MIN <= x <= I64_MAX
  }

  function Min(a: int, b: int): int {
    if a <= b then a else b
  }

  function Max(a: int, b: int): int {
    if a <= b then b else a
  }

  function Abs(x: int): nat {
    if x < 0 then -x else x
  }

  /** Division that rounds towards zero, as every signed `/` in the source does. */
  function Trunc(a: int, b: int): int
    requires b != 0
  {
    if (a < 0) == (b < 0) then Abs(a) / Abs(b) else -(Abs(a) / Abs(b))
  }

  /** Saturate a wide value into a signed 64-bit one. */
  function Clamp(x: int): (r: int)
    ensures IsI64(r)
    ensures IsI64(x) <==> r == x
  {
    if x > I64_MAX then I64_MAX else if x < I64_MIN then I64_MIN else x
  }

  lemma MulNonNegative(x: nat, y: nat)
    ensures x * y >= 0
  {
  }

  lemma QuotientBounds(n: nat, d: pos)
    ensures (n / d) * d <= n < (n / d) * d + d
  {
    assert n == d * (n / d) + n % d;
  }

  /** The quotient of two naturals. */
  function Div(n: nat, d: pos): (q: nat)
    ensures q * d <= n < q * d + d
  {
    QuotientBounds(n, d);
    n / d
  }

  /** The remainder of two naturals. */
  function Mod(n: nat, d: pos): (r: nat)
    ensures r < d && n == d * Div(n, d) + r
  {
    n % d
  }

  lemma MulMonotone(a: int, b: int, d: nat)
    requires a >= b
    ensures a * d >= b * d
    ensures a > b ==> a * d >= b * d + d
  {
    MulNonNegative(a - b, d);
    assert (a - b) * d == a * d - b * d;
    if a > b {
      MulNonNegative(a - b - 1, d);
      assert (a - b - 1) * d == a * d - b * d - d;
    }
  }

  lemma CancelFactor(a: int, b: int, d: pos)
    ensures a * d <= b * d <==> a <= b
    ensures a * d < b * d <==> a < b
  {
    if a >= b {
      MulMonotone(a, b, d);
    } else {
      MulMonotone(b, a, d);
    }
  }

  /** No multiple of `n` lies strictly between zero and `n`. */
  lemma NoMultipleBetween(n: nat, k: int)
    ensures !(0 < n * k < n)
  {
    if k <= 0 {
      assert n * k <= 0;
    } else {
      assert n * k == n + n * (k - 1);
      assert n * (k - 1) >= 0;
    }
  }

  /** Positions less than one lap apart never share a slot. */
  lemma SlotsDistinct(p: nat, q: nat, n: nat)
    requires q < p < q + n
    ensures p % n != q % n
  {
    assert p == n * (p / n) + p % n;
    assert q == n * (q / n) + q % n;
    NoMultipleBetween(n, p / n - q / n);
  }

  /** The last number below `count` that shares a slot with `number`. */
  lemma LastLap(number: nat, count: nat, capacity: nat)
    requires number < count && capacity > 0
    ensures var n := number + (count - 1 - number) / capacity * capacity;
            && number <= n < count <= n + capacity && n % capacity == number % capacity
            && (count <= number + capacity <==> n == number)
  {
    var laps := (count - 1 - number) / capacity;
    LapsKeepSlot(number, laps, capacity);
    if laps > 0 {
      assert laps * capacity >= capacity;
    }
  }

  lemma {:induction false} LapsKeepSlot(number: nat, laps: nat, capacity: pos)
    ensures (number + laps * capacity) % capacity == number % capacity
  {
    var n := number + laps * capacity;
    assert n == capacity * (n / capacity) + n % capacity;
    assert number == capacity * (number / capacity) + number % capacity;
    var k := n / capacity - number / capacity - laps;
    assert capacity * k == number % capacity - n % capacity;
    NoMultipleBetween(capacity, k);
    NoMultipleBetween(capacity, -k);
  }
}
