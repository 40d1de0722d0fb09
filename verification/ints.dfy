/** Fixed-width integers of the Rust source, written over Dafny's unbounded `int`,
    and Rust's signed division, which truncates toward zero. */
module Ints {

  type u8 = x: int | 0 <= x < 0x100
  type u16 = x: int | 0 <= x < 0x1_0000
  type u32 = x: int | 0 <= x < 0x1_0000_0000
  type i8 = x: int | -0x80 <= x < 0x80
  type i16 = x: int | -0x8000 <= x < 0x8000
  type i32 = x: int | -0x8000_0000 <= x < 0x8000_0000
  type i64 = x: int | -0x8000_0000_0000_0000 <= x < 0x8000_0000_0000_0000

  const I32_MIN: int := -0x8000_0000
  const I32_MAX: int := 0x7FFF_FFFF
  const I64_MIN: int := -0x8000_0000_0000_0000
  const I64_MAX: int := 0x7FFF_FFFF_FFFF_FFFF

  predicate IsI32(x: int) { I32_MIN <= x <= I32_MAX }
  predicate IsI64(x: int) { I64_MIN <= x <= I64_MAX }

  function Abs(x: int): nat { if x < 0 then -x else x }

  /** Rust's `a / b` on signed integers: the exact quotient rounded toward zero. */
  function TruncDiv(a: int, b: int): (q: int)
    requires b != 0
    ensures Abs(q) * Abs(b) <= Abs(a) < (Abs(q) + 1) * Abs(b)
    ensures q == 0 || ((q > 0) <==> ((a > 0) == (b > 0)))
  {
    NatDivBounds(Abs(a), Abs(b));
    var m: int := Abs(a) / Abs(b);
    var q: int := if (a < 0) == (b < 0) then m else -m;
    assert Abs(q) == m;
    assert Abs(q) * Abs(b) <= Abs(a) < (Abs(q) + 1) * Abs(b);
    assert m != 0 ==> a != 0;
    q
  }

  lemma NatDivBounds(x: nat, y: nat)
    requires y > 0
    ensures 0 <= x / y
    ensures (x / y) * y <= x < (x / y + 1) * y
  {
    var m := x / y;
    var rest := x % y;
    assert x == m * y + rest;
    assert (m + 1) * y == m * y + y;
  }

  /** Rust's `a % b` on signed integers: what remains after the truncated quotient,
      carrying the sign of the dividend. */
  function TruncRem(a: int, b: int): (r: int)
    requires b != 0
    ensures a == TruncDiv(a, b) * b + r
    ensures Abs(r) < Abs(b)
    ensures r == 0 || ((r > 0) <==> (a > 0))
  {
    TruncRemBounds(a, b);
    a - TruncDiv(a, b) * b
  }

  lemma TruncRemBounds(a: int, b: int)
    requires b != 0
    ensures Abs(a - TruncDiv(a, b) * b) < Abs(b)
    ensures a - TruncDiv(a, b) * b == 0 || ((a - TruncDiv(a, b) * b > 0) <==> (a > 0))
  {
    var q := TruncDiv(a, b);
    NatDivBounds(Abs(a), Abs(b));
    var m: int := Abs(a) / Abs(b);
    var product := m * Abs(b);
    var rest := Abs(a) - product;
    assert 0 <= rest < Abs(b);
    if (a < 0) == (b < 0) {
      assert q == m;
      if b < 0 {
        MulNegNeg(m, Abs(b));
      }
    } else {
      assert q == -m;
      MulNeg(m, Abs(b));
    }
  }

  lemma MulNeg(x: int, y: int)
    ensures x * -y == -(x * y) && -x * y == -(x * y)
  {
  }

  lemma MulNegNeg(x: int, y: int)
    ensures -x * -y == x * y
  {
  }

  /** The quotient and remainder Rust computes are the only pair that rebuilds the
      dividend with a remainder smaller than the divisor and of the dividend's sign. */
  lemma {:induction false} TruncDivUnique(a: int, b: int, q: int, r: int)
    requires b != 0
    requires a == q * b + r
    requires Abs(r) < Abs(b)
    requires r == 0 || ((r > 0) <==> (a > 0))
    ensures q == TruncDiv(a, b)
    ensures r == TruncRem(a, b)
  {
    var q0 := TruncDiv(a, b);
    var r0 := TruncRem(a, b);
    SameSideRemainders(a, r, r0);
    QuotientUnique(b, q, r, q0, r0);
  }

  lemma SameSideRemainders(a: int, r: int, r0: int)
    requires r == 0 || ((r > 0) <==> (a > 0))
    requires r0 == 0 || ((r0 > 0) <==> (a > 0))
    ensures (r >= 0 && r0 >= 0) || (r <= 0 && r0 <= 0)
  {
  }

  /** Two divisions of one dividend whose remainders lie on the same side of zero
      and are smaller than the divisor have the same quotient. */
  lemma QuotientUnique(b: int, q: int, r: int, q0: int, r0: int)
    requires b != 0
    requires q * b + r == q0 * b + r0
    requires Abs(r) < Abs(b) && Abs(r0) < Abs(b)
    requires (r >= 0 && r0 >= 0) || (r <= 0 && r0 <= 0)
    ensures q == q0 && r == r0
  {
    if q != q0 {
      var d := q - q0;
      assert d * b == q * b - q0 * b by {
        MulSubDistrib(q, q0, b);
      }
      AbsMul(d, b);
      assert false;
    }
  }

  lemma MulSubDistrib(x: int, y: int, z: int)
    ensures (x - y) * z == x * z - y * z
  {
  }

  lemma AbsMul(x: int, y: int)
    requires Abs(x) >= 1
    ensures Abs(x * y) >= Abs(y)
  {
    if x > 0 && y >= 0 {
      assert x * y >= 1 * y;
    } else if x > 0 {
      assert x * y <= 1 * y;
    } else if y >= 0 {
      assert (-x) * y >= 1 * y;
    } else {
      assert (-x) * (-y) >= 1 * (-y);
    }
  }

  /** Dividing an exact multiple by its factor recovers the other factor. */
  lemma TruncDivOfMultiple(a: int, k: int)
    requires k != 0
    ensures TruncDiv(a * k, k) == a
    ensures TruncRem(a * k, k) == 0
  {
    TruncDivUnique(a * k, k, a, 0);
  }
}
