/** The integer side of `Time` in src/system/time.rs: a signed 64-bit count of
    microseconds with Rust's checked (debug-build) arithmetic on it. Overflow, which
    panics there, is excluded by preconditions. */
module Times {
  import opened Ints

  datatype Time = Time(microseconds: i64)

  /** `as_microseconds`, read as the field it converts. */
  function AsMicroseconds(t: Time): i64 {
    t.microseconds
  }

  /** `Default`: the zero duration. */
  function Default(): (t: Time)
    ensures AsMicroseconds(t) == 0
  {
    Time(0)
  }

  /** `Time::new`, which `Time::microseconds` calls unchanged. */
  function New(microseconds: i64): (t: Time)
    ensures AsMicroseconds(t) == microseconds
  {
    Time(microseconds)
  }

  function Microseconds(amount: i64): (t: Time)
    ensures t == New(amount) && AsMicroseconds(t) == amount
  {
    New(amount)
  }

  /** `new` stores its argument, and a time is rebuilt from its microseconds. */
  lemma NewRoundTrip(x: i64, t: Time)
    ensures AsMicroseconds(New(x)) == x
    ensures AsMicroseconds(Microseconds(x)) == x
    ensures New(AsMicroseconds(t)) == t
  {
  }

  /** `Time::milliseconds`: widened to 64 bits before the multiplication, so no 32-bit
      count can overflow it. */
  function Milliseconds(amount: i32): (t: Time)
    ensures AsMicroseconds(t) % 1000 == 0
  {
    New(amount * 1000)
  }

  /** Dividing the microseconds of `milliseconds(n)` by 1000 gives `n` back exactly. */
  lemma MillisecondsExact(n: i32)
    ensures TruncDiv(AsMicroseconds(Milliseconds(n)), 1000) == n
    ensures TruncRem(AsMicroseconds(Milliseconds(n)), 1000) == 0
  {
    TruncDivOfMultiple(n, 1000);
  }

  /** `Add`; the sum must fit in an i64. */
  function Add(a: Time, b: Time): (r: Time)
    requires IsI64(a.microseconds + b.microseconds)
    ensures AsMicroseconds(r) == AsMicroseconds(a) + AsMicroseconds(b)
    ensures AsMicroseconds(b) > 0 ==> Compare(a, r) == Less
    ensures AsMicroseconds(b) < 0 ==> Compare(a, r) == Greater
  {
    New(a.microseconds + b.microseconds)
  }

  lemma AddCommutes(a: Time, b: Time)
    requires IsI64(a.microseconds + b.microseconds)
    ensures Add(a, b) == Add(b, a)
  {
  }

  lemma AddAssociates(a: Time, b: Time, c: Time)
    requires IsI64(a.microseconds + b.microseconds)
    requires IsI64(b.microseconds + c.microseconds)
    requires IsI64(a.microseconds + b.microseconds + c.microseconds)
    ensures Add(Add(a, b), c) == Add(a, Add(b, c))
  {
  }

  lemma AddIdentity(a: Time)
    ensures Add(a, Default()) == a && Add(Default(), a) == a
  {
  }

  /** `Sub` as written: the negation of the right operand, whatever the left one is.
      Negating the least i64 overflows. */
  function SubAsWritten(a: Time, b: Time): (r: Time)
    requires b.microseconds != I64_MIN
    ensures AsMicroseconds(r) == -AsMicroseconds(b)
    ensures Add(r, b) == Default()
  {
    New(-b.microseconds)
  }

  /** The left operand has no effect on the written `Sub`. */
  lemma SubAsWrittenIgnoresLeft(a: Time, a': Time, b: Time)
    requires b.microseconds != I64_MIN
    ensures SubAsWritten(a, b) == SubAsWritten(a', b)
  {
  }

  /** 5 µs minus 3 µs comes out as -3 µs, so adding 3 µs back does not return 5 µs. */
  lemma SubAsWrittenBreaksInverse()
    ensures SubAsWritten(New(5), New(3)) == New(-3)
    ensures Add(SubAsWritten(New(5), New(3)), New(3)) != New(5)
  {
  }

  /** The difference the operator is evidently meant to compute; it must fit in an i64. */
  function Sub(a: Time, b: Time): (r: Time)
    requires IsI64(a.microseconds - b.microseconds)
    ensures AsMicroseconds(r) == AsMicroseconds(a) - AsMicroseconds(b)
    ensures Add(r, b) == a
  {
    New(a.microseconds - b.microseconds)
  }

  /** Subtraction undoes addition, and a time minus itself is zero. */
  lemma SubInvertsAdd(a: Time, b: Time)
    requires IsI64(a.microseconds - b.microseconds)
    ensures Add(Sub(a, b), b) == a
    ensures Sub(a, a) == Default()
  {
  }

  /** `Mul<i64>`; the product must fit in an i64. */
  function Mul(t: Time, k: i64): (r: Time)
    requires IsI64(t.microseconds * k)
    ensures AsMicroseconds(r) == AsMicroseconds(t) * k
    ensures k == 1 ==> r == t
    ensures k == 0 ==> r == Default()
  {
    New(t.microseconds * k)
  }

  /** `Mul<Time> for i64`, which forwards to `t * k`. */
  function MulLeft(k: i64, t: Time): (r: Time)
    requires IsI64(t.microseconds * k)
    ensures AsMicroseconds(r) == k * AsMicroseconds(t)
  {
    Mul(t, k)
  }

  lemma MulCommutes(t: Time, k: i64)
    requires IsI64(t.microseconds * k)
    ensures MulLeft(k, t) == Mul(t, k)
    ensures Mul(t, 1) == t && Mul(t, 0) == Default()
  {
  }

  /** The one i64 quotient that does not fit: the least value divided by -1. */
  predicate DivOverflows(a: int, b: int) {
    a == I64_MIN && b == -1
  }

  /** `Div<i64>`: the quotient rounded toward zero. Rust panics on a zero divisor and on
      the overflowing quotient. */
  function Div(t: Time, k: i64): (r: Time)
    requires k != 0 && !DivOverflows(t.microseconds, k)
    ensures Abs(AsMicroseconds(r)) * Abs(k) <= Abs(AsMicroseconds(t))
    ensures Abs(AsMicroseconds(t)) < (Abs(AsMicroseconds(r)) + 1) * Abs(k)
    ensures AsMicroseconds(r) == 0 || ((AsMicroseconds(r) > 0) <==> ((AsMicroseconds(t) > 0) == (k > 0)))
  {
    QuotientFits(t.microseconds, k);
    New(TruncDiv(t.microseconds, k))
  }

  lemma QuotientFits(a: i64, b: i64)
    requires b != 0 && !DivOverflows(a, b)
    ensures IsI64(TruncDiv(a, b))
  {
    var q := TruncDiv(a, b);
    var m := Abs(q);
    var d := Abs(b);
    assert m * d <= Abs(a) < (m + 1) * d;
    if d == 1 {
      assert m == Abs(a);
      if a == I64_MIN {
        assert b == 1 && q <= 0;
      }
    } else {
      MulMonotone(m, 2, d);
      assert m * 2 <= Abs(a);
    }
  }

  lemma MulMonotone(x: nat, y: nat, z: nat)
    requires y <= z
    ensures x * y <= x * z
  {
  }

  /** Scaling by a nonzero factor and dividing by it again is the identity. */
  lemma DivUndoesMul(t: Time, k: i64)
    requires k != 0 && IsI64(t.microseconds * k)
    ensures !DivOverflows(Mul(t, k).microseconds, k)
    ensures Div(Mul(t, k), k) == t
  {
    TruncDivOfMultiple(t.microseconds, k);
    if k == -1 {
      assert t.microseconds * k == -t.microseconds;
    }
  }

  /** `Rem`: the remainder after the truncated quotient, with the sign of the dividend.
      Rust panics on a zero divisor and on the least i64 modulo -1. */
  function Rem(t: Time, u: Time): (r: Time)
    requires u.microseconds != 0 && !DivOverflows(t.microseconds, u.microseconds)
    ensures Abs(AsMicroseconds(r)) < Abs(AsMicroseconds(u))
    ensures AsMicroseconds(r) == 0 || ((AsMicroseconds(r) > 0) <==> (AsMicroseconds(t) > 0))
  {
    New(TruncRem(t.microseconds, u.microseconds))
  }

  /** Quotient and remainder rebuild the dividend: `(t / k) * k + t % k == t`. */
  lemma DivRemRebuild(t: Time, k: i64)
    requires k != 0 && !DivOverflows(t.microseconds, k)
    ensures IsI64(Div(t, k).microseconds * k)
    ensures IsI64(Mul(Div(t, k), k).microseconds + Rem(t, New(k)).microseconds)
    ensures Add(Mul(Div(t, k), k), Rem(t, New(k))) == t
  {
    var q := TruncDiv(t.microseconds, k);
    var r := TruncRem(t.microseconds, k);
    assert q * k == t.microseconds - r;
  }

  /** `AddAssign`: the place is left holding the sum. */
  method AddAssign(place: Time, rhs: Time) returns (after: Time)
    requires IsI64(place.microseconds + rhs.microseconds)
    ensures AsMicroseconds(after) == AsMicroseconds(place) + AsMicroseconds(rhs)
    ensures after == Add(place, rhs)
  {
    var lhs := place;
    after := Add(lhs, rhs);
  }

  /** `SubAssign`: goes through the written `Sub`, so the place is left holding the
      negated right operand and its old value is lost. */
  method SubAssign(place: Time, rhs: Time) returns (after: Time)
    requires rhs.microseconds != I64_MIN
    ensures AsMicroseconds(after) == -AsMicroseconds(rhs)
    ensures after == SubAsWritten(place, rhs)
  {
    var lhs := place;
    after := SubAsWritten(lhs, rhs);
  }

  /** `SubAssign` with the intended subtraction: the place minus the right operand. */
  method SubAssignIntended(place: Time, rhs: Time) returns (after: Time)
    requires IsI64(place.microseconds - rhs.microseconds)
    ensures AsMicroseconds(after) == AsMicroseconds(place) - AsMicroseconds(rhs)
    ensures Add(after, rhs) == place
  {
    var lhs := place;
    after := Sub(lhs, rhs);
  }

  /** `MulAssign<i64>`: the place is scaled by the factor. */
  method MulAssign(place: Time, k: i64) returns (after: Time)
    requires IsI64(place.microseconds * k)
    ensures AsMicroseconds(after) == AsMicroseconds(place) * k
    ensures after == Mul(place, k)
  {
    after := Mul(place, k);
  }

  /** `DivAssign<i64>`: the place is divided by the factor, rounding toward zero. */
  method DivAssign(place: Time, k: i64) returns (after: Time)
    requires k != 0 && !DivOverflows(place.microseconds, k)
    ensures after == Div(place, k)
    ensures Abs(AsMicroseconds(after)) * Abs(k) <= Abs(AsMicroseconds(place))
    ensures Abs(AsMicroseconds(place)) < (Abs(AsMicroseconds(after)) + 1) * Abs(k)
  {
    after := Div(place, k);
  }

  /** `RemAssign`: the place keeps its remainder modulo the right operand. */
  method RemAssign(place: Time, rhs: Time) returns (after: Time)
    requires rhs.microseconds != 0 && !DivOverflows(place.microseconds, rhs.microseconds)
    ensures after == Rem(place, rhs)
    ensures Abs(AsMicroseconds(after)) < Abs(AsMicroseconds(rhs))
  {
    after := Rem(place, rhs);
  }

  /** Adding then subtracting the same amount in place gives back the start with the
      intended subtraction, but not with the written one: 5 µs += 3 µs, -= 3 µs leaves
      -3 µs. */
  method AssignRoundTrip(start: Time, amount: Time) returns (intended: Time, written: Time)
    requires IsI64(start.microseconds + amount.microseconds)
    requires amount.microseconds != I64_MIN
    ensures intended == start
    ensures AsMicroseconds(written) == -AsMicroseconds(amount)
    ensures start == New(5) && amount == New(3) ==> written != start
  {
    var t := AddAssign(start, amount);
    intended := SubAssignIntended(t, amount);
    written := SubAssign(t, amount);
  }

  /** `PartialEq`: equal exactly when the microsecond counts are. */
  function Eq(a: Time, b: Time): (e: bool)
    ensures e <==> a == b
  {
    AsMicroseconds(a) == AsMicroseconds(b)
  }

  /** A time is nothing but its microseconds, so the derived equality is the
      structural one. */
  lemma EqIsEquality(a: Time, b: Time)
    ensures Eq(a, b) <==> a == b
  {
  }

  datatype Ordering = Less | Equal | Greater

  /** `PartialOrd`: the order of the microsecond counts. */
  function Compare(a: Time, b: Time): (o: Ordering)
    ensures o == Equal <==> a == b
    ensures o == Less <==> AsMicroseconds(a) < AsMicroseconds(b)
  {
    if AsMicroseconds(a) < AsMicroseconds(b) then Less
    else if AsMicroseconds(a) == AsMicroseconds(b) then Equal
    else Greater
  }

  function Flip(o: Ordering): Ordering {
    match o
    case Less => Greater
    case Equal => Equal
    case Greater => Less
  }

  /** The comparison is a total order agreeing with `Eq`: swapping the operands flips
      it, and `Less` is transitive. */
  lemma CompareIsTotalOrder(a: Time, b: Time, c: Time)
    ensures Compare(a, b) == Equal <==> Eq(a, b)
    ensures Compare(b, a) == Flip(Compare(a, b))
    ensures Compare(a, b) == Less && Compare(b, c) == Less ==> Compare(a, c) == Less
  {
  }

  /** Adding a positive duration moves a time later. */
  lemma AddPositiveIsLater(a: Time, b: Time)
    requires IsI64(a.microseconds + b.microseconds)
    requires AsMicroseconds(b) > 0
    ensures Compare(a, Add(a, b)) == Less
  {
  }
}
