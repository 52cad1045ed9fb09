/** Integers mod n (src/gtf/math/algebra/ModularArithmetic.java). */
module ModularArithmetic {
  import opened Wrappers
  import opened JavaPlatform

  /**
   * ModularArithmetic.remainder: Java's `a % b`, shifted by `b` when it is
   * non-zero and has the opposite sign to `b`, so that the result is zero
   * or has the sign of the divisor; `b == 0` throws ArithmeticException
   * from the `%` operator.
   */
  function Remainder(a: Int32, b: Int32): (r: Result<Int32, JavaException>)
    ensures r.Err? <==> b == 0
    ensures r.Err? ==> r.error.ArithmeticException?
    ensures r.Ok? && b > 0 ==> 0 <= r.value < b
    ensures r.Ok? && b < 0 ==> b < r.value <= 0
    ensures r.Ok? ==> (a - r.value) % b == 0
    ensures b != 0 && (JavaRem(a, b) == 0 || (JavaRem(a, b) < 0 <==> b < 0)) ==> r == Ok(JavaRem(a, b))
  {
    if b == 0 then Err(ArithmeticException("/ by zero"))
    else
      var result := JavaRem(a, b);
      assert IsInt32(b) && IsInt32(a);
      assert Abs(b) <= 0x8000_0000;
      assert IsInt32(result);
      var q := JavaDiv(a, b);
      if (result < 0 && b > 0) || (result > 0 && b < 0) then
        DivisibleBy(q - 1, b);
        assert a - (result + b) == (q - 1) * b;
        assert IsInt32(result + b);
        Ok(result + b)
      else
        DivisibleBy(q, b);
        assert a - result == q * b;
        Ok(result)
  }

  lemma DivisibleBy(q: int, b: int)
    requires b != 0
    ensures (q * b) % b == 0
  {
    var x := q * b;
    var m := x % b;
    var d := x / b;
    assert x == b * d + m;
    var k := q - d;
    assert k * b == m by {
      assert k * b == q * b - d * b;
    }
    if k != 0 {
      MultipleAtLeastDivisor(k, b);
    }
  }

  lemma MultipleAtLeastDivisor(k: int, b: int)
    requires k != 0 && b != 0
    ensures Abs(k * b) >= Abs(b)
  {
    NatMultipleAtLeast(Abs(k), Abs(b));
    if k < 0 && b < 0 {
      assert k * b == Abs(k) * Abs(b);
    } else if k < 0 {
      assert k * b == -(Abs(k) * Abs(b));
    } else if b < 0 {
      assert k * b == -(Abs(k) * Abs(b));
    }
  }

  lemma {:induction false} NatMultipleAtLeast(k: nat, b: nat)
    requires k >= 1
    ensures k * b >= b
  {
    if k > 1 {
      NatMultipleAtLeast(k - 1, b);
      assert k * b == (k - 1) * b + b;
    }
  }

  /**
   * The method's comment promises a result "in the range 0..a"; a negative
   * dividend with a positive divisor already leaves that range.
   */
  lemma RemainderOutsideDocumentedRange()
    ensures Remainder(-1, 3) == Ok(2)
  {
  }
}
