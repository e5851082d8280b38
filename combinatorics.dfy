/**
 * The integer helpers the engine places in the evaluation namespace:
 * `fact`, `nCr` and `nPr` (calculator.py:12-26). Their arguments are the
 * integers that `int(...)` produced; `math.factorial`, `math.comb` and
 * `math.perm` are given by independent recursive definitions and the
 * source's promises are proved about them.
 */
module Combinatorics {
  import opened Wrappers

  /** The exceptions `math.factorial`, `math.comb` and `math.perm` raise, with their messages. */
  datatype MathError = ValueError(message: string) | OverflowError(message: string)

  /**
   * The largest C `long` and C `long long` on a 64-bit Linux build of CPython:
   * `math.factorial` converts its argument to the first, `math.comb` and
   * `math.perm` the number of factors they multiply to the second.
   */
  const LongMax := 0x7FFF_FFFF_FFFF_FFFF
  const LongLongMax := 0x7FFF_FFFF_FFFF_FFFF

  /** The `ValueError` messages of `math.factorial`, `math.comb` and `math.perm`. */
  const NegativeFactorial := "factorial() not defined for negative values"
  const NegativeN := "n must be a non-negative integer"
  const NegativeK := "k must be a non-negative integer"

  /** The `OverflowError` messages, for arguments beyond those limits. */
  const FactorialTooLarge := "factorial() argument should not exceed 9223372036854775807"
  const CombTooLarge := "min(n - k, k) must not exceed 9223372036854775807"
  const PermTooLarge := "k must not exceed 9223372036854775807"

  function Factorial(n: nat): (r: nat)
    ensures r >= 1
  {
    if n == 0 then 1 else n * Factorial(n - 1)
  }

  /** Binomial coefficient by Pascal's rule; zero when `k > n`. */
  function Choose(n: nat, k: nat): nat {
    if k == 0 then 1
    else if n == 0 then 0
    else Choose(n - 1, k - 1) + Choose(n - 1, k)
  }

  /** Falling factorial n·(n-1)·…·(n-k+1): the number of ordered selections. */
  function Falling(n: nat, k: nat): nat
    requires k <= n
  {
    if k == 0 then 1 else n * Falling(n - 1, k - 1)
  }

  lemma {:induction false} ChooseBeyond(n: nat, k: nat)
    requires k > n
    ensures Choose(n, k) == 0
  {
    if n > 0 {
      ChooseBeyond(n - 1, k - 1);
      ChooseBeyond(n - 1, k);
    }
  }

  lemma {:induction false} ChooseDiagonal(n: nat)
    ensures Choose(n, n) == 1
  {
    if n > 0 {
      ChooseDiagonal(n - 1);
      ChooseBeyond(n - 1, n);
    }
  }

  /** C(n, k) · k! · (n-k)! = n!, the defining identity of the binomial coefficient. */
  lemma {:induction false} ChooseFactorials(n: nat, k: nat)
    requires k <= n
    ensures Choose(n, k) * (Factorial(k) * Factorial(n - k)) == Factorial(n)
  {
    if k == 0 {
    } else if k == n {
      ChooseDiagonal(n);
    } else {
      ChooseFactorials(n - 1, k - 1);
      ChooseFactorials(n - 1, k);
      var a, b := Choose(n - 1, k - 1), Choose(n - 1, k);
      var x, y := Factorial(k - 1), Factorial(n - 1 - k);
      assert Choose(n, k) == a + b;
      assert Factorial(k) == k * x;
      assert Factorial(n - k) == (n - k) * y;
      assert Factorial(n) == n * Factorial(n - 1);
      PascalStep(a, b, k, n - k, x, y, Factorial(n - 1));
    }
  }

  /** The arithmetic of one Pascal step. */
  lemma PascalStep(a: nat, b: nat, k: nat, m: nat, x: nat, y: nat, f: nat)
    requires a * (x * (m * y)) == f
    requires b * ((k * x) * y) == f
    ensures (a + b) * ((k * x) * (m * y)) == (k + m) * f
  {
    assert (a + b) * ((k * x) * (m * y)) == a * ((k * x) * (m * y)) + b * ((k * x) * (m * y));
    assert a * ((k * x) * (m * y)) == k * (a * (x * (m * y)));
    assert b * ((k * x) * (m * y)) == m * (b * ((k * x) * y));
  }

  /** P(n, k) · (n-k)! = n!. */
  lemma {:induction false} FallingFactorials(n: nat, k: nat)
    requires k <= n
    ensures Falling(n, k) * Factorial(n - k) == Factorial(n)
  {
    if k > 0 {
      FallingFactorials(n - 1, k - 1);
      var a, b := Falling(n - 1, k - 1), Factorial(n - k);
      assert Falling(n, k) == n * a;
      assert a * b == Factorial(n - 1);
      Associate(n, a, b);
    }
  }

  /** Dividing a product by one of its non-zero factors gives back the other. */
  lemma Cancel(x: nat, y: nat, z: nat)
    requires y > 0 && x * y == z
    ensures z / y == x
  {
    var q, m := z / y, z % y;
    assert z == y * q + m && 0 <= m < y;
    if q < x {
      MulMonotone(q + 1, x, y);
    } else if q > x {
      MulMonotone(x + 1, q, y);
    }
  }

  lemma MulMonotone(a: nat, b: nat, c: nat)
    requires a <= b
    ensures a * c <= b * c
  {
    assert b * c == a * c + (b - a) * c;
  }

  /** Ordered selections are unordered selections times their orderings: P(n, k) = C(n, k) · k!. */
  lemma FallingIsChooseTimesFactorial(n: nat, k: nat)
    requires k <= n
    ensures Falling(n, k) == Choose(n, k) * Factorial(k)
  {
    ChooseFactorials(n, k);
    FallingFactorials(n, k);
    var c, f, m := Choose(n, k), Factorial(k), Factorial(n - k);
    Associate(c, f, m);
    Cancel(Falling(n, k), m, Factorial(n));
    Cancel(c * f, m, Factorial(n));
  }

  lemma Associate(a: nat, b: nat, c: nat)
    ensures a * (b * c) == (a * b) * c
  {
  }

  /** C(n, k) = C(n, n-k). */
  lemma ChooseSymmetric(n: nat, k: nat)
    requires k <= n
    ensures Choose(n, k) == Choose(n, n - k)
  {
    ChooseFactorials(n, k);
    ChooseFactorials(n, n - k);
    var d := Factorial(k) * Factorial(n - k);
    assert Factorial(n - k) * Factorial(n - (n - k)) == d;
    Cancel(Choose(n, k), d, Factorial(n));
    Cancel(Choose(n, n - k), d, Factorial(n));
  }

  /** `fact(n)`: `math.factorial(int(n))`. */
  function Fact(n: int): (r: Result<nat, MathError>)
    ensures n < 0 ==> r == Failure(ValueError(NegativeFactorial))
    ensures n > LongMax ==> r == Failure(OverflowError(FactorialTooLarge))
    ensures 0 <= n <= LongMax ==> r.Success? && r.value >= 1
    ensures n == 0 ==> r == Success(1)
    ensures 1 <= n <= LongMax ==> r.Success? && Fact(n - 1).Success? && r.value == n * Fact(n - 1).value
  {
    if n < 0 then Failure(ValueError(NegativeFactorial))
    else if n > LongMax then Failure(OverflowError(FactorialTooLarge))
    else Success(Factorial(n))
  }

  /** `nCr(n, r)`: zero when `r > n`, otherwise `math.comb(n, r)`. */
  function NCr(n: int, r: int): (res: Result<nat, MathError>)
    ensures r > n ==> res == Success(0)
    ensures r <= n && n < 0 ==> res == Failure(ValueError(NegativeN))
    ensures r < 0 <= n ==> res == Failure(ValueError(NegativeK))
    ensures 0 <= r <= n && r > LongLongMax && n - r > LongLongMax ==>
              res == Failure(OverflowError(CombTooLarge))
    ensures 0 <= r <= n && (r <= LongLongMax || n - r <= LongLongMax) ==>
              && res.Success?
              && res.value * (Factorial(r) * Factorial(n - r)) == Factorial(n)
              && res.value == Factorial(n) / (Factorial(r) * Factorial(n - r))
  {
    if r > n then Success(0)
    else if n < 0 then Failure(ValueError(NegativeN))
    else if r < 0 then Failure(ValueError(NegativeK))
    else if r > LongLongMax && n - r > LongLongMax then Failure(OverflowError(CombTooLarge))
    else
      ChooseFactorials(n, r);
      Cancel(Choose(n, r), Factorial(r) * Factorial(n - r), Factorial(n));
      Success(Choose(n, r))
  }

  /** `nPr(n, r)`: zero when `r > n`, otherwise `math.perm(n, r)`. */
  function NPr(n: int, r: int): (res: Result<nat, MathError>)
    ensures r > n ==> res == Success(0)
    ensures r <= n && n < 0 ==> res == Failure(ValueError(NegativeN))
    ensures r < 0 <= n ==> res == Failure(ValueError(NegativeK))
    ensures LongLongMax < r <= n ==> res == Failure(OverflowError(PermTooLarge))
    ensures 0 <= r <= n && r <= LongLongMax ==>
              && res.Success?
              && res.value * Factorial(n - r) == Factorial(n)
              && res.value == Factorial(n) / Factorial(n - r)
  {
    if r > n then Success(0)
    else if n < 0 then Failure(ValueError(NegativeN))
    else if r < 0 then Failure(ValueError(NegativeK))
    else if r > LongLongMax then Failure(OverflowError(PermTooLarge))
    else
      FallingFactorials(n, r);
      Cancel(Falling(n, r), Factorial(n - r), Factorial(n));
      Success(Falling(n, r))
  }

  /**
   * The two helpers agree as the textbook says, nPr(n, r) = nCr(n, r) · r!,
   * wherever `math.perm` does not overflow; and whenever `math.perm` gives a
   * value, `math.comb` gives one too.
   */
  lemma PermutationsAreOrderedCombinations(n: int, r: int)
    requires 0 <= r
    ensures NPr(n, r).Success? <==> r > n || r <= LongLongMax
    ensures NPr(n, r).Success? ==>
              && NCr(n, r).Success?
              && NPr(n, r).value == NCr(n, r).value * Factorial(r)
  {
    if r <= n && r <= LongLongMax {
      FallingIsChooseTimesFactorial(n, r);
    }
  }
}
