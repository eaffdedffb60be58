/** The integer layer of the cubic Bezier curve (`CubicBezierCurve`): the binomial
    coefficient `choose`, the control-point lookup `getPoint`, and the argument ranges of the
    nearest-point polynomial, whose coefficients are ratios of binomial coefficients. */
module Bezier {

  import opened Wrappers
  import opened JavaInt
  import opened Vectors

  /** k!, the product 1 * 2 * ... * k that `choose` accumulates in `denominator`. */
  function Factorial(k: nat): (f: nat)
    ensures f >= 1
  {
    if k == 0 then 1 else Factorial(k - 1) * k
  }

  /** The falling factorial n (n-1) ... (n-k+1) that `choose` accumulates in `numerator`,
      one factor `n - i + 1` for each `i` from 1 to `k`. */
  function Falling(n: int, k: nat): int {
    if k == 0 then 1 else Falling(n, k - 1) * (n - k + 1)
  }

  /** The binomial coefficient, by Pascal's rule: the number of k-element subsets of an
      n-element set. */
  function Binomial(n: nat, k: nat): (b: nat)
    ensures k > n ==> b == 0
    ensures k <= n ==> b >= 1
    ensures k == n ==> b == 1
    decreases n
  {
    if k == 0 then 1 else if k > n then 0 else Binomial(n - 1, k - 1) + Binomial(n - 1, k)
  }

  /** How `choose` fails: the `int` denominator wraps to 0 and the division throws, or
      (for k = Integer.MAX_VALUE) the counter `i` wraps and the loop never ends. */
  datatype ChooseError = DivisionByZero | NeverReturns

  /** `choose(n, k)` as written: 0 for invalid arguments, else the `int` quotient of the
      numerator and denominator, each wrapped to 32 bits as the loop multiplies. */
  function ChooseAsWritten(n: int, k: int): (r: Result<int, ChooseError>)
    ensures n < 0 || k < 0 || k > n ==> r == Ok(0)
    ensures r.Ok? ==> INT_MIN <= r.value <= INT_MAX
    ensures r.Err? ==> 0 <= k <= n
    ensures r == Err(NeverReturns) <==> 0 <= k == INT_MAX <= n
  {
    if n < 0 || k > n || k < 0 then Ok(0)
    else if k == INT_MAX then Err(NeverReturns)
    else if Wrap32(Factorial(k)) == 0 then Err(DivisionByZero)
    else Ok(Wrap32(TruncDiv(Wrap32(Falling(n, k)), Wrap32(Factorial(k)))))
  }

  /** `choose`: the loop over `int` variables. For k = Integer.MAX_VALUE the source's
      counter overflows and the loop runs forever; the model reports that outcome instead
      of running it. The result is the `int` before its conversion to `float`. */
  method Choose(n: Int32, k: Int32) returns (r: Result<int, ChooseError>)
    ensures r == ChooseAsWritten(n, k)
    ensures n < 0 || k < 0 || k > n ==> r == Ok(0)
  {
    if n < 0 || k > n || k < 0 {
      return Ok(0);
    }
    if k == INT_MAX {
      return Err(NeverReturns);
    }
    var numerator: Int32 := 1;
    var denominator: Int32 := 1;
    var i: Int32 := 1;
    while i <= k
      invariant 1 <= i <= k + 1
      invariant numerator == Wrap32(Falling(n, i - 1))
      invariant denominator == Wrap32(Factorial(i - 1))
    {
      Wrap32Mul(Falling(n, i - 1), n - i + 1);
      Wrap32Mul(Factorial(i - 1), i);
      numerator := Wrap32(numerator * (n - i + 1));
      denominator := Wrap32(denominator * i);
      i := i + 1;
    }
    if denominator == 0 {
      return Err(DivisionByZero);
    }
    return Ok(Wrap32(TruncDiv(numerator, denominator)));
  }

  /** The falling factorial loses its first factor: n (n-1) ... (n-k+1) = n * ((n-1) ... ). */
  lemma {:induction false} FallingPeel(n: int, k: nat)
    requires k >= 1
    ensures Falling(n, k) == n * Falling(n - 1, k - 1)
    decreases k
  {
    if k > 1 {
      FallingPeel(n, k - 1);
      var g := Falling(n - 1, k - 2);
      assert Falling(n, k) == (n * g) * (n - k + 1);
      assert Falling(n - 1, k - 1) == g * (n - k + 1);
      MulAssoc(n, g, n - k + 1);
    }
  }

  /** The numerator is the binomial coefficient times the denominator: the division in
      `choose` is exact. */
  lemma {:induction false} BinomialTimesFactorial(n: nat, k: nat)
    ensures Binomial(n, k) * Factorial(k) == Falling(n, k)
    decreases n
  {
    if k == 0 {
    } else if k > n {
      FallingPastZero(n, k);
    } else {
      BinomialTimesFactorial(n - 1, k - 1);
      BinomialTimesFactorial(n - 1, k);
      FallingPeel(n, k);
      var a, b := Binomial(n - 1, k - 1), Binomial(n - 1, k);
      var f := Falling(n - 1, k - 1);
      assert Binomial(n, k) == a + b;
      assert Factorial(k) == Factorial(k - 1) * k;
      assert Falling(n - 1, k) == f * (n - k);
      PascalStep(a, b, Factorial(k - 1), k, f, n);
    }
  }

  /** Past k = n the falling factorial has passed through the factor 0. */
  lemma {:induction false} FallingPastZero(n: nat, k: nat)
    requires k > n
    ensures Falling(n, k) == 0
    decreases k
  {
    if k > n + 1 {
      FallingPastZero(n, k - 1);
    }
  }

  /** With the remaining factors, the falling factorial completes n!. */
  lemma {:induction false} FallingTimesRest(n: nat, k: nat)
    requires k <= n
    ensures Falling(n, k) * Factorial(n - k) == Factorial(n)
    decreases n
  {
    if k > 0 {
      FallingPeel(n, k);
      FallingTimesRest(n - 1, k - 1);
      assert (n - 1) - (k - 1) == n - k;
      PeelAlgebra(Falling(n, k), n, Falling(n - 1, k - 1), Factorial(n - k),
                  Factorial(n - 1), Factorial(n));
    }
  }

  /** x = n g, g r = m and M = m n give x r = M. */
  lemma PeelAlgebra(x: int, n: int, g: int, r: int, m: int, bigM: int)
    requires x == n * g && g * r == m && bigM == m * n
    ensures x * r == bigM
  {
    MulAssoc(n, g, r);
  }

  /** Choosing k is choosing the n - k left out. */
  lemma BinomialSymmetric(n: nat, k: nat)
    requires k <= n
    ensures Binomial(n, k) == Binomial(n, n - k)
  {
    BinomialTimesFactorial(n, k);
    BinomialTimesFactorial(n, n - k);
    FallingTimesRest(n, k);
    FallingTimesRest(n, n - k);
    assert n - (n - k) == k;
    SymmetryAlgebra(Binomial(n, k), Binomial(n, n - k), Factorial(k), Factorial(n - k),
                    Falling(n, k), Falling(n, n - k), Factorial(n));
  }

  /** b1 f1 = x1, b2 f2 = x2 and x1 f2 = x2 f1 (both n!) give b1 = b2. */
  lemma SymmetryAlgebra(b1: int, b2: int, f1: int, f2: int, x1: int, x2: int, m: int)
    requires f1 >= 1 && f2 >= 1
    requires b1 * f1 == x1 && b2 * f2 == x2 && x1 * f2 == m && x2 * f1 == m
    ensures b1 == b2
  {
    var p := f1 * f2;
    MulAssoc(b1, f1, f2);
    MulAssoc(b2, f2, f1);
    assert b1 * p == m;
    assert b2 * p == m;
    CancelPositive(b1, b2, p);
  }

  lemma CancelPositive(a: int, b: int, p: int)
    requires p > 0 && a * p == b * p
    ensures a == b
  {
    assert (a - b) * p == 0;
  }

  /** For valid arguments whose numerator fits in an `int`, `choose` is the binomial
      coefficient its comment promises. */
  lemma ChooseIsBinomialWithoutOverflow(n: nat, k: nat)
    requires k <= n && Falling(n, k) <= INT_MAX
    ensures ChooseAsWritten(n, k) == Ok(Binomial(n, k))
  {
    BinomialTimesFactorial(n, k);
    FallingTimesRest(n, k);
    ExactQuotient(Binomial(n, k), Factorial(k), Falling(n, k), Factorial(n - k), Factorial(n));
  }

  /** The arithmetic of an exact quotient: with b f = x, x r = m >= 1 and f, r >= 1, the
      quotient x / f is b, and both b and f are at most x. */
  lemma ExactQuotient(b: int, f: int, x: int, r: int, m: int)
    requires f >= 1 && r >= 1 && m >= 1 && b >= 0
    requires b * f == x && x * r == m
    ensures 1 <= b <= x && f <= x && x / f == b
  {
    assert b != 0;
    DivExact(b, f);
  }

  lemma DivExact(b: nat, f: nat)
    requires f >= 1
    ensures (b * f) / f == b
  {
    var q := b * f;
    var d := q / f - b;
    assert f * d == -(q % f);
  }

  lemma MulAssoc(a: int, b: int, c: int)
    ensures (a * b) * c == a * (b * c)
  {
  }

  /** The arithmetic of one Pascal step: (a + b) k! = n f when a (k-1)! = f and
      b k! = f (n - k). */
  lemma PascalStep(a: int, b: int, g: int, k: int, f: int, n: int)
    requires a * g == f && b * (g * k) == f * (n - k)
    ensures (a + b) * (g * k) == n * f
  {
    assert a * (g * k) == f * k;
  }

  /** So `choose` is symmetric wherever both numerators fit. */
  lemma ChooseSymmetricWithoutOverflow(n: nat, k: nat)
    requires k <= n && Falling(n, k) <= INT_MAX && Falling(n, n - k) <= INT_MAX
    ensures ChooseAsWritten(n, k) == ChooseAsWritten(n, n - k)
  {
    ChooseIsBinomialWithoutOverflow(n, k);
    ChooseIsBinomialWithoutOverflow(n, n - k);
    BinomialSymmetric(n, k);
  }

  /** An input where `choose` misses the binomial coefficient: the numerator
      13 * 12 * ... * 2 wraps past 2^32, so choose(13, 12) is 4 instead of 13
      (`BinomialOf13`). */
  lemma ChooseWrapsAt13()
    ensures ChooseAsWritten(13, 12) == Ok(4)
  {
    Factorial12();
    FallingOf13();
    assert Wrap32(Falling(13, 12)) == 1932053504 by {
      Wrap32By(6227020800, 1);
    }
    assert Wrap32(Factorial(12)) == 479001600;
    assert TruncDiv(1932053504, 479001600) == 4;
    ChooseWithoutZeroDivisor(13, 12);
  }

  /** The result of `choose` on a valid call whose denominator does not wrap to 0. */
  lemma ChooseWithoutZeroDivisor(n: nat, k: nat)
    requires k <= n && k != INT_MAX && Wrap32(Factorial(k)) != 0
    ensures ChooseAsWritten(n, k) == Ok(Wrap32(TruncDiv(Wrap32(Falling(n, k)), Wrap32(Factorial(k)))))
  {
  }

  /** C(13, 12) = 13, from C(13, 12) * 12! = 13 * 12 * ... * 2. */
  lemma BinomialOf13()
    ensures Binomial(13, 12) == 13
  {
    Factorial12();
    FallingOf13();
    BinomialTimesFactorial(13, 12);
    CancelPositive(Binomial(13, 12), 13, 479001600);
  }

  /** Another: 34! is a multiple of 2^32, so choose(34, 34) divides by zero instead of
      returning 1, and so does every valid call with k from 34 up. */
  lemma ChooseDividesByZeroFrom34(n: nat, k: nat)
    requires 34 <= k <= n && k < INT_MAX
    ensures ChooseAsWritten(n, k) == Err(DivisionByZero) && Binomial(k, k) == 1
  {
    Factorial34();
    FallingTimesRest(k, k - 34);
    assert k - (k - 34) == 34;
    var m := Falling(k, k - 34) * 68739242628124575327993046875;
    assert Factorial(k) == 0 + m * TWO_32 by {
      MulAssoc(Falling(k, k - 34), 68739242628124575327993046875, TWO_32);
    }
    Wrap32Shift(0, m);
    BinomialTimesFactorial(k, k);
    FallingTimesRest(k, k);
    CancelPositive(Binomial(k, k), 1, Factorial(k));
  }

  /** 12! = 479001600, which still fits in an `int`. */
  lemma Factorial12()
    ensures Factorial(12) == 479001600
  {
    assert Factorial(1) == 1;
    assert Factorial(2) == 2;
    assert Factorial(3) == 6;
    assert Factorial(4) == 24;
    assert Factorial(5) == 120;
    assert Factorial(6) == 720;
    assert Factorial(7) == 5040;
    assert Factorial(8) == 40320;
    assert Factorial(9) == 362880;
    assert Factorial(10) == 3628800;
    assert Factorial(11) == 39916800;
    assert Factorial(12) == 479001600;
  }

  /** 34! = 68739242628124575327993046875 * 2^32, the first factorial that is a multiple
      of 2^32. */
  lemma Factorial34()
    ensures Factorial(34) == 68739242628124575327993046875 * TWO_32
  {
    Factorial12();
    assert Factorial(13) == 6227020800;
    assert Factorial(14) == 87178291200;
    assert Factorial(15) == 1307674368000;
    assert Factorial(16) == 20922789888000;
    assert Factorial(17) == 355687428096000;
    assert Factorial(18) == 6402373705728000;
    assert Factorial(19) == 121645100408832000;
    assert Factorial(20) == 2432902008176640000;
    assert Factorial(21) == 51090942171709440000;
    assert Factorial(22) == 1124000727777607680000;
    assert Factorial(23) == 25852016738884976640000;
    assert Factorial(24) == 620448401733239439360000;
    assert Factorial(25) == 15511210043330985984000000;
    assert Factorial(26) == 403291461126605635584000000;
    assert Factorial(27) == 10888869450418352160768000000;
    assert Factorial(28) == 304888344611713860501504000000;
    assert Factorial(29) == 8841761993739701954543616000000;
    assert Factorial(30) == 265252859812191058636308480000000;
    assert Factorial(31) == 8222838654177922817725562880000000;
    assert Factorial(32) == 263130836933693530167218012160000000;
    assert Factorial(33) == 8683317618811886495518194401280000000;
    assert Factorial(34) == 295232799039604140847618609643520000000;
  }

  /** The numerator of choose(13, 12): 13 * 12 * ... * 2. */
  lemma FallingOf13()
    ensures Falling(13, 12) == 6227020800
  {
    assert Falling(13, 1) == 13;
    assert Falling(13, 2) == 156;
    assert Falling(13, 3) == 1716;
    assert Falling(13, 4) == 17160;
    assert Falling(13, 5) == 154440;
    assert Falling(13, 6) == 1235520;
    assert Falling(13, 7) == 8648640;
    assert Falling(13, 8) == 51891840;
    assert Falling(13, 9) == 259459200;
    assert Falling(13, 10) == 1037836800;
    assert Falling(13, 11) == 3113510400;
    assert Falling(13, 12) == 6227020800;
  }

  /** The binomial coefficient as `choose` evidently intends it, over unbounded integers:
      the running value `r * (n - i + 1) / i` is C(n, i) after step `i`, so every
      division is exact and nothing overflows. */
  method ChooseExact(n: Int32, k: Int32) returns (r: int)
    ensures r == if 0 <= k <= n then Binomial(n as nat, k as nat) else 0
  {
    if n < 0 || k > n || k < 0 {
      return 0;
    }
    r := 1;
    var i := 1;
    while i <= k
      invariant 1 <= i <= k + 1
      invariant r == Binomial(n as nat, (i - 1) as nat)
    {
      BinomialStep(n as nat, (i - 1) as nat);
      assert r * (n - i + 1) == Binomial(n as nat, i as nat) * i;
      DivExact(Binomial(n as nat, i as nat), i);
      r := r * (n - i + 1) / i;
      i := i + 1;
    }
  }

  /** C(n, i + 1) (i + 1) = C(n, i) (n - i): one step of the multiplicative formula. */
  lemma BinomialStep(n: nat, i: nat)
    ensures Binomial(n, i + 1) * (i + 1) == Binomial(n, i) * (n - i)
  {
    BinomialTimesFactorial(n, i + 1);
    BinomialTimesFactorial(n, i);
    assert Factorial(i + 1) == Factorial(i) * (i + 1);
    assert Falling(n, i + 1) == Falling(n, i) * (n - i);
    StepAlgebra(Binomial(n, i + 1), Binomial(n, i), Factorial(i), i + 1,
                Falling(n, i + 1), Falling(n, i), n - i);
  }

  /** b1 (f i1) = x1, b0 f = x0 and x1 = x0 d give b1 i1 = b0 d. */
  lemma StepAlgebra(b1: int, b0: int, f: int, i1: int, x1: int, x0: int, d: int)
    requires f >= 1 && b1 * (f * i1) == x1 && b0 * f == x0 && x1 == x0 * d
    ensures b1 * i1 == b0 * d
  {
    MulAssoc(b1, i1, f);
    MulAssoc(b0, d, f);
    assert (b1 * i1) * f == b1 * (f * i1);
    assert (b0 * d) * f == (b0 * f) * d;
    CancelPositive(b1 * i1, b0 * d, f);
  }

  /** The four control points of the curve: `start`, `ctrl_one`, `ctrl_two`, `end`. */
  datatype Controls = Controls(start: Vec2, ctrlOne: Vec2, ctrlTwo: Vec2, end: Vec2)

  /** The `_points` array that the curve fills alongside the four named fields. */
  function Points(c: Controls): (ps: seq<Vec2>)
    ensures |ps| == 4
  {
    [c.start, c.ctrlOne, c.ctrlTwo, c.end]
  }

  /** `getPoint(i)`: the control point with index `i`; any other index fails the
      assertion (or, with assertions off, yields null), written `None`. */
  function GetPoint(c: Controls, i: int): (p: Option<Vec2>)
    ensures p.Some? <==> 0 <= i < 4
    ensures p.Some? ==> p.value == Points(c)[i]
  {
    match i
    case 0 => Some(c.start)
    case 1 => Some(c.ctrlOne)
    case 2 => Some(c.ctrlTwo)
    case 3 => Some(c.end)
    case _ => None
  }

  /** In the nearest-point polynomial of a cubic (degree n = 3) every `choose` call gets
      valid arguments and returns the binomial coefficient, the divisor C(5, i + j) is
      positive, the points looked up exist, and i + j is a valid Bernstein index for
      degree 2n - 1 = 5. */
  lemma CurveDotProductArguments(c: Controls, i: int, j: int)
    requires 0 <= i <= 3 && 0 <= j <= 2
    ensures ChooseAsWritten(3, i) == Ok(Binomial(3, i))
    ensures ChooseAsWritten(2, j) == Ok(Binomial(2, j))
    ensures ChooseAsWritten(5, i + j) == Ok(Binomial(5, i + j)) && Binomial(5, i + j) >= 1
    ensures GetPoint(c, i).Some? && GetPoint(c, j).Some? && GetPoint(c, j + 1).Some?
    ensures 0 <= i + j <= 5
  {
    SmallChoose(3, i);
    SmallChoose(2, j);
    SmallChoose(5, i + j);
  }

  /** Up to n = 5 nothing overflows: `choose` is the binomial coefficient, at least 1. */
  lemma SmallChoose(n: nat, k: nat)
    requires k <= n <= 5
    ensures ChooseAsWritten(n, k) == Ok(Binomial(n, k)) && Binomial(n, k) >= 1
  {
    FallingAtMostFactorial(n, k);
    assert Factorial(n) <= 120 by {
      if n < 5 {
        FactorialMonotone(n, 5);
      }
      assert Factorial(5) == 120;
    }
    ChooseIsBinomialWithoutOverflow(n, k);
  }

  lemma FactorialMonotone(j: nat, k: nat)
    requires j <= k
    ensures Factorial(j) <= Factorial(k)
  {
    FallingTimesRest(k, k - j);
    FallingAtMostFactorial(k, k - j);
    assert k - (k - j) == j;
    AtLeastFactor(Falling(k, k - j), Factorial(j));
  }

  /** a b >= b for a >= 1 and b >= 0. */
  lemma AtLeastFactor(a: int, b: int)
    requires a >= 1 && b >= 0
    ensures a * b >= b
  {
    assert a * b == (a - 1) * b + b;
  }

  lemma FallingAtMostFactorial(n: nat, k: nat)
    requires k <= n
    ensures 1 <= Falling(n, k) <= Factorial(n)
  {
    FallingTimesRest(n, k);
    PositiveFactor(Falling(n, k), Factorial(n - k));
    AtLeastFactor(Factorial(n - k), Falling(n, k));
  }

  /** A factor of a positive product with a positive co-factor is positive. */
  lemma PositiveFactor(a: int, b: int)
    requires a * b >= 1 && b >= 1
    ensures a >= 1
  {
  }
}
