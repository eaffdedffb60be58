/** Java's fixed-width integer arithmetic, written out over Dafny's unbounded `int`. */
module JavaInt {

  import opened Wrappers

  const TWO_32: int := 0x1_0000_0000
  const INT_MIN: int := -0x8000_0000
  const INT_MAX: int := 0x7fff_ffff

  const TWO_64: int := 0x1_0000_0000_0000_0000
  const LONG_MIN: int := -0x8000_0000_0000_0000
  const LONG_MAX: int := 0x7fff_ffff_ffff_ffff

  /** Java `int`. */
  type Int32 = x: int | -0x8000_0000 <= x <= 0x7fff_ffff

  /** Java `long`. */
  type Int64 = x: int | -0x8000_0000_0000_0000 <= x <= 0x7fff_ffff_ffff_ffff

  /** The `int` that a Java cast `(int) x` (or any overflowing `int` operation) yields:
      the unique value in the `int` range congruent to `x` modulo 2^32. */
  function Wrap32(x: int): (r: Int32)
    ensures INT_MIN <= x <= INT_MAX ==> r == x
  {
    (x - INT_MIN) % TWO_32 + INT_MIN
  }

  /** The `long` that a Java cast `(long) x`, `BigInteger.longValue()` or an overflowing
      `long` operation yields. */
  function Wrap64(x: int): (r: Int64)
    ensures LONG_MIN <= x <= LONG_MAX ==> r == x
  {
    (x - LONG_MIN) % TWO_64 + LONG_MIN
  }

  /** Wrapping is determined by the residue: once `x - k * 2^32` is in range, it is the result. */
  lemma Wrap32By(x: int, k: int)
    requires INT_MIN <= x - k * TWO_32 <= INT_MAX
    ensures Wrap32(x) == x - k * TWO_32
  {
    var y := x - k * TWO_32;
    assert (x - INT_MIN) == (y - INT_MIN) + k * TWO_32;
    assert 0 <= y - INT_MIN < TWO_32;
  }

  lemma Wrap64By(x: int, k: int)
    requires LONG_MIN <= x - k * TWO_64 <= LONG_MAX
    ensures Wrap64(x) == x - k * TWO_64
  {
    var y := x - k * TWO_64;
    assert (x - LONG_MIN) == (y - LONG_MIN) + k * TWO_64;
    assert 0 <= y - LONG_MIN < TWO_64;
  }

  /** Adding a multiple of 2^32 does not change the wrapped `int`. */
  lemma Wrap32Shift(x: int, m: int)
    ensures Wrap32(x + m * TWO_32) == Wrap32(x)
  {
    var p := (x - INT_MIN) / TWO_32;
    assert Wrap32(x) == x - p * TWO_32;
    assert x + m * TWO_32 - (p + m) * TWO_32 == x - p * TWO_32;
    Wrap32By(x + m * TWO_32, p + m);
  }

  /** Adding a multiple of 2^64 does not change the wrapped `long`. */
  lemma Wrap64Shift(x: int, m: int)
    ensures Wrap64(x + m * TWO_64) == Wrap64(x)
  {
    var p := (x - LONG_MIN) / TWO_64;
    assert Wrap64(x) == x - p * TWO_64;
    assert x + m * TWO_64 - (p + m) * TWO_64 == x - p * TWO_64;
    Wrap64By(x + m * TWO_64, p + m);
  }

  /** An `int` product that may overflow can be wrapped after each factor or once. */
  lemma Wrap32Mul(a: int, b: int)
    ensures Wrap32(Wrap32(a) * b) == Wrap32(a * b)
  {
    var p := (a - INT_MIN) / TWO_32;
    assert Wrap32(a) == a - p * TWO_32;
    assert Wrap32(a) * b == a * b + (-p * b) * TWO_32;
    Wrap32Shift(a * b, -p * b);
  }

  /** A `long` sum that may overflow can be wrapped in two steps or in one. */
  lemma Wrap64Add(a: int, b: int)
    ensures Wrap64(Wrap64(a) + b) == Wrap64(a + b)
  {
    var q := (a - LONG_MIN) / TWO_64;
    var p := (a + b - LONG_MIN) / TWO_64;
    assert Wrap64(a) == a - q * TWO_64;
    assert Wrap64(a + b) == a + b - p * TWO_64;
    Wrap64By(Wrap64(a) + b, p - q);
  }

  /** Java's narrowing casts `(byte) x` and `(short) x`: the value of the low 8 or 16 bits
      read as a signed number, congruent to `x` and within the narrower range. */
  function Wrap8(x: int): (r: int)
    ensures -0x80 <= r < 0x80 && (x - r) % 0x100 == 0
  {
    (x + 0x80) % 0x100 - 0x80
  }

  function Wrap16(x: int): (r: int)
    ensures -0x8000 <= r < 0x8000 && (x - r) % 0x1_0000 == 0
  {
    (x + 0x8000) % 0x1_0000 - 0x8000
  }

  function Abs(x: int): nat { if x < 0 then -x else x }

  /** Euclidean division of naturals, Java's `/` on non-negative operands. */
  function Quotient(n: nat, d: nat): nat
    requires d > 0
  {
    n / d
  }

  /** Java's `/` on integers before any overflow: the quotient rounded toward zero
      (Dafny's own `/` is Euclidean), so its magnitude is the quotient of the magnitudes
      and its sign the product of the signs. */
  function TruncDiv(a: int, b: int): (q: int)
    requires b != 0
    ensures Abs(q) == Quotient(Abs(a), Abs(b))
    ensures q == 0 || (q > 0 <==> (a < 0) == (b < 0))
  {
    var q0: int := Quotient(Abs(a), Abs(b));
    if (a < 0) == (b < 0) then q0 else -q0
  }

  /** The value of an ASCII decimal digit. */
  function DigitValue(c: char): (d: nat)
    requires '0' <= c <= '9'
    ensures d < 10
  {
    (c as int) - ('0' as int)
  }

  predicate AllDigits(s: string) {
    forall k :: 0 <= k < |s| ==> '0' <= s[k] <= '9'
  }

  /** The value of a string of decimal digits, most significant first. */
  function DecimalValue(s: string): (v: nat)
    requires AllDigits(s)
  {
    if s == [] then 0 else DecimalValue(s[..|s| - 1]) * 10 + DigitValue(s[|s| - 1])
  }

  /** `Integer.parseInt(s)` (and `new Integer(s)`): an optional sign, at least one
      decimal digit, and a value that fits in an `int`; `None` is the
      NumberFormatException. */
  function ParseInt(s: string): (r: Option<int>)
    ensures r.Some? ==> INT_MIN <= r.value <= INT_MAX
    ensures s == [] || s == "-" || s == "+" ==> r.None?
  {
    if s == [] then None
    else
      var neg := s[0] == '-';
      var digits := if s[0] == '-' || s[0] == '+' then s[1..] else s;
      if digits == [] || !AllDigits(digits) then None
      else
        var mag: int := DecimalValue(digits);
        var v := if neg then -mag else mag;
        if INT_MIN <= v <= INT_MAX then Some(v) else None
  }

  /** The decimal digits of `n`, as `Integer.toString` writes a non-negative `int`. */
  function Decimal(n: nat): (s: string)
    ensures s != [] && AllDigits(s)
    decreases n
  {
    var last := [('0' as int + n % 10) as char];
    if n < 10 then last else Decimal(n / 10) + last
  }

  lemma {:induction false} DecimalValueOfDecimal(n: nat)
    ensures DecimalValue(Decimal(n)) == n
    decreases n
  {
    var s := Decimal(n);
    if n >= 10 {
      DecimalValueOfDecimal(n / 10);
      assert s[..|s| - 1] == Decimal(n / 10);
    }
  }

  /** `Integer.parseInt` reads back what `Integer.toString` writes, for every `int`. */
  lemma ParseIntOfDecimal(n: int)
    requires INT_MIN <= n <= INT_MAX
    ensures n >= 0 ==> ParseInt(Decimal(n)) == Some(n)
    ensures n < 0 ==> ParseInt("-" + Decimal(-n)) == Some(n)
  {
    if n >= 0 {
      DecimalValueOfDecimal(n);
      assert Decimal(n)[0] != '-' && Decimal(n)[0] != '+';
    } else {
      DecimalValueOfDecimal(-n);
      assert ("-" + Decimal(-n))[1..] == Decimal(-n);
    }
  }

  /** `Integer.toString(n)`: a minus sign for a negative value, then the decimal digits. */
  function IntString(n: int): (s: string)
    ensures s != [] && forall k | 0 <= k < |s| :: s[k] == '-' || '0' <= s[k] <= '9'
  {
    if n < 0 then "-" + Decimal(-n) else Decimal(n)
  }

  /** So `Integer.parseInt` reads back every `int` that `Integer.toString` writes. */
  lemma ParseIntOfIntString(n: int)
    requires INT_MIN <= n <= INT_MAX
    ensures ParseInt(IntString(n)) == Some(n)
  {
    ParseIntOfDecimal(n);
  }

  /** Different numbers have different decimal strings. */
  lemma DecimalInjective(i: nat, j: nat)
    requires Decimal(i) == Decimal(j)
    ensures i == j
  {
    DecimalValueOfDecimal(i);
    DecimalValueOfDecimal(j);
  }
}
