/**
 * What the two print_python_int programs read of a CPython int object
 * (a PyLongObject): ob_size, whose sign is the sign of the number and
 * whose magnitude is the number of digits, and ob_digit, the digits in
 * base 2^PyLong_SHIFT, least significant first.  PyLong_SHIFT is 30, the
 * value on 64-bit builds, on which the bounds in both printers rely.
 */
module PyLong {
  import opened Arith

  const Shift: nat := 30

  /** One past the largest C unsigned long (64 bits). */
  const ULongLimit: nat := 0x1_0000_0000_0000_0000

  function Pow2(k: nat): (p: nat)
    ensures p >= 1
  {
    if k == 0 then 1 else 2 * Pow2(k - 1)
  }

  lemma {:induction false} Pow2Add(a: nat, b: nat)
    ensures Pow2(a + b) == Pow2(a) * Pow2(b)
    decreases b
  {
    if b > 0 {
      Pow2Add(a, b - 1);
      assert Pow2(a + b) == 2 * Pow2(a + b - 1);
    }
  }

  lemma {:induction false} Pow2Monotone(a: nat, b: nat)
    requires a <= b
    ensures Pow2(a) <= Pow2(b)
  {
    Pow2Add(a, b - a);
    MulAtLeast(Pow2(b - a), Pow2(a));
  }

  /** The digit base 2^30, and the powers of two the printers meet. */
  lemma Powers()
    ensures Pow2(Shift) == 0x4000_0000
    ensures Pow2(2 * Shift) == 0x1000_0000_0000_0000
    ensures Pow2(64) == ULongLimit
  {
    assert Pow2(5) == 32;
    Pow2Add(5, 5);
    Pow2Add(10, 10);
    Pow2Add(20, 10);
    Pow2Add(Shift, Shift);
    assert Pow2(4) == 16;
    Pow2Add(2 * Shift, 4);
  }

  /** ob_digit holds base-2^30 digits. */
  predicate IsDigits(digits: seq<nat>)
  {
    forall i :: 0 <= i < |digits| ==> digits[i] < Pow2(Shift)
  }

  /** A prefix of base-2^30 digits is base-2^30 digits. */
  lemma DigitsPrefix(digits: seq<nat>, k: nat)
    requires IsDigits(digits) && k <= |digits|
    ensures IsDigits(digits[..k])
  {
    forall i | 0 <= i < k ensures digits[..k][i] < Pow2(Shift) {
      assert digits[..k][i] == digits[i];
    }
  }

  /** CPython keeps ints normalised: the most significant digit is not zero. */
  predicate Normalised(digits: seq<nat>)
  {
    digits != [] ==> digits[|digits| - 1] != 0
  }

  /** The magnitude the digits stand for: the sum of digit i times 2^(30 i). */
  function Value(digits: seq<nat>): nat
  {
    if digits == [] then 0
    else Value(digits[..|digits| - 1]) + digits[|digits| - 1] * Pow2(Shift * (|digits| - 1))
  }

  /** n digits hold less than 2^(30 n). */
  lemma {:induction false} ValueBound(digits: seq<nat>)
    requires IsDigits(digits)
    ensures Value(digits) < Pow2(Shift * |digits|)
  {
    if digits != [] {
      var n := |digits| - 1;
      var init := digits[..n];
      DigitsPrefix(digits, n);
      ValueBound(init);
      assert Value(digits) == Value(init) + digits[n] * Pow2(Shift * n);
      TopDigitBelow(Value(init), digits[n], Pow2(Shift * n), Pow2(Shift));
      Pow2Add(Shift * n, Shift);
      assert Shift * n + Shift == Shift * |digits|;
      assert Pow2(Shift * |digits|) == Pow2(Shift * n) * Pow2(Shift);
    }
  }

  /** A lower part below p plus a digit below b times p stays below b p. */
  lemma TopDigitBelow(low: int, d: int, p: int, b: int)
    requires 0 <= low < p && 0 <= d < b
    ensures low + d * p < p * b
  {
    MulMonotone(d, b - 1, p);
    assert (b - 1) * p == p * b - p;
  }

  /** A normalised number of n digits is at least 2^(30 (n - 1)). */
  lemma ValueAtLeast(digits: seq<nat>)
    requires Normalised(digits) && digits != []
    ensures Value(digits) >= Pow2(Shift * (|digits| - 1))
  {
    var n := |digits| - 1;
    MulAtLeast(digits[n], Pow2(Shift * n));
  }

  // ---------------------------------------------------------------------
  // Arithmetic modulo 2^64
  // ---------------------------------------------------------------------

  lemma ModAdd(a: nat, b: nat, m: nat)
    requires m > 0
    ensures (a % m + b) % m == (a + b) % m
  {
    DivModUnique(a + b, m, a / m + (a % m + b) / m, (a % m + b) % m);
  }

  lemma ModMul(a: nat, b: nat, m: nat)
    requires m > 0
    ensures (a % m * b) % m == (a * b) % m
  {
    var q := a / m;
    assert a * b == q * b * m + a % m * b;
    DivModUnique(a * b, m, q * b + (a % m * b) / m, (a % m * b) % m);
  }

  // ---------------------------------------------------------------------
  // printf("%lu")
  // ---------------------------------------------------------------------

  /** The decimal digits of n, most significant first and without leading zeros. */
  function Decimal(n: nat): (r: string)
    ensures |r| >= 1 && (|r| > 1 ==> r[0] != '0')
    ensures forall i :: 0 <= i < |r| ==> '0' <= r[i] <= '9'
  {
    var d := ('0' as int + n % 10) as char;
    if n < 10 then [d] else Decimal(n / 10) + [d]
  }

  /** Reads decimal digits back as a number. */
  function DecimalValue(t: string): nat
    requires forall i :: 0 <= i < |t| ==> '0' <= t[i] <= '9'
  {
    if t == [] then 0 else 10 * DecimalValue(t[..|t| - 1]) + (t[|t| - 1] as int - '0' as int)
  }

  /** The digits printed read back as the number. */
  lemma {:induction false} DecimalRoundTrip(n: nat)
    ensures DecimalValue(Decimal(n)) == n
  {
    var t := Decimal(n);
    if n >= 10 {
      assert t[..|t| - 1] == Decimal(n / 10);
      DecimalRoundTrip(n / 10);
    }
  }

  /** print_number: a '-' for a negative int, then the magnitude and a newline. */
  function NumberText(negative: bool, num: nat): (r: string)
    ensures |r| >= 2 && (r[0] == '-' <==> negative) && r[|r| - 1] == '\n'
    ensures (if negative then r[1..|r| - 1] else r[..|r| - 1]) == Decimal(num)
    ensures r != InvalidText && r != OverflowText
  {
    (if negative then "-" else "") + Decimal(num) + "\n"
  }

  const InvalidText := "Invalid Int Object\n"
  const OverflowText := "C unsigned long int overflow\n"
}
