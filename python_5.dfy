/**
 * print_python_int of 5-python.c: the magnitude is summed in an
 * unsigned long, digit times power, with the power multiplied by 2^30
 * after each digit; the sum is printed only when the int has fewer than
 * three digits, or three with a top digit below 16.
 */
module Python5 {
  import opened Arith
  import opened PyLong

  /** The guard: fewer than 3 digits, or 3 with ob_digit[2] < 16. */
  predicate Converts(size: nat, digits: seq<nat>)
    requires |digits| == size
  {
    size < 3 || (size == 3 && digits[2] < 16)
  }

  /** What print_python_int prints, in terms of the exact magnitude. */
  function Printed(isLong: bool, obSize: int, digits: seq<nat>): (r: string)
    requires |digits| == if obSize < 0 then -obSize else obSize
    ensures r == InvalidText <==> !isLong
    ensures isLong ==> (r == OverflowText <==> !Converts(|digits|, digits))
  {
    if !isLong then InvalidText
    else
      var size := if obSize < 0 then -obSize else obSize;
      if Converts(size, digits) then NumberText(obSize < 0, Value(digits))
      else OverflowText
  }

  /**
   * Under the guard the number is below 2^64, so the unsigned long sum
   * never wraps; for a normalised int the converse holds too, so the
   * guard converts exactly the ints an unsigned long can hold.
   */
  lemma ConvertsFits(digits: seq<nat>)
    requires IsDigits(digits)
    ensures Converts(|digits|, digits) ==> Value(digits) < ULongLimit
    ensures Normalised(digits) && Value(digits) < ULongLimit ==> Converts(|digits|, digits)
  {
    Powers();
    var n := |digits|;
    if n < 3 {
      ValueBound(digits);
      Pow2Monotone(Shift * n, 2 * Shift);
    } else if n == 3 {
      var init := digits[..2];
      DigitsPrefix(digits, 2);
      ValueBound(init);
      assert Value(digits) == Value(init) + digits[2] * Pow2(2 * Shift);
      if digits[2] < 16 {
        assert digits[2] * Pow2(2 * Shift) <= 15 * 0x1000_0000_0000_0000;
      } else {
        assert digits[2] * Pow2(2 * Shift) >= 16 * 0x1000_0000_0000_0000;
      }
    } else if Normalised(digits) {
      ValueAtLeast(digits);
      Pow2Monotone(64, Shift * (n - 1));
    }
  }

  /** One turn of the loop keeps base10 the sum modulo 2^64 ... */
  lemma SumStep(digits: seq<nat>, i: nat)
    requires i < |digits|
    ensures var w := ULongLimit; var p := Pow2(Shift * i);
      (Value(digits[..i]) % w + p % w * digits[i] % w) % w == Value(digits[..i + 1]) % w
  {
    var w := ULongLimit;
    var p := Pow2(Shift * i);
    var v := Value(digits[..i]);
    var t := p * digits[i];
    assert digits[..i + 1][..i] == digits[..i];
    assert Value(digits[..i + 1]) == v + t;
    ModMul(p, digits[i], w);
    assert p % w * digits[i] % w == t % w;
    ModAdd(v, t % w, w);
    ModAdd(t, v, w);
  }

  /** ... and pow_base_pylong the power modulo 2^64. */
  lemma PowStep(i: nat)
    ensures Pow2(Shift * i) % ULongLimit * Pow2(Shift) % ULongLimit == Pow2(Shift * (i + 1)) % ULongLimit
  {
    ModMul(Pow2(Shift * i), Pow2(Shift), ULongLimit);
    Pow2Add(Shift * i, Shift);
  }

  /** Under the guard the sum is the number itself. */
  lemma NoWrap(digits: seq<nat>)
    requires IsDigits(digits) && Converts(|digits|, digits)
    ensures Value(digits) % ULongLimit == Value(digits)
  {
    ConvertsFits(digits);
    DivModUnique(Value(digits), ULongLimit, 0, Value(digits));
  }

  /**
   * The loop of print_python_int: base10 += pow_base_pylong * digit and
   * pow_base_pylong *= 2^30, each in 64-bit unsigned arithmetic.
   */
  method PrintPythonInt(isLong: bool, obSize: int, digits: seq<nat>) returns (out: string)
    requires |digits| == (if obSize < 0 then -obSize else obSize) && IsDigits(digits)
    ensures out == Printed(isLong, obSize, digits)
  {
    if !isLong {
      return InvalidText;
    }
    var size := if obSize < 0 then -obSize else obSize;
    var negative := obSize < 0;
    if size < 3 || (size == 3 && digits[2] < 16) {
      Powers();
      var base := Pow2(Shift);
      var base10: nat := 0;
      var pow: nat := 1;
      var i := 0;
      while i < size
        invariant 0 <= i <= size
        invariant base10 == Value(digits[..i]) % ULongLimit
        invariant pow == Pow2(Shift * i) % ULongLimit
      {
        SumStep(digits, i);
        PowStep(i);
        base10 := (base10 + pow * digits[i] % ULongLimit) % ULongLimit;
        pow := pow * base % ULongLimit;
        i := i + 1;
      }
      assert digits[..size] == digits;
      NoWrap(digits);
      out := NumberText(negative, base10);
    } else {
      out := OverflowText;
    }
  }
}
