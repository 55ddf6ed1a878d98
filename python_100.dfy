/**
 * print_python_int of 100-python.c: calculate_number adds digit i times
 * 1UL << (30 i) in an unsigned long, and the overflow message is printed
 * only when that sum comes out 0 for an int of more than three digits.
 */
module Python100 {
  import opened Arith
  import opened PyLong
  import Python5

  /**
   * The shift count calculate_number uses for digit i.  A count of 64 or
   * more is undefined in C; this is the x86-64 shift, which takes the
   * count modulo 64.
   */
  function ShiftCount(i: nat): (k: nat)
    ensures k < 64
    ensures i <= 2 ==> k == Shift * i
  {
    Shift * i % 64
  }

  /** calculate_number's sum over the digits, each step modulo 2^64. */
  function Calculated(digits: seq<nat>): (num: nat)
    ensures num < ULongLimit
  {
    if digits == [] then 0
    else
      var n := |digits| - 1;
      var term := digits[n] * Pow2(ShiftCount(n)) % ULongLimit;
      (Calculated(digits[..n]) + term) % ULongLimit
  }

  /** Up to three digits no shift reaches 64, and the sum is the number modulo 2^64. */
  lemma {:induction false} CalculatedValue(digits: seq<nat>)
    requires |digits| <= 3
    ensures Calculated(digits) == Value(digits) % ULongLimit
  {
    if digits != [] {
      var n := |digits| - 1;
      var init := digits[..n];
      CalculatedValue(init);
      var t := digits[n] * Pow2(Shift * n);
      assert Value(digits) == Value(init) + t;
      ModAdd(Value(init), t % ULongLimit, ULongLimit);
      ModAdd(t, Value(init), ULongLimit);
    }
  }

  /** calculate_number: the loop over the first |size| digits. */
  method CalculateNumber(digits: seq<nat>, size: int) returns (num: nat)
    requires |digits| == (if size < 0 then -size else size)
    ensures num == Calculated(digits)
    ensures |digits| <= 3 ==> num == Value(digits) % ULongLimit
  {
    num := 0;
    var sizeBk := if size < 0 then -size else size;
    for i := 0 to sizeBk
      invariant num == Calculated(digits[..i])
    {
      assert digits[..i + 1][..i] == digits[..i];
      num := (num + digits[i] * Pow2(ShiftCount(i)) % ULongLimit) % ULongLimit;
    }
    assert digits[..sizeBk] == digits;
    if |digits| <= 3 {
      CalculatedValue(digits);
    }
  }

  /** A size that (int) keeps unchanged: the caller's int fits in 32 bits. */
  predicate IntSize(obSize: int)
  {
    -0x8000_0000 < obSize < 0x8000_0000
  }

  /** What print_python_int prints, as written. */
  function Printed(isLong: bool, obSize: int, digits: seq<nat>): (r: string)
    requires IntSize(obSize) && |digits| == (if obSize < 0 then -obSize else obSize)
    ensures r == InvalidText <==> !isLong
    ensures r == OverflowText <==> isLong && |digits| > 3 && Calculated(digits) == 0
  {
    if !isLong then InvalidText
    else if obSize == 0 then "0\n"
    else
      var num := Calculated(digits);
      if num == 0 && (obSize > 3 || obSize < -3) then OverflowText
      else NumberText(obSize < 0, num)
  }

  /** print_python_int, with calculate_number and print_number. */
  method PrintPythonInt(isLong: bool, obSize: int, digits: seq<nat>) returns (out: string)
    requires IntSize(obSize) && |digits| == (if obSize < 0 then -obSize else obSize)
    ensures out == Printed(isLong, obSize, digits)
  {
    if !isLong {
      return InvalidText;
    }
    var size := obSize;
    if size == 0 {
      return "0\n";
    }
    var num := CalculateNumber(digits, size);
    if num == 0 && (size > 3 || size < -3) {
      out := OverflowText;
    } else {
      out := NumberText(size < 0, num);
    }
  }

  /** Whenever the guard of 5-python.c holds, the two programs print the same text. */
  lemma SameAsFive(isLong: bool, obSize: int, digits: seq<nat>)
    requires IntSize(obSize) && |digits| == (if obSize < 0 then -obSize else obSize) && IsDigits(digits)
    requires Python5.Converts(|digits|, digits)
    ensures Printed(isLong, obSize, digits) == Python5.Printed(isLong, obSize, digits)
  {
    CalculatedValue(digits);
    Python5.NoWrap(digits);
  }

  /**
   * The int 2^64 (three digits, the top one 16) prints as 0: its sum
   * wraps to 0, and three digits are too few for the overflow test.
   */
  lemma AsWrittenWraps()
    ensures IsDigits([0, 0, 16]) && Normalised([0, 0, 16])
    ensures Value([0, 0, 16]) == ULongLimit
    ensures Printed(true, 3, [0, 0, 16]) == "0\n"
  {
    Powers();
    var ds: seq<nat> := [0, 0, 16];
    var ds1: seq<nat> := [0];
    var ds2: seq<nat> := [0, 0];
    assert ds1[..0] == [] && ds2[..1] == ds1 && ds[..2] == ds2;
    assert Value(ds1) == 0;
    assert Value(ds2) == 0;
    assert Value(ds) == 16 * Pow2(2 * Shift);
    CalculatedValue(ds);
    DivModUnique(ULongLimit, ULongLimit, 1, 0);
    assert Calculated(ds) == 0;
    assert Decimal(0) == "0";
  }

  /** The evident intent: the overflow message for every int of 2^64 or more. */
  function PrintedIntended(isLong: bool, obSize: int, digits: seq<nat>): (r: string)
    requires IntSize(obSize) && |digits| == (if obSize < 0 then -obSize else obSize)
    ensures r == InvalidText <==> !isLong
    ensures isLong ==> (r == OverflowText <==> Value(digits) >= ULongLimit)
  {
    if !isLong then InvalidText
    else if obSize == 0 then "0\n"
    else if Value(digits) >= ULongLimit then OverflowText
    else NumberText(obSize < 0, Value(digits))
  }

  /** For every normalised int the intended printer agrees with 5-python.c. */
  lemma IntendedAsFive(isLong: bool, obSize: int, digits: seq<nat>)
    requires IntSize(obSize) && |digits| == (if obSize < 0 then -obSize else obSize)
    requires IsDigits(digits) && Normalised(digits)
    ensures PrintedIntended(isLong, obSize, digits) == Python5.Printed(isLong, obSize, digits)
  {
    Python5.ConvertsFits(digits);
    if isLong && obSize == 0 {
      assert Decimal(0) == "0";
    }
  }

  /** Where no sum wraps, the program as written already prints what was intended. */
  lemma IntendedWhereNoWrap(isLong: bool, obSize: int, digits: seq<nat>)
    requires IntSize(obSize) && |digits| == (if obSize < 0 then -obSize else obSize)
    requires |digits| <= 3 && Value(digits) < ULongLimit
    ensures Printed(isLong, obSize, digits) == PrintedIntended(isLong, obSize, digits)
  {
    CalculatedValue(digits);
    DivModUnique(Value(digits), ULongLimit, 0, Value(digits));
  }
}
