/**
 * The reply parse of `grade_difficulty`: `int(response.strip())`, or the
 * sentinel text when `int()` raises `ValueError`.
 */
module Difficulty {
  import opened Wrappers
  import opened PyStr

  /** What `grade_difficulty` returns: an int, or a message string. */
  datatype Grade = Int(n: int) | Unclear(message: string)

  const UnclearMessage: string := "Difficulty assessment unclear."

  predicate IsDigit(c: char) {
    '0' <= c <= '9'
  }

  predicate AllDigits(s: string) {
    forall k :: 0 <= k < |s| ==> IsDigit(s[k])
  }

  /**
   * CPython's default limit on the number of digits `int()` reads from text
   * and `str()` writes for an int (`sys.get_int_max_str_digits()`); past it
   * both raise `ValueError`.
   */
  const MaxStrDigits: nat := 4300

  /** `s` reads as `sign + digits`: an optional sign, then one to `MaxStrDigits` ASCII digits. */
  ghost predicate Literal(s: string, sign: string, digits: string) {
    && sign in {"", "+", "-"}
    && s == sign + digits
    && digits != []
    && AllDigits(digits)
    && |digits| <= MaxStrDigits
  }

  /** The texts `int()` accepts in this model. */
  ghost predicate IsIntLiteral(s: string) {
    exists sign: string, digits: string :: Literal(s, sign, digits)
  }

  function DigitValue(c: char): nat
    requires IsDigit(c)
  {
    c as int - '0' as int
  }

  function DigitChar(d: nat): char
    requires d < 10
  {
    ('0' as int + d) as char
  }

  /** The value of a digit string, read left to right. */
  function DigitsValue(ds: string): nat
    requires AllDigits(ds)
  {
    if ds == [] then 0 else DigitsValue(ds[..|ds| - 1]) * 10 + DigitValue(ds[|ds| - 1])
  }

  /** The value of `sign + digits`. */
  function SignedValue(sign: string, digits: string): int
    requires AllDigits(digits)
  {
    if sign == "-" then -(DigitsValue(digits) as int) else DigitsValue(digits)
  }

  /** The sign `int()` reads: the first character when it is `+` or `-`, otherwise none. */
  function SignOf(s: string): string {
    if s != [] && (s[0] == '+' || s[0] == '-') then s[..1] else ""
  }

  /** `int(s)` for a string already stripped of whitespace. */
  function ParseInt(s: string): (r: Option<int>)
    ensures r.Some? <==> IsIntLiteral(s)
    ensures forall sign, digits :: Literal(s, sign, digits) ==> r == Some(SignedValue(sign, digits))
  {
    var sign := SignOf(s);
    var digits := s[|sign|..];
    assert s == sign + digits;
    if digits == [] || !AllDigits(digits) || |digits| > MaxStrDigits then
      NotLiteral(s, sign, digits);
      None
    else
      assert sign == "" || sign == [s[0]];
      assert Literal(s, sign, digits);
      LiteralUnique(s);
      Some(SignedValue(sign, digits))
  }

  /** A literal splits at the sign `SignOf` reads and nowhere else. */
  lemma LiteralSplit(s: string, sign: string, digits: string)
    requires Literal(s, sign, digits)
    ensures sign == SignOf(s) && digits == s[|sign|..]
  {
    if sign == "" {
      assert s == digits && IsDigit(s[0]);
    } else {
      assert s[0] == sign[0] && s[..1] == sign;
    }
    assert s[|sign|..] == digits;
  }

  /** Every way of reading `s` as a literal is the one at `SignOf(s)`. */
  lemma LiteralUnique(s: string)
    ensures forall sign, digits :: Literal(s, sign, digits) ==> sign == SignOf(s) && digits == s[|SignOf(s)|..]
  {
    forall sign, digits | Literal(s, sign, digits)
      ensures sign == SignOf(s) && digits == s[|SignOf(s)|..]
    {
      LiteralSplit(s, sign, digits);
    }
  }

  /** When the split after an optional sign fails, no other split succeeds either. */
  lemma NotLiteral(s: string, sign: string, digits: string)
    requires sign == SignOf(s)
    requires s == sign + digits
    requires digits == [] || !AllDigits(digits) || |digits| > MaxStrDigits
    ensures !IsIntLiteral(s)
  {
    forall sign': string, digits': string | sign' in {"", "+", "-"} && s == sign' + digits'
      ensures digits' == [] || !AllDigits(digits') || |digits'| > MaxStrDigits
    {
      if sign' == "" {
        if s != [] && (s[0] == '+' || s[0] == '-') {
          assert digits'[0] == s[0];
        } else {
          assert sign == "";
          assert digits' == s == digits;
        }
      } else {
        assert s[..1] == sign';
        assert digits' == digits;
      }
    }
  }

  /** `grade_difficulty` after the model call: the stripped reply as an int, or the sentinel. */
  function GradeDifficulty(reply: string): (g: Grade)
    ensures g.Int? <==> IsIntLiteral(Strip(reply))
    ensures forall sign, digits :: Literal(Strip(reply), sign, digits) ==> g == Int(SignedValue(sign, digits))
    ensures g.Unclear? ==> g.message == UnclearMessage
  {
    match ParseInt(Strip(reply))
    case Some(n) => Int(n)
    case None => Unclear(UnclearMessage)
  }

  // ---------------------------------------------------------------------
  // Round trip with Python's `str(n)`

  /** Python's `str(n)` for a natural number. */
  function NatDecimal(n: nat): string
  {
    if n < 10 then [DigitChar(n)] else NatDecimal(n / 10) + [DigitChar(n % 10)]
  }

  /** Python's `str(n)`. */
  function Decimal(n: int): string {
    if n < 0 then "-" + NatDecimal(-n) else NatDecimal(n)
  }

  function Magnitude(n: int): nat {
    if n < 0 then -n else n
  }

  /** `str(n)` does not raise: `n` has at most `MaxStrDigits` decimal digits. */
  predicate Printable(n: int) {
    |NatDecimal(Magnitude(n))| <= MaxStrDigits
  }

  lemma {:induction false} NatDecimalDigits(n: nat)
    ensures NatDecimal(n) != [] && AllDigits(NatDecimal(n))
    ensures DigitsValue(NatDecimal(n)) == n
  {
    var s := NatDecimal(n);
    if n >= 10 {
      NatDecimalDigits(n / 10);
      assert s[..|s| - 1] == NatDecimal(n / 10);
    }
  }

  /** `int(str(n)) == n` whenever `str(n)` does not raise. */
  lemma ParseDecimal(n: int)
    requires Printable(n)
    ensures ParseInt(Decimal(n)) == Some(n)
  {
    NatDecimalDigits(Magnitude(n));
    if n < 0 {
      ParseNegativeDigits(NatDecimal(-n));
    } else {
      ParseDigits(NatDecimal(n));
    }
  }

  /** Unsigned digits, no more than the limit, read as their value. */
  lemma ParseDigits(ds: string)
    requires ds != [] && AllDigits(ds) && |ds| <= MaxStrDigits
    ensures ParseInt(ds) == Some(DigitsValue(ds) as int)
  {
    assert Literal(ds, "", ds) by { assert ds == "" + ds; }
  }

  /** A minus sign followed by digits, no more than the limit, reads as their negated value. */
  lemma ParseNegativeDigits(ds: string)
    requires ds != [] && AllDigits(ds) && |ds| <= MaxStrDigits
    ensures ParseInt("-" + ds) == Some(-(DigitsValue(ds) as int))
  {
    var s := "-" + ds;
    assert "-" in {"", "+", "-"};
    assert Literal(s, "-", ds);
    assert SignedValue("-", ds) == -(DigitsValue(ds) as int);
  }

  /** Whatever whitespace surrounds it, the decimal text of a printable `n` is graded as `n`. */
  lemma GradeOfDecimal(a: string, n: int, b: string)
    requires AllSpace(a) && AllSpace(b)
    requires Printable(n)
    ensures GradeDifficulty(a + Decimal(n) + b) == Int(n)
  {
    NatDecimalDigits(Magnitude(n));
    var d := Decimal(n);
    assert !IsSpace(d[0]) && !IsSpace(d[|d| - 1]);
    StripSurrounded(a, d, b);
    ParseDecimal(n);
  }

  /** A reply of more than `MaxStrDigits` digits makes `int()` raise, so it gives the sentinel. */
  lemma TooManyDigitsUnclear(ds: string)
    requires ds != [] && AllDigits(ds) && |ds| > MaxStrDigits
    ensures GradeDifficulty(ds) == Unclear(UnclearMessage)
  {
    assert IsDigit(ds[0]) && IsDigit(ds[|ds| - 1]);
    StripSurrounded("", ds, "");
    assert "" + ds + "" == ds;
    NotLiteral(ds, "", ds);
  }

  /** A leading plus sign is read and dropped: "+3" is graded 3. */
  lemma PlusSignIsRead()
    ensures GradeDifficulty("+3") == Int(3)
  {
    var s := "+3";
    StripSurrounded("", s, "");
    assert "" + s + "" == s;
    assert Literal(s, "+", "3");
    assert DigitsValue("3") == 3 by { assert "3"[..0] == ""; }
  }

  /** A reply of "3" is graded 3. */
  lemma ThreeIsGradedThree()
    ensures GradeDifficulty("3") == Int(3)
  {
    assert Decimal(3) == "3";
    assert Printable(3);
    GradeOfDecimal("", 3, "");
    assert "" + "3" + "" == "3";
  }

  /** A reply in words, such as "pretty hard", gives the sentinel message. */
  lemma WordsAreUnclear()
    ensures GradeDifficulty("pretty hard") == Unclear(UnclearMessage)
  {
    var s := "pretty hard";
    StripSurrounded("", s, "");
    assert "" + s + "" == s;
    assert !IsIntLiteral(s) by {
      NotLiteral(s, "", s);
    }
  }
}
