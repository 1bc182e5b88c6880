/**
 * Rust's `u128::from_str` (`str::parse::<u128>()`): decimal digits with an optional
 * single leading '+', read left to right; the value must stay below 2^128.
 */
module Decimal {
  import opened Results

  const U128_BOUND: nat := 0x1_0000_0000_0000_0000_0000_0000_0000_0000

  /** An unsigned 128-bit integer. */
  type U128 = n: nat | n < U128_BOUND

  /** The reasons Rust's integer parse gives for rejecting a string. */
  datatype IntErrorKind = Empty | InvalidDigit | PosOverflow

  predicate IsDigit(c: char) {
    '0' <= c <= '9'
  }

  function DigitValue(c: char): (d: nat)
    requires IsDigit(c)
    ensures d < 10
  {
    c as int - '0' as int
  }

  function DigitChar(d: nat): (c: char)
    requires d < 10
    ensures IsDigit(c) && DigitValue(c) == d
  {
    ('0' as int + d) as char
  }

  predicate AllDigits(s: string) {
    forall i :: 0 <= i < |s| ==> IsDigit(s[i])
  }

  function Pow10(n: nat): (p: nat)
    ensures p >= 1
  {
    if n == 0 then 1 else 10 * Pow10(n - 1)
  }

  /** Value of a digit string, its last digit being the units digit. */
  function DecimalValue(s: string): (v: nat)
    requires AllDigits(s)
    ensures v < Pow10(|s|)
  {
    if s == [] then 0
    else DecimalValue(s[..|s| - 1]) * 10 + DigitValue(s[|s| - 1])
  }

  /** Appending digits never decreases the value. */
  lemma {:induction false} DecimalValueGrows(p: string, q: string)
    requires AllDigits(p) && AllDigits(q)
    ensures AllDigits(p + q) && DecimalValue(p) <= DecimalValue(p + q)
  {
    if q != [] {
      var init := q[..|q| - 1];
      DecimalValueGrows(p, init);
      assert (p + q)[..|p + q| - 1] == p + init;
    } else {
      assert p + q == p;
    }
  }

  /** A suffix of a digit string is a digit string. */
  lemma DigitsOfSuffix(p: string, q: string)
    ensures AllDigits(p + q) ==> AllDigits(q)
  {
    if AllDigits(p + q) {
      forall i | 0 <= i < |q| ensures IsDigit(q[i]) {
        assert q[i] == (p + q)[|p| + i];
      }
    }
  }

  /** The digits that the parse reads: a single leading '+' is skipped unless it is all there is. */
  function Digits(token: string): string {
    if |token| > 1 && token[0] == '+' then token[1..] else token
  }

  /** The strings `u128::from_str` accepts. */
  predicate IsU128Literal(token: string) {
    && token != ""
    && AllDigits(Digits(token))
    && DecimalValue(Digits(token)) < U128_BOUND
  }

  /**
   * The digit loop of the parse. `acc` is the value of the digits `read` so far;
   * each step first rejects a non-digit, then a value that no longer fits in 128 bits.
   */
  function Accumulate(acc: U128, ghost read: string, digits: string): (r: Result<U128, IntErrorKind>)
    requires AllDigits(read) && DecimalValue(read) == acc
    ensures r.Ok? <==> AllDigits(read + digits) && DecimalValue(read + digits) < U128_BOUND
    ensures r.Ok? ==> r.value == DecimalValue(read + digits)
    ensures r.Err? ==> r.error == InvalidDigit || r.error == PosOverflow
    ensures r.Err? && AllDigits(digits) ==> r.error == PosOverflow
    decreases |digits|
  {
    if digits == [] then
      assert read + digits == read;
      Ok(acc)
    else if !IsDigit(digits[0]) then
      assert (read + digits)[|read|] == digits[0];
      Err(InvalidDigit)
    else
      var next := acc * 10 + DigitValue(digits[0]);
      var read' := read + [digits[0]];
      assert read'[..|read'| - 1] == read;
      assert read + digits == read' + digits[1..];
      if next >= U128_BOUND then
        DigitsOfSuffix(read, digits);
        if AllDigits(digits) then
          DecimalValueGrows(read', digits[1..]);
          Err(PosOverflow)
        else
          Err(PosOverflow)
      else
        Accumulate(next, read', digits[1..])
  }

  /** `token.parse::<u128>()`. */
  function ParseU128(token: string): (r: Result<U128, IntErrorKind>)
    ensures r.Ok? <==> IsU128Literal(token)
    ensures r.Ok? ==> r.value == DecimalValue(Digits(token))
    ensures r == Err(Empty) <==> token == ""
    ensures token != "" && AllDigits(Digits(token)) && r.Err? ==> r == Err(PosOverflow)
  {
    assert "" + token == token;
    assert |token| > 1 ==> "" + token[1..] == token[1..];
    if token == "" then Err(Empty)
    else if token[0] == '+' && |token| == 1 then Err(InvalidDigit)
    else if token[0] == '+' then Accumulate(0, "", token[1..])
    else Accumulate(0, "", token)
  }

  /**
   * The digit loop meets a non-digit while the digits before it still fit in 128 bits:
   * the step at that non-digit fails first, so the error is InvalidDigit.
   */
  predicate NonDigitFirst(read: string, digits: string) {
    exists k :: && 0 <= k < |digits|
                && !IsDigit(digits[k])
                && AllDigits(read + digits[..k])
                && DecimalValue(read + digits[..k]) < U128_BOUND
  }

  /** The first failing step of the digit loop decides the error kind. */
  lemma {:induction false} AccumulateErrorKind(acc: U128, read: string, digits: string)
    requires AllDigits(read) && DecimalValue(read) == acc
    ensures Accumulate(acc, read, digits).Err? ==>
              (Accumulate(acc, read, digits).error == InvalidDigit <==> NonDigitFirst(read, digits))
    decreases |digits|
  {
    if digits == [] {
    } else if !IsDigit(digits[0]) {
      assert read + digits[..0] == read;
    } else {
      var next := acc * 10 + DigitValue(digits[0]);
      var read' := read + [digits[0]];
      assert read'[..|read'| - 1] == read;
      if next >= U128_BOUND {
        assert Accumulate(acc, read, digits) == Err(PosOverflow);
        NoNonDigitAfterOverflow(read, digits);
      } else {
        assert Accumulate(acc, read, digits) == Accumulate(next, read', digits[1..]);
        AccumulateErrorKind(next, read', digits[1..]);
        NonDigitFirstStep(read, digits);
      }
    }
  }

  /** Once the digits read overflow, no later non-digit can be the first failure. */
  lemma NoNonDigitAfterOverflow(read: string, digits: string)
    requires AllDigits(read) && digits != [] && IsDigit(digits[0])
    requires DecimalValue(read + [digits[0]]) >= U128_BOUND
    ensures !NonDigitFirst(read, digits)
  {
    var read' := read + [digits[0]];
    if NonDigitFirst(read, digits) {
      var k :| && 0 <= k < |digits| && !IsDigit(digits[k])
               && AllDigits(read + digits[..k]) && DecimalValue(read + digits[..k]) < U128_BOUND;
      assert k >= 1;
      assert read + digits[..k] == read' + digits[1..k];
      DigitsOfSuffix(read', digits[1..k]);
      DecimalValueGrows(read', digits[1..k]);
      assert false;
    }
  }

  /** Reading one digit moves it from the unread digits to the digits read. */
  lemma NonDigitFirstStep(read: string, digits: string)
    requires digits != [] && IsDigit(digits[0])
    ensures NonDigitFirst(read, digits) <==> NonDigitFirst(read + [digits[0]], digits[1..])
  {
    if NonDigitFirst(read, digits) {
      NonDigitFirstForward(read, digits);
    }
    if NonDigitFirst(read + [digits[0]], digits[1..]) {
      NonDigitFirstBackward(read, digits);
    }
  }

  /** A non-digit ahead of the unread digits is still ahead after one more digit is read. */
  lemma NonDigitFirstForward(read: string, digits: string)
    requires digits != [] && IsDigit(digits[0]) && NonDigitFirst(read, digits)
    ensures NonDigitFirst(read + [digits[0]], digits[1..])
  {
    var read', rest := read + [digits[0]], digits[1..];
    var k :| && 0 <= k < |digits| && !IsDigit(digits[k])
             && AllDigits(read + digits[..k]) && DecimalValue(read + digits[..k]) < U128_BOUND;
    var j := k - 1;
    assert 0 <= j < |rest| && !IsDigit(rest[j]);
    assert read + digits[..k] == read' + rest[..j] by {
      assert digits[..k] == [digits[0]] + rest[..j];
    }
  }

  /** A non-digit ahead of the rest was ahead of the whole, since the digit read in between is a digit. */
  lemma NonDigitFirstBackward(read: string, digits: string)
    requires digits != [] && IsDigit(digits[0]) && NonDigitFirst(read + [digits[0]], digits[1..])
    ensures NonDigitFirst(read, digits)
  {
    var read', rest := read + [digits[0]], digits[1..];
    var j :| && 0 <= j < |rest| && !IsDigit(rest[j])
             && AllDigits(read' + rest[..j]) && DecimalValue(read' + rest[..j]) < U128_BOUND;
    var k := j + 1;
    assert 0 <= k < |digits| && !IsDigit(digits[k]);
    assert read' + rest[..j] == read + digits[..k] by {
      assert digits[..k] == [digits[0]] + rest[..j];
    }
  }

  /** A failing parse of a non-empty token reports InvalidDigit exactly when a non-digit comes before any overflow. */
  lemma ParseErrorKind(token: string)
    requires token != "" && ParseU128(token).Err?
    ensures ParseU128(token).error == InvalidDigit <==> NonDigitFirst("", Digits(token))
    ensures ParseU128(token).error != InvalidDigit ==> ParseU128(token).error == PosOverflow
  {
    if token[0] == '+' && |token| == 1 {
      assert "" + token[..0] == "";
    } else if token[0] == '+' {
      AccumulateErrorKind(0, "", token[1..]);
    } else {
      AccumulateErrorKind(0, "", token);
    }
  }

  /** A value too large for 128 bits is reported as an overflow even when junk follows its digits. */
  lemma ParseOverflowBeforeJunk(n: nat, junk: string)
    requires n >= U128_BOUND
    ensures ParseU128(ToDecimal(n) + junk) == Err(PosOverflow)
  {
    var s := ToDecimal(n);
    var token := s + junk;
    assert token[0] == s[0] && IsDigit(s[0]);
    assert Digits(token) == token;
    if AllDigits(junk) {
      DecimalValueGrows(s, junk);
    } else {
      var i :| 0 <= i < |junk| && !IsDigit(junk[i]);
      assert token[|s| + i] == junk[i];
    }
    assert ParseU128(token).Err?;
    ParseErrorKind(token);
    if NonDigitFirst("", token) {
      var k :| && 0 <= k < |token| && !IsDigit(token[k])
               && AllDigits("" + token[..k]) && DecimalValue("" + token[..k]) < U128_BOUND;
      assert k >= |s|;
      assert "" + token[..k] == s + junk[..k - |s|];
      DigitsOfSuffix(s, junk[..k - |s|]);
      DecimalValueGrows(s, junk[..k - |s|]);
      assert false;
    }
  }

  /** Powers of ten grow with the exponent. */
  lemma {:induction false} Pow10Monotone(a: nat, b: nat)
    requires a <= b
    ensures Pow10(a) <= Pow10(b)
    decreases b
  {
    if a < b {
      Pow10Monotone(a, b - 1);
    }
  }

  /** Exponents add when powers of ten multiply. */
  lemma {:induction false} Pow10Add(a: nat, b: nat)
    ensures Pow10(a + b) == Pow10(a) * Pow10(b)
    decreases b
  {
    if b > 0 {
      Pow10Add(a, b - 1);
      assert Pow10(a) * Pow10(b) == Pow10(a) * (10 * Pow10(b - 1)) == 10 * (Pow10(a) * Pow10(b - 1));
    }
  }

  /** 10^38, the largest power of ten below 2^128. */
  lemma Pow10Of38()
    ensures Pow10(38) == 100_000_000_000_000_000_000_000_000_000_000_000_000
  {
    assert Pow10(1) == 10;
    Pow10Add(1, 1);
    Pow10Add(2, 2);
    Pow10Add(4, 4);
    Pow10Add(8, 8);
    Pow10Add(16, 16);
    Pow10Add(32, 4);
    Pow10Add(36, 2);
  }

  /** A token of at most 38 digits is below 10^38 < 2^128, so it always parses. */
  lemma ShortDigitStringsParse(token: string)
    requires token != "" && AllDigits(token) && |token| <= 38
    ensures ParseU128(token) == Ok(DecimalValue(token))
  {
    assert IsDigit(token[0]) && Digits(token) == token;
    Pow10Monotone(|token|, 38);
    Pow10Of38();
  }

  /** Canonical decimal text of `n`: digits only, no sign, no leading zero. */
  function ToDecimal(n: nat): (s: string)
    ensures s != "" && AllDigits(s)
    ensures s[0] != '0' || n == 0
    ensures DecimalValue(s) == n
  {
    if n < 10 then [DigitChar(n)]
    else
      var s := ToDecimal(n / 10) + [DigitChar(n % 10)];
      assert s[..|s| - 1] == ToDecimal(n / 10);
      s
  }

  /** Parsing the canonical text of a 128-bit value gives the value back. */
  lemma ParseToDecimal(n: U128)
    ensures ParseU128(ToDecimal(n)) == Ok(n)
  {
    var s := ToDecimal(n);
    assert IsDigit(s[0]);
    assert Digits(s) == s;
  }

  /** A single leading '+' before a digit string does not change the result. */
  lemma ParsePlusSign(token: string)
    requires token != "" && token[0] != '+'
    ensures ParseU128(['+'] + token) == ParseU128(token)
  {
    assert (['+'] + token)[1..] == token;
  }

  /** Unsigned parsing rejects any minus sign. */
  lemma ParseRejectsMinus(token: string)
    ensures ParseU128(['-'] + token).Err?
  {
    var s := ['-'] + token;
    assert Digits(s) == s && !IsDigit(s[0]);
  }

  /** Digit strings whose value does not fit in 128 bits are rejected as an overflow. */
  lemma ParseOverflow(n: nat)
    requires n >= U128_BOUND
    ensures ParseU128(ToDecimal(n)) == Err(PosOverflow)
  {
    var s := ToDecimal(n);
    assert IsDigit(s[0]) && Digits(s) == s;
  }
}
