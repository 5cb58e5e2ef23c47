/**
  Rust's `u8::from_str` (that is, `u8::from_str_radix(s, 10)`) and the
  `ParseIntError` it reports, as used by `str::parse::<u8>`.

  The standard library reads an optional leading `+` (a leading `-` is not a
  sign for an unsigned type, so it is an invalid digit), then folds the digits
  from left to right. For every character it first checks that it is a decimal
  digit and only then whether `acc * 10 + digit` still fits in a `u8`; so the
  first offending position decides between `InvalidDigit` and `PosOverflow`.
 */
module IntParse {
  import opened Wrappers

  /** Rust's `u8`. */
  newtype u8 = x: int | 0 <= x < 256

  /** The kinds of `ParseIntError` that parsing into a `u8` can produce. */
  datatype ParseIntError = Empty | InvalidDigit | PosOverflow

  predicate IsDigit(c: char) {
    '0' <= c <= '9'
  }

  function DigitValue(c: char): (d: nat)
    requires IsDigit(c)
    ensures d < 10
  {
    c as int - '0' as int
  }

  predicate AllDigits(s: string) {
    forall i :: 0 <= i < |s| ==> IsDigit(s[i])
  }

  /**
    The value a string of decimal digits denotes, by positional notation: the
    last digit is the units, the rest is worth ten times its own value.
   */
  function DigitsValue(s: string): nat
    requires AllDigits(s)
  {
    if s == [] then 0 else DigitsValue(s[..|s| - 1]) * 10 + DigitValue(s[|s| - 1])
  }

  /** Some run of digits at the start of `s` already denotes more than 255. */
  predicate Overflows(s: string) {
    exists i :: 0 <= i <= |s| && AllDigits(s[..i]) && DigitsValue(s[..i]) > 255
  }

  /** What remains of the literal once an optional leading `+` is taken off. */
  function Unsigned(s: string): (d: string)
    ensures |d| <= |s| && d == s[|s| - |d|..]
  {
    if s != [] && s[0] == '+' then s[1..] else s
  }

  /** `s` is a literal `u8::from_str` accepts. */
  predicate IsU8Literal(s: string) {
    var d := Unsigned(s);
    d != [] && AllDigits(d) && DigitsValue(d) <= 255
  }

  /**
    The declarative reading of a run of would-be digits: an overflow as soon
    as a run of leading digits passes 255, otherwise the value when all of
    them are digits, otherwise an invalid digit.
   */
  function ReadDigits(d: string): Result<u8, ParseIntError>
  {
    if Overflows(d) then Err(PosOverflow)
    else if AllDigits(d) then
      assert d[..|d|] == d;
      Ok(DigitsValue(d) as u8)
    else Err(InvalidDigit)
  }

  /** The declarative reading of a `u8` literal, signs and errors included. */
  function ReadU8(s: string): Result<u8, ParseIntError>
  {
    if s == [] then Err(Empty)
    else if Unsigned(s) == [] then Err(InvalidDigit)
    else ReadDigits(Unsigned(s))
  }

  /**
    The digit loop of `from_str_radix`: `acc` is the value read so far. A
    non-digit stops it with `InvalidDigit` before the overflow check of the
    same step, which stops it with `PosOverflow`.
   */
  function Accumulate(digits: string, acc: u8): (r: Result<u8, ParseIntError>)
    ensures r.Ok? ==> AllDigits(digits) && acc <= r.value
    ensures r != Err(Empty)
  {
    if digits == [] then Ok(acc)
    else if !IsDigit(digits[0]) then Err(InvalidDigit)
    else if acc as int * 10 + DigitValue(digits[0]) > 255 then Err(PosOverflow)
    else Accumulate(digits[1..], (acc as int * 10 + DigitValue(digits[0])) as u8)
  }

  /** `s.parse::<u8>()`. */
  function ParseU8(s: string): (r: Result<u8, ParseIntError>)
    ensures r == Err(Empty) <==> s == []
    ensures r.Ok? ==> Unsigned(s) != [] && AllDigits(Unsigned(s))
  {
    if s == [] then Err(Empty)
    else if |s| == 1 && (s[0] == '+' || s[0] == '-') then Err(InvalidDigit)
    else Accumulate(Unsigned(s), 0)
  }

  /**
    `ParseIntError`'s `Display` messages. None of them starts with the capital
    `T` that the percentage's own messages start with.
   */
  function ErrorMessage(e: ParseIntError): (m: string)
    ensures m != [] && m[0] != 'T'
  {
    match e
    case Empty => "cannot parse integer from empty string"
    case InvalidDigit => "invalid digit found in string"
    case PosOverflow => "number too large to fit in target type"
  }

  /** The shortest decimal text of `n`, with no sign and no leading zero. */
  function DecimalText(n: nat): (s: string)
    ensures s != [] && AllDigits(s)
  {
    if n < 10 then ['0' + n as char]
    else DecimalText(n / 10) + ['0' + (n % 10) as char]
  }

  // ---------------------------------------------------------------------
  // Properties
  // ---------------------------------------------------------------------

  lemma {:induction false} DigitsValuePrefix(s: string, j: nat)
    requires AllDigits(s) && j <= |s|
    ensures AllDigits(s[..j]) && DigitsValue(s[..j]) <= DigitsValue(s)
    decreases |s|
  {
    if j < |s| {
      var t := s[..|s| - 1];
      assert s[..j] == t[..j];
      DigitsValuePrefix(t, j);
    } else {
      assert s[..j] == s;
    }
  }

  /**
    The digit loop, started after a prefix of digits it has already read,
    ends as the declarative reading of the whole string says.
   */
  lemma {:induction false} AccumulateFrom(s: string, i: nat)
    requires i <= |s| && AllDigits(s[..i]) && DigitsValue(s[..i]) <= 255
    ensures Accumulate(s[i..], DigitsValue(s[..i]) as u8) == ReadDigits(s)
    decreases |s| - i
  {
    var acc := DigitsValue(s[..i]) as u8;
    if i == |s| {
      assert s[..i] == s;
      forall j | 0 <= j <= |s| && AllDigits(s[..j])
        ensures DigitsValue(s[..j]) <= 255
      {
        DigitsValuePrefix(s, j);
      }
    } else if !IsDigit(s[i]) {
      assert !AllDigits(s);
      forall j | 0 <= j <= |s|
        ensures !AllDigits(s[..j]) || DigitsValue(s[..j]) <= 255
      {
        if j > i {
          assert !IsDigit(s[..j][i]);
        } else {
          assert s[..i][..j] == s[..j];
          DigitsValuePrefix(s[..i], j);
        }
      }
    } else {
      var next := s[..i + 1];
      assert next[..|next| - 1] == s[..i];
      assert AllDigits(next);
      assert DigitsValue(next) == acc as int * 10 + DigitValue(s[i]);
      assert s[i..][1..] == s[i + 1..];
      if DigitsValue(next) > 255 {
        assert Overflows(s);
      } else {
        AccumulateFrom(s, i + 1);
      }
    }
  }

  /** `ParseU8` is the declarative reading `ReadU8`. */
  lemma ParseU8Meaning(s: string)
    ensures ParseU8(s) == ReadU8(s)
  {
    if s == [] {
    } else if |s| == 1 && (s[0] == '+' || s[0] == '-') {
      if s[0] == '-' {
        NonDigitFirst(s);
      }
    } else {
      var d := Unsigned(s);
      assert d[..0] == [] && d[0..] == d;
      AccumulateFrom(d, 0);
    }
  }

  lemma NonDigitFirst(d: string)
    requires d != [] && !IsDigit(d[0])
    ensures ReadDigits(d) == Err(InvalidDigit)
  {
  }

  /** `ParseU8` succeeds exactly on `u8` literals, with their value. */
  lemma ParseU8Ok(s: string)
    ensures ParseU8(s).Ok? <==> IsU8Literal(s)
    ensures ParseU8(s).Ok? ==> ParseU8(s).value as int == DigitsValue(Unsigned(s))
  {
    ParseU8Meaning(s);
    var d := Unsigned(s);
    if d != [] && AllDigits(d) && DigitsValue(d) <= 255 {
      forall j | 0 <= j <= |d| ensures !AllDigits(d[..j]) || DigitsValue(d[..j]) <= 255 {
        DigitsValuePrefix(d, j);
      }
    }
  }

  /** Reading back the decimal text of any `u8` gives that `u8`. */
  lemma {:induction false} DecimalTextValue(n: nat)
    ensures DigitsValue(DecimalText(n)) == n
  {
    if n >= 10 {
      var s := DecimalText(n);
      assert s[..|s| - 1] == DecimalText(n / 10);
      DecimalTextValue(n / 10);
    }
  }

  lemma ParseDecimalText(n: u8)
    ensures ParseU8(DecimalText(n as nat)) == Ok(n)
  {
    var s := DecimalText(n as nat);
    DecimalTextValue(n as nat);
    assert Unsigned(s) == s;
    ParseU8Ok(s);
  }

  /**
    A leading zero is read and forgotten: only the value of the number is
    kept, so `"07"` and `"7"` parse alike.
   */
  lemma LeadingZero(s: string)
    requires s != [] && s[0] != '+'
    ensures ParseU8("0" + s) == ParseU8(s)
  {
    var z := "0" + s;
    assert z[0] == '0' && z[1..] == s;
    assert Unsigned(z) == z;
    assert Accumulate(z, 0) == Accumulate(s, 0);
    if s != "-" {
      assert Unsigned(s) == s;
    }
  }

  /** The three errors print three different messages. */
  lemma ErrorMessagesDistinct(a: ParseIntError, b: ParseIntError)
    ensures a != b ==> ErrorMessage(a) != ErrorMessage(b)
  {
  }
}
