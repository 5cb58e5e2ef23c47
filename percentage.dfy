/**
  The percentage option type: `Percentage::from_str` turns text such as
  `"10%"` into a percentage or into one of three errors, checked in a fixed
  order: the trailing `%` symbol first, then the number, then its bound.
 */
module Percentages {
  import opened Wrappers
  import opened IntParse

  /**
    `Percentage(pub u8)`. The field is public, so the type itself does not
    keep the value within 100: that bound is a promise of `FromStr` only.
   */
  datatype Percentage = Percentage(value: u8)

  datatype InvalidPercentage =
    | InvalidNumber(error: ParseIntError)
    | OutOfBound
    | MissingModuleSymbol

  /** `str::rsplit_once`: the text before and after the LAST `sep`, if any. */
  function RSplitOnce(s: string, sep: char): (r: Option<(string, string)>)
    ensures r.None? <==> sep !in s
    ensures r.Some? ==> r.value.0 + [sep] + r.value.1 == s && sep !in r.value.1
  {
    if s == [] then None
    else
      var init, last := s[..|s| - 1], s[|s| - 1];
      assert s == init + [last];
      if last == sep then Some((init, []))
      else match RSplitOnce(init, sep)
        case None => None
        case Some((left, right)) => Some((left, right + [last]))
  }

  /** `<Percentage as FromStr>::from_str`. */
  function FromStr(s: string): (r: Result<Percentage, InvalidPercentage>)
    ensures r.Ok? ==> r.value.value <= 100
  {
    var split := RSplitOnce(s, '%');
    if split.Some? && split.value.1 == [] then
      match ParseU8(split.value.0)
      case Err(e) => Err(InvalidNumber(e))
      case Ok(number) => if number > 100 then Err(OutOfBound) else Ok(Percentage(number))
    else Err(MissingModuleSymbol)
  }

  /**
    `<InvalidPercentage as Display>::fmt`: a number error prints its own
    message; the other two print fixed texts about the percentage.
   */
  function Message(e: InvalidPercentage): (m: string)
    ensures e.InvalidNumber? ==> m == ErrorMessage(e.error)
    ensures m != [] && (!e.InvalidNumber? <==> m[0] == 'T')
  {
    match e
    case InvalidNumber(error) => ErrorMessage(error)
    case OutOfBound =>
      assert "The percentage is out of the [0:100] bounds"[0] == 'T';
      "The percentage is out of the [0:100] bounds"
    case MissingModuleSymbol =>
      assert "The percentage must be followed by the `%` symbol"[0] == 'T';
      "The percentage must be followed by the `%` symbol"
  }

  /** `s` ends with the `%` symbol; then `NumberPart(s)` is what precedes it. */
  predicate EndsWithSymbol(s: string) {
    s != [] && s[|s| - 1] == '%'
  }

  function NumberPart(s: string): string
    requires EndsWithSymbol(s)
  {
    s[..|s| - 1]
  }

  // ---------------------------------------------------------------------
  // Properties
  // ---------------------------------------------------------------------

  /** Any split of `s` around a `sep` with no `sep` after it is the one `RSplitOnce` finds. */
  lemma {:induction false} RSplitOnceUnique(s: string, sep: char, left: string, right: string)
    requires left + [sep] + right == s && sep !in right
    ensures RSplitOnce(s, sep) == Some((left, right))
    decreases |right|
  {
    if right != [] {
      var init := s[..|s| - 1];
      var r := right[..|right| - 1];
      assert right == r + [right[|right| - 1]];
      assert init == left + [sep] + r;
      RSplitOnceUnique(init, sep, left, r);
    } else {
      assert s[..|s| - 1] == left;
    }
  }

  /** `FromStr` goes no further than the symbol check exactly when `s` does not end with `%`. */
  lemma MissingSymbol(s: string)
    ensures FromStr(s) == Err(MissingModuleSymbol) <==> !EndsWithSymbol(s)
  {
  }

  /** Past the symbol check, `FromStr` reads only the text before the last `%`. */
  lemma ReadsNumberPart(s: string)
    requires EndsWithSymbol(s)
    ensures RSplitOnce(s, '%') == Some((NumberPart(s), []))
  {
  }

  /** A number error is reported exactly when the text before the last `%` is no `u8` literal. */
  lemma InvalidNumberCase(s: string, e: ParseIntError)
    ensures FromStr(s) == Err(InvalidNumber(e)) <==> EndsWithSymbol(s) && ReadU8(NumberPart(s)) == Err(e)
  {
    if EndsWithSymbol(s) {
      ReadsNumberPart(s);
      ParseU8Meaning(NumberPart(s));
    } else {
      MissingSymbol(s);
    }
  }

  /** The bound error is reported exactly for the literals of 101 to 255. */
  lemma OutOfBoundCase(s: string)
    ensures FromStr(s) == Err(OutOfBound) <==>
      EndsWithSymbol(s) && IsU8Literal(NumberPart(s)) && DigitsValue(Unsigned(NumberPart(s))) > 100
  {
    if EndsWithSymbol(s) {
      ReadsNumberPart(s);
      ParseU8Ok(NumberPart(s));
    } else {
      MissingSymbol(s);
    }
  }

  /** `FromStr` succeeds exactly on a `u8` literal of at most 100 followed by `%`, with its value. */
  lemma OkCase(s: string)
    ensures FromStr(s).Ok? <==>
      EndsWithSymbol(s) && IsU8Literal(NumberPart(s)) && DigitsValue(Unsigned(NumberPart(s))) <= 100
    ensures FromStr(s).Ok? ==> FromStr(s).value.value as int == DigitsValue(Unsigned(NumberPart(s)))
  {
    if EndsWithSymbol(s) {
      ReadsNumberPart(s);
      ParseU8Ok(NumberPart(s));
    } else {
      MissingSymbol(s);
    }
  }

  /**
    The decimal text of `n` followed by `%` parses to `n` when `n` is at most
    100, is out of bound up to 255, and overflows a `u8` beyond.
   */
  lemma ParseFormatted(n: nat)
    ensures FromStr(DecimalText(n) + "%") ==
      if n <= 100 then Ok(Percentage(n as u8))
      else if n <= 255 then Err(OutOfBound)
      else Err(InvalidNumber(PosOverflow))
  {
    var t := DecimalText(n);
    var s := t + "%";
    assert EndsWithSymbol(s) && NumberPart(s) == t;
    ReadsNumberPart(s);
    if n <= 255 {
      ParseDecimalText(n as u8);
    } else {
      DecimalTextValue(n);
      ParseU8Meaning(t);
      assert t[..|t|] == t;
      assert Overflows(t);
    }
  }

  /** The default option values `"10%"` and `"20%"` parse to 10 and 20. */
  lemma DefaultValues()
    ensures FromStr("10%") == Ok(Percentage(10))
    ensures FromStr("20%") == Ok(Percentage(20))
  {
    ParseFormatted(10);
    assert DecimalText(10) + "%" == "10%";
    ParseFormatted(20);
    assert DecimalText(20) + "%" == "20%";
  }

  /** The number is not normalised: a leading zero changes nothing, as `"07%"` and `"7%"` show. */
  lemma LeadingZeroIgnored(s: string)
    requires s != [] && s[0] != '+' && s != "%"
    ensures FromStr("0" + s) == FromStr(s)
  {
    var z := "0" + s;
    if EndsWithSymbol(s) {
      assert EndsWithSymbol(z) && NumberPart(z) == "0" + NumberPart(s);
      assert NumberPart(s) != [] && NumberPart(s)[0] == s[0];
      ReadsNumberPart(s);
      ReadsNumberPart(z);
      LeadingZero(NumberPart(s));
    } else {
      assert !EndsWithSymbol(z);
      MissingSymbol(s);
      MissingSymbol(z);
    }
  }

  /**
    A doubled symbol leaves a `%` in the number, so `"5%%"` is a number error:
    an invalid digit, or an overflow when the digits before it already pass 255.
   */
  lemma DoubledSymbol(t: string)
    ensures FromStr(t + "%%") ==
      Err(InvalidNumber(if Overflows(Unsigned(t + "%")) then PosOverflow else InvalidDigit))
  {
    var s := t + "%%";
    var left := t + "%";
    assert EndsWithSymbol(s) && NumberPart(s) == left;
    InvalidNumberCase(s, InvalidDigit);
    InvalidNumberCase(s, PosOverflow);
    var d := Unsigned(left);
    assert d != [] && d[|d| - 1] == '%';
    assert !AllDigits(d);
    ReadsNumberPart(s);
    ParseU8Meaning(left);
  }

  /** Each error prints a message of its own. */
  lemma MessagesDistinct(a: InvalidPercentage, b: InvalidPercentage)
    ensures a != b ==> Message(a) != Message(b)
  {
  }

  /** The symbol is checked first: text that does not end with `%` is never read as a number. */
  lemma SymbolCheckedFirst()
    ensures FromStr("abc") == Err(MissingModuleSymbol)
    ensures FromStr("10%x") == Err(MissingModuleSymbol)
  {
  }

  /** Worked number errors: empty, signed, overflowing and doubled-symbol inputs. */
  lemma NumberErrors()
    ensures FromStr("%") == Err(InvalidNumber(Empty))
    ensures FromStr("-1%") == Err(InvalidNumber(InvalidDigit))
    ensures FromStr("256%") == Err(InvalidNumber(PosOverflow))
    ensures FromStr("5%%") == Err(InvalidNumber(InvalidDigit))
  {
    assert NumberPart("%") == "";
    InvalidNumberCase("%", Empty);
    assert NumberPart("-1%") == "-1";
    NonDigitFirst("-1");
    InvalidNumberCase("-1%", InvalidDigit);
    ParseFormatted(256);
    assert DecimalText(256) + "%" == "256%";
    ReadsNumberPart("5%%");
    assert NumberPart("5%%") == "5%";
    assert Accumulate("5%", 0) == Accumulate("%", 5);
  }

  /** Worked successes: a sign or a leading zero is read, and only the value is kept. */
  lemma ValuesKept()
    ensures FromStr("+7%") == Ok(Percentage(7))
    ensures FromStr("07%") == Ok(Percentage(7))
  {
    assert EndsWithSymbol("+7%") && NumberPart("+7%") == "+7";
    ReadsNumberPart("+7%");
    assert Accumulate("7", 0) == Accumulate("", 7);
    ParseFormatted(7);
    assert DecimalText(7) + "%" == "7%";
    LeadingZeroIgnored("7%");
    assert "0" + "7%" == "07%";
  }

  /** The first value past the bound is the bound error, not a number error. */
  lemma JustAboveBound()
    ensures FromStr("101%") == Err(OutOfBound)
  {
    ParseFormatted(101);
    assert DecimalText(101) + "%" == "101%";
  }
}
