/** Plain decimal text: the parser, the printer, and their inverse laws
    (crates/quickhouse-core/src/decimal.rs). */
module DecimalText {
  import opened Options
  import opened PowersOfTen
  import opened Digits
  import opened Decimal
  import opened DecimalRounding

  // ----- strings -----

  /** Unicode White_Space, what `str::trim` removes. */
  predicate IsWhitespace(c: char) {
    var u := c as int;
    || 0x9 <= u <= 0xD || u == 0x20 || u == 0x85 || u == 0xA0 || u == 0x1680
    || 0x2000 <= u <= 0x200A || u == 0x2028 || u == 0x2029 || u == 0x202F || u == 0x205F || u == 0x3000
  }

  predicate IsDigit(c: char) { '0' <= c <= '9' }

  predicate AllDigits(s: string) { forall i | 0 <= i < |s| :: IsDigit(s[i]) }

  predicate AllWhitespace(s: string) { forall i | 0 <= i < |s| :: IsWhitespace(s[i]) }

  function TrimStart(s: string): string {
    if s != "" && IsWhitespace(s[0]) then TrimStart(s[1..]) else s
  }

  function TrimEnd(s: string): string {
    if s != "" && IsWhitespace(s[|s| - 1]) then TrimEnd(s[..|s| - 1]) else s
  }

  function Trim(s: string): string { TrimEnd(TrimStart(s)) }

  /** Where `c` first is in `s`; `|s|` when it is not. */
  function Find(s: string, c: char): (i: nat)
    ensures i <= |s| && c !in s[..i]
    ensures i < |s| ==> s[i] == c
  {
    if s == "" || s[0] == c then 0
    else
      var i := 1 + Find(s[1..], c);
      assert s[..i] == [s[0]] + s[1..][..i - 1];
      i
  }

  function DigitOf(c: char): Digit
    requires IsDigit(c)
  {
    c as int - '0' as int
  }

  function DigitsOf(s: string): (ds: seq<Digit>)
    requires AllDigits(s)
    ensures |ds| == |s|
  {
    seq(|s|, i requires 0 <= i < |s| => DigitOf(s[i]))
  }

  // ----- parsing -----

  function NumberIn(s: string): nat
    requires AllDigits(s)
  {
    Val(DigitsOf(s))
  }

  /** `str::parse::<i64>`. */
  function ParseI64(s: string): Option<int> {
    var signed := s != "" && (s[0] == '-' || s[0] == '+');
    var digits := if signed then s[1..] else s;
    if digits == "" || !AllDigits(digits) then None
    else
      var n: int := NumberIn(digits);
      var v := if signed && s[0] == '-' then -n else n;
      if I64_MIN <= v <= I64_MAX then Some(v) else None
  }

  datatype DecimalText = Parsed(negative: bool, magnitude: int, scale: int) | MagnitudeOverflow

  function SplitSign(s: string): (bool, string) {
    if s != "" && s[0] == '-' then (true, s[1..])
    else if s != "" && s[0] == '+' then (false, s[1..])
    else (false, s)
  }

  function SplitPoint(s: string): (string, string) {
    var i := Find(s, '.');
    if i < |s| then (s[..i], s[i + 1..]) else (s, "")
  }

  predicate ValidParts(intPart: string, fracPart: string) {
    (intPart != "" || fracPart != "") && AllDigits(intPart) && AllDigits(fracPart)
  }

  /** Append one digit, or `None` on `i128` overflow. */
  function PushDigit(magnitude: int, d: Digit): Option<int> {
    match Checked(magnitude * 10)
    case None => None
    case Some(m) => Checked(m + d)
  }

  /** What a digit string with its point after `point` digits parses to. */
  ghost function ParsedDigits(negative: bool, ds: seq<Digit>, point: int): DecimalText {
    match Keep(ds, point)
    case Overflow => MagnitudeOverflow
    case Value(m, s) => Parsed(negative, m, s)
  }

  /** The meaning of a text: the digits that fit, by `Keep`, or an error for anything that is not an
      optionally signed decimal. */
  ghost function TextMeaning(s: string): Result<DecimalText> {
    var (negative, rest) := SplitSign(Trim(s));
    var (intPart, fracPart) := SplitPoint(rest);
    if ValidParts(intPart, fracPart)
    then Ok(ParsedDigits(negative, DigitsOf(intPart) + DigitsOf(fracPart), |intPart|))
    else Err
  }

  /** `PushDigit` succeeds exactly while the digits read so far fit. */
  lemma PushExtends(ds: seq<Digit>, i: nat)
    requires i < |ds| && Val(ds[..i]) <= I128_MAX
    ensures match PushDigit(Val(ds[..i]), ds[i])
            case Some(m) => m == Val(ds[..i + 1]) <= I128_MAX
            case None => LongestThatFits(ds, i)
  {
    assert ds[..i + 1][..i] == ds[..i];
  }

  /** Where reading stops decides what the digits parse to. */
  lemma StopsAt(negative: bool, ds: seq<Digit>, point: int, i: nat)
    requires LongestThatFits(ds, i)
    ensures ParsedDigits(negative, ds, point)
         == if i < |ds| && i < point then MagnitudeOverflow else Parsed(negative, Val(ds[..i]), i - point)
  {
    KeepAt(ds, point, i);
  }

  lemma WholeFits(negative: bool, ds: seq<Digit>, point: int)
    requires Val(ds) <= I128_MAX
    ensures ParsedDigits(negative, ds, point) == Parsed(negative, Val(ds), |ds| - point)
  {
    assert ds[..|ds|] == ds;
    StopsAt(negative, ds, point, |ds|);
  }

  /** The integer digits, or an overflow at the first that does not fit. */
  method ReadIntegers(ints: seq<Digit>, ghost ds: seq<Digit>) returns (r: Option<int>)
    requires ints <= ds
    ensures r.Some? ==> r.value == Val(ds[..|ints|]) <= I128_MAX
    ensures r.None? ==> exists i: nat | i < |ints| :: LongestThatFits(ds, i)
  {
    var magnitude := 0;
    for i := 0 to |ints|
      invariant magnitude == Val(ds[..i]) <= I128_MAX
    {
      PushExtends(ds, i);
      match PushDigit(magnitude, ints[i]) {
        case Some(m) => magnitude := m;
        case None => return None;
      }
    }
    return Some(magnitude);
  }

  /** The fractional digits that fit after `ints`, and how many they are. */
  method ReadFractions(start: int, fracs: seq<Digit>, ghost ints: seq<Digit>) returns (magnitude: int, scale: nat)
    requires start == Val((ints + fracs)[..|ints|]) <= I128_MAX
    ensures LongestThatFits(ints + fracs, |ints| + scale) && magnitude == Val((ints + fracs)[..|ints| + scale])
  {
    ghost var ds := ints + fracs;
    magnitude, scale := start, 0;
    while scale < |fracs|
      invariant scale <= |fracs|
      invariant magnitude == Val(ds[..|ints| + scale]) <= I128_MAX
    {
      PushExtends(ds, |ints| + scale);
      match PushDigit(magnitude, fracs[scale]) {
        case Some(m) => magnitude, scale := m, scale + 1;
        case None => return;
      }
    }
  }

  /** The two digit loops: integer digits until one overflows, then fractional digits until one no
      longer fits. */
  method ReadDigits(negative: bool, ints: seq<Digit>, fracs: seq<Digit>) returns (r: DecimalText)
    ensures r == ParsedDigits(negative, ints + fracs, |ints|)
  {
    ghost var ds := ints + fracs;
    var whole := ReadIntegers(ints, ds);
    if whole.None? {
      ghost var i: nat :| i < |ints| && LongestThatFits(ds, i);
      StopsAt(negative, ds, |ints|, i);
      return MagnitudeOverflow;
    }
    var magnitude, scale := ReadFractions(whole.value, fracs, ints);
    StopsAt(negative, ds, |ints|, |ints| + scale);
    return Parsed(negative, magnitude, scale);
  }

  method ParseDecimalText(s: string) returns (r: Result<DecimalText>)
    ensures r == TextMeaning(s)
  {
    var (negative, rest) := SplitSign(Trim(s));
    var (intPart, fracPart) := SplitPoint(rest);
    if !ValidParts(intPart, fracPart) {
      return Err;
    }
    var text := ReadDigits(negative, DigitsOf(intPart), DigitsOf(fracPart));
    return Ok(text);
  }

  // ----- which texts are numbers -----

  /** `s` is `intPart.fracPart` (the point optional when nothing follows it) with an optional sign and
      surrounding whitespace. */
  ghost predicate Spells(s: string, lead: string, sign: string, negative: bool, intPart: string,
                         point: string, fracPart: string, trail: string)
  {
    && s == lead + (sign + (intPart + (point + fracPart)) + trail)
    && AllWhitespace(lead) && AllWhitespace(trail)
    && (if negative then sign == "-" else sign == "" || sign == "+")
    && ValidParts(intPart, fracPart)
    && (point == "." || (point == "" && fracPart == ""))
  }

  lemma {:induction false} TrimStartSkips(lead: string, body: string)
    requires AllWhitespace(lead)
    requires body == "" || !IsWhitespace(body[0])
    ensures TrimStart(lead + body) == body
  {
    if lead != "" {
      assert (lead + body)[1..] == lead[1..] + body;
      TrimStartSkips(lead[1..], body);
    } else {
      assert lead + body == body;
    }
  }

  lemma {:induction false} TrimEndSkips(body: string, trail: string)
    requires AllWhitespace(trail)
    requires body == "" || !IsWhitespace(body[|body| - 1])
    ensures TrimEnd(body + trail) == body
  {
    if trail != "" {
      assert (body + trail)[..|body + trail| - 1] == body + trail[..|trail| - 1];
      TrimEndSkips(body, trail[..|trail| - 1]);
    } else {
      assert body + trail == body;
    }
  }

  lemma {:induction false} FindFirst(a: string, c: char, b: string)
    requires c !in a
    ensures Find(a + [c] + b, c) == |a|
  {
    if a != "" {
      FindFirst(a[1..], c, b);
      assert (a + [c] + b)[1..] == a[1..] + [c] + b;
    }
  }

  lemma PointSplits(intPart: string, point: string, fracPart: string)
    requires AllDigits(intPart)
    requires point == "." || (point == "" && fracPart == "")
    ensures SplitPoint(intPart + (point + fracPart)) == (intPart, fracPart)
  {
    var number := intPart + (point + fracPart);
    assert '.' !in intPart;
    if point == "." {
      FindFirst(intPart, '.', fracPart);
      assert number == intPart + ['.'] + fracPart;
      assert number[..|intPart|] == intPart;
      assert number[|intPart| + 1..] == fracPart;
    } else {
      assert number == intPart;
    }
  }

  lemma SignSplits(sign: string, negative: bool, number: string)
    requires if negative then sign == "-" else sign == "" || sign == "+"
    requires number != "" && (IsDigit(number[0]) || number[0] == '.')
    ensures SplitSign(sign + number) == (negative, number)
  {
    if sign != "" {
      assert (sign + number)[1..] == number;
    } else {
      assert sign + number == number;
    }
  }

  /** Every spelling parses to its own sign and digits. */
  lemma {:induction false} SpellingParses(s: string, lead: string, sign: string, negative: bool, intPart: string,
                                          point: string, fracPart: string, trail: string)
    requires Spells(s, lead, sign, negative, intPart, point, fracPart, trail)
    ensures TextMeaning(s)
         == Ok(ParsedDigits(negative, DigitsOf(intPart) + DigitsOf(fracPart), |intPart|))
  {
    var number := intPart + (point + fracPart);
    var body := sign + number;
    assert number[0] == (if intPart != "" then intPart[0] else '.');
    assert number[|number| - 1] == (if fracPart != "" then fracPart[|fracPart| - 1]
                                    else if point != "" then '.' else intPart[|intPart| - 1]);
    TrimStartSkips(lead, body + trail);
    TrimEndSkips(body, trail);
    SignSplits(sign, negative, number);
    PointSplits(intPart, point, fracPart);
  }

  lemma {:induction false} TrimStartSplits(s: string) returns (lead: string)
    ensures s == lead + TrimStart(s) && AllWhitespace(lead)
  {
    lead := "";
    if s != "" && IsWhitespace(s[0]) {
      var rest := TrimStartSplits(s[1..]);
      lead := [s[0]] + rest;
    }
  }

  lemma {:induction false} TrimEndSplits(s: string) returns (trail: string)
    ensures s == TrimEnd(s) + trail && AllWhitespace(trail)
  {
    trail := "";
    if s != "" && IsWhitespace(s[|s| - 1]) {
      var rest := TrimEndSplits(s[..|s| - 1]);
      trail := rest + [s[|s| - 1]];
    }
  }

  lemma PointJoins(rest: string) returns (point: string)
    ensures var (i, f) := SplitPoint(rest);
            rest == i + (point + f) && (point == "." || (point == "" && f == ""))
  {
    var i := Find(rest, '.');
    point := if i < |rest| then "." else "";
    if i < |rest| {
      assert rest == rest[..i] + ("." + rest[i + 1..]);
    }
  }

  lemma SignJoins(body: string) returns (sign: string)
    ensures body == sign + SplitSign(body).1
    ensures if SplitSign(body).0 then sign == "-" else sign == "" || sign == "+"
  {
    var rest := SplitSign(body).1;
    sign := if |rest| == |body| then "" else [body[0]];
  }

  /** Nothing else parses: a text that is not an error is a spelling. */
  lemma {:induction false} ParsedIsSpelled(s: string)
      returns (lead: string, sign: string, negative: bool, intPart: string, point: string,
               fracPart: string, trail: string)
    requires TextMeaning(s) != Err
    ensures Spells(s, lead, sign, negative, intPart, point, fracPart, trail)
  {
    lead := TrimStartSplits(s);
    trail := TrimEndSplits(TrimStart(s));
    var body := Trim(s);
    var (neg, rest) := SplitSign(body);
    negative := neg;
    sign := SignJoins(body);
    var (i, f) := SplitPoint(rest);
    intPart, fracPart := i, f;
    point := PointJoins(rest);
    JoinsWhole(s, lead, body, trail, sign, rest, i + (point + f));
  }

  lemma JoinsWhole(s: string, lead: string, body: string, trail: string, sign: string, rest: string, number: string)
    requires s == lead + TrimStart(s) && TrimStart(s) == body + trail && body == sign + rest && rest == number
    ensures s == lead + (sign + number + trail)
  {
  }

  // ----- the text decoder -----

  /** The cell a parsed text is emitted as: NULL for text that is no decimal, or too wide. */
  ghost function CellOfText(s: string, precision: nat, toScale: int): Option<int> {
    match TextMeaning(s)
    case Ok(Parsed(negative, m, k)) =>
      if 0 <= m <= I128_MAX then EmitMantissa(negative, m, k, precision, toScale) else None
    case _ => None
  }

  /** The `Decimal128` arm of the API decoder's `append_text`: a blank text is an uncounted NULL; one
      that is no decimal, or whose number does not fit, is a NULL counted as a coercion. */
  method AppendText(s: string, precision: nat, toScale: int) returns (cell: Option<int>, coerced: bool)
    ensures Trim(s) == "" ==> cell == None && !coerced
    ensures Trim(s) != "" ==> cell == CellOfText(s, precision, toScale) && coerced == (cell == None)
  {
    TrimTwice(s);
    if Trim(s) == "" {
      return None, false;
    }
    var parsed := ParseDecimalText(Trim(s));
    match parsed {
      case Ok(Parsed(negative, magnitude, scale)) =>
        cell := EmitMantissa(negative, magnitude, scale, precision, toScale);
      case Ok(MagnitudeOverflow) => cell := None;
      case Err => cell := None;
    }
    coerced := cell == None;
  }

  lemma {:induction false} TrimStartResult(s: string)
    ensures TrimStart(s) == "" || !IsWhitespace(TrimStart(s)[0])
  {
    if s != "" && IsWhitespace(s[0]) {
      TrimStartResult(s[1..]);
    }
  }

  lemma {:induction false} TrimEndResult(s: string)
    ensures TrimEnd(s) <= s
    ensures TrimEnd(s) == "" || !IsWhitespace(TrimEnd(s)[|TrimEnd(s)| - 1])
  {
    if s != "" && IsWhitespace(s[|s| - 1]) {
      TrimEndResult(s[..|s| - 1]);
    }
  }

  lemma TrimTwice(s: string)
    ensures Trim(Trim(s)) == Trim(s)
  {
    TrimStartResult(s);
    TrimEndResult(TrimStart(s));
  }

  // ----- printing -----

  function DigitChar(d: Digit): (c: char)
    ensures IsDigit(c) && DigitOf(c) == d
  {
    ('0' as int + d) as char
  }

  /** The digits of `n`, without leading zeros. */
  function Print(n: nat): (s: string)
    ensures AllDigits(s) && s != ""
  {
    if n < 10 then [DigitChar(n)] else Print(n / 10) + [DigitChar(n % 10)]
  }

  function Zeros(n: nat): (s: string)
    ensures |s| == n && AllDigits(s)
  {
    seq(n, _ => '0')
  }

  lemma {:induction false} PrintedValue(n: nat)
    ensures Val(DigitsOf(Print(n))) == n
  {
    var ds := DigitsOf(Print(n));
    if n >= 10 {
      PrintedValue(n / 10);
      assert ds[..|ds| - 1] == DigitsOf(Print(n / 10));
    } else {
      assert ds[..0] == [];
    }
  }

  lemma {:induction false} ZerosValue(n: nat)
    ensures Val(DigitsOf(Zeros(n))) == 0
  {
    var ds := DigitsOf(Zeros(n));
    if n > 0 {
      ZerosValue(n - 1);
      assert ds[..n - 1] == DigitsOf(Zeros(n - 1));
    }
  }

  /** `unsigned_abs`. */
  function Magnitude(value: int): nat {
    if value < 0 then -value else value
  }

  /** A magnitude's digits with the point put in, or the zeros a negative scale stands for. */
  function PlacePoint(digits: string, scale: int): string {
    if scale <= 0 then digits + Zeros(-scale)
    else if |digits| > scale then digits[..|digits| - scale] + ("." + digits[|digits| - scale..])
    else "0" + ("." + (Zeros(scale - |digits|) + digits))
  }

  /** A mantissa as canonical plain text at its scale. */
  function ToText(value: int, scale: int): string {
    (if value < 0 then "-" else "") + PlacePoint(Print(Magnitude(value)), scale)
  }

  /** The point of a printed mantissa splits these two digit strings. */
  function PrintedParts(value: int, scale: nat): (string, string) {
    var digits := Print(Magnitude(value));
    if |digits| > scale then (digits[..|digits| - scale], digits[|digits| - scale..])
    else ("0", Zeros(scale - |digits|) + digits)
  }

  lemma DigitsOfConcat(a: string, b: string)
    requires AllDigits(a) && AllDigits(b)
    ensures AllDigits(a + b) && DigitsOf(a + b) == DigitsOf(a) + DigitsOf(b)
  {
  }

  lemma PaddedValue(a: string, b: string)
    requires AllDigits(a) && AllDigits(b)
    ensures AllDigits(a + b)
    ensures Val(DigitsOf(a + b)) == Shift(Val(DigitsOf(a)), |b|) + Val(DigitsOf(b))
  {
    DigitsOfConcat(a, b);
    ValConcat(DigitsOf(a), DigitsOf(b));
  }

  lemma PrintedPartsValue(value: int, scale: nat)
    ensures var (i, f) := PrintedParts(value, scale);
            && AllDigits(i) && AllDigits(f) && i != "" && |f| == scale
            && Val(DigitsOf(i) + DigitsOf(f)) == Magnitude(value)
  {
    PrintedValue(Magnitude(value));
    PartsOf(Print(Magnitude(value)), scale);
  }

  lemma PartsOf(digits: string, scale: nat)
    requires AllDigits(digits) && digits != ""
    ensures var (i, f) := if |digits| > scale then (digits[..|digits| - scale], digits[|digits| - scale..])
                          else ("0", Zeros(scale - |digits|) + digits);
            && AllDigits(i) && AllDigits(f) && i != "" && |f| == scale
            && Val(DigitsOf(i) + DigitsOf(f)) == Val(DigitsOf(digits))
  {
    if |digits| > scale {
      var i, f := digits[..|digits| - scale], digits[|digits| - scale..];
      DigitsOfConcat(i, f);
      assert i + f == digits;
    } else {
      DigitsOfConcat("0", Zeros(scale - |digits|) + digits);
      OneMoreZero(scale - |digits|, digits);
    }
  }

  lemma OneMoreZero(n: nat, digits: string)
    requires AllDigits(digits)
    ensures AllDigits(Zeros(n + 1) + digits)
    ensures "0" + (Zeros(n) + digits) == Zeros(n + 1) + digits
    ensures Val(DigitsOf(Zeros(n + 1) + digits)) == Val(DigitsOf(digits))
  {
    ZerosValue(n + 1);
    PaddedValue(Zeros(n + 1), digits);
    ShiftIsTimes(0, |digits|);
  }

  /** Printing and parsing undo each other: sign, magnitude and scale all come back, nothing cut. */
  lemma {:induction false} PrintParseRoundTrip(value: int, scale: nat)
    requires -I128_MAX <= value <= I128_MAX
    ensures TextMeaning(ToText(value, scale)) == Ok(Parsed(value < 0, Magnitude(value), scale))
  {
    var (i, f) := PrintedParts(value, scale);
    PrintedPartsValue(value, scale);
    var sign := if value < 0 then "-" else "";
    var point := if scale == 0 then "" else ".";
    PrintedIsSpelled(value, scale);
    SpellingParses(ToText(value, scale), "", sign, value < 0, i, point, f, "");
    WholeFits(value < 0, DigitsOf(i) + DigitsOf(f), |i|);
  }

  lemma PrintedIsSpelled(value: int, scale: nat)
    ensures var (i, f) := PrintedParts(value, scale);
            Spells(ToText(value, scale), "", if value < 0 then "-" else "", value < 0, i,
                   if scale == 0 then "" else ".", f, "")
  {
    var digits := Print(Magnitude(value));
    var (i, f) := PrintedParts(value, scale);
    var point := if scale == 0 then "" else ".";
    PrintedPartsValue(value, scale);
    assert PlacePoint(digits, scale) == i + (point + f) by {
      if scale == 0 {
        assert digits + Zeros(0) == digits == i + ("" + f);
      }
    }
    NothingAround(ToText(value, scale));
  }

  lemma NothingAround(s: string)
    ensures "" + (s + "") == s
  {
  }

  /** Printed at a negative scale, the text is the whole number with the zeros written out. */
  lemma {:induction false} NegativeScaleParse(value: int, zeros: nat)
    requires -I128_MAX <= value <= I128_MAX
    ensures TextMeaning(ToText(value, 0 - zeros))
         == Ok(if Times(Magnitude(value), Pow10(zeros)) <= I128_MAX
               then Parsed(value < 0, Times(Magnitude(value), Pow10(zeros)), 0) else MagnitudeOverflow)
  {
    var i := Print(Magnitude(value)) + Zeros(zeros);
    var sign := if value < 0 then "-" else "";
    var text := ToText(value, 0 - zeros);
    assert text == sign + i;
    assert i + ("" + "") == i;
    NothingAround(text);
    SpellingParses(text, "", sign, value < 0, i, "", "", "");
    PrintedZeros(Magnitude(value), zeros);
    assert DigitsOf(i) + DigitsOf("") == DigitsOf(i);
    WholeNumberParse(value < 0, DigitsOf(i));
  }

  lemma PrintedZeros(n: nat, zeros: nat)
    ensures AllDigits(Print(n) + Zeros(zeros))
    ensures Val(DigitsOf(Print(n) + Zeros(zeros))) == Times(n, Pow10(zeros))
  {
    PrintedValue(n);
    ZerosValue(zeros);
    PaddedValue(Print(n), Zeros(zeros));
    ShiftIsTimes(n, zeros);
  }

  lemma WholeNumberParse(negative: bool, ds: seq<Digit>)
    ensures ParsedDigits(negative, ds, |ds|)
         == if Val(ds) <= I128_MAX then Parsed(negative, Val(ds), 0) else MagnitudeOverflow
  {
    assert ds[..|ds|] == ds;
    if Val(ds) <= I128_MAX {
      WholeFits(negative, ds, |ds|);
    }
  }

  /** A printed decimal is decoded back to the same mantissa by a column of its own scale. */
  lemma {:induction false} PrintedDecodesExactly(value: int, precision: nat, scale: nat)
    requires ValidColumn(precision, scale) && FitsPrecision(value, precision)
    ensures TextMeaning(ToText(value, scale))
         == Ok(Parsed(value < 0, Magnitude(value), scale))
    ensures EmitMantissa(value < 0, Magnitude(value), scale, precision, scale) == Some(value)
  {
    PrecisionFitsI128(precision);
    PrintParseRoundTrip(value, scale);
    OwnScaleEmits(value, precision, scale);
  }

  lemma OwnScaleEmits(value: int, precision: nat, scale: nat)
    requires ValidColumn(precision, scale) && FitsPrecision(value, precision) && -I128_MAX <= value <= I128_MAX
    ensures EmitMantissa(value < 0, Magnitude(value), scale, precision, scale) == Some(value)
  {
    EmitIsCorrect(value < 0, Magnitude(value), scale, precision, scale);
    AtOwnScale(Magnitude(value), scale);
  }
}
