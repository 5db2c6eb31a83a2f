/** The PostgreSQL wire and decimal text decoders agree, and round correctly, number by number. */
module DecimalAgreement {
  import opened PowersOfTen
  import opened Digits
  import opened Decimal
  import opened DecimalRounding
  import opened DecimalText
  import opened NumericWire
  import opened Bytes

  /** The number a spelled decimal stands for, sign aside. */
  ghost function TextNumber(intPart: string, fracPart: string): Exact
    requires AllDigits(intPart) && AllDigits(fracPart)
  {
    NumberOf(DigitsOf(intPart) + DigitsOf(fracPart), |intPart|)
  }

  /** Every spelling of a decimal is emitted as its number dictates. The last requirement keeps the
      count of fractional digits inside the parser's `i32`: it holds of any text under 2 GiB. */
  lemma {:induction false} TextDecodes(s: string, lead: string, sign: string, negative: bool, intPart: string,
                                       point: string, fracPart: string, trail: string, precision: nat, toScale: int)
    requires Spells(s, lead, sign, negative, intPart, point, fracPart, trail)
    requires ValidColumn(precision, toScale) && |fracPart| <= I32_MAX
    ensures CellOfText(s, precision, toScale)
         == Emitted(negative, TextNumber(intPart, fracPart), precision, toScale)
  {
    SpellingParses(s, lead, sign, negative, intPart, point, fracPart, trail);
    var ds := DigitsOf(intPart) + DigitsOf(fracPart);
    DecodeIsEmitted(negative, ds, |intPart|, precision, toScale);
    assert Val(ds[..KeptLength(ds)]) <= I128_MAX;
  }

  /** One number, sent as base-10000 groups and written as text, gives one cell: the same mantissa or
      the same NULL, whatever each decoder cut off and wherever each noticed an overflow. */
  lemma {:induction false} WireAndTextAgree(wireNegative: bool, gs: seq<Group>, weight: int, s: string, lead: string,
                                            sign: string, negative: bool, intPart: string, point: string,
                                            fracPart: string, trail: string, precision: nat, toScale: int)
    requires |gs| < 0x8000 && -0x8000 <= weight < 0x8000
    requires Spells(s, lead, sign, negative, intPart, point, fracPart, trail)
    requires ValidColumn(precision, toScale) && |fracPart| <= I32_MAX
    requires SameNumber(WireNumber(gs, weight), TextNumber(intPart, fracPart))
    requires wireNegative == negative || GroupValue(gs) == 0
    ensures Decode(wireNegative, AllGroupDigits(gs), PointOf(weight), precision, toScale)
         == CellOfText(s, precision, toScale)
  {
    WireDecodes(wireNegative, gs, weight, precision, toScale);
    TextDecodes(s, lead, sign, negative, intPart, point, fracPart, trail, precision, toScale);
    EmittedDependsOnNumber(negative, WireNumber(gs, weight), TextNumber(intPart, fracPart), precision, toScale);
    if GroupValue(gs) == 0 {
      SignOfZero(WireNumber(gs, weight), precision, toScale);
    }
  }

  /** The same of the bytes: any well-formed payload and any text of one number are decoded to one cell. */
  lemma {:induction false} PayloadAndTextAgree(buf: seq<Byte>, s: string, lead: string, sign: string, negative: bool,
                                               intPart: string, point: string, fracPart: string, trail: string,
                                               precision: nat, toScale: int)
    requires WellFormed(buf)
    requires Spells(s, lead, sign, negative, intPart, point, fracPart, trail)
    requires ValidColumn(precision, toScale) && |fracPart| <= I32_MAX
    requires SameNumber(WireNumber(Groups(buf), Weight(buf)), TextNumber(intPart, fracPart))
    requires (SignWord(buf) == 0x4000 <==> negative) || GroupValue(Groups(buf)) == 0
    ensures CellOfWire(buf, precision, toScale) == CellOfText(s, precision, toScale)
  {
    WireAndTextAgree(SignWord(buf) == 0x4000, Groups(buf), Weight(buf), s, lead, sign, negative, intPart, point,
                     fracPart, trail, precision, toScale);
  }

  /** And of the payload the server sends for a number, whatever its groups and display scale. */
  lemma {:induction false} SentAndTextAgree(gs: seq<Group>, weight: int, dscale: int, s: string, lead: string,
                                            sign: string, negative: bool, intPart: string, point: string,
                                            fracPart: string, trail: string, precision: nat, toScale: int)
    requires |gs| < 0x8000 && -0x8000 <= weight < 0x8000 && -0x8000 <= dscale < 0x8000
    requires Spells(s, lead, sign, negative, intPart, point, fracPart, trail)
    requires ValidColumn(precision, toScale) && |fracPart| <= I32_MAX
    requires SameNumber(WireNumber(gs, weight), TextNumber(intPart, fracPart))
    ensures WellFormed(Encode(negative, gs, weight, dscale))
    ensures CellOfWire(Encode(negative, gs, weight, dscale), precision, toScale) == CellOfText(s, precision, toScale)
  {
    PayloadAndTextAgree(Encode(negative, gs, weight, dscale), s, lead, sign, negative, intPart, point, fracPart,
                        trail, precision, toScale);
  }

  lemma SignOfZero(x: Exact, precision: nat, toScale: int)
    requires x.num == 0
    ensures Emitted(true, x, precision, toScale) == Emitted(false, x, precision, toScale)
  {
    ZeroRoundsToZero(x.scale, toScale);
    RoundFromFloor(x, toScale);
    FloorStep(x, toScale);
  }

  /** Correct rounding end to end: a decoded text is the exact number rounded half away from zero at
      the column's scale, NULL when that needs more than `precision` digits, exactly when no round-up
      was cut off at that scale. */
  lemma {:induction false} TextRoundsCorrectly(s: string, lead: string, sign: string, negative: bool, intPart: string,
                                               point: string, fracPart: string, trail: string, precision: nat,
                                               toScale: int)
    requires Spells(s, lead, sign, negative, intPart, point, fracPart, trail)
    requires ValidColumn(precision, toScale) && |fracPart| <= I32_MAX
    ensures CellOfText(s, precision, toScale) == Correct(negative, TextNumber(intPart, fracPart), precision, toScale)
       <==> !CutsOffARoundUp(TextNumber(intPart, fracPart), precision, toScale)
    ensures precision < 38
        ==> CellOfText(s, precision, toScale) == Correct(negative, TextNumber(intPart, fracPart), precision, toScale)
  {
    var x := TextNumber(intPart, fracPart);
    TextDecodes(s, lead, sign, negative, intPart, point, fracPart, trail, precision, toScale);
    CorrectIffNoRoundUpCutOff(negative, x, precision, toScale);
    if CutsOffARoundUp(x, precision, toScale) {
      CutOffNeedsFullPrecision(x, precision, toScale);
    }
  }

  /** The same for a number sent as base-10000 groups. */
  lemma {:induction false} WireRoundsCorrectly(negative: bool, gs: seq<Group>, weight: int, precision: nat,
                                               toScale: int)
    requires |gs| < 0x8000 && -0x8000 <= weight < 0x8000
    requires ValidColumn(precision, toScale)
    ensures Decode(negative, AllGroupDigits(gs), PointOf(weight), precision, toScale)
              == Correct(negative, WireNumber(gs, weight), precision, toScale)
       <==> !CutsOffARoundUp(WireNumber(gs, weight), precision, toScale)
    ensures precision < 38
        ==> Decode(negative, AllGroupDigits(gs), PointOf(weight), precision, toScale)
              == Correct(negative, WireNumber(gs, weight), precision, toScale)
  {
    var x := WireNumber(gs, weight);
    WireDecodes(negative, gs, weight, precision, toScale);
    CorrectIffNoRoundUpCutOff(negative, x, precision, toScale);
    if CutsOffARoundUp(x, precision, toScale) {
      CutOffNeedsFullPrecision(x, precision, toScale);
    }
  }
}
