/** PostgreSQL's binary `numeric`: base-10000 digit groups (crates/quickhouse-core/src/decode.rs). */
module NumericWire {
  import opened Options
  import opened PowersOfTen
  import opened Digits
  import opened Decimal
  import opened DecimalRounding
  import opened DecimalText
  import opened Bytes

  datatype NumericWire = Finite(negative: bool, magnitude: int, nativeScale: int) | Overflowed | NanOrInf

  // ----- the wire format -----

  type Group = g: int | 0 <= g < 10000

  function GroupCount(buf: seq<Byte>): int
    requires |buf| >= 8
  {
    ReadI16(buf[0], buf[1])
  }

  function Weight(buf: seq<Byte>): int
    requires |buf| >= 8
  {
    ReadI16(buf[2], buf[3])
  }

  function SignWord(buf: seq<Byte>): int
    requires |buf| >= 8
  {
    ReadU16(buf[4], buf[5])
  }

  predicate NotFinite(sign: int) {
    sign == 0xC000 || sign == 0xD000 || sign == 0xF000
  }

  function GroupAt(buf: seq<Byte>, i: nat): int
    requires 8 + 2 * i + 2 <= |buf|
  {
    ReadI16(buf[8 + 2 * i], buf[8 + 2 * i + 1])
  }

  /** A finite payload whose digit groups are all there and all below 10000, as the server sends. */
  predicate WellFormed(buf: seq<Byte>) {
    && |buf| >= 8
    && !NotFinite(SignWord(buf))
    && GroupCount(buf) >= 0
    && |buf| >= 8 + 2 * GroupCount(buf)
    && forall i: nat | i < GroupCount(buf) :: 0 <= GroupAt(buf, i) < 10000
  }

  function Groups(buf: seq<Byte>): (gs: seq<Group>)
    requires WellFormed(buf)
    ensures |gs| == GroupCount(buf)
  {
    seq(GroupCount(buf), i requires 0 <= i < GroupCount(buf) => GroupAt(buf, i))
  }

  /** The payload the server sends for these groups. */
  function Encode(negative: bool, gs: seq<Group>, weight: int, dscale: int): (buf: seq<Byte>)
    requires |gs| < 0x8000 && -0x8000 <= weight < 0x8000 && -0x8000 <= dscale < 0x8000
    ensures WellFormed(buf)
    ensures Groups(buf) == gs && Weight(buf) == weight && (SignWord(buf) == 0x4000 <==> negative)
  {
    var body := EncodeGroups(gs);
    var buf := BeI16(|gs|) + BeI16(weight) + (if negative then [0x40, 0] else [0, 0]) + BeI16(dscale) + body;
    assert buf[8..] == body;
    assert forall i: nat | i < |gs| :: GroupAt(buf, i) == ReadI16(body[2 * i], body[2 * i + 1]);
    assert Groups(buf) == gs;
    buf
  }

  function EncodeGroups(gs: seq<Group>): (body: seq<Byte>)
    ensures |body| == 2 * |gs|
    ensures forall i: nat | i < |gs| :: ReadI16(body[2 * i], body[2 * i + 1]) == gs[i]
  {
    if gs == [] then []
    else
      var init := EncodeGroups(gs[..|gs| - 1]);
      assert forall i: nat | i < |gs| - 1 :: gs[..|gs| - 1][i] == gs[i];
      init + BeI16(gs[|gs| - 1])
  }

  // ----- what the groups mean -----

  /** The groups as one base-10000 integer. */
  function GroupValue(gs: seq<Group>): nat {
    if gs == [] then 0 else GroupValue(gs[..|gs| - 1]) * 10000 + gs[|gs| - 1]
  }

  /** The number on the wire: the first group is worth `10000^weight`. */
  function WireNumber(gs: seq<Group>, weight: int): Exact {
    Exact(GroupValue(gs), 4 * (|gs| - 1 - weight))
  }

  function GroupDigits(g: Group): seq<Digit> {
    [g / 1000 % 10, g / 100 % 10, g / 10 % 10, g % 10]
  }

  function AllGroupDigits(gs: seq<Group>): (ds: seq<Digit>)
    ensures |ds| == 4 * |gs|
  {
    if gs == [] then [] else AllGroupDigits(gs[..|gs| - 1]) + GroupDigits(gs[|gs| - 1])
  }

  /** The digits before the decimal point. */
  function PointOf(weight: int): int { 4 * (weight + 1) }

  lemma GroupDigitsValue(g: Group)
    ensures Val(GroupDigits(g)) == g
  {
    GroupIsItsDigits(g);
    var ds := GroupDigits(g);
    FourDigits(ds[0], ds[1], ds[2], ds[3]);
    assert ds == [ds[0], ds[1], ds[2], ds[3]];
  }

  lemma GroupIsItsDigits(g: Group)
    ensures g == 1000 * (g / 1000 % 10) + 100 * (g / 100 % 10) + 10 * (g / 10 % 10) + g % 10
  {
    var c, b := g / 10, g / 100;
    assert b == c / 10;
    assert g / 1000 == b / 10;
  }

  lemma FourDigits(a: Digit, b: Digit, c: Digit, d: Digit)
    ensures Val([a, b, c, d]) as int == 1000 * (a as int) + 100 * (b as int) + 10 * (c as int) + d as int
  {
    assert [a, b, c, d][..3] == [a, b, c] && [a, b, c][..2] == [a, b] && [a, b][..1] == [a] && [a][..0] == [];
    assert Val([a]) == a;
    assert Val([a, b]) as int == 10 * (a as int) + b as int;
    assert Val([a, b, c]) as int == 100 * (a as int) + 10 * (b as int) + c as int;
  }

  lemma {:induction false} AllGroupDigitsAt(gs: seq<Group>, i: nat)
    requires i < |gs|
    ensures AllGroupDigits(gs)[4 * i..4 * i + 4] == GroupDigits(gs[i])
  {
    if i < |gs| - 1 {
      AllGroupDigitsAt(gs[..|gs| - 1], i);
      assert AllGroupDigits(gs)[4 * i..4 * i + 4] == AllGroupDigits(gs[..|gs| - 1])[4 * i..4 * i + 4];
    }
  }

  lemma FourZeros(n: nat)
    ensures Shift(n, 4) == 10000 * n
  {
    assert Shift(n, 3) == 10 * Shift(n, 2);
    assert Shift(n, 1) == 10 * Shift(n, 0);
  }

  lemma {:induction false} DigitsSpellGroups(gs: seq<Group>)
    ensures Val(AllGroupDigits(gs)) == GroupValue(gs)
  {
    if gs != [] {
      DigitsSpellGroups(gs[..|gs| - 1]);
      GroupDigitsValue(gs[|gs| - 1]);
      ValConcat(AllGroupDigits(gs[..|gs| - 1]), GroupDigits(gs[|gs| - 1]));
      FourZeros(GroupValue(gs[..|gs| - 1]));
    }
  }

  lemma NumberOnWire(gs: seq<Group>, weight: int)
    ensures NumberOf(AllGroupDigits(gs), PointOf(weight)) == WireNumber(gs, weight)
  {
    DigitsSpellGroups(gs);
  }

  /** What digits on the wire parse to: cut where an `i128` runs out. */
  ghost function DigitsMeaning(negative: bool, ds: seq<Digit>, weight: int): NumericWire {
    match Keep(ds, PointOf(weight))
    case Overflow => Overflowed
    case Value(m, s) => Finite(negative, m, s)
  }

  /** What a well-formed payload parses to. */
  ghost function WireMeaning(negative: bool, gs: seq<Group>, weight: int): NumericWire {
    DigitsMeaning(negative, AllGroupDigits(gs), weight)
  }

  // ----- the parser -----

  function TruncRem(a: int, b: int): int
    requires 0 < b
  {
    if a >= 0 then a % b else -((-a) % b)
  }

  /** `(digit / place) % 10` for the places 1000, 100, 10, 1. */
  function PlaceDigit(digit: int, t: nat): int {
    if t == 0 then TruncRem(TruncDiv(digit, 1000), 10)
    else if t == 1 then TruncRem(TruncDiv(digit, 100), 10)
    else if t == 2 then TruncRem(TruncDiv(digit, 10), 10)
    else TruncRem(digit, 10)
  }

  /** Append one group, or `None` on `i128` overflow. */
  function PushGroup(magnitude: int, group: int): Option<int> {
    match Checked(magnitude * 10_000)
    case None => None
    case Some(m) => Checked(m + group)
  }

  /** Append one decimal digit of a group, or `None` on `i128` overflow. */
  function PushPlace(magnitude: int, digit: int): Option<int> {
    match Checked(magnitude * 10)
    case None => None
    case Some(m) => Checked(m + digit)
  }

  lemma FourMoreDigits(ds: seq<Digit>, j: nat)
    requires j + 4 <= |ds|
    ensures Val(ds[..j + 4]) == Val(ds[..j]) * 10000 + Val(ds[j..j + 4])
  {
    assert ds[..j + 4] == ds[..j] + ds[j..j + 4];
    ValConcat(ds[..j], ds[j..j + 4]);
    FourZeros(Val(ds[..j]));
  }

  /** The four digits at `j` are those of the group `g`. */
  ghost predicate GroupHere(ds: seq<Digit>, j: nat, g: int) {
    && j + 4 <= |ds|
    && Val(ds[j..j + 4]) == g
    && forall t | 0 <= t < 4 :: ds[j + t] == PlaceDigit(g, t)
  }

  ghost predicate SpelledBy(gs: seq<Group>, ds: seq<Digit>) {
    |ds| == 4 * |gs| && forall i | 0 <= i < |gs| :: GroupHere(ds, 4 * i, gs[i])
  }

  lemma GroupsAreSpelled(gs: seq<Group>)
    ensures SpelledBy(gs, AllGroupDigits(gs))
  {
    var ds := AllGroupDigits(gs);
    forall i | 0 <= i < |gs|
      ensures GroupHere(ds, 4 * i, gs[i])
    {
      AllGroupDigitsAt(gs, i);
      FourHere(ds, 4 * i, gs[i]);
    }
  }

  lemma FourHere(ds: seq<Digit>, j: nat, g: Group)
    requires j + 4 <= |ds| && ds[j..j + 4] == GroupDigits(g)
    ensures GroupHere(ds, j, g)
  {
    GroupDigitsValue(g);
    forall t | 0 <= t < 4
      ensures ds[j + t] == PlaceDigit(g, t)
    {
      assert ds[j + t] == ds[j..j + 4][t];
    }
  }

  /** Pushing a group succeeds exactly while its digits fit. */
  lemma GroupPush(ds: seq<Digit>, j: nat, g: int)
    requires GroupHere(ds, j, g)
    ensures var next := Val(ds[..j + 4]);
            PushGroup(Val(ds[..j]), g) == if next <= I128_MAX then Some(next) else None
  {
    FourMoreDigits(ds, j);
  }

  /** Cut an overflowing group to the decimal digits of it that fit. */
  method KeepPartOfGroup(magnitude: int, digit: int, ghost ds: seq<Digit>, ghost j: nat)
      returns (m: int, kept: nat)
    requires InI128(magnitude)
    ensures InI128(m) && kept <= 4
    ensures GroupHere(ds, j, digit) && magnitude == Val(ds[..j]) && Val(ds[..j + 4]) > I128_MAX
            ==> j + kept <= |ds| && m == Val(ds[..j + kept]) && LongestThatFits(ds, j + kept)
  {
    ghost var applies := GroupHere(ds, j, digit) && magnitude == Val(ds[..j]) && Val(ds[..j + 4]) > I128_MAX;
    m, kept := magnitude, 0;
    while kept < 4
      invariant InI128(m) && kept <= 4
      invariant applies ==> m == Val(ds[..j + kept])
    {
      if applies {
        PushExtends(ds, j + kept);
      }
      match PushPlace(m, PlaceDigit(digit, kept)) {
        case Some(m') => m, kept := m', kept + 1;
        case None => break;
      }
    }
  }

  /** `gs` are the first `n` groups of the payload. */
  ghost predicate Carries(buf: seq<Byte>, n: int, gs: seq<Group>)
    requires 0 <= n && 8 + 2 * n <= |buf|
  {
    |gs| == n && forall i: nat | i < n :: GroupAt(buf, i) == gs[i]
  }

  /** What a group that overflows makes of the value: an overflow in the integer part fails it, and one in
      the fraction cuts it. */
  method CutGroup(magnitude: int, digit: int, i: nat, weight: int, negative: bool, ghost ds: seq<Digit>)
      returns (r: NumericWire)
    requires InI128(magnitude)
    ensures r != NanOrInf && (r.Finite? ==> InI128(r.magnitude))
    ensures GroupHere(ds, 4 * i, digit) && magnitude == Val(ds[..4 * i]) && Val(ds[..4 * i + 4]) > I128_MAX
            ==> r == DigitsMeaning(negative, ds, weight)
  {
    ghost var applies :=
      GroupHere(ds, 4 * i, digit) && magnitude == Val(ds[..4 * i]) && Val(ds[..4 * i + 4]) > I128_MAX;
    if i <= weight {
      if applies {
        CutInIntegerPart(ds, PointOf(weight), 4 * i + 4);
      }
      return Overflowed;
    }
    var m, kept := KeepPartOfGroup(magnitude, digit, ds, 4 * i);
    if applies {
      KeepAt(ds, PointOf(weight), 4 * i + kept);
    }
    return Finite(negative, m, (i - 1 - weight) * 4 + kept);
  }

  /** Horner over the groups. */
  method ReadGroups(buf: seq<Byte>, n: int, weight: int, negative: bool, ghost gs: seq<Group>, ghost ds: seq<Digit>)
      returns (r: NumericWire)
    requires 0 <= n && 8 + 2 * n <= |buf|
    ensures r != NanOrInf && (r.Finite? ==> InI128(r.magnitude))
    ensures Carries(buf, n, gs) && SpelledBy(gs, ds) ==> r == DigitsMeaning(negative, ds, weight)
  {
    ghost var carries := Carries(buf, n, gs) && SpelledBy(gs, ds);
    var magnitude := 0;
    for i := 0 to n
      invariant InI128(magnitude)
      invariant carries ==> magnitude == Val(ds[..4 * i])
    {
      var digit := GroupAt(buf, i);
      if carries {
        CarriedGroup(buf, n, gs, ds, i);
        GroupPush(ds, 4 * i, digit);
      }
      match PushGroup(magnitude, digit) {
        case Some(m) => magnitude := m;
        case None =>
          r := CutGroup(magnitude, digit, i, weight, negative, ds);
          return;
      }
    }
    if carries {
      assert ds[..4 * n] == ds;
      KeepAll(ds, PointOf(weight));
    }
    return Finite(negative, magnitude, (n - 1 - weight) * 4);
  }

  lemma CarriedGroup(buf: seq<Byte>, n: int, gs: seq<Group>, ds: seq<Digit>, i: nat)
    requires 0 <= n && 8 + 2 * n <= |buf| && Carries(buf, n, gs) && SpelledBy(gs, ds) && i < n
    ensures GroupHere(ds, 4 * i, GroupAt(buf, i))
  {
    assert GroupAt(buf, i) == gs[i];
  }

  /** The parser. A negative group count is refused here like a truncated payload. */
  method ParseNumericWire(buf: seq<Byte>) returns (r: Result<NumericWire>)
    ensures |buf| < 8 ==> r == Err
    ensures |buf| >= 8 && NotFinite(SignWord(buf)) ==> r == Ok(NanOrInf)
    ensures |buf| >= 8 && !NotFinite(SignWord(buf)) ==>
              (r == Err <==> GroupCount(buf) < 0 || |buf| < 8 + 2 * GroupCount(buf))
    ensures WellFormed(buf) ==> r == Ok(WireMeaning(SignWord(buf) == 0x4000, Groups(buf), Weight(buf)))
    ensures r.Ok? && r.value.Finite? ==> InI128(r.value.magnitude)
  {
    if |buf| < 8 {
      return Err;
    }
    if NotFinite(SignWord(buf)) {
      return Ok(NanOrInf);
    }
    var n := GroupCount(buf);
    if n < 0 || |buf| < 8 + n * 2 {
      return Err;
    }
    ghost var gs := if WellFormed(buf) then Groups(buf) else [];
    GroupsAreSpelled(gs);
    var value := ReadGroups(buf, n, Weight(buf), SignWord(buf) == 0x4000, gs, AllGroupDigits(gs));
    return Ok(value);
  }

  // ----- the numeric column -----

  /** The cell a well-formed payload is emitted as. */
  ghost function CellOfWire(buf: seq<Byte>, precision: nat, toScale: int): Option<int>
    requires WellFormed(buf)
  {
    Decode(SignWord(buf) == 0x4000, AllGroupDigits(Groups(buf)), PointOf(Weight(buf)), precision, toScale)
  }

  /** The `Decimal128` arm of `append_value`: the cell, and whether it was coerced to NULL. */
  method AppendNumeric(buf: seq<Byte>, precision: nat, toScale: int) returns (r: Result<(Option<int>, bool)>)
    ensures r.Ok? ==> r.value.1 == (r.value.0 == None)
    ensures |buf| >= 8 && NotFinite(SignWord(buf)) ==> r == Ok((None, true))
    ensures WellFormed(buf) ==> r.Ok?
    ensures WellFormed(buf) ==> r.value.0 == CellOfWire(buf, precision, toScale)
  {
    var parsed := ParseNumericWire(buf);
    match parsed {
      case Err => return Err;
      case Ok(Finite(negative, magnitude, scale)) =>
        if magnitude < 0 {
          return Err;
        }
        var cell := EmitMantissa(negative, magnitude, scale, precision, toScale);
        return Ok((cell, cell == None));
      case Ok(_) => return Ok((None, true));
    }
  }

  /** End-to-end rounding on the wire: the emitted cell is a function of the number sent. */
  lemma {:induction false} WireDecodes(negative: bool, gs: seq<Group>, weight: int, precision: nat, toScale: int)
    requires ValidColumn(precision, toScale)
    requires |gs| < 0x8000 && -0x8000 <= weight < 0x8000
    ensures Decode(negative, AllGroupDigits(gs), PointOf(weight), precision, toScale)
         == Emitted(negative, WireNumber(gs, weight), precision, toScale)
  {
    DecodeIsEmitted(negative, AllGroupDigits(gs), PointOf(weight), precision, toScale);
    NumberOnWire(gs, weight);
  }
}
