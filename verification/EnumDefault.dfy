/** The default of a ClickHouse `Enum` column, read from its type's text
    (crates/quickhouse-core/src/null_guard.rs). */
module EnumDefault {
  import opened Options
  import opened PowersOfTen
  import opened Digits
  import opened DecimalText

  datatype Numbered = Numbered(name: string, value: int)

  /** `value + 1` in 64 bits, as a release build adds. */
  function After(value: int): int {
    if value == I64_MAX then I64_MIN else value + 1
  }

  // ----- what the text means -----

  function SkipSeparators(s: string): string {
    if s != "" && (IsWhitespace(s[0]) || s[0] == ',') then SkipSeparators(s[1..]) else s
  }

  /** The name after an opening quote, and what follows the closing one. */
  function ReadName(s: string): (r: Option<(string, string)>)
    ensures r.Some? ==> |r.value.1| < |s|
  {
    if s == "" then None
    else if s[0] == '\'' && (|s| == 1 || s[1] != '\'') then Some(("", s[1..]))
    else if s[0] != '\'' && s[0] != '\\' then Before(s[0], ReadName(s[1..]))
    else if |s| == 1 then None
    else Before(s[1], ReadName(s[2..]))
  }

  function Before(c: char, r: Option<(string, string)>): Option<(string, string)> {
    match r case None => None case Some((name, rest)) => Some(([c] + name, rest))
  }

  predicate IsNumberChar(c: char) { IsWhitespace(c) || c == '-' || IsDigit(c) }

  /** The number's characters without whitespace, and what follows them. */
  function ReadNumber(s: string): (r: (string, string))
    ensures |r.1| <= |s|
  {
    if s == "" || !IsNumberChar(s[0]) then ("", s)
    else
      var r := ReadNumber(s[1..]);
      (if IsWhitespace(s[0]) then r.0 else [s[0]] + r.0, r.1)
  }

  lemma {:induction false} SkipsOnly(s: string)
    ensures |SkipSeparators(s)| <= |s| && |TrimStart(s)| <= |s|
  {
    if s != "" { SkipsOnly(s[1..]); }
  }

  /** One element and what follows it; without `= n` its value is `next`. */
  function ReadElement(s: string, next: int): (r: Option<(Numbered, string)>)
    ensures r.Some? ==> |r.value.1| < |s|
  {
    var t := SkipSeparators(s);
    SkipsOnly(s);
    if t == "" || t[0] != '\'' then None
    else
      match ReadName(t[1..])
      case None => None
      case Some((name, afterName)) => SkipsOnly(afterName); ReadValue(name, TrimStart(afterName), next)
  }

  function ReadValue(name: string, s: string, next: int): (r: Option<(Numbered, string)>)
    ensures r.Some? ==> |r.value.1| <= |s|
  {
    if s == "" || s[0] != '=' then Some((Numbered(name, next), s))
    else
      var number := ReadNumber(s[1..]);
      match ParseI64(number.0)
      case None => None
      case Some(value) => SkipsOnly(number.1); Some((Numbered(name, value), TrimStart(number.1)))
  }

  /** The elements of a definition's body, the first of them numbered `next` if it has no number. */
  function Elements(s: string, next: int): Option<seq<Numbered>>
    decreases |s|
  {
    match ReadElement(s, next)
    case None => None
    case Some((e, rest)) =>
      if rest == "" then Some([e])
      else if rest[0] != ',' then None
      else Onto([e], Elements(rest[1..], After(e.value)))
  }

  function Onto(es: seq<Numbered>, r: Option<seq<Numbered>>): Option<seq<Numbered>> {
    match r case None => None case Some(more) => Some(es + more)
  }

  /** The element with the lowest value, the first of several. */
  function LowestOf(es: seq<Numbered>): Numbered
    requires es != []
  {
    var last := es[|es| - 1];
    if |es| == 1 then last
    else
      var lowest := LowestOf(es[..|es| - 1]);
      if last.value < lowest.value then last else lowest
  }

  /** What is between the first `(` and the last `)`. */
  function BodyOf(ty: string): Option<string> {
    var i := Find(ty, '(');
    if i == |ty| then None
    else
      var inside := TrimEnd(ty[i + 1..]);
      if inside == "" || inside[|inside| - 1] != ')' then None else Some(inside[..|inside| - 1])
  }

  function NameOf(es: Option<seq<Numbered>>): Option<string> {
    match es case None => None case Some(all) => if all == [] then None else Some(LowestOf(all).name)
  }

  function EnumMeaning(ty: string): Option<string> {
    match BodyOf(ty) case None => None case Some(body) => NameOf(Elements(body, 1))
  }

  // ----- the parser: `enum_default` and its loops -----

  method TakeName(s: string) returns (r: Option<(string, string)>)
    ensures r == ReadName(s)
  {
    var name, rest := "", s;
    NothingBehind(ReadName(s));
    while true
      invariant ReadName(s) == Behind(name, ReadName(rest))
      decreases |rest|
    {
      if rest == "" { return None; }
      var c := rest[0];
      var tail := rest[1..];
      if c == '\\' {
        if tail == "" { return None; }
        BehindStep(name, tail[0], ReadName(tail[1..]));
        name, rest := name + [tail[0]], tail[1..];
      } else if c == '\'' && tail != "" && tail[0] == '\'' {
        BehindStep(name, '\'', ReadName(tail[1..]));
        name, rest := name + ['\''], tail[1..];
      } else if c == '\'' {
        assert name + "" == name;
        return Some((name, tail));
      } else {
        BehindStep(name, c, ReadName(tail));
        name, rest := name + [c], tail;
      }
    }
  }

  function Behind(name: string, r: Option<(string, string)>): Option<(string, string)> {
    match r case None => None case Some((more, rest)) => Some((name + more, rest))
  }

  lemma NothingBehind(r: Option<(string, string)>)
    ensures Behind("", r) == r
  {
    if r.Some? {
      assert "" + r.value.0 == r.value.0;
    }
  }

  lemma BehindStep(name: string, c: char, r: Option<(string, string)>)
    ensures Behind(name, Before(c, r)) == Behind(name + [c], r)
  {
    if r.Some? {
      assert name + ([c] + r.value.0) == name + [c] + r.value.0;
    }
  }

  method TakeNumber(s: string) returns (number: string, rest: string)
    ensures (number, rest) == ReadNumber(s)
  {
    number, rest := "", s;
    assert number + ReadNumber(rest).0 == ReadNumber(rest).0;
    while rest != "" && IsNumberChar(rest[0])
      invariant ReadNumber(s) == (number + ReadNumber(rest).0, ReadNumber(rest).1)
      decreases |rest|
    {
      ghost var tail := ReadNumber(rest[1..]).0;
      assert number + ([rest[0]] + tail) == number + [rest[0]] + tail;
      if !IsWhitespace(rest[0]) {
        number := number + [rest[0]];
      }
      rest := rest[1..];
    }
    assert number + "" == number;
  }

  method SkipSpace(s: string) returns (rest: string)
    ensures rest == TrimStart(s)
  {
    rest := s;
    while rest != "" && IsWhitespace(rest[0])
      invariant TrimStart(s) == TrimStart(rest)
      decreases |rest|
    {
      rest := rest[1..];
    }
  }

  /** The body of one pass of the outer loop, up to the separator. */
  method TakeElement(s: string, next: int) returns (r: Option<(Numbered, string)>)
    ensures r == ReadElement(s, next)
  {
    var rest := s;
    while rest != "" && (IsWhitespace(rest[0]) || rest[0] == ',')
      invariant SkipSeparators(s) == SkipSeparators(rest)
      decreases |rest|
    {
      rest := rest[1..];
    }
    if rest == "" || rest[0] != '\'' { return None; }
    var named := TakeName(rest[1..]);
    if named.None? { return None; }
    rest := SkipSpace(named.value.1);
    if rest != "" && rest[0] == '=' {
      var number, after := TakeNumber(rest[1..]);
      var value := ParseI64(number);
      if value.None? { return None; }
      rest := SkipSpace(after);
      return Some((Numbered(named.value.0, value.value), rest));
    }
    return Some((Numbered(named.value.0, next), rest));
  }

  method Default(ty: string) returns (r: Option<string>)
    ensures r == EnumMeaning(ty)
  {
    var body := BodyOf(ty);
    if body.None? { return None; }
    var rest, next := body.value, 1;
    var lowest: Option<Numbered> := None;
    ghost var done: seq<Numbered> := [];
    NothingBefore(Elements(rest, next));
    while true
      invariant Elements(body.value, 1) == Onto(done, Elements(rest, next))
      invariant lowest == if done == [] then None else Some(LowestOf(done))
      decreases |rest|
    {
      var taken := TakeElement(rest, next);
      if taken.None? { return None; }
      var e := taken.value.0;
      if lowest.None? || e.value < lowest.value.value {
        lowest := Some(e);
      }
      NextElement(done, rest, next, e, taken.value.1);
      done := done + [e];
      if taken.value.1 == "" { return Some(lowest.value.name); }
      if taken.value.1[0] != ',' { return None; }
      rest, next := taken.value.1[1..], After(e.value);
    }
  }

  /** What one more element does to the list and to its lowest. */
  lemma NextElement(done: seq<Numbered>, rest: string, next: int, e: Numbered, after: string)
    requires ReadElement(rest, next) == Some((e, after))
    ensures Onto(done, Elements(rest, next))
         == if after == "" then Some(done + [e])
            else if after[0] != ',' then None
            else Onto(done + [e], Elements(after[1..], After(e.value)))
    ensures LowestOf(done + [e]) == if done == [] || e.value < LowestOf(done).value then e else LowestOf(done)
  {
    assert (done + [e])[..|done|] == done;
    if after != "" && after[0] == ',' {
      OntoStep(done, e, Elements(after[1..], After(e.value)));
    }
  }

  lemma NothingBefore(r: Option<seq<Numbered>>)
    ensures Onto([], r) == r
  {
    if r.Some? {
      assert [] + r.value == r.value;
    }
  }

  lemma OntoStep(done: seq<Numbered>, e: Numbered, r: Option<seq<Numbered>>)
    ensures Onto(done, Onto([e], r)) == Onto(done + [e], r)
    ensures done + [e] + [] == done + [e] && [e] + [] == [e]
  {
    if r.Some? {
      assert done + ([e] + r.value) == done + [e] + r.value;
    }
  }

  // ----- a printed definition -----

  datatype Element = Element(name: string, number: Option<int>)

  /** How one element is laid out: its whitespace, and its name with the escapes chosen. */
  datatype Layout = Layout(before: string, quoted: string, afterName: string, gap: string, after: string)

  /** A name's characters each written plainly, after a backslash, or as a doubled quote. */
  predicate NameSpelled(text: string, name: string) {
    if name == "" then text == ""
    else
      text != "" &&
      if text[0] == '\\' then |text| >= 2 && text[1] == name[0] && NameSpelled(text[2..], name[1..])
      else if text[0] == '\'' then |text| >= 2 && text[1] == '\'' == name[0] && NameSpelled(text[2..], name[1..])
      else text[0] == name[0] && NameSpelled(text[1..], name[1..])
  }

  predicate LaidOut(e: Element, l: Layout) {
    && NameSpelled(l.quoted, e.name)
    && AllWhitespace(l.before) && AllWhitespace(l.afterName) && AllWhitespace(l.gap) && AllWhitespace(l.after)
  }

  function IntText(v: int): string {
    if v < 0 then "-" + Print(0 - v) else Print(v)
  }

  function NumberText(e: Element, l: Layout, rest: string): string {
    match e.number
    case None => rest
    case Some(v) => "=" + (l.gap + (IntText(v) + (l.after + rest)))
  }

  function ElementText(e: Element, l: Layout, rest: string): string {
    l.before + ("'" + (l.quoted + ("'" + (l.afterName + NumberText(e, l, rest)))))
  }

  /** The elements separated by commas. */
  function BodyText(es: seq<Element>, ls: seq<Layout>): string
    requires |es| == |ls|
  {
    if es == [] then ""
    else ElementText(es[0], ls[0], if |es| == 1 then "" else "," + BodyText(es[1..], ls[1..]))
  }

  function DefinitionText(prefix: string, es: seq<Element>, ls: seq<Layout>, trailing: string): string
    requires |es| == |ls|
  {
    prefix + ("(" + (BodyText(es, ls) + (")" + trailing)))
  }

  function ValueOf(e: Element, next: int): int {
    match e.number case None => next case Some(v) => v
  }

  /** The elements with their values: an unnumbered one follows the one before it. */
  function NumberFrom(es: seq<Element>, next: int): (r: seq<Numbered>)
    ensures |r| == |es|
  {
    if es == [] then []
    else
      var value := ValueOf(es[0], next);
      [Numbered(es[0].name, value)] + NumberFrom(es[1..], value + 1)
  }

  predicate InI64(es: seq<Numbered>) {
    forall i | 0 <= i < |es| :: I64_MIN <= es[i].value <= I64_MAX
  }

  predicate FirstLowest(es: seq<Numbered>, i: nat) {
    && i < |es|
    && (forall j | 0 <= j < |es| :: es[i].value <= es[j].value)
    && (forall j | 0 <= j < i :: es[i].value < es[j].value)
  }

  // ----- every printed definition is read as it was meant -----

  lemma {:induction false} LowestIsFirst(es: seq<Numbered>, i: nat)
    requires FirstLowest(es, i)
    ensures LowestOf(es) == es[i]
  {
    var n := |es| - 1;
    if i < n {
      LowestIsFirst(es[..n], i);
    } else if n > 0 {
      var k := HasLowest(es[..n]);
      LowestIsFirst(es[..n], k);
    }
  }

  lemma {:induction false} HasLowest(es: seq<Numbered>) returns (i: nat)
    requires es != []
    ensures FirstLowest(es, i)
  {
    var n := |es| - 1;
    i := 0;
    if n > 0 {
      i := HasLowest(es[..n]);
      if es[n].value < es[i].value {
        i := n;
      }
    }
  }

  lemma {:induction false} NameReads(text: string, name: string, rest: string)
    requires NameSpelled(text, name)
    requires rest == "" || rest[0] != '\''
    ensures ReadName(text + ("'" + rest)) == Some((name, rest))
  {
    var s := text + ("'" + rest);
    if name != "" {
      assert [name[0]] + name[1..] == name;
      if text[0] == '\\' || text[0] == '\'' {
        assert s[2..] == text[2..] + ("'" + rest);
        NameReads(text[2..], name[1..], rest);
      } else {
        assert s[1..] == text[1..] + ("'" + rest);
        NameReads(text[1..], name[1..], rest);
      }
    } else {
      assert s == "'" + rest;
      assert s[1..] == rest;
    }
  }

  lemma {:induction false} SeparatorsSkipped(space: string, rest: string)
    requires AllWhitespace(space)
    requires rest == "" || !(IsWhitespace(rest[0]) || rest[0] == ',')
    ensures SkipSeparators(space + rest) == rest
  {
    if space == "" {
      assert space + rest == rest;
    } else {
      assert (space + rest)[1..] == space[1..] + rest;
      SeparatorsSkipped(space[1..], rest);
    }
  }

  predicate EndsNumber(rest: string) { rest == "" || !IsNumberChar(rest[0]) }

  lemma {:induction false} SpaceDropped(space: string, rest: string)
    requires AllWhitespace(space)
    ensures ReadNumber(space + rest) == ReadNumber(rest)
  {
    if space == "" {
      assert space + rest == rest;
    } else {
      assert (space + rest)[1..] == space[1..] + rest;
      SpaceDropped(space[1..], rest);
    }
  }

  lemma {:induction false} NumberKept(number: string, rest: string)
    requires forall i | 0 <= i < |number| :: number[i] == '-' || IsDigit(number[i])
    ensures ReadNumber(number + rest) == (number + ReadNumber(rest).0, ReadNumber(rest).1)
  {
    if number == "" {
      assert number + rest == rest && number + ReadNumber(rest).0 == ReadNumber(rest).0;
    } else {
      assert (number + rest)[1..] == number[1..] + rest;
      NumberKept(number[1..], rest);
      assert [number[0]] + (number[1..] + ReadNumber(rest).0) == number + ReadNumber(rest).0;
    }
  }

  lemma NumberReads(gap: string, v: int, after: string, rest: string)
    requires AllWhitespace(gap) && AllWhitespace(after) && EndsNumber(rest)
    ensures ReadNumber(gap + (IntText(v) + (after + rest))) == (IntText(v), rest)
  {
    SpaceDropped(gap, IntText(v) + (after + rest));
    NumberKept(IntText(v), after + rest);
    SpaceDropped(after, rest);
    assert IntText(v) + "" == IntText(v);
  }

  lemma IntTextParses(v: int)
    requires I64_MIN <= v <= I64_MAX
    ensures ParseI64(IntText(v)) == Some(v)
  {
    if v < 0 {
      PrintedValue(0 - v);
      assert IntText(v)[1..] == Print(0 - v);
    } else {
      PrintedValue(v);
      assert IsDigit(IntText(v)[0]);
    }
  }

  lemma ValueReads(e: Element, l: Layout, rest: string, next: int)
    requires LaidOut(e, l) && (rest == "" || rest[0] == ',')
    requires I64_MIN <= ValueOf(e, next) <= I64_MAX
    ensures ReadValue(e.name, NumberText(e, l, rest), next) == Some((Numbered(e.name, ValueOf(e, next)), rest))
  {
    if e.number.Some? {
      var v := e.number.value;
      var digits := l.gap + (IntText(v) + (l.after + rest));
      assert ("=" + digits)[1..] == digits;
      NumberReads(l.gap, v, l.after, rest);
      IntTextParses(v);
    }
  }

  lemma ElementReads(e: Element, l: Layout, rest: string, next: int)
    requires LaidOut(e, l) && (rest == "" || rest[0] == ',')
    requires I64_MIN <= ValueOf(e, next) <= I64_MAX
    ensures ReadElement(ElementText(e, l, rest), next) == Some((Numbered(e.name, ValueOf(e, next)), rest))
  {
    var numbered := NumberText(e, l, rest);
    var afterName := l.afterName + numbered;
    var quoted := "'" + (l.quoted + ("'" + afterName));
    SeparatorsSkipped(l.before, quoted);
    assert quoted[1..] == l.quoted + ("'" + afterName);
    assert numbered == "" || numbered[0] == ',' || numbered[0] == '=';
    NameReads(l.quoted, e.name, afterName);
    TrimStartSkips(l.afterName, numbered);
    ValueReads(e, l, rest, next);
  }

  lemma NumberedSplits(es: seq<Element>, next: int)
    requires es != [] && InI64(NumberFrom(es, next))
    ensures I64_MIN <= ValueOf(es[0], next) <= I64_MAX
    ensures NumberFrom(es, next)
         == [Numbered(es[0].name, ValueOf(es[0], next))] + NumberFrom(es[1..], ValueOf(es[0], next) + 1)
    ensures InI64(NumberFrom(es[1..], ValueOf(es[0], next) + 1))
    ensures |es| > 1 && es[1].number == None ==> ValueOf(es[0], next) < I64_MAX
  {
    var numbered := NumberFrom(es, next);
    assert numbered[0].value == ValueOf(es[0], next);
    assert numbered[1..] == NumberFrom(es[1..], ValueOf(es[0], next) + 1);
    if |es| > 1 {
      assert numbered[1].value == ValueOf(es[1], ValueOf(es[0], next) + 1);
    }
  }

  lemma {:induction false} ElementsRead(es: seq<Element>, ls: seq<Layout>, next: int, wrapped: int)
    requires es != [] && |es| == |ls|
    requires forall i | 0 <= i < |es| :: LaidOut(es[i], ls[i])
    requires InI64(NumberFrom(es, next))
    requires es[0].number == None ==> wrapped == next
    ensures Elements(BodyText(es, ls), wrapped) == Some(NumberFrom(es, next))
  {
    var value := ValueOf(es[0], next);
    NumberedSplits(es, next);
    if |es| == 1 {
      ElementReads(es[0], ls[0], "", wrapped);
      assert NumberFrom(es, next) == [Numbered(es[0].name, value)];
    } else {
      var rest := BodyText(es[1..], ls[1..]);
      ElementsRead(es[1..], ls[1..], value + 1, After(value));
      ElementReads(es[0], ls[0], "," + rest, wrapped);
      assert ("," + rest)[1..] == rest;
    }
  }

  lemma BodyFound(prefix: string, body: string, trailing: string)
    requires '(' !in prefix && AllWhitespace(trailing)
    ensures BodyOf(prefix + ("(" + (body + (")" + trailing)))) == Some(body)
  {
    var tail := body + (")" + trailing);
    var ty := prefix + ("(" + tail);
    FindFirst(prefix, '(', tail);
    assert prefix + ['('] + tail == ty;
    assert ty[|prefix| + 1..] == tail;
    assert tail == (body + ")") + trailing;
    TrimEndSkips(body + ")", trailing);
    assert (body + ")")[..|body|] == body;
  }

  /** For every non-empty list of names and numbers in 64 bits, written with any escapes, numbering and
      whitespace, the default is the name of the lowest value, the first on ties. */
  lemma {:induction false} PrintedDefinitionReads(prefix: string, es: seq<Element>, ls: seq<Layout>, trailing: string,
                                                  i: nat)
    requires '(' !in prefix && AllWhitespace(trailing)
    requires es != [] && |es| == |ls|
    requires forall k | 0 <= k < |es| :: LaidOut(es[k], ls[k])
    requires InI64(NumberFrom(es, 1)) && FirstLowest(NumberFrom(es, 1), i)
    ensures EnumMeaning(DefinitionText(prefix, es, ls, trailing)) == Some(es[i].name)
  {
    BodyFound(prefix, BodyText(es, ls), trailing);
    ElementsRead(es, ls, 1, 1);
    LowestIsFirst(NumberFrom(es, 1), i);
    NamesKept(es, 1, i);
  }

  lemma {:induction false} NamesKept(es: seq<Element>, next: int, i: nat)
    requires i < |es|
    ensures NumberFrom(es, next)[i].name == es[i].name
  {
    if i > 0 {
      NamesKept(es[1..], ValueOf(es[0], next) + 1, i - 1);
    }
  }
}
