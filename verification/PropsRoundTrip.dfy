/** Which properties survive being written to the file and read back. */
module PropsRoundTrip {
  import opened Basics
  import opened Text
  import opened Numbers
  import opened Props

  // ---- types

  lemma {:induction false} JoinHasNone(values: seq<string>, c: char)
    requires c != ',' && forall i :: 0 <= i < |values| ==> c !in values[i]
    ensures c !in Join(values)
  {
    if |values| > 1 {
      JoinHasNone(values[1..], c);
    }
  }

  lemma {:induction false} ItemsReadBack(values: seq<string>)
    requires ValuesOk(values)
    ensures EnumItems(Split(Join(values), ',')) == Ok(values)
    decreases |values|
  {
    var first, rest := values[0], values[1..];
    if rest == [] {
      SplitNone(first, ',');
      var items := [first];
      assert items[1..] == [] && values == items && [first] + [] == items;
    } else {
      SplitAt(first, ',', Join(rest));
      var items := Split(Join(rest), ',');
      assert ([first] + items)[1..] == items;
      assert forall i :: 0 <= i < |rest| ==> rest[i] == values[i + 1];
      ItemsReadBack(rest);
      assert values == [first] + rest;
    }
  }

  lemma RangeReadsBack(a: string, b: string)
    requires ':' !in a
    ensures RangeParts(a + [':'] + b) == Some((a, b))
  {
    SplitNAt(a, ':', b, 2);
    assert SplitN(b, ':', 1) == [b];
  }

  lemma TypeNamesDiffer()
    ensures ENUM != BOOL && ENUM != INT && ENUM != STRING && BOOL != INT && BOOL != STRING && INT != STRING
  {
    assert ENUM[0] == 'e' && BOOL[0] == 'b' && INT[0] == 'i' && STRING[0] == 's';
  }

  lemma TypeReadsBack(ty: PropType)
    requires TypeOk(ty)
    ensures ParseType(TypeName(ty), TypeSpec(ty)) == Ok(ty)
  {
    TypeNamesDiffer();
    match ty
    case Enum(values) => ItemsReadBack(values);
    case Bool =>
    case Int(min, max) =>
      SignedDecimalChars(min);
      RangeReadsBack(SignedDecimal(min), SignedDecimal(max));
      ParseOfSignedDecimal(min);
      ParseOfSignedDecimal(max);
    case Str(minLen, maxLen) =>
      DecimalFacts(minLen);
      RangeReadsBack(Decimal(minLen), Decimal(maxLen));
      ParseOfDecimal(minLen, USIZE_MAX);
      ParseOfDecimal(maxLen, USIZE_MAX);
  }

  lemma {:induction false} PiecesHaveNone(s: string, c: char)
    ensures forall i :: 0 <= i < |Split(s, c)| ==> c !in Split(s, c)[i]
    decreases |s|
  {
    var i := IndexOf(s, c);
    IndexOfIsFirst(s, c);
    if i == |s| {
      assert s[..i] == s;
    } else {
      PiecesHaveNone(s[i + 1..], c);
    }
  }

  lemma {:induction false} ItemsAreOk(items: seq<string>, values: seq<string>)
    requires EnumItems(items) == Ok(values) && forall i :: 0 <= i < |items| ==> ',' !in items[i]
    ensures forall i :: 0 <= i < |values| ==> values[i] != [] && Token(values[i]) && ',' !in values[i]
  {
    if items != [] {
      var more := EnumItems(items[1..]);
      assert forall i :: 0 <= i < |items| - 1 ==> items[1..][i] == items[i + 1];
      if more.Ok? {
        ItemsAreOk(items[1..], more.value);
      }
    }
  }

  lemma ParsedTypeIsOk(name: string, spec: string, ty: PropType)
    requires ParseType(name, spec) == Ok(ty)
    ensures TypeOk(ty)
  {
    if ty.Enum? {
      PiecesHaveNone(spec, ',');
      ItemsAreOk(Split(spec, ','), ty.values);
    }
  }

  // ---- lines

  lemma TokenNumbers(n: int, m: int)
    ensures Token(SignedDecimal(n) + [':'] + SignedDecimal(m))
  {
    SignedDecimalChars(n);
    SignedDecimalChars(m);
  }

  lemma SpecIsToken(ty: PropType)
    requires TypeOk(ty)
    ensures Token(TypeSpec(ty))
  {
    match ty
    case Enum(values) =>
      JoinHasNone(values, '\t');
      JoinHasNone(values, '\r');
      JoinHasNone(values, '\n');
    case Bool =>
    case Int(min, max) => TokenNumbers(min, max);
    case Str(minLen, maxLen) => TokenNumbers(minLen, maxLen);
  }

  lemma ValueIsToken(ty: PropType, value: string)
    requires TypeOk(ty) && Validate(ty, value) == Ok(value)
    ensures Token(value)
  {
    if ty.Int? {
      SignedDecimalChars(ParseI32(value).value);
    }
  }

  lemma SplitFour(a: string, b: string, c: string, d: string, line: string)
    requires '\t' !in a && '\t' !in b && '\t' !in c
    requires line == a + ['\t'] + (b + ['\t'] + (c + ['\t'] + d))
    ensures SplitN(line, '\t', 4) == [a, b, c, d]
  {
    SplitNAt(a, '\t', b + ['\t'] + (c + ['\t'] + d), 4);
    SplitNAt(b, '\t', c + ['\t'] + d, 3);
    SplitNAt(c, '\t', d, 2);
    assert SplitN(d, '\t', 1) == [d];
  }

  lemma TypeNameIsToken(ty: PropType)
    ensures Token(TypeName(ty))
  {
  }

  lemma LineIsToken(p: Prop, line: string)
    requires PropOk(p) && line == LineText(p)
    ensures '\n' !in line && '\r' !in line
  {
    SpecIsToken(p.ty);
    TypeNameIsToken(p.ty);
    ValueIsToken(p.ty, p.value);
  }

  lemma NoStrip(line: string)
    requires '\r' !in line
    ensures WithoutLast(line, '\r') == line
  {
  }

  // ---- files

  ghost predicate PropsOk(props: seq<Prop>) {
    forall i :: 0 <= i < |props| ==> PropOk(props[i])
  }

  ghost predicate AllRepresentable(props: seq<Prop>) {
    forall i :: 0 <= i < |props| ==> Representable(props[i].value)
  }

  lemma TitleIsSkipped(lines: seq<string>)
    requires lines != [] && lines[0] == TITLE
    ensures ParseLines(lines) == ParseLines(lines[1..])
  {
    TrimFixpoint(TITLE);
  }

  lemma LinesOfFile(props: seq<Prop>)
    ensures Lines(Serialize(props)) == [TITLE] + Lines(BodyText(props))
  {
    LinesAt(TITLE, BodyText(props));
  }

  /** Four pieces put together again; only the last may have a tab. */
  lemma FourPieces(line: string, n: nat, p: seq<string>)
    requires n == 4 && p == SplitN(line, '\t', n) && |p| == 4
    ensures line == p[0] + ['\t'] + (p[1] + ['\t'] + (p[2] + ['\t'] + p[3]))
    ensures '\t' !in p[0] && '\t' !in p[1] && '\t' !in p[2]
  {
    var rest := SplitNFront(line, '\t', n, p);
    var more := SplitNFront(rest, '\t', n - 1, p[1..]);
    var last := SplitNFront(more, '\t', n - 2, p[1..][1..]);
    assert p[1..][1..][1..] == [p[3]];
  }

  lemma ValueEndsLine(line: string, a: string, b: string, c: string, value: string)
    requires Trimmed(line) && line == a + ['\t'] + (b + ['\t'] + (c + ['\t'] + value))
    ensures value != [] && line[|line| - 1] == value[|value| - 1]
  {
    var front := a + ['\t'] + (b + ['\t'] + (c + ['\t']));
    assert line == front + value;
    assert front[|front| - 1] == '\t';
    assert value == [] ==> line == front;
  }

  lemma ParsedLineIsOk(line: string, p: Prop)
    requires Trimmed(line) && !Skipped(line) && ParseLine(line) == Ok(p)
    ensures PropOk(p) && Representable(p.value)
  {
    var parts := SplitN(line, '\t', 4);
    FourPieces(line, 4, parts);
    ParsedTypeIsOk(parts[1], parts[2], p.ty);
    ValidateIsStable(p.ty, parts[3], p.value);
    assert line[0] == parts[0][0];
    ValueEndsLine(line, parts[0], parts[1], parts[2], parts[3]);
    StoredIsRepresentable(p.ty, parts[3], p.value);
  }

  lemma StoredIsRepresentable(ty: PropType, value: string, stored: string)
    requires Validate(ty, value) == Ok(stored) && Representable(value)
    ensures Representable(stored)
  {
    if ty.Int? {
      SignedDecimalChars(ParseI32(value).value);
    }
  }

  lemma TrimIsTrimmed(s: string)
    ensures Trimmed(Trim(s))
  {
    TrimStartFacts(s);
    TrimEndFacts(TrimStart(s));
  }

  /** Whatever the parser accepts is well-formed and representable. */
  lemma {:induction false} ParsedAreOk(lines: seq<string>, props: seq<Prop>)
    requires ParseLines(lines) == Ok(props)
    ensures PropsOk(props) && AllRepresentable(props)
  {
    if lines != [] {
      var line, more := Trim(lines[0]), ParseLines(lines[1..]);
      if Skipped(line) {
        ParsedAreOk(lines[1..], props);
      } else {
        TrimIsTrimmed(lines[0]);
        ParsedLineIsOk(line, ParseLine(line).value);
        ParsedAreOk(lines[1..], more.value);
      }
    }
  }

  // ---- what a blank value does

  predicate Blank(value: string) {
    forall i :: 0 <= i < |value| ==> IsSpace(value[i])
  }

  /** Trimming keeps the first character of a line that does not begin with white space. */
  lemma TrimKeepsFront(line: string)
    requires line != [] && !IsSpace(line[0])
    ensures Trim(line) != [] && Trim(line) <= line && !IsSpace(Trim(line)[|Trim(line)| - 1])
  {
    TrimEndFacts(line);
    TrimEndBehind([line[0]], line[1..]);
    assert [line[0]] + line[1..] == line;
  }

  function Count(s: string, c: char): nat {
    if s == [] then 0 else (if s[0] == c then 1 else 0) + Count(s[1..], c)
  }

  lemma {:induction false} CountAppend(a: string, b: string, c: char)
    ensures Count(a + b, c) == Count(a, c) + Count(b, c)
  {
    if a == [] {
      assert a + b == b;
    } else {
      CountAppend(a[1..], b, c);
      assert (a + b)[1..] == a[1..] + b;
    }
  }

  lemma {:induction false} CountNone(a: string, c: char)
    requires c !in a
    ensures Count(a, c) == 0
  {
    if a != [] {
      CountNone(a[1..], c);
    }
  }

  /** There are no more pieces than separators, and one. */
  lemma {:induction false} PiecesAreFew(s: string, c: char, n: nat)
    requires n >= 1
    ensures |SplitN(s, c, n)| <= Count(s, c) + 1
    decreases n
  {
    var i := IndexOf(s, c);
    if n > 1 && i < |s| {
      PiecesAreFew(s[i + 1..], c, n - 1);
      CountAppend(s[..i], s[i..], c);
      assert s == s[..i] + s[i..] && s[i..][1..] == s[i + 1..];
    }
  }

  lemma TwoTabs(a: string, b: string, c: string, g: string)
    requires '\t' !in a && '\t' !in b && '\t' !in c && g == a + ['\t'] + (b + ['\t'] + c)
    ensures Count(g, '\t') == 2
  {
    var tab := ['\t'];
    CountAppend(a + tab, b + tab + c, '\t');
    CountAppend(a, tab, '\t');
    CountAppend(b + tab, c, '\t');
    CountAppend(b, tab, '\t');
    CountNone(a, '\t');
    CountNone(b, '\t');
    CountNone(c, '\t');
    assert tab[1..] == [] && Count(tab, '\t') == 1;
  }

  /** A line with a blank value loses its last tab to trimming, and no longer has four fields. */
  lemma BlankLineFails(p: Prop, line: string)
    requires PropOk(p) && Blank(p.value) && line == LineText(p)
    ensures !Skipped(Trim(line)) && ParseLine(Trim(line)) == Err(MissingField)
  {
    var g := p.name + ['\t'] + (TypeName(p.ty) + ['\t'] + TypeSpec(p.ty));
    SpecIsToken(p.ty);
    TypeNameIsToken(p.ty);
    TwoTabs(p.name, TypeName(p.ty), TypeSpec(p.ty), g);
    assert line == g + (['\t'] + p.value);
    assert g[0] == p.name[0];
    TrimLosesBlank(line, g, ['\t'] + p.value);
    FrontHasFewPieces(Trim(line), g);
  }

  /** Trimming drops white space at the end, and keeps the first character. */
  lemma TrimLosesBlank(line: string, g: string, blank: string)
    requires g != [] && !IsSpace(g[0]) && Blank(blank) && line == g + blank
    ensures Trim(line) != [] && Trim(line) <= g && Trim(line)[0] == g[0]
  {
    var t := Trim(line);
    assert forall i :: |g| <= i < |line| ==> line[i] == blank[i - |g|];
    TrimKeepsFront(line);
    assert t == line[..|t|] == g[..|t|];
  }

  lemma FrontHasFewPieces(t: string, g: string)
    requires t <= g && Count(g, '\t') == 2
    ensures |SplitN(t, '\t', 4)| <= 3
  {
    CountAppend(t, g[|t|..], '\t');
    assert g == t + g[|t|..];
    PiecesAreFew(t, '\t', 4);
  }

  lemma FirstLine(p: Prop, line: string, body: string)
    requires PropOk(p) && line == LineText(p)
    ensures Lines(line + ['\n'] + body) == [line] + Lines(body) && !Skipped(Trim(line))
  {
    LineIsToken(p, line);
    NoStrip(line);
    LinesAt(line, body);
    assert line[0] == p.name[0];
    TrimKeepsFront(line);
  }

  // ---- what becomes of a saved file

  /** The property whose value has lost the white space at its end. */
  function WithoutTail(p: Prop): Prop {
    p.(value := TrimEnd(p.value))
  }

  /** The value is not blank, and valid without the white space at its end. */
  predicate Survives(p: Prop) {
    !Blank(p.value) && Validate(p.ty, TrimEnd(p.value)).Ok?
  }

  ghost predicate AllSurvive(props: seq<Prop>) {
    forall i :: 0 <= i < |props| ==> Survives(props[i])
  }

  function AllWithoutTail(props: seq<Prop>): (r: seq<Prop>)
    ensures |r| == |props|
  {
    seq(|props|, i requires 0 <= i < |props| => WithoutTail(props[i]))
  }

  lemma RepresentableKeepsTail(value: string)
    requires Representable(value)
    ensures TrimEnd(value) == value && !Blank(value)
  {
    TrimEndUnique(value, value);
  }

  /** What survives is stored as it stands on the line. */
  lemma SurvivorIsStored(p: Prop)
    requires PropOk(p) && Survives(p)
    ensures PropOk(WithoutTail(p)) && Validate(p.ty, TrimEnd(p.value)) == Ok(TrimEnd(p.value))
  {
    if p.ty.Int? {
      SignedDecimalChars(ParseI32(p.value).value);
      RepresentableKeepsTail(p.value);
    } else if p.ty.Bool? {
      RepresentableKeepsTail(p.value);
    }
  }

  lemma BlankHasNoFront(value: string)
    ensures TrimEnd(value) == [] <==> Blank(value)
  {
    TrimEndFacts(value);
    if Blank(value) {
      TrimEndUnique(value, []);
    }
    if TrimEnd(value) == [] {
      EmptyTrimIsBlank(value);
    }
  }

  lemma {:induction false} EmptyTrimIsBlank(value: string)
    requires TrimEnd(value) == []
    ensures Blank(value)
  {
    if value != [] {
      EmptyTrimIsBlank(value[..|value| - 1]);
      assert value == value[..|value| - 1] + [value[|value| - 1]];
    }
  }

  lemma {:induction false} TailIsBlank(value: string)
    ensures TrimEnd(value) <= value && Blank(value[|TrimEnd(value)|..])
  {
    TrimEndFacts(value);
    if value != [] && IsSpace(value[|value| - 1]) {
      var front := value[..|value| - 1];
      TailIsBlank(front);
      TrimEndFacts(front);
      var k := |TrimEnd(value)|;
      assert value[k..] == front[k..] + [value[|value| - 1]];
    }
  }

  /** Trimming a line that ends in a value trims the end of the value. */
  lemma TrimReachesValue(front: string, value: string)
    requires front != [] && !IsSpace(front[0]) && !Blank(value)
    ensures Trim(front + value) == front + TrimEnd(value)
  {
    var t := TrimEnd(value);
    var tail := value[|t|..];
    TailIsBlank(value);
    BlankHasNoFront(value);
    BlankHasNoFront(tail);
    TrimEndFacts(value);
    TrimsTo(front, t, tail);
    assert value == t + tail;
  }

  lemma TrimsTo(front: string, t: string, tail: string)
    requires front != [] && !IsSpace(front[0]) && t != [] && !IsSpace(t[|t| - 1]) && TrimEnd(tail) == []
    ensures Trim(front + (t + tail)) == front + t
  {
    Associative(front, t, tail);
    TrimBehind(front + t, tail);
    assert (front + t) + [] == front + t;
  }

  /** A line with a value that is not blank is read with the value trimmed, and judged by that. */
  lemma LineIsJudged(p: Prop, line: string)
    requires PropOk(p) && line == LineText(p) && !Blank(p.value)
    ensures !Skipped(Trim(line))
    ensures ParseLine(Trim(line)) == Typed(p.name, Ok(p.ty), TrimEnd(p.value))
  {
    SpecIsToken(p.ty);
    TypeNameIsToken(p.ty);
    ColumnsAreTrimmed(p.name, TypeName(p.ty), TypeSpec(p.ty), p.value, line);
    SplitFour(p.name, TypeName(p.ty), TypeSpec(p.ty), TrimEnd(p.value), Trim(line));
    TypeReadsBack(p.ty);
  }

  /** Of four columns in a line, trimming reaches the last alone. */
  lemma ColumnsAreTrimmed(a: string, b: string, c: string, d: string, line: string)
    requires a != [] && !IsSpace(a[0]) && !Blank(d) && line == a + ['\t'] + (b + ['\t'] + (c + ['\t'] + d))
    ensures Trim(line) == a + ['\t'] + (b + ['\t'] + (c + ['\t'] + TrimEnd(d))) && Trim(line)[0] == a[0]
  {
    var front := a + ['\t'] + (b + ['\t'] + (c + ['\t']));
    Columns(a, b, c, d, front);
    Columns(a, b, c, TrimEnd(d), front);
    TrimReachesValue(front, d);
  }

  lemma Columns(a: string, b: string, c: string, d: string, front: string)
    requires front == a + ['\t'] + (b + ['\t'] + (c + ['\t']))
    ensures front + d == a + ['\t'] + (b + ['\t'] + (c + ['\t'] + d))
  {
    Associative(c, ['\t'], d);
    Associative(b + ['\t'], c + ['\t'], d);
    Associative(a + ['\t'], b + ['\t'] + (c + ['\t']), d);
  }

  /** One line of a saved file: read as its property without the tail, or the end of everything. */
  lemma LineSurvives(p: Prop, line: string)
    requires PropOk(p) && line == LineText(p)
    ensures !Skipped(Trim(line))
    ensures Survives(p) ==> ParseLine(Trim(line)) == Ok(WithoutTail(p))
    ensures !Survives(p) ==> ParseLine(Trim(line)).Err?
  {
    if Blank(p.value) {
      BlankLineFails(p, line);
    } else {
      LineIsJudged(p, line);
      if Survives(p) {
        SurvivorIsStored(p);
      }
    }
  }

  lemma FirstOfLines(lines: seq<string>, line: string, rest: seq<string>)
    requires lines == [line] + rest && !Skipped(Trim(line))
    ensures ParseLines(lines) ==
              match ParseLine(Trim(line)) case Err(e) => Err(e) case Ok(p) => Prepend(p, ParseLines(rest))
  {
    assert lines[0] == line && lines[1..] == rest;
  }

  lemma LineThenRest(p: Prop, line: string, body: string, lines: seq<string>)
    requires PropOk(p) && line == LineText(p) && lines == Lines(line + ['\n'] + body)
    ensures Survives(p) ==> ParseLines(lines) == Prepend(WithoutTail(p), ParseLines(Lines(body)))
    ensures !Survives(p) ==> ParseLines(lines).Err?
  {
    FirstLine(p, line, body);
    LineSurvives(p, line);
    FirstOfLines(lines, line, Lines(body));
  }

  lemma SurviveCons(props: seq<Prop>)
    requires props != []
    ensures AllSurvive(props) <==> Survives(props[0]) && AllSurvive(props[1..])
    ensures AllWithoutTail(props) == [WithoutTail(props[0])] + AllWithoutTail(props[1..])
  {
    assert forall i :: 0 < i < |props| ==> props[i] == props[1..][i - 1];
  }

  lemma {:induction false} BodyIsRead(props: seq<Prop>, lines: seq<string>)
    requires PropsOk(props) && lines == Lines(BodyText(props))
    ensures AllSurvive(props) ==> ParseLines(lines) == Ok(AllWithoutTail(props))
    ensures !AllSurvive(props) ==> ParseLines(lines).Err?
    decreases |props|
  {
    if props != [] {
      var rest := Lines(BodyText(props[1..]));
      LineThenRest(props[0], LineText(props[0]), BodyText(props[1..]), lines);
      BodyIsRead(props[1..], rest);
      SurviveCons(props);
    }
  }

  /**
   A saved file is readable exactly when every value is not blank and valid without the white space at
   its end; and then that is what is read. A single value that is neither spoils the whole file.
   */
  lemma FileIsReadIff(props: seq<Prop>)
    requires PropsOk(props)
    ensures ParseFile(Serialize(props)).Ok? <==> AllSurvive(props)
    ensures AllSurvive(props) ==> ParseFile(Serialize(props)) == Ok(AllWithoutTail(props))
  {
    LinesOfFile(props);
    var lines := [TITLE] + Lines(BodyText(props));
    TitleIsSkipped(lines);
    assert lines[1..] == Lines(BodyText(props));
    BodyIsRead(props, Lines(BodyText(props)));
  }

  /** A file of well-formed, representable properties reads back as it was. */
  lemma FileReadsBack(props: seq<Prop>)
    requires PropsOk(props) && AllRepresentable(props)
    ensures ParseFile(Serialize(props)) == Ok(props)
  {
    forall i | 0 <= i < |props|
      ensures Survives(props[i]) && WithoutTail(props[i]) == props[i]
    {
      assert PropOk(props[i]);
      RepresentableKeepsTail(props[i].value);
    }
    FileIsReadIff(props);
    assert AllWithoutTail(props) == props;
  }

  /** One blank value makes the whole file unreadable. */
  lemma BlankValueSpoilsFile(props: seq<Prop>, k: nat)
    requires PropsOk(props) && k < |props| && Blank(props[k].value)
    ensures ParseFile(Serialize(props)).Err?
  {
    FileIsReadIff(props);
    assert !Survives(props[k]);
  }
}
