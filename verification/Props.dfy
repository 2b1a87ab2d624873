/** Properties: their types and values, and the text file they are kept in. */
module Props {
  import opened Basics
  import opened Text
  import opened Numbers
  import Utf8

  datatype PropType =
    | Enum(values: seq<string>)
    | Bool
    | Int(min: int, max: int)
    | Str(minLen: nat, maxLen: nat)

  datatype Prop = Prop(name: string, ty: PropType, value: string)

  datatype PropError =
    | UnknownProp | MissingField | EmptyName | ForbiddenChar
    | NoEnumValues | BadBoolSpec | UnknownType | BadRange
    | NotAllowed | NotBool | NotInt | OutOfRange | BadLength
    | PersistFailed

  // Written in two parts so that a proof about names does not depend on their letters.
  const ENUM := "en" + "um"
  const BOOL := "bo" + "ol"
  const INT := "in" + "t"
  const STRING := "str" + "ing"
  const TRUE := "tr" + "ue"
  const FALSE := "fal" + "se"
  const TITLE := "# name\ttype" + "\tspec\tvalue"

  // ---- values

  predicate Token(s: string) {
    '\t' !in s && '\r' !in s && '\n' !in s
  }

  /** The value as it is stored, or why it is refused. */
  function Validate(ty: PropType, value: string): Result<string, PropError> {
    match ty
    case Enum(values) => if value in values then Ok(value) else Err(NotAllowed)
    case Bool =>
      if value == TRUE || value == "1" then Ok(TRUE)
      else if value == FALSE || value == "0" then Ok(FALSE)
      else Err(NotBool)
    case Int(min, max) =>
      var n := ParseI32(value);
      if n.None? then Err(NotInt)
      else if n.value < min || n.value > max then Err(OutOfRange)
      else Ok(SignedDecimal(n.value))
    case Str(minLen, maxLen) =>
      if !Token(value) then Err(ForbiddenChar)
      else if Utf8.ByteLen(value) < minLen || Utf8.ByteLen(value) > maxLen then Err(BadLength)
      else Ok(value)
  }

  /** What each type stores for which value. */
  ghost predicate Stores(ty: PropType, value: string, stored: string) {
    match ty
    case Enum(values) => value in values && stored == value
    case Bool =>
      || ((value == "true" || value == "1") && stored == "true")
      || ((value == "false" || value == "0") && stored == "false")
    case Int(min, max) =>
      exists n: int :: Denotes(value, n) && min <= n <= max && -0x8000_0000 <= n <= 0x7FFF_FFFF && stored == SignedDecimal(n)
    case Str(minLen, maxLen) => PlainText(value) && minLen <= |Utf8.Encode(value)| <= maxLen && stored == value
  }

  /** No tab and no line end. */
  predicate PlainText(value: string) {
    forall i :: 0 <= i < |value| ==> value[i] as int !in {9, 10, 13}
  }

  /** And why it refuses the others. */
  ghost predicate Refuses(ty: PropType, value: string, e: PropError) {
    match ty
    case Enum(values) => value !in values && e == NotAllowed
    case Bool => value !in {"true", "1", "false", "0"} && e == NotBool
    case Int(min, max) =>
      if exists n: int :: Denotes(value, n) && -0x8000_0000 <= n <= 0x7FFF_FFFF
      then e == OutOfRange && forall n: int :: Denotes(value, n) ==> n < min || n > max
      else e == NotInt
    case Str(minLen, maxLen) =>
      if PlainText(value) then e == BadLength && !(minLen <= |Utf8.Encode(value)| <= maxLen) else e == ForbiddenChar
  }

  lemma TokenIsPlain(value: string)
    ensures Token(value) <==> PlainText(value)
  {
    if !PlainText(value) {
      var i :| 0 <= i < |value| && value[i] as int in {9, 10, 13};
      assert value[i] in value;
      assert value[i] == '\t' || value[i] == '\n' || value[i] == '\r';
    }
  }

  lemma NumberIsUnique(value: string, m: int, n: int)
    requires Denotes(value, m) && Denotes(value, n)
    ensures m == n
  {
  }

  lemma IntIsAccepted(min: int, max: int, value: string)
    ensures forall stored :: Validate(Int(min, max), value) == Ok(stored) <==> Stores(Int(min, max), value, stored)
    ensures forall e :: Validate(Int(min, max), value) == Err(e) <==> Refuses(Int(min, max), value, e)
  {
    var r := ParseI32(value);
    if r.Some? {
      ParseI32Iff(value, r.value);
      forall n: int | Denotes(value, n)
        ensures n == r.value
      {
        NumberIsUnique(value, n, r.value);
      }
    } else {
      forall n: int
        ensures !(Denotes(value, n) && I32_MIN <= n <= I32_MAX)
      {
        ParseI32Iff(value, n);
      }
    }
  }

  /** A value is stored, and as what, or refused, and why, exactly as the type says. */
  lemma ValidateIff(ty: PropType, value: string)
    ensures forall stored :: Validate(ty, value) == Ok(stored) <==> Stores(ty, value, stored)
    ensures forall e :: Validate(ty, value) == Err(e) <==> Refuses(ty, value, e)
  {
    match ty
    case Int(min, max) => IntIsAccepted(min, max, value);
    case Str(_, _) => TokenIsPlain(value);
    case Bool => WordsOfBool();
    case Enum(_) =>
  }

  lemma WordsOfBool()
    ensures TRUE == "true" && FALSE == "false" && "true" != "false"
    ensures "1" !in {"true", "false", "0"} && "0" !in {"true", "false"}
  {
    assert "true"[0] != "false"[0] && |"1"| != |"true"| && |"1"| != |"false"| && "1"[0] != "0"[0];
  }

  /** Validating is idempotent: what is stored would be accepted again, unchanged. */
  lemma ValidateIsStable(ty: PropType, value: string, stored: string)
    requires Validate(ty, value) == Ok(stored)
    ensures Validate(ty, stored) == Ok(stored)
  {
    if ty.Int? {
      ParseOfSignedDecimal(ParseI32(value).value);
    }
  }

  // ---- types

  /** The items of an enum specification: empty ones are passed over. */
  function EnumItems(items: seq<string>): Result<seq<string>, PropError> {
    if items == [] then Ok([])
    else if items[0] == [] then EnumItems(items[1..])
    else if !Token(items[0]) then Err(ForbiddenChar)
    else
      match EnumItems(items[1..])
      case Err(e) => Err(e)
      case Ok(more) => Ok([items[0]] + more)
  }

  function RangeParts(spec: string): Option<(string, string)> {
    var parts := SplitN(spec, ':', 2);
    if |parts| == 2 then Some((parts[0], parts[1])) else None
  }

  function ParseEnum(spec: string): Result<PropType, PropError> {
    match EnumItems(Split(spec, ','))
    case Err(e) => Err(e)
    case Ok(values) => if values == [] then Err(NoEnumValues) else Ok(Enum(values))
  }

  function ParseInt(spec: string): Result<PropType, PropError> {
    match RangeParts(spec)
    case None => Err(MissingField)
    case Some((a, b)) =>
      var min, max := ParseI32(a), ParseI32(b);
      if min.None? || max.None? || min.value > max.value then Err(BadRange) else Ok(Int(min.value, max.value))
  }

  function ParseString(spec: string): Result<PropType, PropError> {
    match RangeParts(spec)
    case None => Err(MissingField)
    case Some((a, b)) =>
      var min, max := ParseUnsigned(a, USIZE_MAX), ParseUnsigned(b, USIZE_MAX);
      if min.None? || max.None? || min.value > max.value then Err(BadRange) else Ok(Str(min.value, max.value))
  }

  function ParseType(ty: string, spec: string): Result<PropType, PropError> {
    if ty == ENUM then ParseEnum(spec)
    else if ty == BOOL then if spec != "-" then Err(BadBoolSpec) else Ok(Bool)
    else if ty == INT then ParseInt(spec)
    else if ty == STRING then ParseString(spec)
    else Err(UnknownType)
  }

  function Join(values: seq<string>): string {
    if values == [] then []
    else if |values| == 1 then values[0]
    else values[0] + [','] + Join(values[1..])
  }

  function TypeName(ty: PropType): string {
    match ty
    case Enum(_) => ENUM
    case Bool => BOOL
    case Int(_, _) => INT
    case Str(_, _) => STRING
  }

  function TypeSpec(ty: PropType): string {
    match ty
    case Enum(values) => Join(values)
    case Bool => "-"
    case Int(min, max) => SignedDecimal(min) + [':'] + SignedDecimal(max)
    case Str(minLen, maxLen) => Decimal(minLen) + [':'] + Decimal(maxLen)
  }

  // ---- lines and files

  function ParseLine(line: string): Result<Prop, PropError> {
    var parts := SplitN(line, '\t', 4);
    if |parts| < 4 then Err(MissingField)
    else if parts[0] == [] then Err(EmptyName)
    else if !Token(parts[0]) then Err(ForbiddenChar)
    else Typed(parts[0], ParseType(parts[1], parts[2]), parts[3])
  }

  function Typed(name: string, ty: Result<PropType, PropError>, value: string): Result<Prop, PropError> {
    match ty
    case Err(e) => Err(e)
    case Ok(t) =>
      match Validate(t, value)
      case Err(e) => Err(e)
      case Ok(stored) => Ok(Prop(name, t, stored))
  }

  predicate Skipped(line: string) {
    line == [] || line[0] == '#'
  }

  function ParseLines(lines: seq<string>): Result<seq<Prop>, PropError> {
    if lines == [] then Ok([])
    else if Skipped(Trim(lines[0])) then ParseLines(lines[1..])
    else
      match ParseLine(Trim(lines[0]))
      case Err(e) => Err(e)
      case Ok(p) => Prepend(p, ParseLines(lines[1..]))
  }

  function Prepend(p: Prop, r: Result<seq<Prop>, PropError>): Result<seq<Prop>, PropError> {
    match r
    case Err(e) => Err(e)
    case Ok(more) => Ok([p] + more)
  }

  function ParseFile(text: string): Result<seq<Prop>, PropError> {
    ParseLines(Lines(text))
  }

  function LineText(p: Prop): string {
    p.name + ['\t'] + (TypeName(p.ty) + ['\t'] + (TypeSpec(p.ty) + ['\t'] + p.value))
  }

  function BodyText(props: seq<Prop>): string {
    if props == [] then [] else LineText(props[0]) + ['\n'] + BodyText(props[1..])
  }

  function Serialize(props: seq<Prop>): string {
    TITLE + ['\n'] + BodyText(props)
  }

  // ---- well-formed properties

  predicate NameOk(name: string) {
    name != [] && Token(name) && !IsSpace(name[0]) && name[0] != '#'
  }

  predicate ValuesOk(values: seq<string>) {
    values != [] && forall i :: 0 <= i < |values| ==> values[i] != [] && Token(values[i]) && ',' !in values[i]
  }

  predicate TypeOk(ty: PropType) {
    match ty
    case Enum(values) => ValuesOk(values)
    case Bool => true
    case Int(min, max) => I32_MIN <= min <= max <= I32_MAX
    case Str(minLen, maxLen) => minLen <= maxLen <= USIZE_MAX
  }

  predicate PropOk(p: Prop) {
    NameOk(p.name) && TypeOk(p.ty) && Validate(p.ty, p.value) == Ok(p.value)
  }

  /** The values that survive being the last thing on a trimmed line. */
  predicate Representable(value: string) {
    value != [] && !IsSpace(value[|value| - 1])
  }

  // ---- the programs

  method ParsePropsFile(input: string) returns (r: Result<seq<Prop>, PropError>)
    ensures r == ParseFile(input)
  {
    var lines := Lines(input);
    var out: seq<Prop> := [];
    PrependAllNothing(ParseLines(lines));
    assert lines[0..] == lines;
    for i := 0 to |lines|
      invariant ParseLines(lines) == PrependAll(out, ParseLines(lines[i..]))
    {
      var rest := lines[i..];
      assert rest[1..] == lines[i + 1..];
      var line := Trim(lines[i]);
      if Skipped(line) {
        continue;
      }
      var prop := ParseLine(line);
      if prop.Err? {
        return Err(prop.error);
      }
      PrependAllMore(out, prop.value, ParseLines(lines[i + 1..]));
      out := out + [prop.value];
    }
    assert lines[|lines|..] == [] && out + [] == out;
    r := Ok(out);
  }

  ghost function PrependAll(front: seq<Prop>, r: Result<seq<Prop>, PropError>): Result<seq<Prop>, PropError> {
    match r
    case Err(e) => Err(e)
    case Ok(more) => Ok(front + more)
  }

  lemma PrependAllNothing(r: Result<seq<Prop>, PropError>)
    ensures PrependAll([], r) == r
  {
    if r.Ok? {
      assert [] + r.value == r.value;
    }
  }

  lemma PrependAllMore(front: seq<Prop>, p: Prop, r: Result<seq<Prop>, PropError>)
    ensures PrependAll(front, Prepend(p, r)) == PrependAll(front + [p], r)
  {
    if r.Ok? {
      Associative(front, [p], r.value);
    }
  }

  method SerializePropsFile(props: seq<Prop>) returns (out: string)
    ensures out == Serialize(props)
  {
    out := TITLE + ['\n'];
    ghost var title := out;
    for i := 0 to |props|
      invariant out == title + BodyText(props[..i])
    {
      var p := props[i];
      BodyTextNext(props, i, title);
      out := out + (p.name + ['\t'] + (TypeName(p.ty) + ['\t'] + (TypeSpec(p.ty) + ['\t'] + p.value)) + ['\n']);
    }
    assert props[..|props|] == props;
  }

  lemma BodyTextNext(props: seq<Prop>, i: nat, title: string)
    requires i < |props|
    ensures title + BodyText(props[..i + 1]) == (title + BodyText(props[..i])) + (LineText(props[i]) + ['\n'])
  {
    BodyTextSnoc(props[..i], props[i]);
    assert props[..i + 1] == props[..i] + [props[i]];
    Associative(title, BodyText(props[..i]), LineText(props[i]) + ['\n']);
  }

  lemma {:induction false} BodyTextSnoc(props: seq<Prop>, p: Prop)
    ensures BodyText(props + [p]) == BodyText(props) + (LineText(p) + ['\n'])
  {
    if props == [] {
      assert [p][1..] == [];
    } else {
      BodyTextSnoc(props[1..], p);
      assert (props + [p])[1..] == props[1..] + [p];
      Associative(LineText(props[0]) + ['\n'], BodyText(props[1..]), LineText(p) + ['\n']);
    }
  }
}
