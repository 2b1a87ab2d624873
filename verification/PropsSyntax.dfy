/** Which lines of a property file are accepted, and as what; what a printed line looks like. */
module PropsSyntax {
  import opened Basics
  import opened Text
  import opened Numbers
  import opened Props
  import opened PropStore
  import opened PropsRoundTrip

  // ---- types

  /** The non-empty ones. */
  function NonEmpty(items: seq<string>): seq<string> {
    if items == [] then []
    else if items[0] == [] then NonEmpty(items[1..])
    else [items[0]] + NonEmpty(items[1..])
  }

  /** An unsigned number as `parse` reads it. */
  predicate DenotesSize(s: string, n: nat) {
    n < TWO_32 && (IsNumeral(s, n) || (s != [] && s[0] == '+' && IsNumeral(s[1..], n)))
  }

  /** The two fields that stand for a type. */
  ghost predicate Specifies(name: string, spec: string, ty: PropType) {
    match ty
    case Enum(values) =>
      name == "enum" && values == NonEmpty(Split(spec, ',')) && values != []
      && AllPlain(values)
    case Bool => name == "bool" && spec == "-"
    case Int(min, max) =>
      name == "int" && -0x8000_0000 <= min <= max <= 0x7FFF_FFFF
      && exists a, b :: ':' !in a && spec == a + [':'] + b && Denotes(a, min) && Denotes(b, max)
    case Str(minLen, maxLen) =>
      name == "string" && minLen <= maxLen
      && exists a, b :: ':' !in a && spec == a + [':'] + b && DenotesSize(a, minLen) && DenotesSize(b, maxLen)
  }

  predicate AllPlain(values: seq<string>) {
    forall i :: 0 <= i < |values| ==> PlainText(values[i])
  }

  lemma {:induction false} ItemsIff(items: seq<string>)
    ensures if AllPlain(NonEmpty(items)) then EnumItems(items) == Ok(NonEmpty(items)) else EnumItems(items).Err?
  {
    if items != [] {
      ItemsIff(items[1..]);
      TokenIsPlain(items[0]);
      var more := NonEmpty(items[1..]);
      if items[0] != [] {
        assert NonEmpty(items) == [items[0]] + more;
        assert forall i :: 0 <= i < |more| ==> NonEmpty(items)[i + 1] == more[i];
        assert NonEmpty(items)[0] == items[0];
      }
    }
  }

  /** A range is split at its first colon. */
  lemma RangeIff(spec: string, a: string, b: string)
    ensures RangeParts(spec) == Some((a, b)) <==> ':' !in a && spec == a + [':'] + b
  {
    var parts := SplitN(spec, ':', 2);
    if |parts| == 2 {
      var rest := SplitNFront(spec, ':', 2, parts);
      assert SplitN(rest, ':', 1) == [rest];
    }
    if ':' !in a && spec == a + [':'] + b {
      RangeReadsBack(a, b);
    }
  }

  lemma IntIff(spec: string, min: int, max: int)
    ensures ParseInt(spec) == Ok(Int(min, max)) <==>
            I32_MIN <= min <= max <= I32_MAX
            && exists a, b :: ':' !in a && spec == a + [':'] + b && Denotes(a, min) && Denotes(b, max)
  {
    if a, b :| ':' !in a && spec == a + [':'] + b && Denotes(a, min) && Denotes(b, max) {
      RangeIff(spec, a, b);
      ParseI32Iff(a, min);
      ParseI32Iff(b, max);
    }
    if ParseInt(spec) == Ok(Int(min, max)) {
      var (a, b) := RangeParts(spec).value;
      RangeIff(spec, a, b);
      ParseI32Iff(a, min);
      ParseI32Iff(b, max);
    }
  }

  lemma SizeIff(s: string, n: nat)
    ensures ParseUnsigned(s, USIZE_MAX) == Some(n) <==> DenotesSize(s, n)
  {
    ParseUnsignedIff(s, USIZE_MAX, n);
  }

  lemma StringIff(spec: string, minLen: nat, maxLen: nat)
    ensures ParseString(spec) == Ok(Str(minLen, maxLen)) <==>
            minLen <= maxLen
            && exists a, b :: ':' !in a && spec == a + [':'] + b && DenotesSize(a, minLen) && DenotesSize(b, maxLen)
  {
    if a, b :| ':' !in a && spec == a + [':'] + b && DenotesSize(a, minLen) && DenotesSize(b, maxLen) {
      RangeIff(spec, a, b);
      SizeIff(a, minLen);
      SizeIff(b, maxLen);
    }
    if ParseString(spec) == Ok(Str(minLen, maxLen)) {
      var (a, b) := RangeParts(spec).value;
      RangeIff(spec, a, b);
      SizeIff(a, minLen);
      SizeIff(b, maxLen);
      assert ':' !in a && spec == a + [':'] + b && DenotesSize(a, minLen) && DenotesSize(b, maxLen);
    }
  }

  lemma Words()
    ensures ENUM == "enum" && BOOL == "bool" && INT == "int" && STRING == "string"
    ensures "enum" != "bool" && "enum" != "int" && "enum" != "string" && "bool" != "int" && "bool" != "string" && "int" != "string"
  {
    TypeNamesDiffer();
  }

  /** A type is read from exactly the fields that specify it. */
  lemma TypeIff(name: string, spec: string, ty: PropType)
    ensures ParseType(name, spec) == Ok(ty) <==> Specifies(name, spec, ty)
  {
    Words();
    match ty
    case Enum(values) => ItemsIff(Split(spec, ','));
    case Bool =>
    case Int(min, max) => IntIff(spec, min, max);
    case Str(minLen, maxLen) => StringIff(spec, minLen, maxLen);
  }

  // ---- lines

  /** Four fields with a tab between them, the last one being the rest of the line. */
  function Fields(name: string, ty: string, spec: string, value: string): string {
    name + ['\t'] + (ty + ['\t'] + (spec + ['\t'] + value))
  }

  /** `line` says that the property `p` has `value`, which is stored as the value of `p`. */
  ghost predicate Says(line: string, p: Prop, ty: string, spec: string, value: string) {
    && line == Fields(p.name, ty, spec, value) && '\t' !in ty && '\t' !in spec
    && p.name != [] && PlainText(p.name) && Specifies(ty, spec, p.ty) && Stores(p.ty, value, p.value)
  }

  lemma SaidIsParsed(line: string, p: Prop, ty: string, spec: string, value: string)
    requires Says(line, p, ty, spec, value)
    ensures ParseLine(line) == Ok(p)
  {
    TokenIsPlain(p.name);
    SplitFour(p.name, ty, spec, value, line);
    TypeIff(ty, spec, p.ty);
    ValidateIff(p.ty, value);
    SplitParses(line, [p.name, ty, spec, value], p);
  }

  lemma ParsedIsSaid(line: string, p: Prop, parts: seq<string>)
    requires ParseLine(line) == Ok(p) && parts == SplitN(line, '\t', 4)
    ensures |parts| == 4 && Says(line, p, parts[1], parts[2], parts[3])
  {
    ParsedParts(line, p, parts);
    FourPieces(line, 4, parts);
    TokenIsPlain(p.name);
    TypeIff(parts[1], parts[2], p.ty);
    ValidateIff(p.ty, parts[3]);
  }

  lemma ParsedParts(line: string, p: Prop, parts: seq<string>)
    requires ParseLine(line) == Ok(p) && parts == SplitN(line, '\t', 4)
    ensures |parts| >= 4 && parts[0] == p.name && p.name != [] && Token(p.name)
    ensures ParseType(parts[1], parts[2]) == Ok(p.ty) && Validate(p.ty, parts[3]) == Ok(p.value)
  {
  }

  /** A line is accepted exactly if it says so, and then the property is the one that it says. */
  lemma LineIff(line: string, p: Prop)
    ensures ParseLine(line) == Ok(p) <==> exists ty, spec, value :: Says(line, p, ty, spec, value)
  {
    if ty, spec, value :| Says(line, p, ty, spec, value) {
      SaidIsParsed(line, p, ty, spec, value);
    }
    if ParseLine(line) == Ok(p) {
      ParsedIsSaid(line, p, SplitN(line, '\t', 4));
    }
  }

  lemma SplitParses(line: string, parts: seq<string>, p: Prop)
    requires SplitN(line, '\t', 4) == parts && |parts| == 4 && parts[0] == p.name && p.name != [] && Token(p.name)
    requires ParseType(parts[1], parts[2]) == Ok(p.ty) && Validate(p.ty, parts[3]) == Ok(p.value)
    ensures ParseLine(line) == Ok(p)
  {
  }

  /** What is printed for a property. */
  lemma LineIsPrinted(p: Prop)
    ensures p.ty.Bool? ==> LineText(p) == p.name + "\tbool\t-\t" + p.value
    ensures p.ty.Enum? ==> LineText(p) == p.name + "\tenum\t" + Join(p.ty.values) + "\t" + p.value
    ensures p.ty.Int? ==>
              LineText(p) == p.name + "\tint\t" + (SignedDecimal(p.ty.min) + ":" + SignedDecimal(p.ty.max)) + "\t" + p.value
    ensures p.ty.Str? ==>
              LineText(p) == p.name + "\tstring\t" + (Decimal(p.ty.minLen) + ":" + Decimal(p.ty.maxLen)) + "\t" + p.value
  {
    Words();
    match p.ty
    case Bool =>
      Glued(p.name, "bool", "-", p.value, "\tbool\t");
      assert p.name + "\tbool\t" + "-" + "\t" == p.name + "\tbool\t-\t";
    case Enum(values) => Glued(p.name, "enum", Join(values), p.value, "\tenum\t");
    case Int(min, max) => Glued(p.name, "int", SignedDecimal(min) + ":" + SignedDecimal(max), p.value, "\tint\t");
    case Str(minLen, maxLen) => Glued(p.name, "string", Decimal(minLen) + ":" + Decimal(maxLen), p.value, "\tstring\t");
  }

  lemma Glued(name: string, ty: string, spec: string, value: string, mark: string)
    requires mark == ['\t'] + ty + ['\t']
    ensures Fields(name, ty, spec, value) == name + mark + spec + "\t" + value
  {
    var tail := spec + ['\t'] + value;
    assert Fields(name, ty, spec, value) == name + mark + tail;
    assert name + mark + spec + "\t" + value == name + mark + tail;
  }

  // ---- files

  lemma FirstLine()
    ensures TITLE == "# name\ttype\tspec\tvalue"
  {
  }

  /** A file begins with a comment that names the fields; each property adds its line. */
  lemma FileIsPrinted(props: seq<Prop>, p: Prop)
    ensures Serialize([]) == "# name\ttype\tspec\tvalue\n"
    ensures Serialize(props + [p]) == Serialize(props) + (LineText(p) + "\n")
  {
    FirstLine();
    BodyTextSnoc(props, p);
    Associative(TITLE + ['\n'], BodyText(props), LineText(p) + ['\n']);
    assert BodyText([]) == [];
    assert TITLE + ['\n'] + [] == TITLE + ['\n'];
  }

  /** The lines that count: trimmed, and neither empty nor a comment. */
  function Counted(lines: seq<string>): seq<string> {
    if lines == [] then []
    else
      var line := Trim(lines[0]);
      if line == [] || line[0] == '#' then Counted(lines[1..]) else [line] + Counted(lines[1..])
  }

  /** Line by line, the properties that the lines describe. */
  predicate Describe(lines: seq<string>, props: seq<Prop>) {
    |props| == |lines| && forall i :: 0 <= i < |lines| ==> ParseLine(lines[i]) == Ok(props[i])
  }

  lemma DescribeMore(line: string, more: seq<string>, props: seq<Prop>)
    ensures Describe([line] + more, props) <==> props != [] && ParseLine(line) == Ok(props[0]) && Describe(more, props[1..])
  {
    var lines := [line] + more;
    assert forall i :: 0 <= i < |more| ==> lines[i + 1] == more[i];
    if props != [] && Describe(more, props[1..]) && ParseLine(line) == Ok(props[0]) {
      forall i | 0 <= i < |lines|
        ensures |props| == |lines| && ParseLine(lines[i]) == Ok(props[i])
      {
        assert i > 0 ==> ParseLine(more[i - 1]) == Ok(props[1..][i - 1]);
      }
    }
    if Describe(lines, props) {
      forall i | 0 <= i < |more|
        ensures ParseLine(more[i]) == Ok(props[1..][i])
      {
        assert ParseLine(lines[i + 1]) == Ok(props[i + 1]);
      }
    }
  }

  /** A file is accepted exactly if all lines that count are, and then it holds their properties, in order. */
  lemma {:induction false} FileIff(lines: seq<string>, props: seq<Prop>)
    ensures ParseLines(lines) == Ok(props) <==> Describe(Counted(lines), props)
  {
    if lines != [] {
      var line, rest := Trim(lines[0]), lines[1..];
      if Skipped(line) {
        FileIff(rest, props);
      } else {
        DescribeMore(line, Counted(rest), props);
        if props != [] {
          FileIff(rest, props[1..]);
          assert [props[0]] + props[1..] == props;
        }
      }
    }
  }

  /** The file holds a text that describes these properties. */
  ghost predicate DescribedBy(file: FileBytes, props: seq<Prop>) {
    exists text :: file == Some(Utf8.Encode(text)) && Describe(Counted(Text.Lines(text)), props)
  }

  lemma ContainedIff(file: FileBytes, props: seq<Prop>)
    ensures PropsIn(file) == Some(props) <==> DescribedBy(file, props)
  {
    if text :| file == Some(Utf8.Encode(text)) && Describe(Counted(Text.Lines(text)), props) {
      Utf8.DecodeOfEncode(text);
      FileIff(Text.Lines(text), props);
    }
    if PropsIn(file) == Some(props) {
      var text := Utf8.Decode(file.value).value;
      Utf8.EncodeOfDecode(file.value);
      FileIff(Text.Lines(text), props);
    }
  }

  /** What a start makes of the definitions and of the saved file, whatever they hold. */
  lemma StartIff(defs: FileBytes, file: FileBytes, props: seq<Prop>)
    ensures Defaults(defs) == props <==> DescribedBy(defs, props) || (props == [] && forall ps :: !DescribedBy(defs, ps))
    ensures DescribedBy(file, props) ==> Loaded(defs, file) == OverrideAll(Defaults(defs), props)
    ensures (forall ps :: !DescribedBy(file, ps)) ==> Loaded(defs, file) == Defaults(defs)
  {
    forall ps
      ensures PropsIn(defs) == Some(ps) <==> DescribedBy(defs, ps)
      ensures PropsIn(file) == Some(ps) <==> DescribedBy(file, ps)
    {
      ContainedIff(defs, ps);
      ContainedIff(file, ps);
    }
    assert PropsIn(defs).Some? ==> DescribedBy(defs, PropsIn(defs).value);
    assert PropsIn(file).Some? ==> DescribedBy(file, PropsIn(file).value);
  }
}
