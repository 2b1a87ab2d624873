/** What a restart makes of a setting whose saving was cut short. */
module PropFailures {
  import opened Basics
  import opened Numbers
  import opened Props
  import opened PropsRoundTrip
  import opened PropStore
  import opened Utf8

  // ---- the saved text around one value

  /** What comes before the value of the `k`-th property in a saved file. */
  function Front(props: seq<Prop>, k: nat): string
    requires k < |props|
  {
    TITLE + ['\n'] + BodyText(props[..k]) + (props[k].name + ['\t'] + (TypeName(props[k].ty) + ['\t'] + (TypeSpec(props[k].ty) + ['\t'])))
  }

  /** And what comes behind it. */
  function Back(props: seq<Prop>, k: nat): string
    requires k < |props|
  {
    ['\n'] + BodyText(props[k + 1..])
  }

  lemma {:induction false} BodyAround(props: seq<Prop>, k: nat)
    requires k < |props|
    ensures BodyText(props) == BodyText(props[..k]) + (LineText(props[k]) + ['\n'] + BodyText(props[k + 1..]))
    decreases k
  {
    if k == 0 {
      assert props[..0] == [];
    } else {
      var rest := props[1..];
      BodyAround(rest, k - 1);
      assert props[..k][1..] == rest[..k - 1] && rest[k..] == props[k + 1..];
      Associative(LineText(props[0]) + ['\n'], BodyText(rest[..k - 1]), LineText(props[k]) + ['\n'] + BodyText(props[k + 1..]));
    }
  }

  lemma LineAround(title: string, body: string, head: string, value: string, back: string)
    ensures title + (body + ((head + value) + back)) == (title + body + head) + value + back
  {
  }

  lemma TextAround(props: seq<Prop>, k: nat, value: string)
    requires k < |props|
    ensures Serialize(WithValue(props, k, value)) == Front(props, k) + value + Back(props, k)
  {
    var q, p := WithValue(props, k, value), props[k];
    var head := p.name + ['\t'] + (TypeName(p.ty) + ['\t'] + (TypeSpec(p.ty) + ['\t']));
    BodyAround(q, k);
    assert q[..k] == props[..k] && q[k + 1..] == props[k + 1..];
    Columns(p.name, TypeName(p.ty), TypeSpec(p.ty), value, head);
    Associative(head + value, ['\n'], BodyText(props[k + 1..]));
    LineAround(TITLE + ['\n'], BodyText(props[..k]), head, value, Back(props, k));
  }

  lemma EncodeAround(front: string, value: string, back: string)
    ensures Encode(front + value + back) == Encode(front) + Encode(value) + Encode(back)
  {
    EncodeAppend(front + value, back);
    EncodeAppend(front, value);
  }

  // ---- a write that stops inside the value

  /** The front of the new bytes over the old ones. */
  lemma HalfWritten(a: seq<byte>, v1: seq<byte>, v2: seq<byte>, w1: seq<byte>, w2: seq<byte>, b: seq<byte>, n: nat)
    requires |v1| == |w1| && |v2| == |w2| && n == |a| + |w1|
    ensures Splice(Resized(a + (v1 + v2) + b, |a + (w1 + w2) + b|), 0, (a + (w1 + w2) + b)[..n]) == a + (w1 + v2) + b
  {
    assert (a + (w1 + w2) + b)[..n] == a + w1;
    assert (a + (v1 + v2) + b)[..|a + (w1 + w2) + b|] == a + (v1 + v2) + b;
    assert (a + (v1 + v2) + b)[n..] == v2 + b;
  }

  /** The first `j` characters of the new value, and the others of the old one. */
  function Mixed(was: string, value: string, j: nat): string
    requires j <= |was| && j <= |value|
  {
    value[..j] + was[j..]
  }

  /** Both halves of the two values take as many bytes. */
  predicate SameWidths(a: string, b: string, j: nat)
    requires j <= |a| && j <= |b|
  {
    ByteLen(a[..j]) == ByteLen(b[..j]) && ByteLen(a[j..]) == ByteLen(b[j..])
  }

  /** The system calls obey until `n` bytes are written, and then no more. */
  function StopsAfter(n: nat): seq<Reply> {
    [Done(0), Done(0), Done(n), Failed]
  }

  lemma StopsThere(n: nat, size: nat)
    requires 0 < n < size
    ensures BytesTaken(StopsAfter(n)[2..], size) == n && !WriteSucceeds(StopsAfter(n), size)
  {
    var left := StopsAfter(n)[2..];
    assert left == [Done(n), Failed] && left[1..] == [Failed];
  }

  lemma HalvesOf(value: string, j: nat)
    requires j <= |value|
    ensures Encode(value) == Encode(value[..j]) + Encode(value[j..])
  {
    assert value == value[..j] + value[j..];
    EncodeAppend(value[..j], value[j..]);
  }

  /** A write that stops in the middle of a value leaves a file that is well-formed, with a third value. */
  lemma TornValue(props: seq<Prop>, k: nat, value: string, j: nat, n: nat)
    requires k < |props| && j <= |props[k].value| && j <= |value| && SameWidths(props[k].value, value, j)
    requires n == ByteLen(Front(props, k)) + ByteLen(value[..j])
    ensures 0 < n < |Encode(Serialize(WithValue(props, k, value)))|
    ensures AfterWrite(Saved(props), StopsAfter(n), Encode(Serialize(WithValue(props, k, value)))) ==
              Saved(WithValue(props, k, Mixed(props[k].value, value, j)))
  {
    var was, mixed := props[k].value, Mixed(props[k].value, value, j);
    var a, b := Encode(Front(props, k)), Encode(Back(props, k));
    assert WithValue(props, k, was) == props;
    TextAround(props, k, was);
    TextAround(props, k, value);
    TextAround(props, k, mixed);
    EncodeAround(Front(props, k), was, Back(props, k));
    EncodeAround(Front(props, k), value, Back(props, k));
    EncodeAround(Front(props, k), mixed, Back(props, k));
    HalvesOf(was, j);
    HalvesOf(value, j);
    EncodeAppend(value[..j], was[j..]);
    ByteLenBounds(Front(props, k));
    ByteLenBounds(Back(props, k));
    StopsThere(n, |Encode(Serialize(WithValue(props, k, value)))|);
    HalfWritten(a, Encode(was[..j]), Encode(was[j..]), Encode(value[..j]), Encode(value[j..]), b, n);
  }

  // ---- the restart behind it

  lemma MixedIsLoaded(defs: FileBytes, props: seq<Prop>, k: nat, mixed: string, q: seq<Prop>)
    requires SameSchema(Defaults(defs), props) && DistinctNames(Defaults(defs)) && PropsOk(props) && AllRepresentable(props)
    requires k < |props| && q == WithValue(props, k, mixed)
    requires Validate(props[k].ty, mixed) == Ok(mixed) && Representable(mixed)
    ensures Loaded(defs, Saved(q)) == q
  {
    assert PropOk(props[k]);
    assert forall i :: 0 <= i < |q| && i != k ==> q[i] == props[i];
    RestartRestores(defs, q);
  }

  /**
   A set that fails while its value is being written: the program goes on with the old value and
   reports the failure, and yet the next start loads a value that is neither the old nor the new one,
   if the halves of the two make a valid value.
   */
  method FailedSetMixesValues(store: Store, k: nat, value: string, j: nat) returns (r: Result<string, PropError>)
    requires store.Valid() && store.file == Saved(store.props) && AllRepresentable(store.props)
    requires DistinctNames(Defaults(store.defs)) && k < |store.props| && Validate(store.props[k].ty, value) == Ok(value)
    requires j <= |store.props[k].value| && j <= |value| && SameWidths(store.props[k].value, value, j)
    requires Validate(store.props[k].ty, Mixed(store.props[k].value, value, j)) == Ok(Mixed(store.props[k].value, value, j))
    requires Representable(Mixed(store.props[k].value, value, j))
    modifies store
    ensures r == Err(PersistFailed) && store.props == old(store.props)
    ensures Loaded(store.defs, store.file) == WithValue(store.props, k, Mixed(store.props[k].value, value, j))
  {
    ghost var props, wanted := store.props, WithValue(store.props, k, value);
    var n := ByteLen(Front(store.props, k)) + ByteLen(value[..j]);
    TornValue(props, k, value, j, n);
    StopsThere(n, |Encode(Serialize(wanted))|);
    FirstInSchema(Defaults(store.defs), props, k);
    ValidateIff(props[k].ty, value);
    ghost var mixed := Mixed(props[k].value, value, j);
    MixedIsLoaded(store.defs, props, k, mixed, WithValue(props, k, mixed));
    r := store.Set(store.props[k].name, value, StopsAfter(n));
  }

  lemma FirstInSchema(base: seq<Prop>, props: seq<Prop>, k: nat)
    requires SameSchema(base, props) && DistinctNames(base) && k < |props|
    ensures IsFirst(props, k, props[k].name)
  {
  }

  lemma AsciiWidths(a: string, b: string, j: nat)
    requires j <= |a| == |b| && forall i :: 0 <= i < |a| ==> a[i] as int < 0x80 && b[i] as int < 0x80
    ensures SameWidths(a, b, j)
  {
    EncodeAscii(a[..j]);
    EncodeAscii(b[..j]);
    EncodeAscii(a[j..]);
    EncodeAscii(b[j..]);
  }

  /** Such values: 10 is to become 25, and after the first digit it is 20. */
  lemma TwentyIsMixed(was: string, value: string, third: string)
    requires was == "10" && value == "25" && third == "20"
    ensures SameWidths(was, value, 1) && Mixed(was, value, 1) == third && Representable(third)
    ensures Validate(Int(0, 100), was) == Ok(was) && Validate(Int(0, 100), value) == Ok(value) && Validate(Int(0, 100), third) == Ok(third)
  {
    AsciiWidths(was, value, 1);
    DigitsAreValid(10, was);
    DigitsAreValid(25, value);
    DigitsAreValid(20, third);
  }

  lemma DigitsAreValid(n: nat, digits: string)
    requires 10 <= n <= 99 && digits == [(n / 10 + 0x30) as char, (n % 10 + 0x30) as char]
    ensures Validate(Int(0, 100), digits) == Ok(digits)
  {
    assert Decimal(n / 10) == [(n / 10 + 0x30) as char];
    assert SignedDecimal(n) == digits;
    ParseOfSignedDecimal(n);
  }
}
