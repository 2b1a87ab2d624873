/** The property store: loading, setting with rollback, and persistence across restarts. */
module PropStore {
  import opened Basics
  import Text
  import Utf8
  import opened Props
  import opened PropsRoundTrip

  /** A file, if it exists. */
  type FileBytes = Option<seq<byte>>

  // ---- loading

  function ReadText(file: FileBytes): Option<string> {
    if file.None? then None else Utf8.Decode(file.value)
  }

  /** The properties of a file, unless it is missing, not text or malformed. */
  function PropsIn(file: FileBytes): Option<seq<Prop>> {
    var text := ReadText(file);
    if text.None? then None
    else
      var props := ParseFile(text.value);
      if props.Err? then None else Some(props.value)
  }

  /** The built-in definitions are an empty text. */
  function Defaults(defs: FileBytes): seq<Prop> {
    var props := PropsIn(defs);
    if props.None? then [] else props.value
  }

  function Position(props: seq<Prop>, name: string): (k: nat)
    ensures k <= |props|
  {
    if props == [] || props[0].name == name then 0 else 1 + Position(props[1..], name)
  }

  /** The first property called `name` is number `k`. */
  predicate IsFirst(props: seq<Prop>, k: nat, name: string) {
    k < |props| && props[k].name == name && forall i :: 0 <= i < k ==> props[i].name != name
  }

  predicate IsNamed(props: seq<Prop>, name: string) {
    exists i :: 0 <= i < |props| && props[i].name == name
  }

  lemma OneIsFirst(props: seq<Prop>, k: nat, name: string)
    requires IsFirst(props, k, name)
    ensures IsNamed(props, name) && forall j: nat :: IsFirst(props, j, name) ==> j == k
  {
  }

  lemma {:induction false} PositionIsFirst(props: seq<Prop>, name: string)
    ensures var k := Position(props, name);
      if k < |props| then IsFirst(props, k, name) else !IsNamed(props, name)
  {
    if props != [] && props[0].name != name {
      PositionIsFirst(props[1..], name);
      assert forall i :: 0 < i < |props| ==> props[i] == props[1..][i - 1];
    }
  }

  /** An override counts for the first property of its name, if it has the same type and is valid. */
  function Override(props: seq<Prop>, o: Prop): (r: seq<Prop>)
    ensures |r| == |props|
  {
    var k := Position(props, o.name);
    if k == |props| || props[k].ty != o.ty then props
    else
      var value := Validate(props[k].ty, o.value);
      if value.Err? then props else props[k := props[k].(value := value.value)]
  }

  /** What an override does: it sets the value of the first property of its name, if type and value are right. */
  lemma OverrideEffect(props: seq<Prop>, o: Prop, k: nat)
    requires k < |props|
    ensures forall stored :: IsFirst(props, k, o.name) && props[k].ty == o.ty && Stores(o.ty, o.value, stored) ==>
              Override(props, o) == props[k := Prop(props[k].name, props[k].ty, stored)]
    ensures !(IsFirst(props, k, o.name) && props[k].ty == o.ty && exists stored :: Stores(o.ty, o.value, stored)) ==>
              Override(props, o)[k] == props[k]
  {
    PositionIsFirst(props, o.name);
    ValidateIff(props[k].ty, o.value);
    if IsFirst(props, k, o.name) {
      OneIsFirst(props, k, o.name);
    }
  }

  function OverrideAll(props: seq<Prop>, overrides: seq<Prop>): (r: seq<Prop>)
    ensures |r| == |props|
    decreases |overrides|
  {
    if overrides == [] then props
    else Override(OverrideAll(props, overrides[..|overrides| - 1]), overrides[|overrides| - 1])
  }

  function Loaded(defs: FileBytes, file: FileBytes): seq<Prop> {
    var overrides := PropsIn(file);
    if overrides.None? then Defaults(defs) else OverrideAll(Defaults(defs), overrides.value)
  }

  // ---- what every store keeps

  /** The same names and types, in the same order. */
  ghost predicate SameSchema(a: seq<Prop>, b: seq<Prop>) {
    |a| == |b| && forall i :: 0 <= i < |a| ==> a[i].name == b[i].name && a[i].ty == b[i].ty
  }

  ghost predicate DistinctNames(props: seq<Prop>) {
    forall i, j :: 0 <= i < j < |props| ==> props[i].name != props[j].name
  }

  lemma StoreValueKeeps(props: seq<Prop>, k: nat, value: string, stored: string, r: seq<Prop>)
    requires k < |props| && PropsOk(props) && Validate(props[k].ty, value) == Ok(stored)
    requires r == props[k := props[k].(value := stored)]
    ensures PropsOk(r) && SameSchema(props, r)
  {
    ValidateIsStable(props[k].ty, value, stored);
    assert PropOk(props[k]);
    forall i | 0 <= i < |r|
      ensures PropOk(r[i])
    {
      assert PropOk(props[i]);
    }
  }

  lemma OverrideKeeps(props: seq<Prop>, o: Prop, r: seq<Prop>)
    requires PropsOk(props) && r == Override(props, o)
    ensures PropsOk(r) && SameSchema(props, r)
    ensures AllRepresentable(props) && Representable(o.value) ==> AllRepresentable(r)
  {
    var k := Position(props, o.name);
    if k < |props| && props[k].ty == o.ty && Validate(props[k].ty, o.value).Ok? {
      var stored := Validate(props[k].ty, o.value).value;
      StoreValueKeeps(props, k, o.value, stored, r);
      if Representable(o.value) {
        StoredIsRepresentable(props[k].ty, o.value, stored);
      }
    }
  }

  lemma {:induction false} OverrideAllKeeps(props: seq<Prop>, overrides: seq<Prop>)
    requires PropsOk(props)
    ensures PropsOk(OverrideAll(props, overrides)) && SameSchema(props, OverrideAll(props, overrides))
    ensures AllRepresentable(props) && AllRepresentable(overrides) ==> AllRepresentable(OverrideAll(props, overrides))
    decreases |overrides|
  {
    if overrides != [] {
      var n := |overrides| - 1;
      OverrideAllKeeps(props, overrides[..n]);
      OverrideKeeps(OverrideAll(props, overrides[..n]), overrides[n], OverrideAll(props, overrides));
    }
  }

  lemma PropsInAreOk(file: FileBytes)
    requires PropsIn(file).Some?
    ensures PropsOk(PropsIn(file).value) && AllRepresentable(PropsIn(file).value)
  {
    var text := ReadText(file).value;
    ParsedAreOk(Text.Lines(text), PropsIn(file).value);
  }

  lemma DefaultsAreOk(defs: FileBytes)
    ensures PropsOk(Defaults(defs)) && AllRepresentable(Defaults(defs))
  {
    if PropsIn(defs).Some? {
      PropsInAreOk(defs);
    }
  }

  /** An override for `p`: the same name and type. */
  predicate IsFor(o: Prop, p: Prop) {
    o.name == p.name && o.ty == p.ty
  }

  /** Override `i` is the last one for `p`. */
  predicate LastFor(overrides: seq<Prop>, p: Prop, i: nat) {
    i < |overrides| && IsFor(overrides[i], p) && forall j :: i < j < |overrides| ==> !IsFor(overrides[j], p)
  }

  lemma OverrideAt(props: seq<Prop>, before: seq<Prop>, o: Prop, k: nat)
    requires SameSchema(props, before) && DistinctNames(props) && k < |props| && PropOk(o)
    ensures Override(before, o)[k] == if IsFor(o, props[k]) then before[k].(value := o.value) else before[k]
  {
    OverrideEffect(before, o, k);
    ValidateIff(o.ty, o.value);
    FirstOfDistinct(before, props, k);
  }

  /** What the last of some overrides does to one property. */
  lemma OneMoreOverride(props: seq<Prop>, overrides: seq<Prop>, k: nat, front: seq<Prop>, o: Prop)
    requires PropsOk(props) && PropsOk(overrides) && DistinctNames(props) && k < |props|
    requires overrides != [] && front == overrides[..|overrides| - 1] && o == overrides[|overrides| - 1]
    ensures var before := OverrideAll(props, front)[k];
      && before.name == props[k].name && before.ty == props[k].ty
      && OverrideAll(props, overrides)[k] == if IsFor(o, props[k]) then before.(value := o.value) else before
  {
    OverrideAllKeeps(props, front);
    assert PropOk(o);
    OverrideAt(props, OverrideAll(props, front), o, k);
  }

  lemma LastForMore(overrides: seq<Prop>, p: Prop, i: nat, front: seq<Prop>, o: Prop)
    requires LastFor(overrides, p, i) && front == overrides[..|overrides| - 1] && o == overrides[|overrides| - 1]
    ensures if i == |front| then IsFor(o, p) && o == overrides[i]
            else LastFor(front, p, i) && front[i] == overrides[i] && !IsFor(o, p)
  {
    assert forall j :: 0 <= j < |front| ==> front[j] == overrides[j];
  }

  /** The last override for a property counts. */
  lemma {:induction false} LastOverrideCounts(props: seq<Prop>, overrides: seq<Prop>, k: nat, i: nat)
    requires PropsOk(props) && PropsOk(overrides) && DistinctNames(props) && k < |props|
    requires LastFor(overrides, props[k], i)
    ensures OverrideAll(props, overrides)[k] == props[k].(value := overrides[i].value)
    decreases |overrides|
  {
    var n := |overrides| - 1;
    var front, o := overrides[..n], overrides[n];
    OneMoreOverride(props, overrides, k, front, o);
    LastForMore(overrides, props[k], i, front, o);
    if i < n {
      LastOverrideCounts(props, front, k, i);
    }
  }

  /** A property that no override is for keeps its value. */
  lemma {:induction false} OthersKeepValue(props: seq<Prop>, overrides: seq<Prop>, k: nat)
    requires PropsOk(props) && PropsOk(overrides) && DistinctNames(props) && k < |props|
    requires forall i :: 0 <= i < |overrides| ==> !IsFor(overrides[i], props[k])
    ensures OverrideAll(props, overrides)[k] == props[k]
    decreases |overrides|
  {
    if overrides != [] {
      var n := |overrides| - 1;
      OneMoreOverride(props, overrides, k, overrides[..n], overrides[n]);
      OthersKeepValue(props, overrides[..n], k);
    }
  }

  lemma FirstOfDistinct(before: seq<Prop>, props: seq<Prop>, k: nat)
    requires SameSchema(props, before) && DistinctNames(props) && k < |props|
    ensures forall name :: IsFirst(before, k, name) <==> name == props[k].name
  {
  }

  /** A loaded store is well-formed, has the schema of its definitions, and only representable values. */
  lemma LoadedIsOk(defs: FileBytes, file: FileBytes)
    ensures PropsOk(Loaded(defs, file)) && SameSchema(Defaults(defs), Loaded(defs, file))
    ensures AllRepresentable(Loaded(defs, file))
  {
    DefaultsAreOk(defs);
    if PropsIn(file).Some? {
      PropsInAreOk(file);
      OverrideAllKeeps(Defaults(defs), PropsIn(file).value);
    }
  }

  // ---- persistence

  /** The file that a successful write leaves. */
  function Saved(props: seq<Prop>): FileBytes {
    Some(Utf8.Encode(Serialize(props)))
  }

  lemma SavedReads(props: seq<Prop>)
    ensures ReadText(Saved(props)) == Some(Serialize(props))
  {
    Utf8.DecodeOfEncode(Serialize(props));
  }

  lemma PositionOfDistinct(props: seq<Prop>, k: nat)
    requires DistinctNames(props) && k < |props|
    ensures Position(props, props[k].name) == k
  {
    PositionIsFirst(props, props[k].name);
    assert IsNamed(props, props[k].name);
  }

  lemma OverrideOne(base: seq<Prop>, props: seq<Prop>, k: nat, before: seq<Prop>, after: seq<Prop>)
    requires SameSchema(base, props) && DistinctNames(base) && PropsOk(props) && k < |props|
    requires before == props[..k] + base[k..] && after == props[..k + 1] + base[k + 1..]
    ensures Override(before, props[k]) == after
  {
    MixHasSchema(base, props, k, before);
    PositionOfDistinct(before, k);
    assert PropOk(props[k]);
    assert before[k := props[k]] == after;
  }

  lemma MixHasSchema(base: seq<Prop>, props: seq<Prop>, k: nat, mix: seq<Prop>)
    requires SameSchema(base, props) && DistinctNames(base) && k < |props| && mix == props[..k] + base[k..]
    ensures |mix| == |props| && DistinctNames(mix) && mix[k].name == props[k].name && mix[k].ty == props[k].ty
  {
    assert SameSchema(base, mix);
  }

  /** Overriding the definitions with all properties of a store restores the store. */
  lemma {:induction false} OverridesRestore(base: seq<Prop>, props: seq<Prop>, k: nat)
    requires SameSchema(base, props) && DistinctNames(base) && PropsOk(props) && k <= |props|
    ensures OverrideAll(base, props[..k]) == props[..k] + base[k..]
  {
    if k > 0 {
      OverridesRestore(base, props, k - 1);
      assert props[..k][..k - 1] == props[..k - 1];
      OverrideOne(base, props, k - 1, props[..k - 1] + base[k - 1..], props[..k] + base[k..]);
    }
  }

  /**
   A restart restores the store exactly when every value is representable: not empty, and without
   white space at its end.
   */
  lemma RestartRestores(defs: FileBytes, props: seq<Prop>)
    requires SameSchema(Defaults(defs), props) && DistinctNames(Defaults(defs)) && PropsOk(props)
    ensures Loaded(defs, Saved(props)) == props <==> AllRepresentable(props)
  {
    if AllRepresentable(props) {
      SavedReads(props);
      FileReadsBack(props);
      OverridesRestore(Defaults(defs), props, |props|);
      assert props[..|props|] == props && Defaults(defs)[|props|..] == [];
    } else {
      LoadedIsOk(defs, Saved(props));
    }
  }

  lemma SurvivorsAreOk(base: seq<Prop>, props: seq<Prop>)
    requires SameSchema(base, props) && PropsOk(props) && AllSurvive(props)
    ensures SameSchema(base, AllWithoutTail(props)) && PropsOk(AllWithoutTail(props))
  {
    forall i | 0 <= i < |props|
      ensures PropOk(AllWithoutTail(props)[i])
    {
      assert PropOk(props[i]) && Survives(props[i]);
      SurvivorIsStored(props[i]);
    }
  }

  /**
   What a restart makes of any store: every value loses the white space at its end, unless one of them
   is blank or no longer valid without it; then all properties are back at their defaults.
   */
  lemma RestartOutcome(defs: FileBytes, props: seq<Prop>)
    requires SameSchema(Defaults(defs), props) && DistinctNames(Defaults(defs)) && PropsOk(props)
    ensures Loaded(defs, Saved(props)) == if AllSurvive(props) then AllWithoutTail(props) else Defaults(defs)
  {
    SavedReads(props);
    FileIsReadIff(props);
    LoadedFrom(defs, Saved(props), Serialize(props), ParseFile(Serialize(props)));
    if AllSurvive(props) {
      SurvivorsAreOk(Defaults(defs), props);
      AllOverridden(Defaults(defs), AllWithoutTail(props));
    }
  }

  lemma LoadedFrom(defs: FileBytes, file: FileBytes, text: string, r: Result<seq<Prop>, PropError>)
    requires ReadText(file) == Some(text) && ParseFile(text) == r
    ensures Loaded(defs, file) == if r.Err? then Defaults(defs) else OverrideAll(Defaults(defs), r.value)
  {
  }

  lemma AllOverridden(base: seq<Prop>, kept: seq<Prop>)
    requires SameSchema(base, kept) && DistinctNames(base) && PropsOk(kept)
    ensures OverrideAll(base, kept) == kept
  {
    OverridesRestore(base, kept, |kept|);
    assert kept[..|kept|] == kept && base[|kept|..] == [];
  }

  /** One blank value, and a restart loses every setting: all properties are back at their defaults. */
  lemma BlankValueLosesAll(defs: FileBytes, props: seq<Prop>, k: nat)
    requires PropsOk(props) && k < |props| && Blank(props[k].value)
    ensures Loaded(defs, Saved(props)) == Defaults(defs)
  {
    SavedReads(props);
    BlankValueSpoilsFile(props, k);
  }

  // ---- the store

  /** How a system call of the write fares. */
  datatype Reply = Failed | Done(count: nat)

  /** How many of `size` bytes the replies to `write` take, up to the first that fails or takes none. */
  function BytesTaken(replies: seq<Reply>, size: nat): (n: nat)
    ensures n <= size
    decreases |replies|
  {
    if size == 0 || replies == [] || replies[0].Failed? || replies[0].count == 0 then 0
    else
      var n := Min(replies[0].count, size);
      n + BytesTaken(replies[1..], size - n)
  }

  /** The replies take all of `size` bytes: each takes some of what is left. */
  predicate TakesAll(replies: seq<Reply>, size: nat) {
    BytesTaken(replies, size) == size
  }

  /** Creating, truncating and writing all succeed. */
  predicate WriteSucceeds(replies: seq<Reply>, size: nat) {
    |replies| >= 2 && replies[0].Done? && replies[1].Done? && TakesAll(replies[2..], size)
  }

  /** As many writes as there are bytes are always enough, if each takes something. */
  lemma {:induction false} ProgressTakesAll(replies: seq<Reply>, size: nat)
    requires |replies| >= size && forall i :: 0 <= i < |replies| ==> replies[i].Done? && replies[i].count > 0
    ensures TakesAll(replies, size)
    decreases |replies|
  {
    if size > 0 {
      ProgressTakesAll(replies[1..], size - Min(replies[0].count, size));
    }
  }

  /** The file cut or extended with zeros to `n` bytes. */
  function Resized(was: seq<byte>, n: nat): (b: seq<byte>)
    ensures |b| == n
  {
    if n <= |was| then was[..n] else was + Zeros(n - |was|)
  }

  function Existing(file: FileBytes): seq<byte> {
    if file.None? then [] else file.value
  }

  /**
   The file after an attempt to write `body` over it: as it was if it cannot be opened, there if it
   cannot be resized, and else resized with the front of the new text over what was there.
   */
  function AfterWrite(was: FileBytes, replies: seq<Reply>, body: seq<byte>): FileBytes {
    if |replies| < 2 || replies[0].Failed? then was
    else if replies[1].Failed? then Some(Existing(was))
    else Some(Splice(Resized(Existing(was), |body|), 0, body[..BytesTaken(replies[2..], |body|)]))
  }

  /** A write that succeeds leaves exactly the new text. */
  lemma SuccessIsWhole(was: FileBytes, replies: seq<Reply>, body: seq<byte>)
    requires WriteSucceeds(replies, |body|)
    ensures AfterWrite(was, replies, body) == Some(body)
  {
    var base := Resized(Existing(was), |body|);
    assert body[..|body|] == body;
    assert Splice(base, 0, body) == body;
  }

  class Store {
    var props: seq<Prop>
    var file: FileBytes
    ghost const defs: FileBytes

    /** Well-formed values, and the names and types of the definitions. */
    ghost predicate Valid()
      reads this
    {
      PropsOk(props) && SameSchema(Defaults(defs), props)
    }

    constructor Load(defs: FileBytes, file: FileBytes)
      ensures Valid() && props == Loaded(defs, file) && this.file == file && this.defs == defs
    {
      LoadedIsOk(defs, file);
      this.file := file;
      this.defs := defs;
      var base: seq<Prop> := Defaults(defs);
      var overrides := PropsIn(file);
      new;
      props := base;
      if overrides.Some? {
        ApplyOverrides(overrides.value);
      }
    }

    method ApplyOverrides(overrides: seq<Prop>)
      modifies this`props
      ensures props == OverrideAll(old(props), overrides)
    {
      for i := 0 to |overrides|
        invariant props == OverrideAll(old(props), overrides[..i])
      {
        assert overrides[..i + 1][..i] == overrides[..i];
        var o := overrides[i];
        var k := Position(props, o.name);
        if k == |props| || props[k].ty != o.ty {
          continue;
        }
        var value := Validate(props[k].ty, o.value);
        if value.Ok? {
          props := props[k := props[k].(value := value.value)];
        }
      }
      assert overrides[..|overrides|] == overrides;
    }

    method Get(name: string) returns (r: Option<string>)
      ensures r == None <==> !IsNamed(props, name)
      ensures forall k: nat :: IsFirst(props, k, name) ==> r == Some(props[k].value)
    {
      PositionIsFirst(props, name);
      var k := Position(props, name);
      if k < |props| {
        OneIsFirst(props, k, name);
      }
      r := if k == |props| then None else Some(props[k].value);
    }

    /** Write the text over the file; short writes are continued, an empty one is an error. */
    method WritePropsFile(replies: seq<Reply>) returns (ok: bool)
      modifies this`file
      ensures ok <==> WriteSucceeds(replies, |Utf8.Encode(Serialize(props))|)
      ensures ok ==> file == Saved(props)
      ensures file == AfterWrite(old(file), replies, Utf8.Encode(Serialize(props)))
    {
      var text := SerializePropsFile(props);
      ok := WriteBytes(replies, Utf8.Encode(text));
      if ok {
        SuccessIsWhole(old(file), replies, Utf8.Encode(text));
      }
    }

    method WriteBytes(replies: seq<Reply>, bytes: seq<byte>) returns (ok: bool)
      modifies this`file
      ensures ok <==> WriteSucceeds(replies, |bytes|)
      ensures file == AfterWrite(old(file), replies, bytes)
    {
      if |replies| < 2 || replies[0].Failed? {
        return false;
      }
      file := Some(Existing(file));
      if replies[1].Failed? {
        return false;
      }
      var base := Resized(file.value, |bytes|);
      file := Some(base);
      var off, next: nat := 0, 2;
      assert Splice(base, 0, bytes[..0]) == base;
      while off < |bytes|
        invariant off <= |bytes| && file == Some(Splice(base, 0, bytes[..off])) && next <= |replies|
        invariant BytesTaken(replies[2..], |bytes|) == off + BytesTaken(replies[next..], |bytes| - off)
      {
        assert next < |replies| ==> replies[next..][1..] == replies[next + 1..];
        if next >= |replies| || replies[next].Failed? || replies[next].count == 0 {
          return false;
        }
        var n := Min(replies[next].count, |bytes| - off);
        WrittenMore(base, bytes, off, n);
        file := Some(Splice(file.value, off, bytes[off..off + n]));
        off, next := off + n, next + 1;
      }
      ok := true;
    }

    /**
     Validate, store, persist; a write that fails is rolled back in memory. The store keeps its
     invariant, its names and its types in every case.
     */
    method Set(name: string, value: string, replies: seq<Reply>) returns (r: Result<string, PropError>)
      requires Valid()
      modifies this`props, this`file
      ensures Valid() && SameSchema(old(props), props)
      ensures r.Err? ==> props == old(props)
      ensures !IsNamed(old(props), name) ==> r == Err(UnknownProp) && file == old(file)
      ensures forall k: nat, e :: IsFirst(old(props), k, name) && Refuses(old(props)[k].ty, value, e) ==>
                r == Err(e) && file == old(file)
      ensures forall k: nat, stored :: IsFirst(old(props), k, name) && Stores(old(props)[k].ty, value, stored) ==>
                var wanted := WithValue(old(props), k, stored);
                && file == AfterWrite(old(file), replies, Utf8.Encode(Serialize(wanted)))
                && if WriteSucceeds(replies, |Utf8.Encode(Serialize(wanted))|)
                   then r == Ok(stored) && props == wanted && file == Saved(wanted)
                   else r == Err(PersistFailed)
    {
      PositionIsFirst(props, name);
      var k := Position(props, name);
      if k == |props| {
        return Err(UnknownProp);
      }
      OneIsFirst(props, k, name);
      ValidateIff(props[k].ty, value);
      var normalized := Validate(props[k].ty, value);
      if normalized.Err? {
        return Err(normalized.error);
      }
      StoreValueKeeps(props, k, value, normalized.value, WithValue(props, k, normalized.value));
      var was := props[k].value;
      props := props[k := props[k].(value := normalized.value)];
      var ok := WritePropsFile(replies);
      if !ok {
        props := props[k := props[k].(value := was)];
        assert props == old(props);
        return Err(PersistFailed);
      }
      r := Ok(normalized.value);
    }
  }

  function WithValue(props: seq<Prop>, k: nat, value: string): seq<Prop>
    requires k < |props|
  {
    props[k := props[k].(value := value)]
  }

  lemma WrittenMore(base: seq<byte>, bytes: seq<byte>, off: nat, n: nat)
    requires |base| == |bytes| && off + n <= |bytes|
    ensures Splice(Splice(base, 0, bytes[..off]), off, bytes[off..off + n]) == Splice(base, 0, bytes[..off + n])
  {
    SpliceMore(base, 0, bytes[..off], bytes[off..off + n]);
    assert bytes[..off] + bytes[off..off + n] == bytes[..off + n];
  }
}
