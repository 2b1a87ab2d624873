/** Rebuilding a whole update: open it, patch two members, and write it so that it opens again. */
module SwuRepacker {
  import opened Basics
  import opened Md5
  import opened Cpio
  import opened CpioParser
  import CpioSoundness
  import opened CpioRoundTrip
  import opened Swu

  /** The external patchers and validators. */
  datatype Tools = Tools(
    validate: seq<byte> -> bool,
    patchMetadata: seq<byte> -> Option<seq<byte>>,
    patchCustomer: seq<byte> -> Option<seq<byte>>,
    validatePatched: seq<byte> -> bool)

  const MAX_INPUT_SIZE := 512 * 1024 * 1024
  const CUSTOMER := "custo" + "mer"
  const KERNEL := "ker" + "nel"

  predicate HasMember(entries: seq<Entry>, name: string) {
    exists k :: 0 <= k < |entries| && entries[k].name == name
  }

  predicate HasRequired(entries: seq<Entry>) {
    HasMember(entries, DESCRIPTION) && HasMember(entries, CUSTOMER) && HasMember(entries, KERNEL)
  }

  /** The members after both replacements, as they are written. */
  function Patched(entries: seq<Entry>, j: nat, metadata: seq<byte>, customer: seq<byte>): seq<Entry>
    requires entries != [] && j < |entries|
  {
    WithData(WithData(entries, 0, metadata), j, customer)
  }

  function Position(entries: seq<Entry>, name: string): (k: nat)
    ensures k <= |entries|
  {
    if entries == [] || entries[0].name == name then 0 else 1 + Position(entries[1..], name)
  }

  lemma {:induction false} PositionFound(entries: seq<Entry>, name: string)
    requires HasMember(entries, name)
    ensures Position(entries, name) < |entries|
  {
    if entries[0].name != name {
      var k :| 0 <= k < |entries| && entries[k].name == name;
      assert entries[1..][k - 1] == entries[k];
      PositionFound(entries[1..], name);
    }
  }

  lemma {:induction false} PositionIsTheOne(entries: seq<Entry>, name: string)
    requires DistinctNames(entries) && HasMember(entries, name)
    ensures TheOne(entries, name, Position(entries, name))
  {
    if entries[0].name != name {
      var k :| 0 <= k < |entries| && entries[k].name == name;
      assert entries[1..][k - 1] == entries[k];
      PositionIsTheOne(entries[1..], name);
    }
  }

  /** The members to be written: what the patchers make of the metadata and the customer partition. */
  function Plan(tools: Tools, entries: seq<Entry>): Result<seq<Entry>, SwuError>
    requires entries != []
  {
    if !HasRequired(entries) then Err(MissingMember)
    else if !tools.validate(entries[0].data) then Err(BadMetadata)
    else
      PositionFound(entries, CUSTOMER);
      var j := Position(entries, CUSTOMER);
      var metadata, customer := tools.patchMetadata(entries[0].data), tools.patchCustomer(entries[j].data);
      if metadata.None? || customer.None? then Err(CannotPatch)
      else Ok(Patched(entries, j, metadata.value, customer.value))
  }

  /** The members to be written: everything as it was but the metadata and the customer partition. */
  ghost predicate Patches(tools: Tools, entries: seq<Entry>, p: seq<Entry>, j: nat) {
    && 0 < j < |entries| == |p| && entries[j].name == "customer" && (exists k :: 0 <= k < |entries| && entries[k].name == "kernel")
    && tools.validate(entries[0].data)
    && tools.patchMetadata(entries[0].data) == Some(p[0].data) && p[0] == entries[0].(data := p[0].data)
    && tools.patchCustomer(entries[j].data) == Some(p[j].data) && p[j] == entries[j].(data := p[j].data)
    && forall i :: 0 < i < |entries| && i != j ==> p[i] == entries[i]
  }

  lemma MemberNames()
    ensures CUSTOMER == "customer" && KERNEL == "kernel" && DESCRIPTION == "sw-description" && DESCRIPTION != CUSTOMER
  {
  }

  /** An archive is patched exactly if its metadata and two more members are there and all tools agree. */
  lemma PlanIff(tools: Tools, entries: seq<Entry>, p: seq<Entry>)
    requires WellFormed(entries)
    ensures Plan(tools, entries) == Ok(p) <==> exists j: nat :: Patches(tools, entries, p, j)
  {
    MemberNames();
    assert entries[0].name == DESCRIPTION;
    var j := Position(entries, CUSTOMER);
    if HasMember(entries, CUSTOMER) {
      PositionIsTheOne(entries, CUSTOMER);
    }
    if Plan(tools, entries) == Ok(p) {
      assert Patches(tools, entries, p, j);
    }
    if i: nat :| Patches(tools, entries, p, i) {
      assert entries[i].name == CUSTOMER && i == j;
      assert p == Patched(entries, j, p[0].data, p[j].data);
    }
  }

  /** Patching keeps the archive well-formed, the trailer last and everything else as it was. */
  lemma PatchedIsWellFormed(entries: seq<Entry>, j: nat, metadata: seq<byte>, customer: seq<byte>, r: seq<Entry>)
    requires WellFormed(entries) && j < |entries| - 1 && |metadata| < TWO_32 && |customer| < TWO_32
    requires r == Patched(entries, j, metadata, customer)
    ensures WellFormed(r) && SameNames(entries, r) && r[|r| - 1] == entries[|entries| - 1]
    ensures forall i :: 0 < i < |entries| && i != j ==> r[i] == entries[i]
  {
    var first := WithData(entries, 0, metadata);
    ReplacedIsWellFormed(entries, 0, metadata, first);
    ReplacedIsWellFormed(first, j, customer, r);
  }

  method OpenImage(md5: Hash, key: Key, encrypted: seq<byte>) returns (r: Result<seq<Entry>, SwuError>)
    ensures r == Open(md5, key, encrypted)
  {
    var plain := Decrypt(key, encrypted);
    if plain.Err? {
      return Err(plain.error);
    }
    var raw := Unpack(md5, plain.value);
    if raw.Err? {
      return Err(raw.error);
    }
    r := ReadArchive(raw.value);
  }

  /** Parse, and insist that the printer gives the same bytes. */
  method ReadArchive(raw: seq<byte>) returns (r: Result<seq<Entry>, SwuError>)
    ensures r == OpenArchive(raw)
  {
    var outcome := Parse(raw);
    if outcome.RunsForever? {
      return Err(NeverReturns);
    }
    var entries := outcome.result;
    if entries.Err? {
      return Err(InArchive(entries.error));
    }
    CpioSoundness.ParsedIsOk(raw, entries.value);
    var archive := new CpioArchive(entries.value);
    var again := archive.Repack();
    r := if again != raw then Err(NotReproduced) else Ok(entries.value);
  }

  /** Look up, validate, patch and replace: in memory only. */
  method PatchMembers(tools: Tools, entries: seq<Entry>) returns (r: Result<seq<Entry>, SwuError>)
    requires WellFormed(entries)
    ensures r == Plan(tools, entries)
  {
    if !HasRequired(entries) {
      return Err(MissingMember);
    }
    var archive := new CpioArchive(entries);
    assert TheOne(entries, DESCRIPTION, 0);
    var description := archive.Member(DESCRIPTION);
    if !tools.validate(description.value) {
      return Err(BadMetadata);
    }
    var metadata := tools.patchMetadata(description.value);
    PositionIsTheOne(entries, CUSTOMER);
    ghost var j := Position(entries, CUSTOMER);
    var image := archive.Member(CUSTOMER);
    var customer := tools.patchCustomer(image.value);
    if metadata.None? || customer.None? {
      return Err(CannotPatch);
    }
    ghost var first := WithData(entries, 0, metadata.value);
    assert TheOne(first, CUSTOMER, j);
    var done := archive.ReplaceMember(DESCRIPTION, metadata.value);
    done := archive.ReplaceMember(CUSTOMER, customer.value);
    r := Ok(archive.entries);
  }

  /** A patched archive that can be written: of 32-bit sizes, with an empty CRC-format trailer. */
  ghost predicate Writable(p: seq<Entry>) {
    WellFormed(p) && p[|p| - 1].data == [] && p[|p| - 1].magic == CRC_MAGIC
  }

  lemma WritableReadsBack(p: seq<Entry>, raw: seq<byte>, q: seq<Entry>)
    requires Writable(p) && raw == Archive(p) && q == AllNormalized(p)
    ensures OpenArchive(raw) == Ok(q) && TheOne(q, DESCRIPTION, 0) && q[0].data == p[0].data
  {
    RebuiltArchiveOpens(p, raw);
    NormalizedKeepsNames(p);
    SameNamesSameOrder(p, q);
  }

  lemma WritableOpens(md5: Hash, key: Key, p: seq<Entry>, plain: seq<byte>)
    requires Writable(p) && plain == Envelope(md5, Archive(p))
    ensures Encrypt(key, plain) == Ok(Xor(key, plain)) && Open(md5, key, Xor(key, plain)) == Ok(AllNormalized(p))
  {
    var n := |p| - 1;
    assert p == p[..n] + [p[n]];
    RebuiltOpens(md5, key, p[..n], p[n], p, plain);
  }

  /** Re-read and re-validate what is about to be shipped. */
  method ReadBack(tools: Tools, raw: seq<byte>, ghost p: seq<Entry>) returns (failure: Option<SwuError>)
    requires Shaped(p) && raw == Archive(p)
    ensures Writable(p) ==>
              failure == if tools.validate(p[0].data) && tools.validatePatched(p[0].data) then None else Some(BadMetadata)
  {
    var reparsed := ReadArchive(raw);
    if Writable(p) {
      WritableReadsBack(p, raw, AllNormalized(p));
    }
    if reparsed.Err? {
      return Some(reparsed.error);
    }
    var again := new CpioArchive(reparsed.value);
    var description := again.Member(DESCRIPTION);
    if description.Err? {
      return Some(InArchive(NotExactlyOne));
    }
    failure := if !tools.validate(description.value) || !tools.validatePatched(description.value) then Some(BadMetadata) else None;
  }

  /** Rebuild, wrap and encrypt. */
  method WritePatched(md5: Hash, key: Key, tools: Tools, p: seq<Entry>) returns (r: Result<seq<byte>, SwuError>)
    requires p != [] && Shaped(p)
    ensures Writable(p) ==> Written(md5, key, tools, p, r)
  {
    var archive := new CpioArchive(p);
    var raw := archive.Repack();
    var failure := ReadBack(tools, raw, p);
    if failure.Some? {
      return Err(failure.value);
    }
    var plain := Envelope(md5, raw);
    if Writable(p) {
      WritableOpens(md5, key, p, plain);
    }
    r := Encrypt(key, plain);
  }

  /** What becomes of a patched archive that can be written. */
  ghost predicate Written(md5: Hash, key: Key, tools: Tools, p: seq<Entry>, r: Result<seq<byte>, SwuError>)
    requires p != [] && Shaped(p)
  {
    if tools.validate(p[0].data) && tools.validatePatched(p[0].data)
    then r.Ok? && Open(md5, key, r.value) == Ok(AllNormalized(p))
    else r == Err(BadMetadata)
  }

  predicate SmallMembers(p: seq<Entry>) {
    forall i :: 0 <= i < |p| ==> |p[i].data| < TWO_32
  }

  /** What becomes of an update that opened to `entries`. */
  ghost predicate Fate(md5: Hash, key: Key, tools: Tools, entries: seq<Entry>, r: Result<seq<byte>, SwuError>)
    requires WellFormed(entries)
  {
    match Plan(tools, entries)
    case Err(e) => r == Err(e)
    case Ok(p) =>
      SmallMembers(p) && entries[|entries| - 1].data == [] ==>
        SameNames(entries, p) && Shaped(p) && Written(md5, key, tools, p, r)
  }

  lemma PlanIsPatched(tools: Tools, entries: seq<Entry>, p: seq<Entry>) returns (j: nat, metadata: seq<byte>, customer: seq<byte>)
    requires WellFormed(entries) && Plan(tools, entries) == Ok(p)
    ensures 0 < j < |entries| - 1 && p == Patched(entries, j, metadata, customer)
  {
    j := Position(entries, CUSTOMER);
    PositionIsTheOne(entries, CUSTOMER);
    metadata, customer := tools.patchMetadata(entries[0].data).value, tools.patchCustomer(entries[j].data).value;
  }

  lemma PlanIsWellFormed(tools: Tools, entries: seq<Entry>, p: seq<Entry>)
    requires WellFormed(entries) && Plan(tools, entries) == Ok(p) && SmallMembers(p)
    ensures WellFormed(p) && SameNames(entries, p) && p[|p| - 1] == entries[|entries| - 1]
  {
    var j, metadata, customer := PlanIsPatched(tools, entries, p);
    assert p[0].data == metadata && p[j].data == customer;
    PatchedIsWellFormed(entries, j, metadata, customer, p);
  }

  lemma PlanIsShaped(tools: Tools, entries: seq<Entry>, p: seq<Entry>)
    requires WellFormed(entries) && Plan(tools, entries) == Ok(p)
    ensures p != [] && Shaped(p)
  {
    var j, metadata, customer := PlanIsPatched(tools, entries, p);
  }

  lemma OpenedIsSound(md5: Hash, key: Key, encrypted: seq<byte>, entries: seq<Entry>)
    requires Open(md5, key, encrypted) == Ok(entries) && |encrypted| <= MAX_INPUT_SIZE
    ensures WellFormed(entries)
    ensures entries[|entries| - 1].data == [] ==> entries[|entries| - 1].magic == CRC_MAGIC
  {
    var plain := Xor(key, encrypted);
    OpenLayers(md5, key, encrypted, plain, entries);
    OpenedArchiveIsSound(plain, entries);
  }

  lemma OpenedArchiveIsSound(plain: seq<byte>, entries: seq<Entry>)
    requires CheckTrailer(plain) == None && |plain| >= ENVELOPE_SIZE && OpenArchive(plain[ENVELOPE_SIZE..]) == Ok(entries)
    requires CpioSoundness.Small(plain)
    ensures WellFormed(entries)
    ensures entries[|entries| - 1].data == [] ==> entries[|entries| - 1].magic == CRC_MAGIC
  {
    OpenedIsNormal(plain[ENVELOPE_SIZE..], entries);
    if entries[|entries| - 1].data == [] {
      var init, t := entries[..|entries| - 1], entries[|entries| - 1];
      LastIsLast(entries, init, t);
      OpenedTrailer(plain, entries, init, t);
    }
  }

  lemma LastIsLast<T>(s: seq<T>, init: seq<T>, last: T)
    requires s != [] && init == s[..|s| - 1] && last == s[|s| - 1]
    ensures s == init + [last]
  {
  }

  method RebuildOpened(md5: Hash, key: Key, tools: Tools, entries: seq<Entry>) returns (r: Result<seq<byte>, SwuError>)
    requires WellFormed(entries)
    requires entries[|entries| - 1].data == [] ==> entries[|entries| - 1].magic == CRC_MAGIC
    ensures Fate(md5, key, tools, entries, r)
  {
    var plan := PatchMembers(tools, entries);
    if plan.Err? {
      return Err(plan.error);
    }
    PlanIsShaped(tools, entries, plan.value);
    if SmallMembers(plan.value) {
      PlanIsWellFormed(tools, entries, plan.value);
    }
    r := WritePatched(md5, key, tools, plan.value);
  }

  /**
   The whole rebuild. Once the input opens and the patchers and validators agree, nothing after that
   can fail for members below 2^32 bytes and an empty trailer, and the output opens to the same
   archive with the two members replaced.
   */
  method Rebuild(md5: Hash, key: Key, tools: Tools, encrypted: seq<byte>) returns (r: Result<seq<byte>, SwuError>)
    ensures encrypted == [] ==> r == Err(EmptyInput)
    ensures |encrypted| > 0x2000_0000 ==> r == Err(TooLarge)
    ensures 0 < |encrypted| <= 0x2000_0000 ==> OpenedFate(md5, key, tools, Open(md5, key, encrypted), r)
  {
    if encrypted == [] {
      return Err(EmptyInput);
    }
    if |encrypted| > MAX_INPUT_SIZE {
      return Err(TooLarge);
    }
    var input := OpenImage(md5, key, encrypted);
    if input.Err? {
      return Err(input.error);
    }
    OpenedIsSound(md5, key, encrypted, input.value);
    r := RebuildOpened(md5, key, tools, input.value);
  }

  /** What becomes of an update, by what opening it gave. */
  ghost predicate OpenedFate(md5: Hash, key: Key, tools: Tools, input: Result<seq<Entry>, SwuError>, r: Result<seq<byte>, SwuError>) {
    match input
    case Err(e) => r == Err(e)
    case Ok(entries) => WellFormed(entries) && Fate(md5, key, tools, entries, r)
  }
}
