/** A directory on a disk that may lose power at any moment. */
module Storage {
  // What running programs see and what is found after a power cut are two different things: unsynced
  // data may come back as anything, and of the directory changes since the last directory sync each
  // may or may not have survived, name by name.

  import opened Basics

  type Name = string

  /** A directory entry: the number of the file under a name, or nothing. */
  type Entry = Option<nat>

  datatype File = File(content: seq<byte>, synced: bool, mode: nat)

  /** `dir` and `files` are what programs see; `pending` holds the entries that may survive instead. */
  datatype Disk = Disk(dir: map<Name, nat>, files: map<nat, File>, pending: map<Name, set<Entry>>)

  function EntryOf(d: Disk, name: Name): Entry {
    if name in d.dir then Some(d.dir[name]) else None
  }

  /** The entries one of which is found under `name` after a power cut. */
  function Survivors(d: Disk, name: Name): set<Entry> {
    {EntryOf(d, name)} + if name in d.pending then d.pending[name] else {}
  }

  ghost predicate Valid(d: Disk) {
    && (forall n :: n in d.dir ==> d.dir[n] in d.files)
    && (forall n, e: Entry :: n in d.pending && e in d.pending[n] && e.Some? ==> e.value in d.files)
  }

  /** What a running program reads under `name`. */
  function Visible(d: Disk, name: Name): Option<seq<byte>>
    requires Valid(d)
  {
    if name in d.dir then Some(d.files[d.dir[name]].content) else None
  }

  /** The surviving entry `e` may read as `found`. */
  predicate ReadsAs(d: Disk, e: Entry, found: Option<seq<byte>>) {
    match e
    case None => found == None
    case Some(k) => found.Some? && (k in d.files && d.files[k].synced ==> found.value == d.files[k].content)
  }

  /** `found` may be found under `name` after a power cut at this moment. */
  ghost predicate MayFind(d: Disk, name: Name, found: Option<seq<byte>>) {
    exists e :: e in Survivors(d, name) && ReadsAs(d, e, found)
  }

  // ---- system calls

  /** The surviving entries once the entry of `name` changes: the present ones, and the new one. */
  function Journal(d: Disk, name: Name): map<Name, set<Entry>> {
    d.pending[name := Survivors(d, name)]
  }

  function Create(d: Disk, name: Name, number: nat): Disk {
    Disk(d.dir[name := number], d.files[number := File([], false, 0x180)], Journal(d, name))
  }

  function Chmod(d: Disk, number: nat, mode: nat): Disk
    requires number in d.files
  {
    d.(files := d.files[number := d.files[number].(mode := mode)])
  }

  function Append(d: Disk, number: nat, data: seq<byte>): Disk
    requires number in d.files
  {
    d.(files := d.files[number := d.files[number].(content := d.files[number].content + data, synced := false)])
  }

  function Fsync(d: Disk, number: nat): Disk
    requires number in d.files
  {
    d.(files := d.files[number := d.files[number].(synced := true)])
  }

  function Unlink(d: Disk, name: Name): Disk {
    d.(dir := d.dir - {name}, pending := Journal(d, name))
  }

  function Link(d: Disk, name: Name, number: nat): Disk {
    d.(dir := d.dir[name := number], pending := Journal(d, name))
  }

  function Rename(d: Disk, from: Name, to: Name): Disk
    requires from in d.dir
  {
    Unlink(Link(d, to, d.dir[from]), from)
  }

  function SyncDir(d: Disk): Disk {
    d.(pending := map[])
  }

  /** A power cut: for every name a surviving entry, for every file its synced content or anything. */
  ghost predicate Reboots(d: Disk, after: Disk) {
    && (forall n :: EntryOf(after, n) in Survivors(d, n))
    && after.pending == map[]
    && after.files.Keys == d.files.Keys
    && forall k :: k in d.files ==>
         after.files[k].synced && (d.files[k].synced ==> after.files[k].content == d.files[k].content)
  }

  // ---- a file nobody can find yet

  /** After a power cut `target` cannot lead to the file `number`. */
  predicate Hidden(d: Disk, target: Name, number: nat) {
    Some(number) !in Survivors(d, target)
  }

  /** The same entries and contents under `name`, now and after a power cut. */
  ghost predicate SameUnder(before: Disk, after: Disk, name: Name) {
    && EntryOf(after, name) == EntryOf(before, name)
    && Survivors(after, name) == Survivors(before, name)
    && forall k :: Some(k) in Survivors(before, name) && k in before.files ==>
         k in after.files && after.files[k] == before.files[k]
  }

  lemma SameUnderTransitive(a: Disk, b: Disk, c: Disk, name: Name)
    requires SameUnder(a, b, name) && SameUnder(b, c, name)
    ensures SameUnder(a, c, name)
  {
  }

  lemma SameUnderFindsSame(before: Disk, after: Disk, name: Name, found: Option<seq<byte>>)
    requires Valid(before) && SameUnder(before, after, name)
    ensures MayFind(after, name, found) <==> MayFind(before, name, found)
  {
    assert forall e :: e in Survivors(before, name) ==> (ReadsAs(after, e, found) <==> ReadsAs(before, e, found));
  }

  lemma SameUnderReadsSame(before: Disk, after: Disk, name: Name)
    requires Valid(before) && Valid(after) && SameUnder(before, after, name)
    ensures Visible(after, name) == Visible(before, name)
  {
    assert EntryOf(after, name) in Survivors(before, name);
  }

  lemma CreateElsewhere(d: Disk, name: Name, number: nat, target: Name)
    requires Valid(d) && name != target && number !in d.files
    ensures var after := Create(d, name, number);
      Valid(after) && SameUnder(d, after, target) && Hidden(after, target, number)
  {
    var after := Create(d, name, number);
    assert forall n :: n in d.dir ==> d.dir[n] in after.files;
    assert forall e: Entry :: e in Survivors(d, name) && e.Some? ==> e.value in after.files;
  }

  /** Changing a hidden file in any way changes nothing under the target. */
  lemma ChangeHidden(d: Disk, target: Name, number: nat, f: File)
    requires Valid(d) && number in d.files && Hidden(d, target, number)
    ensures var after := d.(files := d.files[number := f]);
      Valid(after) && SameUnder(d, after, target) && Hidden(after, target, number)
  {
  }

  lemma UnlinkElsewhere(d: Disk, name: Name, target: Name)
    requires Valid(d) && name != target
    ensures Valid(Unlink(d, name)) && SameUnder(d, Unlink(d, name), target)
  {
    assert forall e: Entry :: e in Survivors(d, name) && e.Some? ==> e.value in d.files;
  }

  lemma LinkIsValid(d: Disk, name: Name, number: nat)
    requires Valid(d) && number in d.files
    ensures Valid(Link(d, name, number))
    ensures Survivors(Link(d, name, number), name) == Survivors(d, name) + {Some(number)}
    ensures forall n :: n != name ==> SameUnder(d, Link(d, name, number), n)
  {
    assert forall e: Entry :: e in Survivors(d, name) && e.Some? ==> e.value in d.files;
  }

  /** Renaming over the target adds one possibility: the content of the renamed file. */
  lemma RenameOver(d: Disk, temp: Name, target: Name)
    requires Valid(d) && temp != target && temp in d.dir
    ensures var after := Rename(d, temp, target);
      && Valid(after) && temp !in after.dir && EntryOf(after, target) == Some(d.dir[temp])
      && after.files == d.files
      && Survivors(after, target) == Survivors(d, target) + {Some(d.dir[temp])}
      && forall n :: n != temp && n != target ==> SameUnder(d, after, n)
  {
    var linked := Link(d, target, d.dir[temp]);
    LinkIsValid(d, target, d.dir[temp]);
    UnlinkElsewhere(linked, temp, target);
    forall n | n != temp && n != target
      ensures SameUnder(d, Unlink(linked, temp), n)
    {
      UnlinkElsewhere(linked, temp, n);
      SameUnderTransitive(d, linked, Unlink(linked, temp), n);
    }
  }

  /** Once the directory is synced only the visible entry survives. */
  lemma SyncDirSettles(d: Disk, target: Name)
    requires Valid(d)
    ensures Valid(SyncDir(d)) && Survivors(SyncDir(d), target) == {EntryOf(d, target)}
    ensures Visible(SyncDir(d), target) == Visible(d, target)
    ensures EntryOf(d, target).Some? && d.files[EntryOf(d, target).value].synced ==>
      forall found :: MayFind(SyncDir(d), target, found) ==> found == Visible(d, target)
  {
  }

  /** A power cut makes one of the possibilities real, and leaves no others. */
  lemma RebootIsPossible(d: Disk, after: Disk, name: Name)
    requires Valid(d) && Reboots(d, after)
    ensures Valid(after) && MayFind(d, name, Visible(after, name))
    ensures forall found :: MayFind(after, name, found) ==> found == Visible(after, name)
  {
    forall n | n in after.dir
      ensures after.dir[n] in after.files
    {
      assert EntryOf(after, n) in Survivors(d, n);
    }
    assert ReadsAs(d, EntryOf(after, name), Visible(after, name));
  }
}
