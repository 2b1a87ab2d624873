/** Atomic replacement of a file: draft under a temporary name, sync, rename over the target, sync the directory. */
module AtomicWrite {
  // Every system call asks a schedule how it fares, and the schedule may cut the power at any call:
  // what holds for every schedule holds at every crash point.

  import opened Basics
  import opened Storage
  import Text

  const PATH_MAX := 4096
  const DEFAULT_MODE := 0x180
  const MODE_BITS := 0x200

  /** How a system call fares; `Done(n)` carries the byte count of a write. */
  datatype Reply = Done(count: nat) | Interrupted | Failed | PowerLost

  datatype Outcome = Returned(ok: bool) | PowerCut

  /** How far the target has got: still the old file, replaced in memory, or replaced for good. */
  datatype Stage = Untouched | Replaced | Durable

  // ---- names

  function BaseName(filename: string): string {
    Text.AfterLast(filename, '/')
  }

  function DirName(filename: string): string {
    BaseNameIsShorter(filename);
    if '/' in filename then filename[..|filename| - |BaseName(filename)| - 1] else "."
  }

  function TempName(name: Name, suffix: string): Name {
    "." + name + "." + suffix
  }

  /** The name that is left in the template when no temporary file could be made. */
  function Template(name: Name): Name {
    TempName(name, "XXXXXX")
  }

  lemma TempIsElsewhere(name: Name, suffix: string)
    ensures TempName(name, suffix) != name
  {
    assert |TempName(name, suffix)| > |name|;
  }

  predicate TooLong(filename: string) {
    |DirName(filename)| >= PATH_MAX || |DirName(filename)| + 1 + |Template(BaseName(filename))| >= PATH_MAX
  }

  lemma BaseNameIsShorter(filename: string)
    ensures '/' in filename ==> |BaseName(filename)| < |filename|
  {
    if '/' in filename && |BaseName(filename)| == |filename| {
      AfterLastWhole(filename);
    }
  }

  lemma {:induction false} AfterLastWhole(s: string)
    requires |Text.AfterLast(s, '/')| == |s|
    ensures '/' !in s
  {
    if s != [] {
      AfterLastWhole(s[..|s| - 1]);
      assert s == s[..|s| - 1] + [s[|s| - 1]];
    }
  }

  /** A path is its directory, a slash and its last component; without a slash the directory is ".". */
  lemma NamesOfPath(dir: string, base: string)
    requires '/' !in base
    ensures BaseName(dir + ['/'] + base) == base && DirName(dir + ['/'] + base) == dir
    ensures BaseName(base) == base && DirName(base) == "."
  {
    var path := dir + ['/'] + base;
    Text.AfterLastOf(dir, '/', base);
    Text.AfterLastNone(base, '/');
    assert path[|dir|] == '/';
    assert path[..|dir|] == dir;
  }

  /** A path is too long exactly when the template of the temporary file does not fit its buffer. */
  lemma TooLongIff(dir: string, base: string)
    requires '/' !in base
    ensures TooLong(dir + ['/'] + base) <==> |dir| + |"/."| + |base| + |".XXXXXX"| >= 4096
    ensures TooLong(base) <==> |"./."| + |base| + |".XXXXXX"| >= 4096
  {
    NamesOfPath(dir, base);
  }

  /** `strlen`: a string ends before its first NUL, and only there. */
  lemma EndsAtNul(contents: seq<byte>, payload: seq<byte>)
    requires payload < contents && 0 !in payload && contents[|payload|] == 0
    ensures payload == contents[..Text.IndexOf(contents, 0)]
  {
    Text.IndexOfUnique(contents, 0, |payload|);
  }

  // ---- the invariants of the protocol

  /** A draft of `text` stands under `temp`; under every other name nothing has changed. */
  ghost predicate Drafting(before: Disk, d: Disk, temp: Name, number: nat, text: seq<byte>) {
    && Valid(d) && EntryOf(d, temp) == Some(number) && number in d.files && d.files[number].content == text
    && (forall n :: n != temp ==> SameUnder(before, d, n) && Hidden(d, n, number))
  }

  lemma DraftBegins(before: Disk, temp: Name, number: nat)
    requires Valid(before) && number !in before.files
    ensures Drafting(before, Create(before, temp, number), temp, number, [])
  {
    var d := Create(before, temp, number);
    CreateElsewhere(before, temp, number, temp + "x");
    forall n | n != temp
      ensures SameUnder(before, d, n) && Hidden(d, n, number)
    {
      CreateElsewhere(before, temp, number, n);
    }
  }

  lemma DraftChanges(before: Disk, d: Disk, temp: Name, number: nat, text: seq<byte>, f: File)
    requires Drafting(before, d, temp, number, text)
    ensures Drafting(before, d.(files := d.files[number := f]), temp, number, f.content)
  {
    var after := d.(files := d.files[number := f]);
    ChangeHidden(d, temp + "x", number, f);
    forall n | n != temp
      ensures SameUnder(before, after, n) && Hidden(after, n, number)
    {
      ChangeHidden(d, n, number, f);
      SameUnderTransitive(before, d, after, n);
    }
  }

  /** Nothing but the entry of `temp` differs. */
  ghost predicate OnlyTempDiffers(before: Disk, d: Disk, temp: Name) {
    Valid(d) && forall n :: n != temp ==> SameUnder(before, d, n)
  }

  lemma UnlinkKeeps(before: Disk, d: Disk, temp: Name)
    requires OnlyTempDiffers(before, d, temp)
    ensures OnlyTempDiffers(before, Unlink(d, temp), temp)
  {
    UnlinkElsewhere(d, temp, temp + "x");
    forall n | n != temp
      ensures SameUnder(before, Unlink(d, temp), n)
    {
      UnlinkElsewhere(d, temp, n);
      SameUnderTransitive(before, d, Unlink(d, temp), n);
    }
  }

  /** Under `name` the visible file is the same and nothing new may be found. */
  ghost predicate NothingNew(before: Disk, after: Disk, name: Name) {
    && SeenUnder(after, name) == SeenUnder(before, name)
    && forall found :: MayFind(after, name, found) ==> MayFind(before, name, found)
  }

  /** Whatever might have been found under `name` may still be found. */
  ghost predicate NothingLost(before: Disk, after: Disk, name: Name) {
    forall found :: MayFind(before, name, found) ==> MayFind(after, name, found)
  }

  /** Nothing but `payload` may be found under `name`: a power cut cannot harm it any more. */
  ghost predicate Settled(d: Disk, name: Name, payload: seq<byte>) {
    forall found :: MayFind(d, name, found) ==> found == Some(payload)
  }

  /** What programs see, for disks not known to be valid. */
  ghost function SeenUnder(d: Disk, name: Name): Option<Option<seq<byte>>> {
    if Valid(d) then Some(Visible(d, name)) else None
  }

  /** The target as each stage leaves it. */
  ghost predicate TargetIs(stage: Stage, before: Disk, after: Disk, name: Name, payload: seq<byte>)
    requires Valid(after)
  {
    match stage
    case Untouched => NothingNew(before, after, name) && NothingLost(before, after, name)
    case Replaced =>
      && Visible(after, name) == Some(payload)
      && NothingLost(before, after, name)
      && forall found :: MayFind(after, name, found) ==> MayFind(before, name, found) || found == Some(payload)
    case Durable => Visible(after, name) == Some(payload) && Settled(after, name, payload)
  }

  /** Replacing a file that reads differently leaves something else to be found. */
  lemma ReplacedIsNotSettled(before: Disk, after: Disk, name: Name, payload: seq<byte>)
    requires Valid(before) && NothingLost(before, after, name) && Visible(before, name) != Some(payload)
    ensures !Settled(after, name, payload)
  {
    assert ReadsAs(before, EntryOf(before, name), Visible(before, name));
    assert MayFind(before, name, Visible(before, name));
  }

  lemma SameIsNothingNew(before: Disk, after: Disk, name: Name)
    requires Valid(before) && Valid(after) && SameUnder(before, after, name)
    ensures NothingNew(before, after, name) && NothingLost(before, after, name)
  {
    SameUnderReadsSame(before, after, name);
    forall found
      ensures MayFind(after, name, found) <==> MayFind(before, name, found)
    {
      SameUnderFindsSame(before, after, name, found);
    }
  }

  lemma OnlyTempLeavesTarget(before: Disk, d: Disk, temp: Name)
    requires Valid(before) && OnlyTempDiffers(before, d, temp)
    ensures forall n :: n != temp ==> NothingNew(before, d, n) && NothingLost(before, d, n)
  {
    forall n | n != temp
      ensures NothingNew(before, d, n) && NothingLost(before, d, n)
    {
      SameIsNothingNew(before, d, n);
    }
  }

  lemma RenameReplaces(before: Disk, d: Disk, temp: Name, name: Name, number: nat, payload: seq<byte>)
    requires Valid(before) && Drafting(before, d, temp, number, payload) && temp != name && d.files[number].synced
    ensures var after := Rename(d, temp, name);
      && Valid(after) && temp !in after.dir && EntryOf(after, name) == Some(number) && after.files == d.files
      && TargetIs(Replaced, before, after, name, payload)
      && forall n :: n != temp && n != name ==> NothingNew(before, after, n)
  {
    var after := Rename(d, temp, name);
    RenameOver(d, temp, name);
    forall found | MayFind(after, name, found)
      ensures MayFind(before, name, found) || found == Some(payload)
    {
      var e :| e in Survivors(after, name) && ReadsAs(after, e, found);
      if e != Some(number) {
        assert e in Survivors(d, name) && ReadsAs(d, e, found);
        SameUnderFindsSame(before, d, name, found);
      }
    }
    forall found | MayFind(before, name, found)
      ensures MayFind(after, name, found)
    {
      SameUnderFindsSame(before, d, name, found);
      var e :| e in Survivors(d, name) && ReadsAs(d, e, found);
      assert e in Survivors(after, name) && ReadsAs(after, e, found);
    }
    forall n | n != temp && n != name
      ensures NothingNew(before, after, n)
    {
      SameUnderTransitive(before, d, after, n);
      SameIsNothingNew(before, after, n);
    }
  }

  lemma SyncShrinks(before: Disk, d: Disk, name: Name)
    requires Valid(d) && NothingNew(before, d, name)
    ensures NothingNew(before, SyncDir(d), name)
  {
    forall found | MayFind(SyncDir(d), name, found)
      ensures MayFind(d, name, found)
    {
      assert EntryOf(d, name) in Survivors(d, name);
    }
  }

  // ---- the machine

  /** The kernel below the function: the disk, and the schedule that decides how each call fares. */
  class Kernel {
    var disk: Disk
    var schedule: seq<Reply>
    /** How the latest call fared. */
    var last: Reply

    constructor (disk: Disk, schedule: seq<Reply>)
      ensures this.disk == disk && this.schedule == schedule
    {
      this.disk, this.schedule, this.last := disk, schedule, Done(0);
    }

    /** The next reply; a schedule that has ended means that the power has been cut. */
    method Ask() returns (r: Reply)
      modifies this`schedule, this`last
      ensures old(schedule) == [] ==> r == PowerLost && schedule == []
      ensures old(schedule) != [] ==> r == old(schedule)[0] && schedule == old(schedule)[1..]
      ensures last == r
    {
      if schedule == [] {
        r := PowerLost;
      } else {
        r, schedule := schedule[0], schedule[1..];
      }
      last := r;
    }
  }

  /** Every call is obeyed, and writes make progress. */
  ghost predicate Smooth(schedule: seq<Reply>) {
    forall i :: 0 <= i < |schedule| ==> schedule[i].Done? && schedule[i].count > 0
  }

  /** `used` replies have been taken off a smooth schedule, unless it was too short. */
  ghost predicate Progress(was: seq<Reply>, now: seq<Reply>, used: nat) {
    Smooth(was) ==> Smooth(now) && |now| + used >= |was|
  }

  /** The write loop: short writes and EINTR are retried, an empty write is an error. */
  method WriteAll(k: Kernel, number: nat, data: seq<byte>, ghost before: Disk, ghost temp: Name) returns (r: Reply)
    requires Drafting(before, k.disk, temp, number, [])
    modifies k
    ensures Valid(k.disk) && k.disk.dir == old(k.disk.dir)
    ensures r.Done? ==> Drafting(before, k.disk, temp, number, data)
    ensures exists text :: Drafting(before, k.disk, temp, number, text)
    ensures number in k.disk.files && k.disk.files[number].mode == old(k.disk.files[number].mode)
    ensures Progress(old(k.schedule), k.schedule, |data|)
    ensures Smooth(old(k.schedule)) && |old(k.schedule)| >= |data| ==> r.Done?
  {
    var pos: nat := 0;
    r := Done(0);
    while pos < |data|
      invariant pos <= |data|
      invariant k.disk.dir == old(k.disk.dir)
      invariant Drafting(before, k.disk, temp, number, data[..pos])
      invariant k.disk.files[number].mode == old(k.disk.files[number].mode)
      invariant Progress(old(k.schedule), k.schedule, pos)
      decreases |data| - pos, |k.schedule|
    {
      r := k.Ask();
      match r {
        case PowerLost => return;
        case Failed => return;
        case Interrupted =>
        case Done(count) =>
          if count == 0 {
            r := Failed;
            return;
          }
          var n := Min(count, |data| - pos);
          DraftChanges(before, k.disk, temp, number, data[..pos],
                       k.disk.files[number].(content := data[..pos] + data[pos..pos + n], synced := false));
          k.disk := Append(k.disk, number, data[pos..pos + n]);
          pos := pos + n;
          assert data[..pos - n] + data[pos - n..pos] == data[..pos];
      }
    }
    r := Done(0);
    assert data[..pos] == data;
  }

  /** From `fchmod` to `close`: the draft is complete and synced when all went well. */
  method FillDraft(k: Kernel, number: nat, mode: nat, data: seq<byte>, ghost before: Disk, ghost temp: Name)
    returns (r: Reply)
    requires Drafting(before, k.disk, temp, number, [])
    modifies k
    ensures r.Done? ==> Drafting(before, k.disk, temp, number, data)
    ensures r.Done? ==> k.disk.files[number].synced && k.disk.files[number].mode == mode
    ensures OnlyTempDiffers(before, k.disk, temp)
    ensures Progress(old(k.schedule), k.schedule, |data| + 3)
    ensures Smooth(old(k.schedule)) && |old(k.schedule)| >= |data| + 3 ==> r.Done?
  {
    r := k.Ask();
    if !r.Done? {
      return;
    }
    DraftChanges(before, k.disk, temp, number, [], k.disk.files[number].(mode := mode));
    k.disk := Chmod(k.disk, number, mode);
    r := WriteAll(k, number, data, before, temp);
    if !r.Done? {
      return;
    }
    r := k.Ask();
    if !r.Done? {
      return;
    }
    DraftChanges(before, k.disk, temp, number, data, k.disk.files[number].(synced := true));
    k.disk := Fsync(k.disk, number);
    r := k.Ask();
  }

  /** The failure path: the temporary name is unlinked, if that succeeds. */
  method Abandon(k: Kernel, temp: Name, ghost before: Disk) returns (out: Outcome)
    requires Valid(before) && OnlyTempDiffers(before, k.disk, temp)
    modifies k
    ensures OnlyTempDiffers(before, k.disk, temp) && k.disk.dir.Keys <= old(k.disk.dir.Keys)
    ensures out == PowerCut || out == Returned(false)
    ensures out == Returned(false) && k.last.Done? ==> temp !in k.disk.dir
  {
    var r := k.Ask();
    if r.PowerLost? {
      return PowerCut;
    }
    if r.Done? {
      UnlinkKeeps(before, k.disk, temp);
      k.disk := Unlink(k.disk, temp);
    }
    out := Returned(false);
  }

  /** After the rename: make the directory durable. One that cannot be opened is not a failure. */
  method Settle(k: Kernel, dirname: string, name: Name, payload: seq<byte>, ghost before: Disk, ghost temp: Name)
    returns (out: Outcome, ghost stage: Stage)
    requires Valid(k.disk) && TargetIs(Replaced, before, k.disk, name, payload)
    requires EntryOf(k.disk, name).Some? && k.disk.files[EntryOf(k.disk, name).value].synced
    requires forall n :: n != temp && n != name ==> NothingNew(before, k.disk, n)
    modifies k
    ensures Valid(k.disk) && k.disk.dir == old(k.disk.dir) && k.disk.files == old(k.disk.files)
    ensures stage != Untouched && TargetIs(stage, before, k.disk, name, payload)
    ensures forall n :: n != temp && n != name ==> NothingNew(before, k.disk, n)
    ensures out == Returned(false) ==> stage == Replaced
    ensures out == Returned(true) ==> (stage == Durable <==> dirname != "" && k.last.Done?)
    ensures Smooth(old(k.schedule)) && |old(k.schedule)| >= 2 ==>
              out == Returned(true) && (dirname != "" ==> stage == Durable)
  {
    stage := Replaced;
    var r := k.Ask();
    if r.PowerLost? {
      return PowerCut, Replaced;
    }
    if r.Done? && dirname != "" {
      r := k.Ask();
      if r.PowerLost? {
        return PowerCut, Replaced;
      }
      if !r.Done? {
        return Returned(false), Replaced;
      }
      SyncDirSettles(k.disk, name);
      forall n | n != temp && n != name
        ensures NothingNew(before, SyncDir(k.disk), n)
      {
        SyncShrinks(before, k.disk, n);
      }
      k.disk := SyncDir(k.disk);
      stage := Durable;
    }
    out := Returned(true);
  }

  /** The mode of the file to be replaced, or owner-only. */
  method StatMode(k: Kernel, name: Name) returns (r: Reply, mode: nat)
    requires Valid(k.disk)
    modifies k`schedule, k`last
    ensures !r.PowerLost? ==> mode == if r.Done? && name in k.disk.dir then k.disk.files[k.disk.dir[name]].mode % 0x200 else 0x180
    ensures r == if old(k.schedule) == [] then PowerLost else old(k.schedule)[0]
    ensures Progress(old(k.schedule), k.schedule, 1)
    ensures Smooth(old(k.schedule)) && old(k.schedule) != [] ==> r.Done?
  {
    mode := DEFAULT_MODE;
    r := k.Ask();
    if r.Done? && name in k.disk.dir {
      mode := k.disk.files[k.disk.dir[name]].mode % MODE_BITS;
    }
  }

  /** The mode of the replacement: that of the replaced file if `stat` reported one, or else owner-only. */
  ghost predicate ModeKept(before: Disk, after: Disk, name: Name, reported: bool)
    requires Valid(before)
  {
    && EntryOf(after, name).Some? && EntryOf(after, name).value in after.files
    && after.files[EntryOf(after, name).value].mode ==
       if reported && name in before.dir then before.files[before.dir[name]].mode % 0x200 else 0x180
  }

  /** From `mkstemp` to the end: the whole replacement. */
  method Replace(k: Kernel, dirname: string, name: Name, payload: seq<byte>, suffix: string, number: nat)
    returns (out: Outcome, ghost stage: Stage)
    requires Valid(k.disk) && number !in k.disk.files
    requires TempName(name, suffix) !in k.disk.dir
    modifies k
    ensures Valid(k.disk) && TargetIs(stage, old(k.disk), k.disk, name, payload)
    ensures out == Returned(true) ==> stage != Untouched && (stage == Durable <==> dirname != "" && k.last.Done?)
    ensures out == Returned(false) ==> stage != Durable
    ensures out.Returned? && (out.ok || k.last.Done?) ==> TempName(name, suffix) !in k.disk.dir
    ensures stage != Untouched ==> TempName(name, suffix) !in k.disk.dir && |old(k.schedule)| >= 2
                                   && ModeKept(old(k.disk), k.disk, name, old(k.schedule)[1].Done?)
    ensures forall n :: n !in {name, TempName(name, suffix), Template(name)} ==> NothingNew(old(k.disk), k.disk, n)
    ensures Smooth(old(k.schedule)) && |old(k.schedule)| >= |payload| + 8 ==>
              out == Returned(true) && (dirname != "" ==> stage == Durable)
  {
    ghost var before := k.disk;
    var temp := TempName(name, suffix);
    TempIsElsewhere(name, suffix);
    TempIsElsewhere(name, "XXXXXX");
    stage := Untouched;
    var r := k.Ask();
    if r.PowerLost? {
      SameIsEverywhere(before);
      return PowerCut, Untouched;
    }
    if !r.Done? {
      out := Abandon(k, Template(name), before);
      OnlyTempLeavesTarget(before, k.disk, Template(name));
      return;
    }
    DraftBegins(before, temp, number);
    k.disk := Create(k.disk, temp, number);
    var mode;
    r, mode := StatMode(k, name);
    if r.PowerLost? {
      OnlyTempLeavesTarget(before, k.disk, temp);
      return PowerCut, Untouched;
    }
    TargetUntouchedByDraft(before, k.disk, temp, number, name);
    r := FillDraft(k, number, mode, payload, before, temp);
    if r.Done? {
      r := k.Ask();
    }
    if r.PowerLost? {
      OnlyTempLeavesTarget(before, k.disk, temp);
      return PowerCut, Untouched;
    }
    if !r.Done? {
      out := Abandon(k, temp, before);
      OnlyTempLeavesTarget(before, k.disk, temp);
      return;
    }
    RenameReplaces(before, k.disk, temp, name, number, payload);
    k.disk := Rename(k.disk, temp, name);
    out, stage := Settle(k, dirname, name, payload, before, temp);
  }

  lemma SameIsEverywhere(d: Disk)
    requires Valid(d)
    ensures forall n :: NothingNew(d, d, n) && NothingLost(d, d, n)
  {
  }

  lemma TargetUntouchedByDraft(before: Disk, d: Disk, temp: Name, number: nat, name: Name)
    requires Valid(before) && Drafting(before, d, temp, number, []) && temp != name
    ensures EntryOf(d, name) == EntryOf(before, name)
    ensures name in d.dir ==> d.files[d.dir[name]] == before.files[before.dir[name]]
  {
    assert SameUnder(before, d, name);
    assert EntryOf(before, name) in Survivors(before, name);
  }

  /**
   `btd_file_set_contents`. The suffix and the file number are what `mkstemp` picks: a name not yet
   in the directory, and a new file. The target is the old file or the new one, in memory and after a
   power cut. Success means that the payload is there; that it is there for good if and only if the
   directory has a name and its last call, opening or syncing the directory, was obeyed, or if nothing
   had to be written and it was there for good before. Failure means that it was not made durable.
   Unchanged contents and names too long cause no write at all; no other name is touched but the
   temporary one.
   */
  method SetContents(k: Kernel, filename: string, contents: seq<byte>, length: int, suffix: string, number: nat)
    returns (out: Outcome, ghost stage: Stage, ghost payload: seq<byte>)
    requires length <= |contents| && (length < 0 ==> 0 in contents)
    requires Valid(k.disk) && number !in k.disk.files
    requires TempName(BaseName(filename), suffix) !in k.disk.dir
    modifies k
    ensures length >= 0 ==> payload == contents[..length]
    ensures length < 0 ==> payload < contents && 0 !in payload && contents[|payload|] == 0
    ensures Valid(k.disk)
    ensures TargetIs(stage, old(k.disk), k.disk, BaseName(filename), payload)
    ensures out == Returned(true) ==> Visible(k.disk, BaseName(filename)) == Some(payload)
    ensures out == Returned(true) ==>
              (Settled(k.disk, BaseName(filename), payload) <==>
               if Visible(old(k.disk), BaseName(filename)) == Some(payload)
               then Settled(old(k.disk), BaseName(filename), payload)
               else DirName(filename) != "" && k.last.Done?)
    ensures (Visible(old(k.disk), BaseName(filename)) == Some(payload) &&
             old(k.schedule) != [] && old(k.schedule)[0].Done?) ==> out == Returned(true)
    ensures out == Returned(false) ==> stage != Durable
    ensures out.Returned? && (out.ok || k.last.Done?) ==> TempName(BaseName(filename), suffix) !in k.disk.dir
    ensures stage != Untouched ==>
              |old(k.schedule)| >= 3 && ModeKept(old(k.disk), k.disk, BaseName(filename), old(k.schedule)[2].Done?)
    ensures Visible(old(k.disk), BaseName(filename)) == Some(payload) || TooLong(filename) ==>
              k.disk == old(k.disk) && stage == Untouched
    ensures forall n :: n !in {BaseName(filename), TempName(BaseName(filename), suffix), Template(BaseName(filename))} ==>
              NothingNew(old(k.disk), k.disk, n)
    ensures Smooth(old(k.schedule)) && |old(k.schedule)| >= |payload| + 9 && !TooLong(filename) ==>
              out == Returned(true)
    ensures Smooth(old(k.schedule)) && |old(k.schedule)| >= |payload| + 9 && !TooLong(filename)
            && DirName(filename) != "" && Visible(old(k.disk), BaseName(filename)) != Some(payload) ==>
              stage == Durable
  {
    Text.IndexOfIsFirst(contents, 0);
    var data := contents[..if length < 0 then Text.IndexOf(contents, 0) else length];
    payload := data;
    var name := BaseName(filename);
    stage := Untouched;
    SameIsEverywhere(k.disk);
    var r := k.Ask();
    if r.PowerLost? {
      return PowerCut, Untouched, data;
    }
    if !r.Done? {
      return Returned(false), Untouched, data;
    }
    if name in k.disk.dir && k.disk.files[k.disk.dir[name]].content == data {
      return Returned(true), Untouched, data;
    }
    if TooLong(filename) {
      return Returned(false), Untouched, data;
    }
    ghost var before := k.disk;
    out, stage := Replace(k, DirName(filename), name, data, suffix, number);
    if stage == Replaced {
      ReplacedIsNotSettled(before, k.disk, name, data);
    }
  }

  // ---- whole histories

  /** One event in the life of the target: a call of `SetContents`, or a power cut and restart. */
  datatype Event = Call(payload: seq<byte>, stage: Stage) | Restart

  ghost predicate Happens(event: Event, before: Disk, after: Disk, name: Name) {
    && Valid(before) && Valid(after)
    && match event
       case Call(payload, stage) => TargetIs(stage, before, after, name, payload)
       case Restart => Reboots(before, after)
  }

  ghost predicate History(events: seq<Event>, disks: seq<Disk>, name: Name) {
    && |disks| == |events| + 1
    && Valid(disks[0])
    && forall i :: 0 <= i < |events| ==> Happens(events[i], disks[i], disks[i + 1], name)
  }

  /** One of the payloads handed over from event `from` on. */
  ghost predicate WrittenSince(events: seq<Event>, from: nat, found: Option<seq<byte>>) {
    exists i :: from <= i < |events| && events[i].Call? && found == Some(events[i].payload)
  }

  lemma EventAdds(event: Event, before: Disk, after: Disk, name: Name, found: Option<seq<byte>>)
    requires Happens(event, before, after, name)
    requires MayFind(after, name, found)
    ensures MayFind(before, name, found) || (event.Call? && found == Some(event.payload))
  {
    if event.Restart? {
      RebootIsPossible(before, after, name);
    }
  }

  /**
   However many calls and power cuts there are, what may be found is what might have been found at
   some earlier moment or a payload handed over since, never an empty file or part of one.
   */
  lemma {:induction false} OldOrNewThroughout(events: seq<Event>, disks: seq<Disk>, name: Name, from: nat, found: Option<seq<byte>>)
    requires History(events, disks, name) && from <= |events|
    requires MayFind(disks[|events|], name, found)
    ensures MayFind(disks[from], name, found) || WrittenSince(events, from, found)
    decreases |events|
  {
    if from < |events| {
      var last := |events| - 1;
      assert Happens(events[last], disks[last], disks[last + 1], name);
      EventAdds(events[last], disks[last], disks[last + 1], name, found);
      if MayFind(disks[last], name, found) {
        var fewer := events[..last];
        assert History(fewer, disks[..last + 1], name) by {
          assert forall i :: 0 <= i < last ==> Happens(events[i], disks[i], disks[i + 1], name);
        }
        OldOrNewThroughout(fewer, disks[..last + 1], name, from, found);
        if WrittenSince(fewer, from, found) {
          var i :| from <= i < last && fewer[i].Call? && found == Some(fewer[i].payload);
          assert events[i] == fewer[i];
        }
      }
    }
  }

  /** Once a write is durable, only it or a later one is ever found. */
  lemma DurableIsForever(events: seq<Event>, disks: seq<Disk>, name: Name, at: nat, found: Option<seq<byte>>)
    requires History(events, disks, name) && at < |events|
    requires events[at].Call? && events[at].stage == Durable
    requires MayFind(disks[|events|], name, found)
    ensures WrittenSince(events, at, found)
  {
    assert Happens(events[at], disks[at], disks[at + 1], name);
    OldOrNewThroughout(events, disks, name, at + 1, found);
    if MayFind(disks[at + 1], name, found) {
      assert found == Some(events[at].payload);
    } else {
      var i :| at + 1 <= i < |events| && events[i].Call? && found == Some(events[i].payload);
    }
  }

  /** After a rename without a directory sync the payload is visible and yet nothing may be found. */
  lemma SuccessNeedNotBeDurable(d: Disk, name: Name, temp: Name, number: nat, payload: seq<byte>)
    requires Valid(d) && d.pending == map[] && name !in d.dir && temp != name && number !in d.files
    ensures
      var synced := Fsync(Append(Create(d, temp, number), number, payload), number);
      var after := Rename(synced, temp, name);
      Valid(after) && Visible(after, name) == Some(payload) && MayFind(after, name, None)
  {
    DraftBegins(d, temp, number);
    var created := Create(d, temp, number);
    DraftChanges(d, created, temp, number, [], File(payload, false, 0x180));
    var filled := Append(created, number, payload);
    assert [] + payload == payload;
    DraftChanges(d, filled, temp, number, payload, File(payload, true, 0x180));
    var synced := Fsync(filled, number);
    RenameReplaces(d, synced, temp, name, number, payload);
    RenameOver(synced, temp, name);
    assert SameUnder(d, synced, name);
    assert None in Survivors(Rename(synced, temp, name), name);
    assert ReadsAs(Rename(synced, temp, name), None, None);
  }

  /**
   In such a state a further call with the same contents reports success after its first system call,
   although the directory has never been synced: nothing at all may still be found.
   */
  method RetryReportsSuccess(k: Kernel, filename: string, contents: seq<byte>, length: int, suffix: string, number: nat,
                             ghost payload: seq<byte>)
    returns (out: Outcome)
    requires length <= |contents| && (length < 0 ==> 0 in contents)
    requires length >= 0 ==> payload == contents[..length]
    requires length < 0 ==> payload < contents && 0 !in payload && contents[|payload|] == 0
    requires Valid(k.disk) && number !in k.disk.files && TempName(BaseName(filename), suffix) !in k.disk.dir
    requires Visible(k.disk, BaseName(filename)) == Some(payload) && MayFind(k.disk, BaseName(filename), None)
    requires k.schedule != [] && k.schedule[0].Done?
    modifies k
    ensures out == Returned(true) && MayFind(k.disk, BaseName(filename), None)
  {
    ghost var stage, stored;
    out, stage, stored := SetContents(k, filename, contents, length, suffix, number);
    if length < 0 {
      EndsAtNul(contents, payload);
      EndsAtNul(contents, stored);
    }
  }
}
