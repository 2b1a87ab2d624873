/** Booting over USB: the memory map is checked, four blobs are uploaded, and the trampoline is started. */
module Boot {
  import opened Basics
  import opened Mips
  import opened Trampoline
  import opened BootArgs
  import Utf8

  /** A half-open range of addresses. */
  datatype Region = Region(start: int, end: int)

  datatype BootError =
    | PointerRange
    | OutsideRam(region: nat) | EmptyRegion(region: nat) | Overlapping(a: nat, b: nat)
    | WriteFailed | ReadBackDiffers

  // ---- the memory map

  function Max(a: int, b: int): int {
    if a >= b then a else b
  }

  predicate Overlaps(a: Region, b: Region) {
    Max(a.start, b.start) < Min(a.end, b.end)
  }

  predicate Contains(r: Region, address: int) {
    r.start <= address < r.end
  }

  /** Two regions overlap exactly when they share an address. */
  lemma OverlapIsSharing(a: Region, b: Region)
    ensures Overlaps(a, b) <==> exists address :: Contains(a, address) && Contains(b, address)
  {
    if Overlaps(a, b) {
      assert Contains(a, Max(a.start, b.start)) && Contains(b, Max(a.start, b.start));
    }
  }

  predicate Fits(r: Region) {
    RAM_BASE <= r.start < r.end <= RAM_END
  }

  ghost predicate Disjoint(a: Region, b: Region) {
    forall address :: !(Contains(a, address) && Contains(b, address))
  }

  ghost predicate SafeMap(regions: seq<Region>) {
    && (forall i :: 0 <= i < |regions| ==> Fits(regions[i]))
    && forall i, j :: 0 <= i < j < |regions| ==> Disjoint(regions[i], regions[j])
  }

  /** Each complaint names a region that really is at fault. */
  ghost predicate Justified(regions: seq<Region>, e: BootError) {
    match e
    case OutsideRam(i) => i < |regions| && (regions[i].start < RAM_BASE || regions[i].end > RAM_END)
    case EmptyRegion(i) => i < |regions| && regions[i].start >= regions[i].end
    case Overlapping(i, j) => i < j < |regions| && !Disjoint(regions[i], regions[j])
    case _ => false
  }

  method CheckRegions(regions: seq<Region>) returns (r: Option<BootError>)
    ensures r == None <==> SafeMap(regions)
    ensures r.Some? ==> Justified(regions, r.value)
  {
    for i := 0 to |regions|
      invariant forall k :: 0 <= k < i ==> Fits(regions[k])
    {
      if regions[i].start < RAM_BASE || regions[i].end > RAM_END {
        return Some(OutsideRam(i));
      }
      if regions[i].start >= regions[i].end {
        return Some(EmptyRegion(i));
      }
    }
    for i := 0 to |regions|
      invariant forall k, j :: 0 <= k < i && k < j < |regions| ==> Disjoint(regions[k], regions[j])
    {
      for j := i + 1 to |regions|
        invariant forall k :: i < k < j ==> Disjoint(regions[i], regions[k])
      {
        OverlapIsSharing(regions[i], regions[j]);
        if Overlaps(regions[i], regions[j]) {
          return Some(Overlapping(i, j));
        }
      }
    }
    r := None;
  }

  // ---- the device

  /** `x` as two 16-bit halves, high half first. */
  function SplitHalves(x: int): (int, int) {
    (x / 0x1_0000 % 0x1_0000, x % 0x1_0000)
  }

  function Rejoin(halves: (int, int)): int {
    halves.0 * 0x1_0000 + halves.1
  }

  lemma HalvesRejoin(x: int)
    requires 0 <= x < TWO_32
    ensures Rejoin(SplitHalves(x)) == x
  {
  }

  const DEFAULT_PACKET: nat := 512

  type PacketSize = n: nat | n > 0 witness DEFAULT_PACKET

  /** The transfers take all of `size` bytes, in packets: each takes some of the packet it is offered. */
  function TakesPackets(transfers: seq<int>, size: nat, packet: PacketSize): bool
    decreases |transfers|
  {
    || size == 0
    || (transfers != [] && transfers[0] > 0
        && TakesPackets(transfers[1..], size - Min(transfers[0], Min(packet, size)), packet))
  }

  lemma TakesNext(transfers: seq<int>, size: nat, packet: PacketSize, chunk: nat)
    requires size > 0 && chunk == Min(packet, size)
    ensures TakesPackets(transfers, size, packet) <==>
              transfers != [] && Min(transfers[0], chunk) > 0 && TakesPackets(transfers[1..], size - Min(transfers[0], chunk), packet)
  {
  }

  /** Every coming transfer takes something. */
  predicate Flowing(transfers: seq<int>) {
    forall i :: 0 <= i < |transfers| ==> transfers[i] > 0
  }

  /** As many transfers as there are bytes are always enough, if each takes something. */
  lemma {:induction false} FlowingTakesPackets(transfers: seq<int>, size: nat, packet: PacketSize)
    requires Flowing(transfers) && |transfers| >= size
    ensures TakesPackets(transfers, size, packet)
    decreases |transfers|
  {
    if size > 0 {
      FlowingTakesPackets(transfers[1..], size - Min(transfers[0], Min(packet, size)), packet);
    }
  }

  /** No more than `used` transfers have been taken off a flowing schedule. */
  ghost predicate NoMoreUsed(was: seq<int>, now: seq<int>, used: nat) {
    Flowing(was) ==> Flowing(now) && |now| + used >= |was|
  }

  /** The boot ROM of the device: its memory, and where the next bulk data goes. */
  class Device {
    var mem: Memory
    var pointer: int
    /** How many bytes each coming bulk transfer will take; none at all once it runs out. */
    var transfers: seq<int>
    const packetSize: PacketSize

    constructor (mem: Memory, transfers: seq<int>, maxPacketSize: nat)
      ensures this.mem == mem && this.transfers == transfers
      ensures packetSize == if maxPacketSize == 0 then 512 else maxPacketSize
    {
      this.mem, this.transfers, this.pointer := mem, transfers, 0;
      this.packetSize := if maxPacketSize == 0 then DEFAULT_PACKET else maxPacketSize;
    }

    method SetDataAddress(halves: (int, int))
      modifies this`pointer
      ensures pointer == Rejoin(halves)
    {
      pointer := Rejoin(halves);
    }

    /** One bulk transfer: some of the chunk is stored, and the pointer moves on. */
    method Transfer(chunk: seq<byte>) returns (written: int)
      requires RAM_BASE <= pointer && pointer + |chunk| <= RAM_END
      modifies this
      ensures old(transfers) == [] ==> written == 0 && transfers == []
      ensures old(transfers) != [] ==> written == Min(old(transfers)[0], |chunk|) && transfers == old(transfers)[1..]
      ensures written <= 0 ==> mem == old(mem) && pointer == old(pointer)
      ensures written > 0 ==> mem == Splice(old(mem), old(pointer) - RAM_BASE, chunk[..written])
      ensures written > 0 ==> pointer == old(pointer) + written
    {
      if transfers == [] {
        return 0;
      }
      written := Min(transfers[0], |chunk|);
      transfers := transfers[1..];
      if written > 0 {
        mem := Splice(mem, pointer - RAM_BASE, chunk[..written]);
        pointer := pointer + written;
      }
    }

    /** One turn of the loop: the next packet, behind the `sent` bytes that are stored. */
    method WriteNext(data: seq<byte>, sent: nat, ghost before: Memory, ghost start: int, ghost left: nat) returns (written: int)
      requires sent < |data| && left == |data| - sent && RAM_BASE <= start && start + |data| <= RAM_END && pointer == start + sent
      requires Stored(before, mem, start, data[..sent])
      modifies this
      ensures written <= 0 ==> mem == old(mem) && pointer == old(pointer)
      ensures written > 0 ==> written <= left && pointer == start + sent + written
      ensures written > 0 ==> Stored(before, mem, start, data[..sent + written]) && NoMoreUsed(old(transfers), transfers, written)
      ensures written <= 0 ==> NoMoreUsed(old(transfers), transfers, 0)
      ensures TakesPackets(old(transfers), left, packetSize) <==>
                written > 0 && TakesPackets(transfers, left - written, packetSize)
    {
      var chunkEnd := Min(sent + packetSize, |data|);
      var chunk := data[sent..chunkEnd];
      ghost var was := mem;
      TakesNext(transfers, left, packetSize, |chunk|);
      written := Transfer(chunk);
      if written > 0 {
        StoredMore(before, was, mem, start, data, sent, chunk, written);
      }
    }

    method BulkWrite(data: seq<byte>) returns (ok: bool)
      requires RAM_BASE <= pointer && pointer + |data| <= RAM_END
      modifies this
      ensures ok <==> TakesPackets(old(transfers), |data|, packetSize)
      ensures NoMoreUsed(old(transfers), transfers, |data|)
      ensures ok ==> Stored(old(mem), mem, old(pointer), data)
      ensures !ok ==> exists n: nat :: n < |data| && Stored(old(mem), mem, old(pointer), data[..n])
    {
      var total, sent: nat := |data|, 0;
      ghost var left := total;
      StoredNothing(mem, pointer);
      assert data[..0] == [];
      while sent < total
        invariant sent <= total && left == total - sent && pointer == old(pointer) + sent
        invariant Stored(old(mem), mem, old(pointer), data[..sent])
        invariant TakesPackets(old(transfers), total, packetSize) <==> TakesPackets(transfers, left, packetSize)
        invariant NoMoreUsed(old(transfers), transfers, sent)
        decreases total - sent
      {
        var written := WriteNext(data, sent, old(mem), old(pointer), left);
        if written <= 0 {
          return false;
        }
        sent, left := sent + written, left - written;
      }
      assert data[..sent] == data;
      ok := true;
    }

    method BulkRead(length: nat) returns (data: seq<byte>)
      requires RAM_BASE <= pointer && pointer + length <= RAM_END
      ensures data == mem[pointer - RAM_BASE..pointer - RAM_BASE + length]
    {
      data := mem[pointer - RAM_BASE..pointer - RAM_BASE + length];
    }

    /** Upload a blob; a failure leaves at most the front of it in memory, and nothing elsewhere. */
    method DownloadBlob(address: int, blob: seq<byte>, verify: bool) returns (failure: Option<BootError>)
      requires RAM_BASE <= address && address + |blob| <= RAM_END
      modifies this
      ensures failure == None <==> TakesPackets(old(transfers), |blob|, packetSize)
      ensures NoMoreUsed(old(transfers), transfers, |blob|)
      ensures failure == None ==> Stored(old(mem), mem, address, blob)
      ensures failure == None || failure == Some(WriteFailed)
      ensures failure.Some? ==> exists n: nat :: n < |blob| && Stored(old(mem), mem, address, blob[..n])
    {
      HalvesRejoin(address);
      SetDataAddress(SplitHalves(address));
      var ok := BulkWrite(blob);
      if !ok {
        return Some(WriteFailed);
      }
      if verify {
        SetDataAddress(SplitHalves(address));
        var back := BulkRead(|blob|);
        StoredIsHeld(old(mem), mem, address, blob);
        if back != blob {
          return Some(ReadBackDiffers);
        }
      }
      failure := None;
    }
  }

  /** `data` has been stored at an address, and nothing else has changed. */
  predicate Stored(before: Memory, after: Memory, at: int, data: seq<byte>) {
    RAM_BASE <= at && at + |data| <= RAM_END && after == Splice(before, at - RAM_BASE, data)
  }

  lemma StoredNothing(mem: Memory, at: int)
    requires RAM_BASE <= at <= RAM_END
    ensures Stored(mem, mem, at, [])
  {
  }

  lemma StoredMore(before: Memory, was: Memory, now: Memory, at: int, data: seq<byte>, sent: nat, chunk: seq<byte>, n: nat)
    requires sent + |chunk| <= |data| && chunk == data[sent..sent + |chunk|] && n <= |chunk| && at + |data| <= RAM_END
    requires Stored(before, was, at, data[..sent]) && now == Splice(was, at + sent - RAM_BASE, chunk[..n])
    ensures Stored(before, now, at, data[..sent + n])
  {
    SpliceMore(before, at - RAM_BASE, data[..sent], chunk[..n]);
    assert data[..sent] + chunk[..n] == data[..sent + n];
  }

  lemma StoredIsHeld(before: Memory, after: Memory, at: int, data: seq<byte>)
    requires Stored(before, after, at, data)
    ensures Holds(after, at, data)
  {
  }

  /** What is held elsewhere stays. */
  lemma HeldElsewhere(before: Memory, after: Memory, at: int, data: seq<byte>, other: int, held: seq<byte>)
    requires Stored(before, after, at, data) && Holds(before, other, held)
    requires other + |held| <= at || at + |data| <= other
    ensures Holds(after, other, held)
  {
    var i := other - RAM_BASE;
    assert after[i..i + |held|] == before[i..i + |held|];
  }

  // ---- the boot

  /** What is uploaded, and where to. */
  datatype Blob = Blob(address: int, data: seq<byte>)

  function RegionOf(b: Blob): Region {
    Region(b.address, b.address + |b.data|)
  }

  function RegionsOf(blobs: seq<Blob>): (r: seq<Region>)
    ensures |r| == |blobs|
  {
    seq(|blobs|, i requires 0 <= i < |blobs| => RegionOf(blobs[i]))
  }

  /** The blob has a byte at this address. */
  predicate Occupies(b: Blob, address: int) {
    b.address <= address < b.address + |b.data|
  }

  lemma PairIff(a: Blob, b: Blob)
    ensures Disjoint(RegionOf(a), RegionOf(b)) <==> forall address :: !(Occupies(a, address) && Occupies(b, address))
  {
    if Disjoint(RegionOf(a), RegionOf(b)) {
      forall address
        ensures !(Occupies(a, address) && Occupies(b, address))
      {
        assert !(Contains(RegionOf(a), address) && Contains(RegionOf(b), address));
      }
    } else {
      var address :| Contains(RegionOf(a), address) && Contains(RegionOf(b), address);
      assert Occupies(a, address) && Occupies(b, address);
    }
  }

  /** A map is safe exactly if every blob has bytes, all of them in RAM, and no address belongs to two blobs. */
  lemma SafeMapIff(blobs: seq<Blob>)
    ensures SafeMap(RegionsOf(blobs)) <==>
            && (forall i :: 0 <= i < |blobs| ==>
                  0 < |blobs[i].data| && 0x8000_0000 <= blobs[i].address && blobs[i].address + |blobs[i].data| <= 0x8400_0000)
            && forall i, j, address :: 0 <= i < j < |blobs| ==> !(Occupies(blobs[i], address) && Occupies(blobs[j], address))
  {
    var regions := RegionsOf(blobs);
    forall i | 0 <= i < |blobs|
      ensures Fits(regions[i]) <==>
              0 < |blobs[i].data| && 0x8000_0000 <= blobs[i].address && blobs[i].address + |blobs[i].data| <= 0x8400_0000
    {
      assert regions[i] == RegionOf(blobs[i]);
    }
    forall i, j | 0 <= i < j < |blobs|
      ensures Disjoint(regions[i], regions[j]) <==> forall address :: !(Occupies(blobs[i], address) && Occupies(blobs[j], address))
    {
      PairIff(blobs[i], blobs[j]);
    }
  }

  ghost predicate AllHeld(mem: Memory, blobs: seq<Blob>) {
    forall i :: 0 <= i < |blobs| ==> Holds(mem, blobs[i].address, blobs[i].data)
  }

  /** Nothing outside the regions has changed. */
  ghost predicate UntouchedOutside(before: Memory, after: Memory, regions: seq<Region>) {
    forall k :: 0 <= k < |before| && (forall i :: 0 <= i < |regions| ==> !Contains(regions[i], RAM_BASE + k)) ==>
                  after[k] == before[k]
  }

  lemma DisjointMeansApart(a: Blob, b: Blob)
    requires Disjoint(RegionOf(a), RegionOf(b)) && a.data != [] && b.data != []
    ensures a.address + |a.data| <= b.address || b.address + |b.data| <= a.address
  {
    var x := Max(a.address, b.address);
    assert !(Contains(RegionOf(a), x) && Contains(RegionOf(b), x));
  }

  /** One more blob stored: it is held, and those stored before stay. */
  lemma OneMoreHeld(before: Memory, after: Memory, blobs: seq<Blob>, n: nat)
    requires n < |blobs| && SafeMap(RegionsOf(blobs))
    requires AllHeld(before, blobs[..n]) && Stored(before, after, blobs[n].address, blobs[n].data)
    ensures AllHeld(after, blobs[..n + 1])
  {
    var regions := RegionsOf(blobs);
    assert Fits(regions[n]);
    StoredIsHeld(before, after, blobs[n].address, blobs[n].data);
    forall i | 0 <= i < n
      ensures Holds(after, blobs[i].address, blobs[i].data)
    {
      assert Holds(before, blobs[..n][i].address, blobs[..n][i].data);
      assert Fits(regions[i]) && Disjoint(regions[i], regions[n]);
      DisjointMeansApart(blobs[i], blobs[n]);
      HeldElsewhere(before, after, blobs[n].address, blobs[n].data, blobs[i].address, blobs[i].data);
    }
  }

  lemma StoredInside(first: Memory, before: Memory, after: Memory, regions: seq<Region>, n: nat, at: int, data: seq<byte>)
    requires UntouchedOutside(first, before, regions) && n < |regions|
    requires regions[n].start == at && at + |data| <= regions[n].end && Stored(before, after, at, data)
    ensures UntouchedOutside(first, after, regions)
  {
    forall k | 0 <= k < |first| && forall i :: 0 <= i < |regions| ==> !Contains(regions[i], RAM_BASE + k)
      ensures after[k] == first[k]
    {
      assert !Contains(regions[n], RAM_BASE + k);
    }
  }

  function TotalSize(blobs: seq<Blob>): nat {
    if blobs == [] then 0 else TotalSize(blobs[..|blobs| - 1]) + |blobs[|blobs| - 1].data|
  }

  lemma {:induction false} TotalSizeOfPrefix(blobs: seq<Blob>, n: nat)
    requires n <= |blobs|
    ensures TotalSize(blobs[..n]) <= TotalSize(blobs)
    ensures n < |blobs| ==> TotalSize(blobs[..n]) + |blobs[n].data| == TotalSize(blobs[..n + 1])
  {
    if n < |blobs| {
      assert blobs[..n + 1][..n] == blobs[..n];
      if n + 1 < |blobs| {
        TotalSizeOfPrefix(blobs[..|blobs| - 1], n);
        assert blobs[..|blobs| - 1][..n] == blobs[..n];
      } else {
        assert blobs[..n + 1] == blobs;
      }
    } else {
      assert blobs[..n] == blobs;
    }
  }

  /** Upload the blobs one after the other, stopping at the first failure. */
  method UploadAll(device: Device, blobs: seq<Blob>, verify: bool) returns (failure: Option<BootError>)
    requires SafeMap(RegionsOf(blobs))
    modifies device
    ensures failure == None ==> AllHeld(device.mem, blobs)
    ensures failure == None || failure == Some(WriteFailed)
    ensures Flowing(old(device.transfers)) && |old(device.transfers)| >= TotalSize(blobs) ==> failure == None
    ensures UntouchedOutside(old(device.mem), device.mem, RegionsOf(blobs))
  {
    var regions := RegionsOf(blobs);
    for n := 0 to |blobs|
      invariant AllHeld(device.mem, blobs[..n])
      invariant UntouchedOutside(old(device.mem), device.mem, regions)
      invariant NoMoreUsed(old(device.transfers), device.transfers, TotalSize(blobs[..n]))
    {
      assert Fits(regions[n]);
      TotalSizeOfPrefix(blobs, n);
      TotalSizeOfPrefix(blobs, n + 1);
      if Flowing(device.transfers) && |device.transfers| >= |blobs[n].data| {
        FlowingTakesPackets(device.transfers, |blobs[n].data|, device.packetSize);
      }
      ghost var was := device.mem;
      failure := device.DownloadBlob(blobs[n].address, blobs[n].data, verify);
      if failure.Some? {
        ghost var m: nat :| m < |blobs[n].data| && Stored(was, device.mem, blobs[n].address, blobs[n].data[..m]);
        StoredInside(old(device.mem), was, device.mem, regions, n, blobs[n].address, blobs[n].data[..m]);
        return;
      }
      StoredInside(old(device.mem), was, device.mem, regions, n, blobs[n].address, blobs[n].data);
      OneMoreHeld(was, device.mem, blobs, n);
    }
    assert blobs[..|blobs|] == blobs;
    failure := None;
  }

  datatype Kernel = Kernel(payload: seq<byte>, load: int, entry: int)

  /** The command line's wishes; a register left open gets the firmware's own argument. */
  datatype Options = Options(
    initramfs: seq<byte>, initramfsAddress: int, bootargsAddress: int, trampolineAddress: int, cmdline: string,
    a0: Option<int>, a1: Option<int>, a2: Option<int>, a3: Option<int>, verify: bool)

  function Chosen<T>(wish: Option<T>, default: T): T {
    if wish.Some? then wish.value else default
  }

  function Code(kernel: Kernel, o: Options): (code: seq<Instruction>)
    ensures |code| == 12 && AllProper(code)
  {
    Program(kernel.entry, Chosen(o.a0, 2), Chosen(o.a1, o.bootargsAddress), Chosen(o.a2, o.bootargsAddress + ENVP), Chosen(o.a3, 0))
  }

  function Blobs(kernel: Kernel, o: Options): seq<Blob>
    requires PointersFit(o.bootargsAddress)
  {
    [Blob(kernel.load, kernel.payload), Blob(o.initramfsAddress, o.initramfs),
     Blob(o.bootargsAddress, Block(o.bootargsAddress, o.cmdline)), Blob(o.trampolineAddress, CodeBytes(Code(kernel, o)))]
  }

  method Prepare(kernel: Kernel, o: Options) returns (blobs: Option<seq<Blob>>)
    ensures blobs == if PointersFit(o.bootargsAddress) then Some(Blobs(kernel, o)) else None
  {
    var fw := BootArgs.Build(o.bootargsAddress, o.cmdline);
    if fw.None? {
      return None;
    }
    var code := BuildLinuxMips(kernel.entry, Chosen(o.a0, fw.value.argc), Chosen(o.a1, fw.value.argv), Chosen(o.a2, fw.value.envp),
                               Chosen(o.a3, fw.value.promvec));
    blobs := Some([Blob(kernel.load, kernel.payload), Blob(o.initramfsAddress, o.initramfs),
                   Blob(o.bootargsAddress, fw.value.blob), Blob(o.trampolineAddress, code)]);
  }

  /** What becomes of a set of blobs: all held, or refused with nothing written, or a failed upload. */
  ghost predicate Fate(blobs: seq<Blob>, before: Memory, after: Memory, failure: Option<BootError>) {
    var regions := RegionsOf(blobs);
    && UntouchedOutside(before, after, regions)
    && match failure
       case None => SafeMap(regions) && AllHeld(after, blobs)
       case Some(WriteFailed) => SafeMap(regions)
       case Some(e) => Justified(regions, e) && !SafeMap(regions) && after == before
  }

  method CheckAndUpload(device: Device, blobs: seq<Blob>, verify: bool) returns (failure: Option<BootError>)
    modifies device
    ensures Fate(blobs, old(device.mem), device.mem, failure)
    ensures Flowing(old(device.transfers)) && |old(device.transfers)| >= TotalSize(blobs) ==> failure != Some(WriteFailed)
  {
    failure := CheckRegions(RegionsOf(blobs));
    if failure == None {
      failure := UploadAll(device, blobs, verify);
    }
  }

  /** The address at which the processor is started, or why it is not. */
  method Boot(device: Device, kernel: Kernel, o: Options) returns (r: Result<int, BootError>)
    modifies device
    ensures o.bootargsAddress < -16 || o.bootargsAddress + 22 >= 0x1_0000_0000 ==> r == Err(PointerRange) && device.mem == old(device.mem)
    ensures PointersFit(o.bootargsAddress) ==>
              Fate(Blobs(kernel, o), old(device.mem), device.mem, if r.Ok? then None else Some(r.error))
    ensures r.Ok? ==> r.value == o.trampolineAddress
    ensures (PointersFit(o.bootargsAddress) && SafeMap(RegionsOf(Blobs(kernel, o))) &&
             Flowing(old(device.transfers)) && |old(device.transfers)| >= TotalSize(Blobs(kernel, o))) ==> r.Ok?
  {
    var blobs := Prepare(kernel, o);
    if blobs == None {
      return Err(PointerRange);
    }
    var failure := CheckAndUpload(device, blobs.value, o.verify);
    r := if failure.Some? then Err(failure.value) else Ok(o.trampolineAddress);
  }

  /**
   What the processor does with a memory that holds the four blobs: it gets into the kernel, with the
   argument registers loaded, if and only if the trampoline is at a multiple of four.
   */
  lemma ReachesKernel(mem: Memory, at: nat, all: seq<Instruction>, entry: int, a0: int, a1: int, a2: int, a3: int, regs: Registers)
    requires all == Program(entry, a0, a1, a2, a3) && Holds(mem, at, CodeBytes(all))
    ensures InKernel(Run(CodeIn(mem), Running(regs, at, at + 4), |all|), entry, a0, a1, a2, a3) <==> at % 4 == 0
  {
    if at % 4 == 0 {
      CodeIsFetched(mem, at, all);
      CodeBytesSnoc(all, Nop);
      ProgramExecutes(CodeIn(mem), regs, at, all, entry, a0, a1, a2, a3);
    } else {
      MisalignedFaults(CodeIn(mem), regs, at, |all|);
    }
  }

  lemma BlobIsHeld(mem: Memory, blobs: seq<Blob>, i: nat, b: Blob)
    requires AllHeld(mem, blobs) && i < |blobs| && blobs[i] == b
    ensures Holds(mem, b.address, b.data)
  {
    assert Holds(mem, blobs[i].address, blobs[i].data);
  }

  /** The same of a memory that the boot has left, and there the kernel finds its name and command line. */
  lemma BootReachesKernel(mem: Memory, kernel: Kernel, o: Options, at: nat, envp: int, regs: Registers, line: seq<byte>,
                          all: seq<Instruction>, cpu: Cpu, a0: int, a1: int, a2: int, a3: int)
    requires PointersFit(o.bootargsAddress) && AllHeld(mem, Blobs(kernel, o)) && at == o.trampolineAddress
    requires envp == o.bootargsAddress + 12 && line == Utf8.Encode(o.cmdline)
    requires a0 == (match o.a0 case Some(v) => v case None => 2) && a1 == (match o.a1 case Some(v) => v case None => o.bootargsAddress)
    requires a2 == (match o.a2 case Some(v) => v case None => envp) && a3 == (match o.a3 case Some(v) => v case None => 0)
    requires all == Code(kernel, o) && cpu == Run(CodeIn(mem), Running(regs, at, at + 4), |all|)
    ensures InKernel(cpu, kernel.entry, a0, a1, a2, a3) <==> at % 4 == 0
    ensures ReadsArguments(mem, o.bootargsAddress, envp, CString(line + [0]))
    ensures CString(line + [0]) == line <==> NulFree(line)
    ensures Holds(mem, kernel.load, kernel.payload) && Holds(mem, o.initramfsAddress, o.initramfs)
  {
    BlobIsHeld(mem, Blobs(kernel, o), 0, Blob(kernel.load, kernel.payload));
    BlobIsHeld(mem, Blobs(kernel, o), 1, Blob(o.initramfsAddress, o.initramfs));
    BlobIsHeld(mem, Blobs(kernel, o), 2, Blob(o.bootargsAddress, Block(o.bootargsAddress, o.cmdline)));
    BlobIsHeld(mem, Blobs(kernel, o), 3, Blob(at, CodeBytes(all)));
    ChosenCode(kernel, o, a0, a1, a2, a3);
    ReachesKernel(mem, at, all, kernel.entry, a0, a1, a2, a3, regs);
    BlockIsRead(mem, o.bootargsAddress, envp, o.cmdline, line);
  }

  /** Where no wish was given, the trampoline loads the firmware's arguments. */
  lemma ChosenCode(kernel: Kernel, o: Options, a0: int, a1: int, a2: int, a3: int)
    requires a0 == (match o.a0 case Some(v) => v case None => 2) && a1 == (match o.a1 case Some(v) => v case None => o.bootargsAddress)
    requires a2 == (match o.a2 case Some(v) => v case None => o.bootargsAddress + 12) && a3 == (match o.a3 case Some(v) => v case None => 0)
    ensures Code(kernel, o) == Program(kernel.entry, a0, a1, a2, a3)
  {
  }

  lemma BlockSize(base: int, cmdline: string)
    requires PointersFit(base) && cmdline == ""
    ensures |Block(base, cmdline)| == 23
  {
  }

  lemma CodeSize(code: seq<Instruction>)
    requires |code| == 12 && AllProper(code)
    ensures |CodeBytes(code)| == TRAMPOLINE_SIZE
  {
    CodeBytesSnoc(code, Nop);
  }

  /** Four blobs that lie in RAM one behind the other make a safe map, wherever that puts the last. */
  lemma FourApart(blobs: seq<Blob>, x: int)
    requires RAM_BASE <= x && x + 33 + TRAMPOLINE_SIZE <= RAM_END && |blobs| == 4
    requires blobs[0].address == x && |blobs[0].data| == 1 && blobs[1].address == x + 1 && |blobs[1].data| == 1
    requires blobs[2].address == x + 4 && |blobs[2].data| == 23
    requires blobs[3].address == x + 33 && |blobs[3].data| == TRAMPOLINE_SIZE
    ensures SafeMap(RegionsOf(blobs))
  {
  }

  lemma TotalOfFour(blobs: seq<Blob>)
    requires |blobs| == 4
    ensures TotalSize(blobs) == |blobs[0].data| + |blobs[1].data| + |blobs[2].data| + |blobs[3].data|
  {
    TotalSizeOfPrefix(blobs, 3);
    TotalSizeOfPrefix(blobs, 2);
    TotalSizeOfPrefix(blobs, 1);
    TotalSizeOfPrefix(blobs, 0);
    assert blobs[..4] == blobs && blobs[..0] == [];
  }

  /**
   A boot that nothing stops: the smallest blobs, one behind the other from an aligned address on, the
   trampoline at an odd one, and enough transfers. It succeeds, and the processor starts at the odd address.
   */
  method MisalignedBoot(device: Device, kernel: Kernel, o: Options, x: int) returns (start: int)
    requires RAM_BASE <= x && x % 4 == 0 && x + 33 + TRAMPOLINE_SIZE <= RAM_END
    requires |kernel.payload| == 1 && kernel.load == x && |o.initramfs| == 1 && o.initramfsAddress == x + 1
    requires o.bootargsAddress == x + 4 && o.cmdline == "" && o.trampolineAddress == x + 33
    requires Flowing(device.transfers) && |device.transfers| >= 25 + TRAMPOLINE_SIZE
    modifies device
    ensures start == x + 33
  {
    BlockSize(o.bootargsAddress, o.cmdline);
    CodeSize(Code(kernel, o));
    FourApart(Blobs(kernel, o), x);
    TotalOfFour(Blobs(kernel, o));
    var r := Boot(device, kernel, o);
    start := r.value;
  }
}
