/** A memory-mapped device: reading, writing, and writing only what differs. */
module Mmap {
  import opened Basics

  /** A store of `data` at `at`. */
  datatype Store = Store(at: nat, data: seq<byte>)

  /** The store changes what `was` holds there. */
  predicate Needed(was: seq<byte>, s: Store) {
    s.at + |s.data| <= |was| && was[s.at..s.at + |s.data|] != s.data
  }

  lemma SpliceSame(was: seq<byte>, at: nat, data: seq<byte>)
    requires at + |data| <= |was|
    ensures Splice(was, at, data) == was <==> was[at..at + |data|] == data
  {
    var s := Splice(was, at, data);
    assert s[at..at + |data|] == data;
    if was[at..at + |data|] == data {
      assert forall i :: at <= i < at + |data| ==> was[i] == was[at..at + |data|][i - at];
    }
  }

  lemma SpliceNext(was: seq<byte>, at: nat, data: seq<byte>, pos: nat, end: nat)
    requires pos <= end <= |data| && at + |data| <= |was|
    ensures Splice(Splice(was, at, data[..pos]), at + pos, data[pos..end]) == Splice(was, at, data[..end])
    ensures Splice(was, at, data[..pos])[at + pos..at + end] == was[at + pos..at + end]
  {
  }

  /** One block brings the copy from `pos` to `end`; it is not stored if it is there already. */
  lemma BlockStep(was: seq<byte>, offset: nat, data: seq<byte>, pos: nat, end: nat, before: seq<byte>, after: seq<byte>)
    requires pos <= end <= |data| && offset + |data| <= |was|
    requires before == Splice(was, offset, data[..pos]) && after == Splice(before, offset + pos, data[pos..end])
    ensures after == Splice(was, offset, data[..end])
    ensures before[offset + pos..offset + end] != data[pos..end] ==> Fits(was, offset, data, Store(offset + pos, data[pos..end]))
  {
    SpliceNext(was, offset, data, pos, end);
  }

  /** A store that is part of copying `data`, and changes something. */
  predicate Fits(was: seq<byte>, offset: nat, data: seq<byte>, s: Store) {
    && Needed(was, s)
    && offset <= s.at && s.at + |s.data| <= offset + |data|
    && data[s.at - offset..s.at - offset + |s.data|] == s.data
  }

  lemma StoreChanges(was: seq<byte>, offset: nat, data: seq<byte>, s: Store)
    requires offset + |data| <= |was| && Fits(was, offset, data, s)
    ensures Splice(was, offset, data) != was
  {
    SpliceSame(was, offset, data);
    assert was[s.at..s.at + |s.data|] == was[offset..offset + |data|][s.at - offset..s.at - offset + |s.data|];
  }

  ghost predicate AllFit(was: seq<byte>, offset: nat, data: seq<byte>, stores: seq<Store>) {
    forall i :: 0 <= i < |stores| ==> Fits(was, offset, data, stores[i])
  }

  lemma AllFitSnoc(was: seq<byte>, offset: nat, data: seq<byte>, stores: seq<Store>, s: Store)
    requires AllFit(was, offset, data, stores) && Fits(was, offset, data, s)
    ensures AllFit(was, offset, data, stores + [s])
  {
  }

  lemma StoresChange(was: seq<byte>, offset: nat, data: seq<byte>, stores: seq<Store>)
    requires offset + |data| <= |was| && AllFit(was, offset, data, stores)
    ensures forall i :: 0 <= i < |stores| ==> Needed(was, stores[i])
    ensures stores != [] ==> Splice(was, offset, data) != was
  {
    if stores != [] {
      StoreChanges(was, offset, data, stores[0]);
    }
  }

  method StoreIfDifferent(mem: array<byte>, at: nat, chunk: seq<byte>) returns (stored: bool)
    requires at + |chunk| <= mem.Length
    modifies mem
    ensures mem[..] == Splice(old(mem[..]), at, chunk)
    ensures stored <==> old(mem[..])[at..at + |chunk|] != chunk
    ensures !stored ==> mem[..] == old(mem[..])
  {
    SpliceSame(mem[..], at, chunk);
    assert mem[at..at + |chunk|] == mem[..][at..at + |chunk|];
    stored := mem[at..at + |chunk|] != chunk;
    if stored {
      CopyInto(mem, at, chunk);
    }
  }

  /** One round of the loop: the copy advances from `pos` to `end`. */
  method WriteBlock(mem: array<byte>, offset: nat, data: seq<byte>, pos: nat, end: nat, ghost was: seq<byte>, ghost stores0: seq<Store>)
    returns (stored: bool, ghost stores: seq<Store>)
    requires pos <= end <= |data| && offset + |data| <= mem.Length == |was|
    requires mem[..] == Splice(was, offset, data[..pos]) && AllFit(was, offset, data, stores0)
    modifies mem
    ensures mem[..] == Splice(was, offset, data[..end]) && AllFit(was, offset, data, stores)
    ensures stores == if stored then stores0 + [Store(offset + pos, data[pos..end])] else stores0
    ensures !stored ==> mem[..] == old(mem[..])
  {
    ghost var before := mem[..];
    stored := StoreIfDifferent(mem, offset + pos, data[pos..end]);
    BlockStep(was, offset, data, pos, end, before, mem[..]);
    stores := stores0;
    if stored {
      AllFitSnoc(was, offset, data, stores0, Store(offset + pos, data[pos..end]));
      stores := stores0 + [Store(offset + pos, data[pos..end])];
    }
  }

  /**
   Leaves the memory exactly as an unconditional copy would, but stores only to blocks that differ
   and asks for a sync only if something changed. A block size of zero would never end.
   */
  method WriteIfDifferent(mem: array<byte>, offset: nat, data: seq<byte>, blockSize: nat, syncOk: bool)
    returns (ok: bool, synced: bool, ghost stores: seq<Store>)
    requires offset + |data| <= mem.Length && blockSize >= 1
    modifies mem
    ensures mem[..] == Splice(old(mem[..]), offset, data)
    ensures forall i :: 0 <= i < |stores| ==> Needed(old(mem[..]), stores[i])
    ensures synced <==> mem[..] != old(mem[..])
    ensures synced <==> stores != []
    ensures ok <==> (synced ==> syncOk)
  {
    ghost var was := mem[..];
    var written := false;
    var pos := 0;
    stores := [];
    assert data[..0] == [];
    while pos < |data|
      invariant 0 <= pos <= |data|
      invariant mem[..] == Splice(was, offset, data[..pos])
      invariant AllFit(was, offset, data, stores)
      invariant written <==> stores != []
      invariant !written ==> mem[..] == was
    {
      var chunkLen := Min(|data| - pos, blockSize);
      var stored;
      stored, stores := WriteBlock(mem, offset, data, pos, pos + chunkLen, was, stores);
      if stored {
        written := true;
      }
      pos := pos + chunkLen;
    }
    assert data[..pos] == data;
    StoresChange(was, offset, data, stores);
    synced := written;
    ok := !written || syncOk;
  }

  method Read(mem: array<byte>, offset: nat, data: array<byte>, at: nat, len: nat)
    requires offset + len <= mem.Length && at + len <= data.Length && mem != data
    modifies data
    ensures data[..] == Splice(old(data[..]), at, mem[offset..offset + len])
  {
    CopyInto(data, at, mem[offset..offset + len]);
  }
}
