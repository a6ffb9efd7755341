/** The copy loop of `cp` for one file, and opening the copy (src/applets/cp/mod.rs:158-170). */
module FatCopy {
  import opened Common
  import opened FatTable
  import opened FatChain
  import opened FatBytes
  import opened FatVolume
  import opened FatFile
  import opened Directory
  import O = FatOpen

  const BUF_SIZE := 512

  /** Another file on the same volume is untouched by a change to the chain of this one. */
  lemma OtherUntouched(v: FatVolume, other: File, fat: Fat, data: seq<seq<Sector>>, chain: seq<nat>, chain': seq<nat>)
    requires v.Valid() && Edited(fat, v.Fat(), data, v.Data(), chain, chain')
    requires IsChain(fat, other.chain) && Disjoint(other.chain, chain) && Within(data, other.chain)
    ensures IsChain(v.Fat(), other.chain) && Disjoint(other.chain, chain')
    ensures Within(v.Data(), other.chain) && BytesOf(v.Data(), other.chain) == BytesOf(data, other.chain)
  {
    OthersKept(fat, v.Fat(), data, v.Data(), chain, chain', other.chain);
    BytesFrame(data, v.Data(), other.chain);
  }

  lemma OverwriteAtEnd<T>(c: seq<T>, d: seq<T>)
    ensures Overwrite(c, |c|, d) == c + d
  {
  }

  /** One turn of the loop behind a read of `piece`: append it to `dst`. */
  method CopyPart(v: FatVolume, src: File, dst: File, piece: seq<Byte>, ghost at: nat) returns (ok: bool)
    requires src != dst && src.Coherent(v) && dst.Coherent(v) && Disjoint(src.chain, dst.chain)
    requires dst.canWrite && dst.OnChain(v.g.sectorsPerCluster) && dst.position == dst.size == at
    requires piece != [] && at + |piece| <= src.size < 0x1_0000_0000
    requires dst.Contents(v) == src.Contents(v)[..at] && piece == src.Contents(v)[at..at + |piece|]
    modifies v, dst
    ensures src.Coherent(v) && src.Contents(v) == old(src.Contents(v)) && Disjoint(src.chain, dst.chain)
    ensures dst.Stored(v) && dst.Contents(v) <= src.Contents(v)
    ensures dst.modified && dst.dirCluster == old(dst.dirCluster) && dst.dirOffset == old(dst.dirOffset)
    ensures old(dst.chain) <= dst.chain && Edited(old(v.Fat()), v.Fat(), old(v.Data()), v.Data(), old(dst.chain), dst.chain)
    ensures |dst.chain| + |FreeSet(v.Fat())| == |old(dst.chain)| + |FreeSet(old(v.Fat()))|
    ensures ok <==> at + |piece| < Room(v.g.sectorsPerCluster, |old(dst.chain)| + |FreeSet(old(v.Fat()))|)
    ensures !ok ==> dst.size == Room(v.g.sectorsPerCluster, |old(dst.chain)| + |FreeSet(old(v.Fat()))|) <= at + |piece|
    ensures ok ==>
              && dst.Coherent(v) && dst.OnChain(v.g.sectorsPerCluster) && dst.canWrite
              && dst.position == dst.size == at + |piece| && dst.Contents(v) == src.Contents(v)[..at + |piece|]
  {
    hide Table, Clusters, DiskOk, BytesOf, IsChain, Edited, FreeSet, Disjoint, Overwrite, ByteIndex, Room, SectorIndex;
    ghost var fat, data, c0 := v.Fat(), v.Data(), src.Contents(v);
    ChainFits(v, src.chain);
    dst.CoherentHandle(v);
    var r, w := dst.Write(v, piece);
    if r.Ok? {
      dst.CoherentHandle(v);
    }
    OtherUntouched(v, src, fat, data, old(dst.chain), dst.chain);
    OverwriteAtEnd(c0[..at], piece[..w]);
    assert c0[..at] + c0[at..at + |piece|][..w] == c0[..at + w];
    var written := if r.Ok? then r.value else 0;
    ok := !(written < |piece|);
  }

  /** Copies `src` from its start into the newly created `dst`: as much of it as the volume has room
      for.  When `src` fills that room to the last byte, the copy is whole but reported as failed. */
  method Copy(v: FatVolume, src: File, dst: File) returns (complete: bool)
    requires src != dst && src.Coherent(v) && dst.Coherent(v) && Disjoint(src.chain, dst.chain)
    requires src.canRead && src.position == 0 && src.size < 0x1_0000_0000
    requires dst.canWrite && dst.size == 0 && dst.OnChain(v.g.sectorsPerCluster)
    modifies v, src, dst
    ensures src.Stored(v) && src.chain == old(src.chain) && src.Contents(v) == old(src.Contents(v))
    ensures dst.Stored(v) && dst.Contents(v) <= src.Contents(v) && Disjoint(src.chain, dst.chain)
    ensures dst.dirCluster == old(dst.dirCluster) && dst.dirOffset == old(dst.dirOffset)
    ensures dst.size > 0 || old(dst.modified) ==> dst.modified
    ensures Edited(old(v.Fat()), v.Fat(), old(v.Data()), v.Data(), old(dst.chain), dst.chain)
    ensures dst.size == Min(src.size, Room(v.g.sectorsPerCluster, |old(dst.chain)| + |FreeSet(old(v.Fat()))|))
    ensures dst.Contents(v) == src.Contents(v) <==>
            src.size <= Room(v.g.sectorsPerCluster, |old(dst.chain)| + |FreeSet(old(v.Fat()))|)
    ensures complete <==> src.size == 0 || src.size < Room(v.g.sectorsPerCluster, |old(dst.chain)| + |FreeSet(old(v.Fat()))|)
  {
    hide Table, Clusters, DiskOk, BytesOf, IsChain, Edited, FreeSet, Disjoint, ByteIndex, Capacity, Room, SectorIndex;
    var dataBuf := new Byte[BUF_SIZE];
    ghost var c0, total := src.Contents(v), |dst.chain| + |FreeSet(v.Fat())|;
    EditedRefl(v.Fat(), v.Data(), dst.chain);
    while true
      invariant src.Coherent(v) && dst.Coherent(v) && dst.OnChain(v.g.sectorsPerCluster)
      invariant src.chain == old(src.chain) && src.size == old(src.size) && src.canRead && dst.canWrite
      invariant src.Contents(v) == c0 && Disjoint(src.chain, dst.chain)
      invariant dst.position == dst.size == src.position && dst.Contents(v) == c0[..src.position]
      invariant |dst.chain| + |FreeSet(v.Fat())| == total
      invariant src.position > 0 ==> src.position < Room(v.g.sectorsPerCluster, total)
      invariant old(dst.chain) <= dst.chain && Edited(old(v.Fat()), v.Fat(), old(v.Data()), v.Data(), old(dst.chain), dst.chain)
      invariant dst.dirCluster == old(dst.dirCluster) && dst.dirOffset == old(dst.dirOffset)
      invariant src.position > 0 || old(dst.modified) ==> dst.modified
      decreases src.size - src.position
    {
      ghost var at := src.position;
      src.CoherentHandle(v);
      var r := src.Read(v, dataBuf);
      var read := if r.Ok? then r.value else 0;
      if read == 0 {
        return true;
      }
      ghost var fat1, data1, chain1 := v.Fat(), v.Data(), dst.chain;
      var ok := CopyPart(v, src, dst, dataBuf[..read], at);
      EditedTrans(old(v.Fat()), fat1, v.Fat(), old(v.Data()), data1, v.Data(), old(dst.chain), chain1, dst.chain);
      if !ok {
        return false;
      }
    }
  }

  /** The copy, opened by its name after the sync that ends `cp`, is as much of the source as there was
      room for.  The sync leaves its buffer when the entry is not in the first sector of its cluster. */
  method CopyThenOpen(v: FatVolume, src: File, dst: File, dirCluster: nat, name: seq<Byte>, ghost dir: seq<nat>, ghost slot: nat)
    returns (r: Result<File>)
    requires src != dst && src.Coherent(v) && dst.Coherent(v) && Disjoint(src.chain, dst.chain)
    requires src.canRead && src.position == 0 && src.size < 0x1_0000_0000
    requires dst.canWrite && dst.size == 0 && dst.OnChain(v.g.sectorsPerCluster) && dst.modified && dst.dirOffset < O.PER_SECTOR
    requires IsChain(v.Fat(), dir) && dir != [] && dirCluster == dir[0] && Disjoint(dir, dst.chain) && Searchable(name)
    requires EntryAt(dst, v.g.sectorsPerCluster, dir, slot) && Within(v.Data(), dir)
    requires Find(BytesOf(v.Data(), dir), name, 0) == Some(slot)
    modifies v, src, dst
    ensures v.Valid() && r.Ok? && r.value.Coherent(v) && r.value.Contents(v) <= old(src.Contents(v))
    ensures r.value.Contents(v) == old(src.Contents(v)) <==>
            old(src.size) <= Room(v.g.sectorsPerCluster, |old(dst.chain)| + |FreeSet(old(v.Fat()))|)
  {
    hide Table, Clusters, DiskOk, BytesOf, IsChain, Edited, FreeSet, ByteIndex, Capacity, Room, SectorIndex, Find;
    ghost var fat, data, chain := v.Fat(), v.Data(), dst.chain;
    var complete := Copy(v, src, dst);
    OthersKept(fat, v.Fat(), data, v.Data(), chain, dst.chain, dir);
    EditedLength(fat, v.Fat(), data, v.Data(), chain, dst.chain);
    BytesFrame(data, v.Data(), dir);
    r := O.SyncThenOpen(v, dst, dirCluster, name, true, false, dir, slot);
  }

  lemma EditedLength<T>(fat: Fat, fat': Fat, data: seq<T>, data': seq<T>, chain: seq<nat>, chain': seq<nat>)
    requires Edited(fat, fat', data, data', chain, chain')
    ensures |data'| == |data|
  {
  }
}
