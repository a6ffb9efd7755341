/** Open files: the cursor and the operations on it (src/hal/fat32.rs:54-67, 513-859).

    `chain` and `ci` are ghosts: the file's clusters, and the index of the current one. */
module FatFile {
  import opened Common
  import opened FatTable
  import opened FatChain
  import opened FatBytes
  import opened FatVolume

  /** The errors these operations return; `MkfsAborted` means that no cluster is free, `DiskErr`
      that a directory has no free slot. */
  datatype FError = NoError | Denied | MkfsAborted | DiskErr | NoFile | Exists | Invalid

  datatype Result<+T> = Ok(value: T) | Err(error: FError)

  function Min(a: nat, b: nat): (r: nat)
    ensures r <= a && r <= b && (r == a || r == b)
  {
    if a < b then a else b
  }

  function Max(a: nat, b: nat): (r: nat)
    ensures r >= a && r >= b && (r == a || r == b)
  {
    if a < b then b else a
  }

  // Cursor arithmetic

  lemma NextIndex(spc: nat, ci: nat, s: nat)
    requires s < spc
    ensures ByteIndex(spc, ci, s, SECTOR_SIZE) == ByteIndex(spc, ci, s + 1, 0)
    ensures s + 1 == spc ==> ByteIndex(spc, ci, s, SECTOR_SIZE) == ByteIndex(spc, ci + 1, 0, 0)
  {
    assert (ci + 1) * spc == ci * spc + spc;
  }

  lemma StartIndex(v: FatVolume)
    requires v.Valid()
    ensures v.g.sectorsPerCluster >= 1 && ByteIndex(v.g.sectorsPerCluster, 0, 0, 0) == 0
  {
  }

  lemma CapacityEmpty(spc: nat)
    ensures Capacity(spc, []) == 0
  {
  }

  lemma CapacityPositive(spc: nat, chain: seq<nat>)
    requires spc >= 1 && chain != []
    ensures Capacity(spc, chain) > 0
  {
    MulMono(1, |chain|, spc);
  }

  lemma IndexInside(spc: nat, chain: seq<nat>, ci: nat, s: nat, b: nat)
    requires ci < |chain| && s < spc && b < SECTOR_SIZE
    ensures ByteIndex(spc, ci, s, b) < Capacity(spc, chain)
  {
    Stride(ci, |chain|, spc, s);
  }

  lemma ChainFits(v: FatVolume, chain: seq<nat>)
    requires v.Valid() && IsChain(v.Fat(), chain)
    ensures Within(v.Data(), chain) && Distinct(chain) && DataOk(v.Data(), v.g.sectorsPerCluster)
    ensures |BytesOf(v.Data(), chain)| == Capacity(v.g.sectorsPerCluster, chain)
  {
    BytesLength(v.Data(), v.g.sectorsPerCluster, chain);
  }

  class File {
    var size: nat
    var position: nat
    var startCluster: nat
    var currentCluster: nat
    var sectorInCluster: nat
    var byteInSector: nat
    var canRead: bool          // flags & FA_READ
    var canWrite: bool         // flags & FA_WRITE
    var dirCluster: nat        // cluster of the directory entry, and the slot's index there
    var dirOffset: nat
    var modified: bool
    var error: FError
    ghost var chain: seq<nat>
    ghost var ci: nat

    /** A file just opened, at its start. */
    constructor (length: nat, cluster: nat, readable: bool, writable: bool, entryCluster: nat, entryIndex: nat,
                 isNew: bool, ghost clusters: seq<nat>)
      ensures size == length && position == 0 && startCluster == cluster && currentCluster == cluster
      ensures sectorInCluster == 0 && byteInSector == 0 && chain == clusters && ci == 0
      ensures canRead == readable && canWrite == writable && modified == isNew && error == NoError
      ensures dirCluster == entryCluster && dirOffset == entryIndex
    {
      size, position, startCluster, currentCluster := length, 0, cluster, cluster;
      sectorInCluster, byteInSector := 0, 0;
      canRead, canWrite, modified, error := readable, writable, isNew, NoError;
      dirCluster, dirOffset := entryCluster, entryIndex;
      chain, ci := clusters, 0;
    }

    // What is known of a file

    /** Whatever happened to the file before: its chain is in order, and the cursor is on one of its
        clusters or on none.  Position and size may say something else. */
    ghost predicate Handle(v: FatVolume)
      reads this, v
    {
      && v.Valid() && IsChain(v.Fat(), chain) && startCluster == StartOf(chain)
      && (currentCluster == 0 || (ci < |chain| && currentCluster == chain[ci]))
      && sectorInCluster < v.g.sectorsPerCluster && byteInSector < SECTOR_SIZE
    }

    /** The cursor has a current cluster. */
    ghost predicate Seated(v: FatVolume)
      reads this, v
    {
      Handle(v) && currentCluster != 0
    }

    /** The byte of the chain that the cursor names. */
    ghost function Index(spc: nat): nat
      reads this
    {
      ByteIndex(spc, ci, sectorInCluster, byteInSector)
    }

    /** All bytes of the chain's clusters. */
    ghost function Bytes(v: FatVolume): (b: seq<Byte>)
      requires v.Valid() && IsChain(v.Fat(), chain)
      reads this, v
      ensures |b| == Capacity(v.g.sectorsPerCluster, chain)
    {
      ChainFits(v, chain);
      BytesOf(v.Data(), chain)
    }

    /** The cursor names the byte at `position`, which the chain holds. */
    ghost predicate OnChain(spc: nat)
      reads this
    {
      && ci < |chain| && currentCluster == chain[ci] && sectorInCluster < spc && byteInSector < SECTOR_SIZE
      && position == Index(spc)
    }

    /** Behind the last byte of a chain that is full, or of an empty one: no current cluster. */
    ghost predicate AtEnd(spc: nat)
      reads this
    {
      currentCluster == 0 && sectorInCluster == 0 && byteInSector == 0 && position == Capacity(spc, chain)
    }

    /** The file's chain is in order and holds its `size` bytes. */
    ghost predicate Stored(v: FatVolume)
      reads this, v
    {
      && v.Valid() && IsChain(v.Fat(), chain) && startCluster == StartOf(chain)
      && size <= Capacity(v.g.sectorsPerCluster, chain)
    }

    /** Cursor, position and size agree. */
    ghost predicate Coherent(v: FatVolume)
      reads this, v
    {
      Stored(v) && position <= size && (OnChain(v.g.sectorsPerCluster) || AtEnd(v.g.sectorsPerCluster))
    }

    /** The bytes of the file. */
    ghost function Contents(v: FatVolume): (c: seq<Byte>)
      requires Stored(v)
      reads this, v
      ensures |c| == size
    {
      Bytes(v)[..size]
    }

    lemma CoherentHandle(v: FatVolume)
      requires Coherent(v)
      ensures Handle(v) && (currentCluster != 0 <==> OnChain(v.g.sectorsPerCluster))
      ensures currentCluster == 0 ==> AtEnd(v.g.sectorsPerCluster) && position == size
      ensures currentCluster == 0 ==> ByteIndex(v.g.sectorsPerCluster, 0, sectorInCluster, byteInSector) == 0
    {
      hide Table, Clusters, DiskOk, IsChain, Capacity;
      StartIndex(v);
      if OnChain(v.g.sectorsPerCluster) {
        ChainLink(v.Fat(), chain, ci);
      }
    }

    // Reading

    /** Moves a read cursor from the end of a sector to the next; `ended` when there is none. */
    method AdvanceRead(v: FatVolume) returns (ended: bool)
      requires v.Valid() && IsChain(v.Fat(), chain) && startCluster == StartOf(chain) && ci < |chain| && currentCluster == chain[ci]
      requires sectorInCluster < v.g.sectorsPerCluster && byteInSector == SECTOR_SIZE
      modifies this`currentCluster, this`sectorInCluster, this`byteInSector, this`ci
      ensures Handle(v)
      ensures ended ==> Unseated() && old(Index(v.g.sectorsPerCluster)) == Capacity(v.g.sectorsPerCluster, chain)
      ensures !ended ==> currentCluster != 0 && Index(v.g.sectorsPerCluster) == old(Index(v.g.sectorsPerCluster))
    {
      hide Table, Clusters, DiskOk, IsChain;
      StartIndex(v);
      NextIndex(v.g.sectorsPerCluster, ci, sectorInCluster);
      ChainLink(v.Fat(), chain, ci);
      byteInSector := 0;
      sectorInCluster := sectorInCluster + 1;
      if sectorInCluster >= v.g.sectorsPerCluster {
        sectorInCluster := 0;
        var next := v.ReadFatEntry(currentCluster);
        if next >= EOC {
          currentCluster := 0;
          return true;
        }
        currentCluster := next;
        ci := ci + 1;
        ChainLink(v.Fat(), chain, ci);
      }
      return false;
    }

    ghost predicate Unseated()
      reads this
    {
      currentCluster == 0 && sectorInCluster == 0 && byteInSector == 0
    }

    /** Reads from the cursor on as many bytes as fit, as `size` says are left, and as the chain holds.
        On a coherent cursor these are exactly the bytes of the file from `position` on. */
    method Read(v: FatVolume, buf: array<Byte>) returns (r: Result<nat>)
      requires Handle(v) && position <= size
      requires currentCluster == 0 ==> position == size || buf.Length == 0 || !canRead
      modifies this`position, this`currentCluster, this`sectorInCluster, this`byteInSector, this`ci, this`error, buf
      ensures Handle(v)
      ensures !canRead ==> r == Err(Denied) && error == Denied
      ensures canRead ==> r.Ok? && error == old(error) && position == old(position) + r.value
      ensures !canRead || r.value == 0 ==>
                && position == old(position) && currentCluster == old(currentCluster) && ci == old(ci)
                && sectorInCluster == old(sectorInCluster) && byteInSector == old(byteInSector) && buf[..] == old(buf[..])
      ensures canRead && Min(buf.Length, size - old(position)) == 0 ==> r == Ok(0)
      ensures canRead && Min(buf.Length, size - old(position)) > 0 ==>
                var spc, at := v.g.sectorsPerCluster, old(Index(v.g.sectorsPerCluster));
                && at < Capacity(spc, chain)
                && r == Ok(Min(Min(buf.Length, size - old(position)), Capacity(spc, chain) - at))
                && buf[..r.value] == Bytes(v)[at..at + r.value] && buf[r.value..] == old(buf[r.value..])
                && (if at + r.value == Capacity(spc, chain) then Unseated() else currentCluster != 0 && Index(spc) == at + r.value)
      ensures old(Coherent(v)) && canRead ==>
                && r == Ok(Min(buf.Length, size - old(position)))
                && buf[..r.value] == Contents(v)[old(position)..position] && buf[r.value..] == old(buf[r.value..])
      ensures old(Coherent(v)) ==> Coherent(v)
    {
      hide IsChain, Table, Clusters, DiskOk, BytesOf, ByteIndex, Capacity;
      ghost var coherent := Coherent(v);
      if coherent {
        CoherentHandle(v);
      }
      if !canRead {
        error := Denied;
        return Err(Denied);
      }
      var remaining := size - position;
      var toRead := Min(buf.Length, remaining);
      if toRead == 0 {
        assert buf[..0] == [] && buf[0..] == buf[..];
        return Ok(0);
      }
      IndexInside(v.g.sectorsPerCluster, chain, ci, sectorInCluster, byteInSector);
      var read := ReadLoop(v, buf, toRead);
      if coherent {
        SliceOfPrefix(Bytes(v), size, old(position), position);
      }
      return Ok(read);
    }

    /** The read loop, with something to read. */
    method ReadLoop(v: FatVolume, buf: array<Byte>, toRead: nat) returns (read: nat)
      requires Seated(v) && 0 < toRead <= buf.Length
      modifies this`position, this`currentCluster, this`sectorInCluster, this`byteInSector, this`ci, buf
      ensures Handle(v) && position == old(position) + read
      ensures var spc, at := v.g.sectorsPerCluster, old(Index(v.g.sectorsPerCluster));
              && at < Capacity(spc, chain) && read == Min(toRead, Capacity(spc, chain) - at) > 0
              && buf[..read] == Bytes(v)[at..at + read] && buf[read..] == old(buf[read..])
              && (if at + read == Capacity(spc, chain) then Unseated() else currentCluster != 0 && Index(spc) == at + read)
    {
      hide IsChain, Table, Clusters, DiskOk, BytesOf, ByteIndex, Capacity;
      read := 0;
      ghost var spc, all, at, buf0 := v.g.sectorsPerCluster, Bytes(v), Index(v.g.sectorsPerCluster), buf[..];
      IndexInside(spc, chain, ci, sectorInCluster, byteInSector);
      while read < toRead
        invariant Seated(v) && all == Bytes(v) && read <= toRead && position == old(position) + read
        invariant Index(spc) == at + read < Capacity(spc, chain)
        invariant buf[..read] == all[at..at + read] && buf[read..] == buf0[read..]
      {
        ghost var before := buf[..];
        var n, ended := ReadPart(v, buf, read, toRead);
        assert buf[read + n..] == before[read..][n..] == buf0[read..][n..];
        assert all[at..at + read + n] == all[at..at + read] + all[at + read..at + read + n];
        read := read + n;
        if ended {
          break;
        }
      }
    }

    /** One turn of the read loop: the rest of a sector, or what is still asked for. */
    method ReadPart(v: FatVolume, buf: array<Byte>, read: nat, toRead: nat) returns (n: nat, ended: bool)
      requires Seated(v) && read < toRead <= buf.Length
      modifies this`position, this`currentCluster, this`sectorInCluster, this`byteInSector, this`ci, buf
      ensures 0 < n <= toRead - read && position == old(position) + n && Handle(v)
      ensures var spc, at := v.g.sectorsPerCluster, old(Index(v.g.sectorsPerCluster));
              && at + n <= Capacity(spc, chain)
              && buf[..read + n] == old(buf[..read]) + Bytes(v)[at..at + n]
              && (if ended then Unseated() && at + n == Capacity(spc, chain)
                  else currentCluster != 0 && Index(spc) == at + n < Capacity(spc, chain))
      ensures buf[read + n..] == old(buf[read + n..])
    {
      hide IsChain, Table, Clusters, DiskOk, BytesOf, Capacity;
      ChainFits(v, chain);
      ghost var spc := v.g.sectorsPerCluster;
      ChainLink(v.Fat(), chain, ci);
      var sectorBuf := v.ReadSector(currentCluster, sectorInCluster);
      n := Min(SECTOR_SIZE - byteInSector, toRead - read);
      BytesAt(v.Data(), spc, chain, ci, sectorInCluster, byteInSector, n);
      CopyInto(buf, read, sectorBuf[byteInSector..byteInSector + n]);
      byteInSector := byteInSector + n;
      position := position + n;
      ended := false;
      if byteInSector >= SECTOR_SIZE {
        ended := AdvanceRead(v);
      }
      if !ended {
        IndexInside(spc, chain, ci, sectorInCluster, byteInSector);
      }
    }

    // Writing

    /** What a write through a current cluster changes of the chain: `w` bytes of `buf` went to byte
        `at` of it, and it may have grown. */
    twostate predicate WroteAt(v: FatVolume, at: nat, buf: seq<Byte>, w: nat)
      requires old(Handle(v)) && at <= Capacity(v.g.sectorsPerCluster, old(chain))
      reads this, v
    {
      && Handle(v) && old(chain) <= chain && w <= |buf|
      && Edited(old(v.Fat()), v.Fat(), old(v.Data()), v.Data(), old(chain), chain)
      && |FreeSet(v.Fat())| + |chain| == |FreeSet(old(v.Fat()))| + |old(chain)|
      && at + w <= Capacity(v.g.sectorsPerCluster, chain) && Capacity(v.g.sectorsPerCluster, old(chain)) <= Capacity(v.g.sectorsPerCluster, chain)
      && Bytes(v)[..Max(Capacity(v.g.sectorsPerCluster, old(chain)), at + w)] == Overwrite(old(Bytes(v)), at, buf[..w])
    }

    /** What a write without a current cluster leaves.  The file has a new chain of clusters that were
        free, with the data at byte `at` of it.  A chain it had is still in the table, with all its
        bytes, and belongs to no file. */
    twostate predicate Restarted(v: FatVolume, at: nat, buf: seq<Byte>, w: nat)
      requires old(Handle(v))
      reads this, v
    {
      && Handle(v) && chain != [] && w <= |buf|
      && Edited(old(v.Fat()), v.Fat(), old(v.Data()), v.Data(), [], chain)
      && IsChain(v.Fat(), old(chain)) && Disjoint(old(chain), chain)
      && (forall c :: c in old(chain) ==> c < |old(v.Data())| && v.Data()[c] == old(v.Data())[c])
      && |FreeSet(v.Fat())| + |chain| == |FreeSet(old(v.Fat()))|
      && at + w <= Capacity(v.g.sectorsPerCluster, chain) && Bytes(v)[at..at + w] == buf[..w]
    }

    /** The state an out-of-clusters error leaves: chain and table are full, and the cursor is at
        the start of the last cluster although the data ended behind it. */
    ghost predicate Stuck(v: FatVolume)
      requires v.Valid()
      reads this, v
    {
      && FreeSet(v.Fat()) == {} && sectorInCluster == 0 && byteInSector == 0
      && chain != [] && currentCluster == chain[|chain| - 1]
    }

    /** Moves a write cursor from the end of a sector to the next, adding a cluster to the chain
        when it has none; without a free cluster the cursor is left at the start of the last. */
    method AdvanceWrite(v: FatVolume) returns (ok: bool)
      requires v.Valid() && IsChain(v.Fat(), chain) && startCluster == StartOf(chain) && ci < |chain| && currentCluster == chain[ci]
      requires sectorInCluster < v.g.sectorsPerCluster && byteInSector == SECTOR_SIZE
      modifies v, this`currentCluster, this`sectorInCluster, this`byteInSector, this`ci, this`chain, this`error
      ensures Handle(v) && currentCluster != 0 && v.Data() == old(v.Data()) && old(chain) <= chain
      ensures Capacity(v.g.sectorsPerCluster, old(chain)) <= Capacity(v.g.sectorsPerCluster, chain)
      ensures Bytes(v)[..Capacity(v.g.sectorsPerCluster, old(chain))] == old(Bytes(v))
      ensures Edited(old(v.Fat()), v.Fat(), old(v.Data()), v.Data(), old(chain), chain)
      ensures |FreeSet(v.Fat())| + |chain| == |FreeSet(old(v.Fat()))| + |old(chain)|
      ensures ok ==> Index(v.g.sectorsPerCluster) == old(Index(v.g.sectorsPerCluster)) && error == old(error)
      ensures !ok ==>
                && chain == old(chain) && Stuck(v) && error == MkfsAborted
                && old(Index(v.g.sectorsPerCluster)) == Capacity(v.g.sectorsPerCluster, chain)
    {
      hide Table, Clusters, DiskOk, BytesOf, IsChain, Edited, Within, FreeSet;
      ghost var spc := v.g.sectorsPerCluster;
      StartIndex(v);
      NextIndex(spc, ci, sectorInCluster);
      EditedRefl(v.Fat(), v.Data(), chain);
      ChainLink(v.Fat(), chain, ci);
      assert Bytes(v)[..Capacity(spc, chain)] == Bytes(v);
      byteInSector := 0;
      sectorInCluster := sectorInCluster + 1;
      if sectorInCluster >= v.g.sectorsPerCluster {
        sectorInCluster := 0;
        var next := v.ReadFatEntry(currentCluster);
        if next >= EOC {
          var r, mid := AppendCluster(v, currentCluster, chain, Capacity(spc, chain));
          if r.None? {
            error := MkfsAborted;
            return false;
          }
          chain := chain + [r.value];
          currentCluster := r.value;
          ci := ci + 1;
        } else {
          currentCluster := next;
          ci := ci + 1;
        }
        ChainLink(v.Fat(), chain, ci);
      }
      return true;
    }

    /** Reads, modifies and writes back one sector. */
    method WriteSectorPart(v: FatVolume, buf: seq<Byte>, written: nat) returns (space: nat)
      requires Seated(v) && written < |buf|
      modifies v, this`position, this`size, this`byteInSector, this`modified
      ensures 0 < space <= |buf| - written && position == old(position) + space && modified
      ensures size == Max(old(size), position) && v.Valid() && v.Fat() == old(v.Fat()) && IsChain(v.Fat(), chain)
      ensures byteInSector == old(byteInSector) + space <= SECTOR_SIZE
      ensures old(Index(v.g.sectorsPerCluster)) + space == Index(v.g.sectorsPerCluster) <= Capacity(v.g.sectorsPerCluster, chain)
      ensures Bytes(v) == Splice(old(Bytes(v)), old(Index(v.g.sectorsPerCluster)), buf[written..written + space])
      ensures Edited(old(v.Fat()), v.Fat(), old(v.Data()), v.Data(), chain, chain)
    {
      hide Table, Clusters, DiskOk, BytesOf, IsChain, SetSector, Capacity;
      ghost var spc, data := v.g.sectorsPerCluster, v.Data();
      ChainFits(v, chain);
      ChainLink(v.Fat(), chain, ci);
      var sectorBuf := v.ReadSector(currentCluster, sectorInCluster);
      space := Min(SECTOR_SIZE - byteInSector, |buf| - written);
      ghost var piece := buf[written..written + space];
      sectorBuf := Splice(sectorBuf, byteInSector, buf[written..written + space]);
      v.WriteSector(currentCluster, sectorInCluster, sectorBuf);
      BytesWritten(data, spc, chain, ci, sectorInCluster, byteInSector, piece);
      EditedRefl(v.Fat(), data, chain);
      EditedData(v.Fat(), v.Fat(), data, data, v.Data(), chain, chain);
      byteInSector := byteInSector + space;
      position := position + space;
      if position > size {
        size := position;
      }
      modified := true;
    }

    /** One turn of the write loop: one sector, then advance. */
    method WritePart(v: FatVolume, buf: seq<Byte>, written: nat) returns (n: nat, ok: bool)
      requires Seated(v) && written < |buf|
      modifies v, this`position, this`size, this`currentCluster, this`sectorInCluster, this`byteInSector,
               this`ci, this`chain, this`error, this`modified
      ensures 0 < n <= |buf| - written && position == old(position) + n && modified && size == Max(old(size), position)
      ensures Handle(v) && currentCluster != 0 && old(chain) <= chain
      ensures Edited(old(v.Fat()), v.Fat(), old(v.Data()), v.Data(), old(chain), chain)
      ensures |FreeSet(v.Fat())| + |chain| == |FreeSet(old(v.Fat()))| + |old(chain)|
      ensures var spc, at := v.g.sectorsPerCluster, old(Index(v.g.sectorsPerCluster));
              && at + n <= Capacity(spc, old(chain)) <= Capacity(spc, chain)
              && Bytes(v)[..Capacity(spc, old(chain))] == Splice(old(Bytes(v)), at, buf[written..written + n])
              && (ok ==> Index(spc) == at + n && error == old(error))
              && (!ok ==> Stuck(v) && at + n == Capacity(spc, chain) && error == MkfsAborted)
    {
      hide Table, Clusters, DiskOk, BytesOf, IsChain, Edited, FreeSet, Splice, Capacity, ByteIndex;
      n := WriteSectorPart(v, buf, written);
      ok := true;
      if byteInSector >= SECTOR_SIZE {
        ghost var fat1, data1 := v.Fat(), v.Data();
        ok := AdvanceWrite(v);
        EditedTrans(old(v.Fat()), fat1, v.Fat(), old(v.Data()), data1, v.Data(), old(chain), old(chain), chain);
      } else {
        assert Bytes(v)[..Capacity(v.g.sectorsPerCluster, chain)] == Bytes(v);
      }
    }

    /** The write loop, from a current cluster. */
    method WriteAll(v: FatVolume, buf: seq<Byte>) returns (r: Result<nat>, ghost w: nat)
      requires Seated(v) && buf != []
      modifies v, this`position, this`size, this`currentCluster, this`sectorInCluster, this`byteInSector,
               this`ci, this`chain, this`error, this`modified
      ensures old(Index(v.g.sectorsPerCluster)) < Capacity(v.g.sectorsPerCluster, old(chain))
      ensures WroteAt(v, old(Index(v.g.sectorsPerCluster)), buf, w) && w > 0 && modified && currentCluster != 0
      ensures position == old(position) + w && size == Max(old(size), position)
      ensures Ended(v, r, old(Index(v.g.sectorsPerCluster)), buf, w) && (r.Ok? ==> error == old(error))
    {
      hide Table, Clusters, DiskOk, BytesOf, IsChain, Edited, FreeSet, ByteIndex, Overwrite, Capacity, Splice, SectorIndex;
      w := 0;
      ghost var spc, b0, at := v.g.sectorsPerCluster, Bytes(v), Index(v.g.sectorsPerCluster);
      ghost var c0 := |b0|;
      IndexInside(spc, chain, ci, sectorInCluster, byteInSector);
      EditedRefl(v.Fat(), v.Data(), chain);
      OverwriteNone(b0, at, buf);
      assert Bytes(v)[..c0] == b0;
      var toWrite := |buf|;
      var written := 0;
      while written < toWrite
        invariant written <= toWrite && currentCluster != 0 && Index(spc) == at + written && position == old(position) + written
        invariant WroteAt(v, at, buf, written) && error == old(error)
        invariant written > 0 ==> modified && size == Max(old(size), position)
        invariant written == 0 ==> size == old(size)
      {
        ghost var fat1, data1, chain1, b1 := v.Fat(), v.Data(), chain, Bytes(v);
        var n, more := WritePart(v, buf, written);
        EditedTrans(old(v.Fat()), fat1, v.Fat(), old(v.Data()), data1, v.Data(), old(chain), chain1, chain);
        OverwriteNext(b0, at, buf, written, n, b1, Bytes(v), c0);
        written := written + n;
        if !more {
          return Err(MkfsAborted), written;
        }
      }
      IndexInside(spc, chain, ci, sectorInCluster, byteInSector);
      return Ok(written), written;
    }

    /** How a write that started at byte `at` of the chain ended. */
    ghost predicate Ended(v: FatVolume, r: Result<nat>, at: nat, buf: seq<Byte>, w: nat)
      requires v.Valid()
      reads this, v
    {
      currentCluster != 0 &&
      match r
      case Ok(n) => n == w == |buf| && Index(v.g.sectorsPerCluster) == at + w < Capacity(v.g.sectorsPerCluster, chain)
      case Err(e) =>
        e == MkfsAborted && error == MkfsAborted && Stuck(v) && at + w == Capacity(v.g.sectorsPerCluster, chain)
    }

    /** The first step of a write without a current cluster: a new one, which also becomes the start
        of the file.  Any chain the file had is still in the table, but no longer the file's. */
    method StartOver(v: FatVolume) returns (ok: bool)
      requires Handle(v) && currentCluster == 0
      modifies v, this`startCluster, this`currentCluster, this`chain, this`ci, this`error
      ensures Handle(v) && v.Data() == old(v.Data())
      ensures ok <==> FreeSet(old(v.Fat())) != {}
      ensures !ok ==>
                && v.Fat() == old(v.Fat()) && chain == old(chain) && startCluster == old(startCluster)
                && currentCluster == 0 && ci == old(ci) && error == MkfsAborted
      ensures ok ==>
                && currentCluster in FreeSet(old(v.Fat())) && v.Fat() == old(v.Fat())[currentCluster := LAST]
                && startCluster == currentCluster && chain == [currentCluster] && ci == 0 && error == old(error)
                && currentCluster != 0 && IsChain(v.Fat(), old(chain)) && Disjoint(old(chain), chain)
    {
      hide Table, Clusters, DiskOk;
      var r := v.ClaimCluster();
      if r.None? {
        error := MkfsAborted;
        return false;
      }
      ClaimKeeps(old(v.Fat()), r.value, chain);
      startCluster := r.value;
      currentCluster := r.value;
      chain := [r.value];
      ci := 0;
      return true;
    }

    /** A write without a current cluster. */
    method WriteFresh(v: FatVolume, buf: seq<Byte>) returns (r: Result<nat>, ghost w: nat)
      requires Handle(v) && currentCluster == 0 && buf != []
      modifies v, this`position, this`size, this`startCluster, this`currentCluster, this`sectorInCluster,
               this`byteInSector, this`ci, this`chain, this`error, this`modified
      ensures Handle(v) && position == old(position) + w
      ensures FreeSet(old(v.Fat())) == {} ==>
                && r == Err(MkfsAborted) && error == MkfsAborted && w == 0 && Kept(v) && modified == old(modified)
      ensures FreeSet(old(v.Fat())) != {} ==>
                var at := old(ByteIndex(v.g.sectorsPerCluster, 0, sectorInCluster, byteInSector));
                && Restarted(v, at, buf, w) && Ended(v, r, at, buf, w) && (r.Ok? ==> error == old(error))
                && w > 0 && modified && currentCluster != 0 && size == Max(old(size), position)
    {
      hide Table, Clusters, DiskOk, BytesOf, IsChain, Edited, FreeSet, ByteIndex, Overwrite, Link, Capacity;
      var ok := StartOver(v);
      if !ok {
        return Err(MkfsAborted), 0;
      }
      ghost var fat1, data1, chain1, b1 := v.Fat(), v.Data(), chain, Bytes(v);
      ghost var at := Index(v.g.sectorsPerCluster);
      r, w := WriteAll(v, buf);
      FreshEdits(old(v.Fat()), fat1, data1, chain1);
      EditedTrans(old(v.Fat()), fat1, v.Fat(), old(v.Data()), data1, v.Data(), [], chain1, chain);
      OthersKept(old(v.Fat()), v.Fat(), old(v.Data()), v.Data(), [], chain, old(chain));
      OverwritePiece(b1, at, buf[..w], Bytes(v));
    }

    /** Table, clusters, chain and cursor are as before. */
    twostate predicate Kept(v: FatVolume)
      requires old(v.Valid())
      reads this, v
    {
      && v.Valid() && v.Fat() == old(v.Fat()) && v.Data() == old(v.Data()) && chain == old(chain)
      && startCluster == old(startCluster) && currentCluster == old(currentCluster) && ci == old(ci)
      && sectorInCluster == old(sectorInCluster) && byteInSector == old(byteInSector)
      && position == old(position) && size == old(size)
    }

    /** Where a write does what it should: the cursor has a current cluster, or the file none. */
    ghost predicate Attached()
      reads this
    {
      currentCluster != 0 || chain == []
    }

    /** What a write does to a coherent file, after `w` bytes of `buf` went to `at`. */
    twostate predicate Wrote(v: FatVolume, at: nat, buf: seq<Byte>, w: nat)
      requires old(Stored(v)) && at <= old(size)
      reads this, v
    {
      && Stored(v) && old(chain) <= chain && w <= |buf|
      && Edited(old(v.Fat()), v.Fat(), old(v.Data()), v.Data(), old(chain), chain)
      && |FreeSet(v.Fat())| + |chain| == |FreeSet(old(v.Fat()))| + |old(chain)|
      && size == Max(old(size), at + w)
      && Contents(v) == Overwrite(old(Contents(v)), at, buf[..w])
    }

    /** The outcome of a write through a current cluster. */
    twostate predicate WentOn(v: FatVolume, r: Result<nat>, buf: seq<Byte>, w: nat)
      requires old(Handle(v)) && v.Valid()
      reads this, v
    {
      var spc, at := v.g.sectorsPerCluster, old(Index(v.g.sectorsPerCluster));
      && at < Capacity(spc, old(chain)) && WroteAt(v, at, buf, w) && Ended(v, r, at, buf, w) && modified
      && (r.Ok? <==> at + |buf| < Room(spc, |old(chain)| + |FreeSet(old(v.Fat()))|))
    }

    /** The outcome of a write without a current cluster. */
    twostate predicate StartedOver(v: FatVolume, r: Result<nat>, buf: seq<Byte>, w: nat)
      requires old(Handle(v)) && v.Valid()
      reads this, v
    {
      var spc, at := v.g.sectorsPerCluster, old(ByteIndex(v.g.sectorsPerCluster, 0, sectorInCluster, byteInSector));
      && (FreeSet(old(v.Fat())) != {} ==> Restarted(v, at, buf, w) && Ended(v, r, at, buf, w) && modified)
      && (r.Ok? <==> at + |buf| < Room(spc, |FreeSet(old(v.Fat()))|))
    }

    /** Writes `buf` at the cursor, wherever it is.  `w` is the number of bytes that reached the disk:
        all of them unless the volume runs out of clusters, which happens exactly when the clusters
        of the file and the free ones cannot hold one byte more than the data written.

        Without a current cluster the file starts over.  It then loses the chain it had, and what it
        holds no longer agrees with its position and size. */
    method Write(v: FatVolume, buf: seq<Byte>) returns (r: Result<nat>, ghost w: nat)
      requires Handle(v) && position + |buf| < 0x1_0000_0000
      modifies this, v
      ensures Handle(v) && position == old(position) + w && canRead == old(canRead) && canWrite == old(canWrite)
      ensures dirCluster == old(dirCluster) && dirOffset == old(dirOffset)
      ensures size == if w == 0 then old(size) else Max(old(size), position)
      ensures modified <==> old(modified) || w > 0
      ensures !canWrite ==> r == Err(Denied) && error == Denied
      ensures canWrite && buf == [] ==> r == Ok(0)
      ensures r.Ok? ==> r == Ok(|buf|) && w == |buf| && error == old(error)
      ensures r.Err? && canWrite ==> r == Err(MkfsAborted) && error == MkfsAborted
      ensures !canWrite || buf == [] || (old(currentCluster) == 0 && FreeSet(old(v.Fat())) == {}) ==> w == 0 && Kept(v)
      ensures canWrite && buf != [] && old(currentCluster) != 0 ==> WentOn(v, r, buf, w)
      ensures canWrite && buf != [] && old(currentCluster) == 0 ==> StartedOver(v, r, buf, w)
      ensures old(Coherent(v)) && old(Attached()) ==> Wrote(v, old(position), buf, w)
      ensures old(Coherent(v)) && canWrite && buf != [] && r.Ok? ==> (Coherent(v) <==> old(Attached()))
    {
      hide Table, Clusters, DiskOk, BytesOf, IsChain, Edited, FreeSet, ByteIndex, Overwrite, Capacity, Room, SectorIndex;
      w := 0;
      EditedRefl(v.Fat(), v.Data(), chain);
      if Coherent(v) {
        OverwriteNone(Contents(v), position, buf);
      }
      if !canWrite {
        error := Denied;
        return Err(Denied), 0;
      }
      if buf == [] {
        return Ok(0), 0;
      }
      if currentCluster == 0 {
        r, w := WriteUnseated(v, buf);
      } else {
        r, w := WriteSeated(v, buf);
      }
    }

    /** A write through a current cluster. */
    method WriteSeated(v: FatVolume, buf: seq<Byte>) returns (r: Result<nat>, ghost w: nat)
      requires Seated(v) && buf != []
      modifies v, this`position, this`size, this`currentCluster, this`sectorInCluster, this`byteInSector,
               this`ci, this`chain, this`error, this`modified
      ensures position == old(position) + w && size == Max(old(size), position) && w > 0 && modified && Handle(v)
      ensures r.Ok? ==> error == old(error)
      ensures WentOn(v, r, buf, w)
      ensures old(Coherent(v)) ==> Wrote(v, old(position), buf, w) && (r.Ok? ==> Coherent(v))
    {
      hide Table, Clusters, DiskOk, BytesOf, IsChain, Edited, FreeSet, ByteIndex, Overwrite, Capacity, Room, SectorIndex;
      ghost var coherent := Coherent(v);
      if coherent {
        CoherentHandle(v);
      }
      r, w := WriteAll(v, buf);
      RoomIff(v, chain, |old(chain)| + |FreeSet(old(v.Fat()))|, old(Index(v.g.sectorsPerCluster)), w, |buf|, r.Ok?);
      if coherent {
        OverwritePrefix(old(Bytes(v)), old(size), old(position), buf[..w], Bytes(v));
      }
    }

    /** A write without a current cluster: what it comes to, and what for a coherent file. */
    method WriteUnseated(v: FatVolume, buf: seq<Byte>) returns (r: Result<nat>, ghost w: nat)
      requires Handle(v) && currentCluster == 0 && buf != []
      modifies v, this`position, this`size, this`startCluster, this`currentCluster, this`sectorInCluster,
               this`byteInSector, this`ci, this`chain, this`error, this`modified
      ensures Handle(v) && position == old(position) + w && size == (if w == 0 then old(size) else Max(old(size), position))
      ensures r.Ok? ==> r == Ok(|buf|) && w == |buf| && error == old(error)
      ensures r.Err? ==> r == Err(MkfsAborted) && error == MkfsAborted
      ensures modified <==> old(modified) || w > 0
      ensures FreeSet(old(v.Fat())) == {} ==> w == 0 && Kept(v)
      ensures StartedOver(v, r, buf, w)
      ensures old(Coherent(v)) && old(chain) == [] ==> Wrote(v, old(position), buf, w) && (r.Ok? ==> Coherent(v))
      ensures old(Coherent(v)) && old(chain) != [] && r.Ok? ==> !Coherent(v)
    {
      hide Table, Clusters, DiskOk, BytesOf, IsChain, Edited, FreeSet, ByteIndex, Overwrite, Capacity, Room, SectorIndex;
      ghost var coherent, at := Coherent(v), ByteIndex(v.g.sectorsPerCluster, 0, sectorInCluster, byteInSector);
      EditedRefl(v.Fat(), v.Data(), chain);
      StartIndex(v);
      CapacityEmpty(v.g.sectorsPerCluster);
      if coherent {
        CoherentHandle(v);
        OverwriteNone(Contents(v), position, buf);
        if chain != [] {
          CapacityPositive(v.g.sectorsPerCluster, chain);
        }
      }
      r, w := WriteFresh(v, buf);
      if FreeSet(old(v.Fat())) == {} {
        NoRoom(v, at + |buf|);
      } else {
        RoomIff(v, chain, |FreeSet(old(v.Fat()))|, at, w, |buf|, r.Ok?);
        OverwriteAll(buf[..w]);
        assert Bytes(v)[0..w] == Bytes(v)[..w];
        assert coherent && old(chain) == [] ==> old(Contents(v)) == [];
      }
    }

    // Seeking

    /** Walks to `offset`.  Inside the chain the cursor names that byte; behind it the code stores
        the cluster index as the position, so the position asked for is reached exactly when the
        offset is the old position or lies in the chain's clusters or in the first cluster. */
    method Seek(v: FatVolume, offset: nat) returns (r: Result<()>)
      requires Handle(v) && (chain != [] || v.Fat()[0] >= EOC)
      modifies this`position, this`currentCluster, this`sectorInCluster, this`byteInSector, this`ci, this`error
      ensures Handle(v)
      ensures offset > size && !canWrite ==> r == Err(Denied) && error == Denied
      ensures offset <= size || canWrite ==> r == Ok(()) && error == old(error)
      ensures r.Err? || offset == old(position) ==>
                && position == old(position) && currentCluster == old(currentCluster) && ci == old(ci)
                && sectorInCluster == old(sectorInCluster) && byteInSector == old(byteInSector)
      ensures r.Ok? && offset != old(position) && offset < Capacity(v.g.sectorsPerCluster, chain) ==>
                OnChain(v.g.sectorsPerCluster) && position == offset
      ensures r.Ok? && offset != old(position) && offset >= Capacity(v.g.sectorsPerCluster, chain) ==>
                && currentCluster == 0
                && (chain != [] ==> Unseated() && position == ClusterIndex(v.g.sectorsPerCluster, offset))
      ensures r.Ok? ==>
                (position == offset <==>
                 || offset == old(position) || offset < Capacity(v.g.sectorsPerCluster, chain)
                 || offset < ClusterBytes(v.g.sectorsPerCluster))
    {
      hide Table, Clusters, DiskOk, BytesOf, IsChain, ByteIndex, Capacity, ClusterIndex, ClusterBytes;
      if offset > size && !canWrite {
        error := Denied;
        return Err(Denied);
      }
      if offset == position {
        return Ok(());
      }
      StartIndex(v);
      var targetIdx := ClusterIndex(v.g.sectorsPerCluster, offset);
      SplitOffset(v.g.sectorsPerCluster, offset);
      IndexReaches(v.g.sectorsPerCluster, chain, offset);
      var ended, clu := WalkChain(v, targetIdx);
      if ended {
        currentCluster := 0;
        sectorInCluster := 0;
        byteInSector := 0;
        position := ClusterIndex(v.g.sectorsPerCluster, offset);
        return Ok(());
      }
      var offsetInCluster := ClusterOffset(v.g.sectorsPerCluster, offset);
      currentCluster := clu;
      sectorInCluster := offsetInCluster / SECTOR_SIZE;
      byteInSector := offsetInCluster % SECTOR_SIZE;
      position := offset;
      ci := targetIdx;
      return Ok(());
    }

    /** Follows `steps` links from the start; `ended` when the chain is shorter. */
    method WalkChain(v: FatVolume, steps: nat) returns (ended: bool, clu: nat)
      requires Handle(v) && (chain != [] || v.Fat()[0] >= EOC)
      ensures ended <==> steps >= |chain| && steps > 0
      ensures !ended ==> clu == if chain == [] then 0 else chain[steps]
    {
      hide Table, Clusters, DiskOk;
      clu := startCluster;
      var n := 0;
      while n < steps
        invariant n <= steps && clu == (if chain == [] then 0 else if n < |chain| then chain[n] else 0)
        invariant n > 0 ==> n < |chain|
      {
        if chain != [] {
          ChainLink(v.Fat(), chain, n);
        }
        clu := v.ReadFatEntry(clu);
        if clu >= EOC {
          return true, clu;
        }
        n := n + 1;
      }
      return false, clu;
    }

    // Truncating

    /** The chain cut down to its first `keep` clusters; the others are free. */
    twostate predicate Shortened(v: FatVolume, keep: nat)
      requires old(Handle(v)) && keep <= |old(chain)|
      reads this, v
    {
      && Handle(v) && chain == old(chain)[..keep] && v.Data() == old(v.Data())
      && Edited(old(v.Fat()), v.Fat(), old(v.Data()), v.Data(), old(chain), chain)
      && |FreeSet(v.Fat())| == |FreeSet(old(v.Fat()))| + |old(chain)| - keep
    }

    /** Drops the clusters behind the current one and ends the file at `position`, wherever the cursor
        is.  On a coherent file the bytes in front of it stay. */
    method Truncate(v: FatVolume) returns (r: Result<()>, ghost keep: nat)
      requires Handle(v) && (currentCluster != 0 || v.Fat()[0] >= EOC)
      modifies v, this`size, this`modified, this`error, this`chain
      ensures keep == (if currentCluster == 0 then |old(chain)| else ci + 1) <= |old(chain)|
      ensures !canWrite ==>
                r == Err(Denied) && error == Denied && unchanged(v) && chain == old(chain) && size == old(size) && Handle(v)
      ensures canWrite ==> r == Ok(()) && modified && error == old(error) && size == position && Shortened(v, keep)
      ensures canWrite && old(Coherent(v)) ==> Coherent(v) && Contents(v) == old(Contents(v))[..old(position)]
    {
      hide Table, Clusters, DiskOk, BytesOf, IsChain, Edited, FreeSet, Trail, Cleared, Capacity, ByteIndex;
      keep := if currentCluster == 0 then |chain| else ci + 1;
      if !canWrite {
        error := Denied;
        return Err(Denied), keep;
      }
      ghost var spc, coherent := v.g.sectorsPerCluster, Coherent(v);
      if coherent {
        CoherentHandle(v);
      }
      ghost var chain' := chain[..keep];
      CutChain(v, chain');
      assert keep == |chain| ==> chain' == chain;
      if coherent {
        if currentCluster != 0 {
          IndexInside(spc, chain', ci, sectorInCluster, byteInSector);
        }
        ChainFits(v, chain');
        ShrinkBytes(v, chain, keep, spc, position);
        SliceOfPrefix(old(Bytes(v)), old(size), 0, position);
      }
      chain := chain';
      size := position;
      modified := true;
      return Ok(()), keep;
    }

    /** Frees what follows the current cluster and ends the chain there. */
    method CutChain(v: FatVolume, ghost chain': seq<nat>)
      requires Handle(v) && (currentCluster != 0 || v.Fat()[0] >= EOC)
      requires chain' == chain[..if currentCluster == 0 then |chain| else ci + 1]
      modifies v
      ensures v.Valid() && v.Data() == old(v.Data()) && IsChain(v.Fat(), chain') && Within(v.Data(), chain)
      ensures Edited(old(v.Fat()), v.Fat(), old(v.Data()), v.Data(), chain, chain')
      ensures |FreeSet(v.Fat())| == |FreeSet(old(v.Fat()))| + |chain| - |chain'|
    {
      hide Table, Clusters, DiskOk, BytesOf, Edited, FreeSet, Trail, Cleared, IsChain, Link;
      ghost var fat0 := v.Fat();
      ChainFits(v, chain);
      if currentCluster != 0 {
        ChainLink(fat0, chain, ci);
        RestOfChain(fat0, chain, ci);
        TruncateEdits(fat0, v.Data(), chain, ci + 1);
      } else {
        EmptyTrail(fat0, fat0[0]);
        EditedRefl(fat0, v.Data(), chain);
        assert chain' == chain;
      }
      var clu := v.ReadFatEntry(currentCluster);
      v.FreeChain(clu);
      if currentCluster >= 2 {
        v.WriteFatEntry(currentCluster, LAST);
        EditedChain(fat0, v.Fat(), v.Data(), v.Data(), chain, chain');
      }
    }

    // Expanding

    /** The chain only grew, by clusters that were free, and its bytes are the same. */
    twostate predicate Grown(v: FatVolume)
      requires old(Handle(v))
      reads this, v
    {
      && Handle(v) && old(chain) <= chain && v.Data() == old(v.Data())
      && Capacity(v.g.sectorsPerCluster, old(chain)) <= Capacity(v.g.sectorsPerCluster, chain)
      && Bytes(v)[..Capacity(v.g.sectorsPerCluster, old(chain))] == old(Bytes(v))
      && Edited(old(v.Fat()), v.Fat(), old(v.Data()), v.Data(), old(chain), chain)
      && |FreeSet(v.Fat())| + |chain| == |FreeSet(old(v.Fat()))| + |old(chain)|
      && (chain == old(chain) ==> v.Fat() == old(v.Fat()))
    }

    /** Number of clusters of a chain that is not empty. */
    method CountClusters(v: FatVolume) returns (count: nat)
      requires Handle(v) && chain != []
      ensures count == |chain|
    {
      hide Table, Clusters, DiskOk, BytesOf, IsChain;
      count := 1;
      var clu := startCluster;
      while true
        invariant 1 <= count <= |chain| && clu == chain[count - 1]
        decreases |chain| - count
      {
        ChainLink(v.Fat(), chain, count - 1);
        var next := v.ReadFatEntry(clu);
        if next >= EOC {
          break;
        }
        clu := next;
        count := count + 1;
      }
    }

    /** The last cluster of a chain that is not empty. */
    method FindTail(v: FatVolume) returns (tail: nat)
      requires Handle(v) && chain != []
      ensures tail == chain[|chain| - 1]
    {
      hide Table, Clusters, DiskOk, BytesOf, IsChain;
      tail := startCluster;
      ghost var n := 1;
      while true
        invariant 1 <= n <= |chain| && tail == chain[n - 1]
        decreases |chain| - n
      {
        ChainLink(v.Fat(), chain, n - 1);
        var next := v.ReadFatEntry(tail);
        if next >= EOC {
          break;
        }
        tail := next;
        n := n + 1;
      }
    }

    /** Appends `toAdd` clusters, or all that are free. */
    method AppendMany(v: FatVolume, first: nat, toAdd: nat) returns (ok: bool)
      requires Handle(v) && chain != [] && first == chain[|chain| - 1]
      modifies v, this`chain, this`error
      ensures Grown(v)
      ensures ok ==> |chain| == |old(chain)| + toAdd && error == old(error)
      ensures !ok ==> FreeSet(v.Fat()) == {} && |chain| < |old(chain)| + toAdd && error == MkfsAborted
    {
      hide Table, Clusters, DiskOk, BytesOf, IsChain, Edited, FreeSet, Within, Capacity;
      ghost var spc, b0 := v.g.sectorsPerCluster, Bytes(v);
      EditedRefl(v.Fat(), v.Data(), chain);
      assert Bytes(v)[..|b0|] == b0;
      var tail := first;
      for k := 0 to toAdd
        invariant Grown(v) && |chain| == |old(chain)| + k && tail == chain[|chain| - 1] && error == old(error)
      {
        ghost var fat1, chain1, b1 := v.Fat(), chain, Bytes(v);
        var r, mid := AppendCluster(v, tail, chain, Capacity(spc, chain));
        if r.None? {
          error := MkfsAborted;
          return false;
        }
        chain := chain + [r.value];
        EditedTrans(old(v.Fat()), fat1, v.Fat(), v.Data(), v.Data(), v.Data(), old(chain), chain1, chain);
        assert Bytes(v)[..|b1|][..|b0|] == Bytes(v)[..|b0|];
        tail := r.value;
      }
      return true;
    }

    /** Adds `toAdd` clusters to the chain, starting one if the file has none. */
    method GrowBy(v: FatVolume, toAdd: nat) returns (ok: bool)
      requires Handle(v) && toAdd > 0
      modifies v, this`chain, this`startCluster, this`currentCluster, this`ci, this`error
      ensures Grown(v)
      ensures old(chain) != [] || chain == [] ==> currentCluster == old(currentCluster) && ci == old(ci)
      ensures old(chain) == [] && chain != [] ==> currentCluster == chain[0] && ci == 0
      ensures ok ==> |chain| == |old(chain)| + toAdd && error == old(error)
      ensures !ok ==> FreeSet(v.Fat()) == {} && |chain| < |old(chain)| + toAdd && error == MkfsAborted
    {
      hide Table, Clusters, DiskOk, BytesOf, IsChain, Edited, FreeSet, Within, Capacity;
      CapacityEmpty(v.g.sectorsPerCluster);
      var tail := startCluster;
      if chain != [] {
        ChainLink(v.Fat(), chain, 0);
      }
      if tail == 0 {
        EditedRefl(v.Fat(), v.Data(), chain);
        assert Bytes(v) == [];
        var r := v.ClaimCluster();
        if r.None? {
          error := MkfsAborted;
          return false;
        }
        StartChain(v, old(v.Fat()), old(v.Data()), r.value);
        startCluster := r.value;
        currentCluster := r.value;
        chain := [r.value];
        ci := 0;
        ghost var fat1 := v.Fat();
        ok := AppendMany(v, r.value, toAdd - 1);
        EditedTrans(old(v.Fat()), fat1, v.Fat(), v.Data(), v.Data(), v.Data(), old(chain), [r.value], chain);
      } else {
        tail := FindTail(v);
        ok := AppendMany(v, tail, toAdd);
      }
    }

    /** Grows the file to `newSize` bytes.  When the clusters it has already suffice, the code
        returns Ok without changing the size, so after an Ok the size asked for is reached exactly
        when it is the old one or the old chain was too short for it. */
    method Expand(v: FatVolume, newSize: nat) returns (r: Result<()>)
      requires Handle(v)
      requires newSize + ClusterBytes(v.g.sectorsPerCluster) <= 0x1_0000_0000
      modifies v, this`chain, this`startCluster, this`currentCluster, this`ci, this`size, this`modified, this`error
      ensures Grown(v)
      ensures old(Stored(v)) ==> Stored(v) && old(size) <= size && Contents(v)[..old(size)] == old(Contents(v))
      ensures old(chain) != [] || chain == [] ==> currentCluster == old(currentCluster) && ci == old(ci)
      ensures old(Coherent(v)) ==> (Coherent(v) <==> old(Attached()) || chain == old(chain))
      ensures !canWrite ==> r == Err(Denied) && error == Denied && chain == old(chain) && size == old(size)
      ensures r.Ok? ==> error == old(error)
      ensures canWrite && r.Err? ==> r == Err(MkfsAborted) && error == MkfsAborted && FreeSet(v.Fat()) == {} && size == old(size)
      ensures modified <==> old(modified) || (r.Ok? && chain != old(chain))
      ensures canWrite && newSize <= old(size) ==> r == Ok(()) && chain == old(chain) && size == old(size)
      ensures r.Ok? && newSize > old(size) ==>
                && |chain| == Max(|old(chain)|, ClustersFor(v.g.sectorsPerCluster, newSize))
                && (size == newSize <==> Capacity(v.g.sectorsPerCluster, old(chain)) < newSize)
                && (size != newSize ==> size == old(size) && chain == old(chain))
      ensures canWrite && newSize > old(size) ==>
                (r.Ok? <==> ClustersFor(v.g.sectorsPerCluster, newSize) <= |old(chain)| + |FreeSet(old(v.Fat()))|)
    {
      hide Table, Clusters, DiskOk, BytesOf, IsChain, Edited, FreeSet, Capacity, ClustersFor, ClusterBytes;
      EditedRefl(v.Fat(), v.Data(), chain);
      StartIndex(v);
      assert Bytes(v)[..Capacity(v.g.sectorsPerCluster, chain)] == Bytes(v);
      if !canWrite {
        error := Denied;
        return Err(Denied);
      }
      if newSize <= size {
        return Ok(());
      }
      var toAdd := ClustersMissing(v, newSize);
      if toAdd == 0 {
        return Ok(());
      }
      var ok := GrowBy(v, toAdd);
      if old(Coherent(v)) {
        GrownCursor(v);
      }
      if !ok {
        GrownContents(Bytes(v), old(Bytes(v)), size, size);
        return Err(MkfsAborted);
      }
      RoundUp(v.g.sectorsPerCluster, newSize, chain);
      GrownContents(Bytes(v), old(Bytes(v)), size, newSize);
      size := newSize;
      modified := true;
      return Ok(());
    }

    /** Clusters missing for `newSize` bytes. */
    method ClustersMissing(v: FatVolume, newSize: nat) returns (toAdd: nat)
      requires Handle(v) && newSize >= 1
      ensures v.g.sectorsPerCluster >= 1
      ensures toAdd == Max(|chain|, ClustersFor(v.g.sectorsPerCluster, newSize)) - |chain|
      ensures toAdd == 0 <==> newSize <= Capacity(v.g.sectorsPerCluster, chain)
    {
      hide Table, Clusters, DiskOk, BytesOf, IsChain, Capacity, ClustersFor;
      StartIndex(v);
      if chain != [] {
        ChainLink(v.Fat(), chain, 0);
      }
      var currentClusters := 0;
      if startCluster != 0 {
        currentClusters := CountClusters(v);
      }
      var neededClusters := ClustersFor(v.g.sectorsPerCluster, newSize);
      RoundUp(v.g.sectorsPerCluster, newSize, chain);
      return if neededClusters > currentClusters then neededClusters - currentClusters else 0;
    }

    /** A growing chain leaves the cursor behind when it stood at the end without a cluster. */
    twostate lemma GrownCursor(v: FatVolume)
      requires old(Coherent(v)) && Handle(v) && old(chain) <= chain && position == old(position)
      requires sectorInCluster == old(sectorInCluster) && byteInSector == old(byteInSector)
      requires old(chain) != [] || chain == [] ==> currentCluster == old(currentCluster) && ci == old(ci)
      requires old(chain) == [] && chain != [] ==> currentCluster == chain[0] && ci == 0
      ensures OnChain(v.g.sectorsPerCluster) || AtEnd(v.g.sectorsPerCluster) <==> old(Attached()) || chain == old(chain)
    {
      hide Table, Clusters, DiskOk, BytesOf, IsChain, ByteIndex;
      StartIndex(v);
      if ci < |chain| {
        ChainLink(v.Fat(), chain, ci);
      }
      if old(ci) < |old(chain)| {
        ChainLink(old(v.Fat()), old(chain), old(ci));
      }
      if !old(Attached()) && chain != old(chain) {
        MulMono(|old(chain)| + 1, |chain|, v.g.sectorsPerCluster);
        assert (|old(chain)| + 1) * v.g.sectorsPerCluster == |old(chain)| * v.g.sectorsPerCluster + v.g.sectorsPerCluster;
      }
    }
  }

  /** The bytes of a file whose chain has grown. */
  lemma GrownContents(bytes: seq<Byte>, was: seq<Byte>, size: nat, newSize: nat)
    requires |was| <= |bytes| && bytes[..|was|] == was && size <= newSize
    ensures size <= |was| && newSize <= |bytes| ==> bytes[..newSize][..size] == was[..size]
  {
    if size <= |was| && newSize <= |bytes| {
      assert bytes[..newSize][..size] == bytes[..|was|][..size];
    }
  }

  // Ways to the failing case of a write

  /** A file that fills its clusters, and room for more. */
  ghost predicate FullFile(v: FatVolume, f: File, more: seq<Byte>)
    reads v, f
  {
    && f.Coherent(v) && f.canWrite && f.chain != [] && f.size == Capacity(v.g.sectorsPerCluster, f.chain)
    && more != [] && f.size + |more| < 0x1_0000_0000 && FreeSet(v.Fat()) != {}
  }

  /** Reading such a file to its end and then writing.  The bytes read are still on the disk, but the
      file no longer leads to them. */
  method ReadThenAppend(v: FatVolume, f: File, buf: array<Byte>, more: seq<Byte>) returns (r: Result<nat>, ghost w: nat)
    requires FullFile(v, f, more) && f.canRead && buf.Length >= f.size - f.position
    modifies v, f, buf
    ensures f.Handle(v) && !f.Coherent(v) && old(f.Handle(v)) && f.Restarted(v, 0, more, w) && f.startCluster !in old(f.chain)
    ensures r.Ok? <==> |more| < Room(v.g.sectorsPerCluster, |FreeSet(old(v.Fat()))|)
  {
    hide Table, Clusters, DiskOk, BytesOf, IsChain, Edited, FreeSet, ByteIndex, Capacity, Room;
    f.CoherentHandle(v);
    StartIndex(v);
    CapacityPositive(v.g.sectorsPerCluster, f.chain);
    var read := f.Read(v, buf);
    f.CoherentHandle(v);
    if f.currentCluster != 0 {
      IndexInside(v.g.sectorsPerCluster, f.chain, f.ci, f.sectorInCluster, f.byteInSector);
    }
    r, w := f.Write(v, more);
    ChainLink(v.Fat(), f.chain, 0);
  }

  /** The ordinary way to append, which is to seek to the end and write, on such a file. */
  method SeekThenAppend(v: FatVolume, f: File, more: seq<Byte>) returns (r: Result<nat>, ghost w: nat)
    requires FullFile(v, f, more)
    modifies v, f
    ensures f.Handle(v) && !f.Coherent(v) && old(f.Handle(v)) && f.Restarted(v, 0, more, w) && f.startCluster !in old(f.chain)
    ensures r.Ok? <==> |more| < Room(v.g.sectorsPerCluster, |FreeSet(old(v.Fat()))|)
  {
    hide Table, Clusters, DiskOk, BytesOf, IsChain, Edited, FreeSet, ByteIndex, Capacity, Room, ClusterIndex, ClusterBytes, SectorIndex, Overwrite;
    f.CoherentHandle(v);
    StartIndex(v);
    CapacityPositive(v.g.sectorsPerCluster, f.chain);
    IndexReaches(v.g.sectorsPerCluster, f.chain, f.size);
    if f.currentCluster != 0 {
      IndexInside(v.g.sectorsPerCluster, f.chain, f.ci, f.sectorInCluster, f.byteInSector);
    }
    var sought := f.Seek(v, f.size);
    assert f.Unseated() && 0 < f.position <= f.size;
    r, w := f.Write(v, more);
    ChainLink(v.Fat(), f.chain, 0);
    IndexInside(v.g.sectorsPerCluster, f.chain, f.ci, f.sectorInCluster, f.byteInSector);
    assert f.position > f.Index(v.g.sectorsPerCluster);
  }

  /** A claimed cluster as the first of an empty file. */
  lemma StartChain(v: FatVolume, fat: Fat, data: seq<seq<Sector>>, n: nat)
    requires v.Valid() && |fat| < EOC && |data| == |fat| && v.Data() == data && n in FreeSet(fat) && v.Fat() == fat[n := LAST]
    ensures IsChain(v.Fat(), [n]) && Edited(fat, v.Fat(), data, data, [], [n])
    ensures |FreeSet(v.Fat())| + 1 == |FreeSet(fat)|
  {
    hide Table, Clusters, DiskOk;
    ClaimEdits(fat, data, n);
  }

  /** A chain holds `size` bytes exactly when it has enough clusters. */
  lemma RoundUp(spc: nat, size: nat, chain: seq<nat>)
    requires spc >= 1 && size >= 1
    ensures ClustersFor(spc, size) <= |chain| <==> size <= Capacity(spc, chain)
    ensures ClustersFor(spc, size) >= 1
  {
    var n := |chain|;
    var cs := ClusterBytes(spc);
    var q := (size + cs - 1) / cs;
    DivMod(size + cs - 1, cs);
    CapacityBytes(spc, n);
    RoundUpBlocks(q, cs, size, n);
  }

  lemma RoundUpBlocks(q: nat, cs: nat, size: nat, n: nat)
    requires cs >= 1 && size >= 1 && q * cs <= size + cs - 1 < q * cs + cs
    ensures q >= 1 && (q <= n <==> size <= n * cs)
  {
    if q <= n {
      MulMono(q, n, cs);
    } else if q >= 1 {
      MulMono(n, q - 1, cs);
      assert (q - 1) * cs == q * cs - cs;
    }
  }

  /** Clusters for `size` bytes: rounded up, at least one. */
  function ClustersFor(spc: nat, size: nat): nat
    requires spc >= 1
  {
    Max((size + ClusterBytes(spc) - 1) / ClusterBytes(spc), 1)
  }

  /** Dropping clusters at the end keeps the bytes of the others. */
  lemma ShrinkBytes(v: FatVolume, chain: seq<nat>, keep: nat, spc: nat, size: nat)
    requires v.Valid() && spc == v.g.sectorsPerCluster && Within(v.Data(), chain) && keep <= |chain|
    requires size <= Capacity(spc, chain[..keep])
    ensures Within(v.Data(), chain[..keep]) && size <= |BytesOf(v.Data(), chain[..keep])|
    ensures size <= |BytesOf(v.Data(), chain)|
    ensures BytesOf(v.Data(), chain[..keep])[..size] == BytesOf(v.Data(), chain)[..size]
  {
    assert chain == chain[..keep] + chain[keep..];
    BytesAppend(v.Data(), chain[..keep], chain[keep..]);
    BytesLength(v.Data(), spc, chain[..keep]);
  }

  /** Bytes per cluster. */
  function ClusterBytes(spc: nat): nat { spc * SECTOR_SIZE }

  /** Cluster index and offset in the cluster of byte `offset`. */
  function ClusterIndex(spc: nat, offset: nat): nat
    requires spc >= 1
  {
    offset / ClusterBytes(spc)
  }

  function ClusterOffset(spc: nat, offset: nat): nat
    requires spc >= 1
  {
    offset % ClusterBytes(spc)
  }

  lemma DivMod(x: nat, n: nat)
    requires n > 0
    ensures x == x / n * n + x % n && x % n < n
  {
  }

  lemma CapacityBytes(spc: nat, n: nat)
    ensures n * spc * SECTOR_SIZE == n * ClusterBytes(spc)
  {
  }

  lemma SplitOffset(spc: nat, offset: nat)
    requires spc >= 1
    ensures var idx, rest := ClusterIndex(spc, offset), ClusterOffset(spc, offset);
            rest / SECTOR_SIZE < spc && ByteIndex(spc, idx, rest / SECTOR_SIZE, rest % SECTOR_SIZE) == offset
  {
    var idx, rest := ClusterIndex(spc, offset), ClusterOffset(spc, offset);
    DivMod(offset, ClusterBytes(spc));
    CapacityBytes(spc, idx);
  }

  lemma BlockBounds(count: nat, idx: nat, n: nat, rest: nat)
    requires rest < n && n >= SECTOR_SIZE
    ensures idx < count <==> idx * n + rest < count * n
    ensures idx == 0 <==> idx * n + rest < n
    ensures idx > 0 ==> idx < idx * n + rest
  {
    if idx < count {
      Stride(idx, count, n, rest);
    } else {
      MulMono(count, idx, n);
    }
    if idx > 0 {
      MulMono(1, idx, n);
      MulMono(2, n, idx);
    }
  }

  lemma IndexReaches(spc: nat, chain: seq<nat>, offset: nat)
    requires spc >= 1
    ensures var idx := ClusterIndex(spc, offset);
            && (idx < |chain| <==> offset < Capacity(spc, chain))
            && (idx == 0 <==> offset < ClusterBytes(spc))
            && (idx > 0 ==> idx < offset)
  {
    var n := ClusterBytes(spc);
    DivMod(offset, n);
    CapacityBytes(spc, |chain|);
    hide ClusterIndex, ClusterOffset, ClusterBytes;
    assert ClusterIndex(spc, offset) == offset / n;
    BlockBounds(|chain|, offset / n, n, offset % n);
  }

  /** A write that ends on the chain had room; one that filled chain and table had not. */
  lemma RoomIff(v: FatVolume, chain: seq<nat>, total: nat, at: nat, w: nat, want: nat, ok: bool)
    requires v.Valid() && |FreeSet(v.Fat())| + |chain| == total
    requires ok ==> w == want && at + w < Capacity(v.g.sectorsPerCluster, chain)
    requires !ok ==> FreeSet(v.Fat()) == {} && w <= want && at + w == Capacity(v.g.sectorsPerCluster, chain)
    ensures ok <==> at + want < Room(v.g.sectorsPerCluster, total)
  {
    MulMono(|chain|, total, v.g.sectorsPerCluster);
  }

  lemma NoRoom(v: FatVolume, want: nat)
    requires v.Valid() && FreeSet(v.Fat()) == {}
    ensures want >= Room(v.g.sectorsPerCluster, |FreeSet(v.Fat())|)
  {
  }

  /** A claimed cluster as a chain of its own. */
  lemma FreshEdits<T>(fat: Fat, fat': Fat, data: seq<T>, chain': seq<nat>)
    requires |data| == |fat| < EOC && |chain'| == 1 && chain'[0] in FreeSet(fat) && fat' == fat[chain'[0] := LAST]
    ensures Edited(fat, fat', data, data, [], chain') && |FreeSet(fat')| + |chain'| == |FreeSet(fat)|
  {
    ClaimEdits(fat, data, chain'[0]);
    assert chain' == [chain'[0]];
  }

  /** Claims a cluster and links it behind `tail`, the last of `chain`: two table writes, with
      `mid` the table between them. */
  method AppendCluster(v: FatVolume, tail: nat, ghost chain: seq<nat>, ghost size: nat)
    returns (r: Option<nat>, ghost mid: Fat)
    requires v.Valid() && IsChain(v.Fat(), chain) && chain != [] && tail == chain[|chain| - 1]
    requires size <= Capacity(v.g.sectorsPerCluster, chain)
    modifies v
    ensures v.Valid() && v.Data() == old(v.Data())
    ensures r.None? <==> FreeSet(old(v.Fat())) == {}
    ensures r.None? ==> v.Fat() == old(v.Fat())
    ensures r.Some? ==>
              && r.value in FreeSet(old(v.Fat()))
              && mid == old(v.Fat())[r.value := LAST] && v.Fat() == mid[tail := r.value]
              && Ordered(old(v.Fat()), mid, v.Fat(), tail, r.value)
              && Edited(old(v.Fat()), v.Fat(), old(v.Data()), v.Data(), chain, chain + [r.value])
              && |FreeSet(v.Fat())| == |FreeSet(old(v.Fat()))| - 1
              && IsChain(v.Fat(), chain + [r.value])
              && Capacity(v.g.sectorsPerCluster, chain) <= Capacity(v.g.sectorsPerCluster, chain + [r.value])
              && Within(v.Data(), chain) && Within(v.Data(), chain + [r.value])
              && size <= |BytesOf(v.Data(), chain)| && size <= |BytesOf(v.Data(), chain + [r.value])|
              && BytesOf(v.Data(), chain + [r.value])[..size] == BytesOf(v.Data(), chain)[..size]
  {
    hide Table, Clusters, DiskOk, BytesOf, IsChain, Edited, Capacity, Within, Ordered, FreeSet, Raw, Mirrored;
    ChainLink(v.Fat(), chain, |chain| - 1);
    r := v.ClaimCluster();
    mid := v.Fat();
    if r.Some? {
      FreeEntry(old(v.Fat()), r.value);
      AppendEdits(old(v.Fat()), old(v.Data()), chain, r.value);
      AppendOrdered(old(v.Fat()), tail, r.value);
      v.WriteFatEntry(tail, r.value);
      EditedChain(old(v.Fat()), v.Fat(), old(v.Data()), v.Data(), chain, chain + [r.value]);
      GrowBytes(v, chain, r.value, size);
    }
  }

  /** Adding a cluster keeps the bytes in front of it. */
  lemma GrowBytes(v: FatVolume, chain: seq<nat>, n: nat, size: nat)
    requires v.Valid() && IsChain(v.Fat(), chain + [n]) && size <= Capacity(v.g.sectorsPerCluster, chain)
    ensures Within(v.Data(), chain) && Within(v.Data(), chain + [n])
    ensures size <= |BytesOf(v.Data(), chain)| && size <= |BytesOf(v.Data(), chain + [n])|
    ensures BytesOf(v.Data(), chain + [n])[..size] == BytesOf(v.Data(), chain)[..size]
    ensures Capacity(v.g.sectorsPerCluster, chain) <= Capacity(v.g.sectorsPerCluster, chain + [n])
  {
    ChainFits(v, chain + [n]);
    assert forall i :: 0 <= i < |chain| ==> chain[i] == (chain + [n])[i];
    assert (chain + [n])[|chain|] == n;
    BytesAppend(v.Data(), chain, [n]);
    BytesLength(v.Data(), v.g.sectorsPerCluster, chain);
  }

  lemma ChainLink(fat: Fat, chain: seq<nat>, i: nat)
    requires IsChain(fat, chain) && i < |chain|
    ensures 2 <= chain[i] < |fat| < EOC && Link(fat, chain, i) && (i + 1 < |chain| ==> chain[i + 1] < |fat|)
  {
  }

  /** Copies `piece` into the buffer from `at` on. */
  method CopyInto(buf: array<Byte>, at: nat, piece: seq<Byte>)
    requires at + |piece| <= buf.Length
    modifies buf
    ensures buf[..at] == old(buf[..at]) && buf[at..at + |piece|] == piece
    ensures buf[..at + |piece|] == old(buf[..at]) + piece
    ensures buf[at + |piece|..] == old(buf[at + |piece|..])
  {
    for i := 0 to |piece|
      invariant buf[..at] == old(buf[..at]) && buf[at..at + i] == piece[..i]
      invariant buf[at + i..] == old(buf[at + i..])
    {
      buf[at + i] := piece[i];
    }
  }
}
