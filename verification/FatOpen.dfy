/** Opening a file by its entry, and recording it there again (src/hal/fat32.rs:377-440, 909-948). */
module FatOpen {
  import opened Common
  import opened FatTable
  import opened FatChain
  import opened FatBytes
  import opened FatVolume
  import opened FatFile
  import opened DirEntry
  import opened Directory

  function SizeIn(e: Entry): nat { Word(e[0x1C], e[0x1D], e[0x1E], e[0x1F]) }

  /** Entries in one sector. */
  const PER_SECTOR := SECTOR_SIZE / DIR_SIZE

  // Opening

  /** The file that slot `slot` of the directory leads to, at its start.  Position, cursor and size
      agree exactly when the recorded size fits the chain. */
  ghost predicate Opened(v: FatVolume, f: File, dir: seq<nat>, slot: nat, file: seq<nat>, readable: bool, writable: bool)
    requires v.Valid() && Within(v.Data(), dir) && slot < Slots(BytesOf(v.Data(), dir))
    reads v, f
  {
    var e := Slot(BytesOf(v.Data(), dir), slot);
    && f.Handle(v) && f.chain == file && f.size == SizeIn(e) && f.position == 0 && f.Index(v.g.sectorsPerCluster) == 0
    && (f.Coherent(v) <==> SizeIn(e) <= Capacity(v.g.sectorsPerCluster, file))
    && EntryAt(f, v.g.sectorsPerCluster, dir, slot) && !f.modified && f.error == NoError && f.canRead == readable && f.canWrite == writable
  }

  /** `f_open` of a name that is there, without truncation. */
  method OpenEntry(v: FatVolume, cluster: nat, k: nat, readable: bool, writable: bool, ghost dir: seq<nat>, ghost ci: nat,
                   ghost file: seq<nat>)
    returns (f: File)
    requires v.Valid() && IsChain(v.Fat(), dir) && ci < |dir| && cluster == dir[ci] && k < PerCluster(v.g.sectorsPerCluster)
    requires Within(v.Data(), dir) && ci * PerCluster(v.g.sectorsPerCluster) + k < Slots(BytesOf(v.Data(), dir))
    requires IsChain(v.Fat(), file)
    requires StartOf(file) == StartIn(Slot(BytesOf(v.Data(), dir), ci * PerCluster(v.g.sectorsPerCluster) + k))
    ensures fresh(f) && Opened(v, f, dir, ci * PerCluster(v.g.sectorsPerCluster) + k, file, readable, writable)
  {
    hide Table, Clusters, DiskOk, BytesOf, IsChain, Flatten, Capacity;
    ChainFits(v, dir);
    StartIndex(v);
    CapacityEmpty(v.g.sectorsPerCluster);
    ghost var d, spc := BytesOf(v.Data(), dir), v.g.sectorsPerCluster;
    ChainLink(v.Fat(), dir, ci);
    BytesCluster(v.Data(), v.Data(), spc, dir, ci);
    var buf := v.ReadCluster(cluster);
    ClusterSlots(d, buf, spc, ci, k);
    var entry := Slot(buf, k);
    f := new File(SizeIn(entry), StartIn(entry), readable, writable, cluster, k, false, file);
    if file != [] {
      ChainLink(v.Fat(), file, 0);
    }
  }

  /** What the lookup for `name` finds starts the chain `file`. */
  ghost predicate LeadsTo(fat: Fat, d: seq<Byte>, name: seq<Byte>, file: seq<nat>) {
    Find(d, name, 0).Some? ==> IsChain(fat, file) && StartOf(file) == StartIn(Slot(d, Find(d, name, 0).value))
  }

  /** `f_open` without FA_CREATE_ALWAYS. */
  method Open(v: FatVolume, dirCluster: nat, name: seq<Byte>, readable: bool, writable: bool, createNew: bool, openAlways: bool,
              ghost dir: seq<nat>, ghost file: seq<nat>)
    returns (r: Result<File>, ghost slot: nat)
    requires v.Valid() && IsChain(v.Fat(), dir) && dir != [] && dirCluster == dir[0] && Searchable(name)
    requires Within(v.Data(), dir) && LeadsTo(v.Fat(), BytesOf(v.Data(), dir), name, file)
    modifies v
    ensures v.Valid() && Within(v.Data(), dir) && IsChain(v.Fat(), dir) && (r.Ok? ==> fresh(r.value))
    ensures var found := Find(old(BytesOf(v.Data(), dir)), name, 0);
            if found.Some? then
              && v.Fat() == old(v.Fat()) && v.Data() == old(v.Data()) && slot == found.value
              && (if createNew then r == Err(Exists) else r.Ok? && Opened(v, r.value, dir, slot, file, readable, writable))
            else if !createNew && !openAlways then
              r == Err(NoFile) && v.Fat() == old(v.Fat()) && v.Data() == old(v.Data())
            else
              && (r.Ok? ==>
                    && r.value.Handle(v) && r.value.Coherent(v) && r.value.size == 0 && r.value.chain == [r.value.startCluster]
                    && EntryAt(r.value, v.g.sectorsPerCluster, dir, slot) && r.value.modified
                    && r.value.startCluster in FreeSet(old(v.Fat())) && v.Fat() == old(v.Fat())[r.value.startCluster := LAST]
                    && Created(old(v.Data()), v.Data(), dir, name, r.value.startCluster, slot))
              && (r == Err(MkfsAborted) <==> FreeSet(old(v.Fat())) == {})
              && (r.Err? ==> v.Data() == old(v.Data()) && (r.error == MkfsAborted || r.error == DiskErr))
              && (r == Err(MkfsAborted) ==> v.Fat() == old(v.Fat()))
              && (r == Err(DiskErr) ==> exists n :: n in FreeSet(old(v.Fat())) && v.Fat() == old(v.Fat())[n := LAST])
  {
    hide Table, Clusters, DiskOk, BytesOf, IsChain, Find, FreeSet, Put, Slot, Slots, StartIn, NewEntry, FreeSlot, Encoded, Capacity, ByteIndex;
    ghost var d := BytesOf(v.Data(), dir);
    ChainFits(v, dir);
    slot := 0;
    SearchableStays(d, name, 0);
    var place := FindEntryInDir(v, dirCluster, name, dir);
    if place.value.Some? {
      var (entryCluster, k) := place.value.value;
      ghost var ci :| 0 <= ci < |dir| && entryCluster == dir[ci] && Find(d, name, 0) == Some(ci * PerCluster(v.g.sectorsPerCluster) + k);
      slot := Find(d, name, 0).value;
      if createNew {
        return Err(Exists), slot;
      }
      var f := OpenEntry(v, entryCluster, k, readable, writable, dir, ci, file);
      return Ok(f), slot;
    }
    if !createNew && !openAlways {
      return Err(NoFile), slot;
    }
    r, slot := CreateFile(v, dirCluster, name, readable, writable, dir);
    if r.Ok? {
      r.value.CoherentHandle(v);
    }
  }

  // Recording

  lemma FourBytes(w: nat)
    requires w < 0x1_0000_0000
    ensures w == w % 0x100 + 0x100 * (w / 0x100 % 0x100) + 0x1_0000 * (w / 0x1_0000 % 0x100) + 0x100_0000 * (w / 0x100_0000)
  {
    assert w / 0x100 / 0x100 == w / 0x1_0000 && w / 0x1_0000 / 0x100 == w / 0x100_0000;
  }

  lemma TwoHalves(w: nat)
    requires w < 0x1_0000_0000
    ensures w % 0x1_0000 % 0x100 == w % 0x100 && w % 0x1_0000 / 0x100 == w / 0x100 % 0x100
    ensures w / 0x1_0000 / 0x100 == w / 0x100_0000
  {
  }

  /** The entry with another size and first cluster. */
  function Synced(was: Entry, start: nat, size: nat): (e: Entry)
    requires start < 0x1_0000_0000 && size < 0x1_0000_0000
    ensures StartIn(e) == start && SizeIn(e) == size
    ensures e[0x1C] == size % 0x100 && e[0x1D] == size / 0x100 % 0x100 && e[0x1E] == size / 0x1_0000 % 0x100 && e[0x1F] == size / 0x100_0000
    ensures e[..0x14] == was[..0x14] && e[0x16..0x1A] == was[0x16..0x1A]
  {
    var high, low := start / 0x1_0000, start % 0x1_0000;
    FourBytes(size);
    FourBytes(start);
    TwoHalves(start);
    was[..0x14] + [high % 0x100, high / 0x100] + was[0x16..0x1A] + [low % 0x100, low / 0x100]
    + [size % 0x100, size / 0x100 % 0x100, size / 0x1_0000 % 0x100, size / 0x100_0000]
  }

  /** A slot in the first sector of a directory cluster, and what writing it back does. */
  lemma SectorSlot(data: seq<seq<Sector>>, spc: nat, dir: seq<nat>, ci: nat, k: nat, e: Entry)
    requires DataOk(data, spc) && Within(data, dir) && Distinct(dir) && ci < |dir| && k < PER_SECTOR && spc >= 1
    ensures var slot, sector := ci * PerCluster(spc) + k, data[dir[ci]][0];
            && slot < Slots(BytesOf(data, dir)) && Slot(BytesOf(data, dir), slot) == Slot(sector, k)
            && var data' := SetSector(data, dir[ci], 0, Splice(sector, k * DIR_SIZE, e));
            && |data'| == |data| && BytesOf(data', dir) == Put(BytesOf(data, dir), slot, e)
  {
    hide BytesOf, SetSector;
    BytesAt(data, spc, dir, ci, 0, k * DIR_SIZE, DIR_SIZE);
    BytesWritten(data, spc, dir, ci, 0, k * DIR_SIZE, e);
    assert ByteIndex(spc, ci, 0, k * DIR_SIZE) == (ci * PerCluster(spc) + k) * DIR_SIZE;
  }

  /** `f_sync`: records first cluster and size of a modified file in its entry.  The code reads only
      the first sector of the cluster that holds the entry, so it leaves its buffer, which `ok` denies,
      exactly when the entry lies in another one. */
  method Sync(v: FatVolume, f: File, ghost dir: seq<nat>, ghost slot: nat) returns (ok: bool)
    requires v.Valid() && IsChain(v.Fat(), dir) && EntryAt(f, v.g.sectorsPerCluster, dir, slot)
    requires f.startCluster < 0x1_0000_0000 && f.size < 0x1_0000_0000
    modifies v, f`modified
    ensures v.Valid() && v.Fat() == old(v.Fat()) && Within(v.Data(), dir) && Within(old(v.Data()), dir)
    ensures ok <==> !old(f.modified) || f.dirOffset < 16
    ensures !ok || !old(f.modified) ==> v.Data() == old(v.Data()) && f.modified == old(f.modified)
    ensures ok && old(f.modified) ==>
              && !f.modified && slot < Slots(BytesOf(old(v.Data()), dir))
              && Rewritten(old(v.Data()), v.Data(), dir, slot,
                           Synced(Slot(BytesOf(old(v.Data()), dir), slot), f.startCluster, f.size))
  {
    hide Table, Clusters, DiskOk, BytesOf, IsChain, Synced, SetSector, Put, Slots, Slot, Splice;
    ChainFits(v, dir);
    StartIndex(v);
    if !f.modified {
      return true;
    }
    ghost var ci :| 0 <= ci < |dir| && f.dirCluster == dir[ci] && slot == ci * PerCluster(v.g.sectorsPerCluster) + f.dirOffset;
    ChainLink(v.Fat(), dir, ci);
    var sector := v.ReadSector(f.dirCluster, 0);
    if f.dirOffset >= PER_SECTOR {
      return false;
    }
    WholeSector(sector);
    var entry := Synced(Slot(sector, f.dirOffset), f.startCluster, f.size);
    SectorSlot(v.Data(), v.g.sectorsPerCluster, dir, ci, f.dirOffset, entry);
    v.WriteSector(f.dirCluster, 0, Splice(sector, f.dirOffset * DIR_SIZE, entry));
    OneCluster(old(v.Data()), f.dirCluster, v.Data(), Splice(sector, f.dirOffset * DIR_SIZE, entry));
    f.modified := false;
    return true;
  }

  lemma WholeSector(sector: Sector)
    ensures Slots(sector) == PER_SECTOR
  {
  }

  lemma OneCluster(data: seq<seq<Sector>>, c: nat, data': seq<seq<Sector>>, sector: Sector)
    requires c < |data| && |data[c]| > 0 && data' == SetSector(data, c, 0, sector)
    ensures |data'| == |data| && forall d :: 0 <= d < |data| && d != c ==> data'[d] == data[d]
  {
  }

  // Recording and opening again

  /** What the lookup sees of an entry are its first twelve bytes. */
  lemma HeadDecides(e: Entry, e': Entry, t: seq<Byte>)
    requires e[..12] == e'[..12]
    ensures Hit(e', t) == Hit(e, t) && Ends(e') == Ends(e)
  {
    assert forall i :: 0 <= i < 12 ==> e[i] == e[..12][i] == e'[i];
    LettersFrame(e, e', 0, 8);
    LettersFrame(e, e', 8, 3);
  }

  lemma {:induction false} LettersFrame(e: Entry, e': Entry, from: nat, n: nat)
    requires from + n <= 12 && forall i :: 0 <= i < 12 ==> e[i] == e'[i]
    ensures Letters(e, from, n) == Letters(e', from, n)
    decreases n
  {
    if n > 0 {
      LettersFrame(e, e', from + 1, n - 1);
    }
  }

  lemma {:induction false} FindFrame(d: seq<Byte>, slot: nat, e: Entry, t: seq<Byte>, i: nat)
    requires slot < Slots(d) && e[..12] == Slot(d, slot)[..12]
    ensures Find(Put(d, slot, e), t, i) == Find(d, t, i)
    decreases Slots(d) - i
  {
    hide Hit, Ends, Slot, Slots, Put;
    PutSlots(d, slot, e, slot);
    if i < Slots(d) {
      PutSlots(d, slot, e, i);
      HeadDecides(Slot(d, slot), e, t);
      FindFrame(d, slot, e, t, i + 1);
    }
  }

  /** A file recorded in its entry and opened again by its name has its chain and its contents. */
  method SyncThenOpen(v: FatVolume, f: File, dirCluster: nat, name: seq<Byte>, readable: bool, writable: bool,
                      ghost dir: seq<nat>, ghost slot: nat)
    returns (r: Result<File>)
    requires f.Stored(v) && f.modified && f.size < 0x1_0000_0000 && f.dirOffset < PER_SECTOR && Searchable(name)
    requires IsChain(v.Fat(), dir) && dir != [] && dirCluster == dir[0] && Disjoint(f.chain, dir)
    requires EntryAt(f, v.g.sectorsPerCluster, dir, slot) && Within(v.Data(), dir) && Find(BytesOf(v.Data(), dir), name, 0) == Some(slot)
    modifies v, f`modified
    ensures f.Stored(v) && r.Ok? && r.value.Coherent(v) && r.value.position == 0
    ensures r.value.chain == f.chain && r.value.Contents(v) == old(f.Contents(v))
  {
    hide Table, Clusters, DiskOk, BytesOf, IsChain, Find, Put, Slot, Slots, Synced, StartIn, SizeIn, Capacity, FreeSet, Disjoint;
    ChainFits(v, f.chain);
    if f.chain != [] {
      ChainLink(v.Fat(), f.chain, 0);
    }
    ghost var d, data := BytesOf(v.Data(), dir), v.Data();
    var ok := Sync(v, f, dir, slot);
    ApartKept(data, v.Data(), dir, f.chain);
    ghost var e := Synced(Slot(d, slot), f.startCluster, f.size);
    SyncedHead(Slot(d, slot), f.startCluster, f.size);
    FindFrame(d, slot, e, name, 0);
    PutSlots(d, slot, e, slot);
    var g, at := Open(v, dirCluster, name, readable, writable, false, false, dir, f.chain);
    return g;
  }

  /** A new entry records its cluster, but the size that was in the slot before. */
  lemma CreatedSize(was: Entry, name: seq<Byte>, cluster: nat)
    requires |name| == 11 && cluster < 0x1_0000_0000
    ensures StartIn(NewEntry(was, name, cluster)) == cluster && SizeIn(NewEntry(was, name, cluster)) == SizeIn(was)
  {
    hide NewEntry;
    var e := NewEntry(was, name, cluster);
    assert forall i :: 0 <= i < 4 ==> e[0x1C + i] == e[0x1C..][i] == was[0x1C..][i] == was[0x1C + i];
  }

  /** So a file opened again before it was recorded has the size of whatever was in its slot: its own,
      which is 0, exactly when the slot had zeros there. */
  method CreateThenOpen(v: FatVolume, dirCluster: nat, base: seq<Byte>, ext: seq<Byte>, readable: bool, writable: bool,
                        ghost dir: seq<nat>)
    returns (r: Result<File>, g: Result<File>, ghost slot: nat)
    requires v.Valid() && IsChain(v.Fat(), dir) && dir != [] && dirCluster == dir[0] && ShortName(base, ext)
    requires Within(v.Data(), dir) && Find(BytesOf(v.Data(), dir), Joined(base, ext), 0).None?
    modifies v
    ensures v.Valid()
    ensures r.Ok? ==>
              && FreeSlot(old(BytesOf(v.Data(), dir)), 0) == Some(slot)
              && r.value.size == 0 && g.Ok? && g.value.chain == r.value.chain
              && g.value.size == SizeIn(Slot(old(BytesOf(v.Data(), dir)), slot))
              && (g.value.Coherent(v) <==> g.value.size <= ClusterBytes(v.g.sectorsPerCluster))
  {
    hide Table, Clusters, DiskOk, BytesOf, IsChain, Find, FreeSet, Put, Slot, Slots, StartIn, SizeIn, NewEntry, FreeSlot, Encoded, NameOf;
    ghost var d, data := BytesOf(v.Data(), dir), v.Data();
    ShortIsSearchable(base, ext);
    r, slot := CreateFile(v, dirCluster, Joined(base, ext), readable, writable, dir);
    g := r;
    if r.Ok? {
      CreatedIsFound(data, v.Data(), dir, base, ext, r.value.startCluster, slot);
      ChainLink(v.Fat(), r.value.chain, 0);
      ghost var e := NewEntry(Slot(d, slot), Encoded(Joined(base, ext)), r.value.startCluster);
      CreatedSize(Slot(d, slot), Encoded(Joined(base, ext)), r.value.startCluster);
      PutSlots(d, slot, e, slot);
      ghost var at;
      g, at := Open(v, dirCluster, Joined(base, ext), readable, writable, false, false, dir, r.value.chain);
    }
  }

  lemma ShortIsSearchable(base: seq<Byte>, ext: seq<Byte>)
    requires ShortName(base, ext)
    ensures Searchable(Joined(base, ext))
  {
  }

  lemma SyncedHead(was: Entry, start: nat, size: nat)
    requires start < 0x1_0000_0000 && size < 0x1_0000_0000
    ensures Synced(was, start, size)[..12] == was[..12]
  {
    var e := Synced(was, start, size);
    assert e[..12] == e[..0x14][..12] && was[..12] == was[..0x14][..12];
  }

  lemma ApartKept(data: seq<seq<Sector>>, data': seq<seq<Sector>>, dir: seq<nat>, file: seq<nat>)
    requires |data'| == |data| && (forall c :: 0 <= c < |data| && c !in dir ==> data'[c] == data[c])
    requires Within(data, file) && Disjoint(file, dir)
    ensures Within(data', file) && BytesOf(data', file) == BytesOf(data, file)
  {
    BytesFrame(data, data', file);
  }
}
