/** The operations themselves, run on a mounted volume, and which step of `FatFiles` each one is. */
module FatSteps {
  import opened Common
  import opened FatTable
  import opened FatChain
  import opened FatBytes
  import opened FatVolume
  import opened FatFile
  import opened DirEntry
  import opened Directory
  import O = FatOpen
  import opened FatFiles

  /** `vol` is the state of the mounted volume. */
  ghost predicate Shows(v: FatVolume, vol: Vol)
    reads v
  {
    v.Valid() && vol.fat == v.Fat() && vol.data == v.Data()
  }

  /** The handle is on the chain of `f`. */
  ghost predicate Holds(v: FatVolume, file: File, vol: Vol, f: nat)
    reads v, file
  {
    Shows(v, vol) && file.Handle(v) && Of(f) in vol.chains && vol.chains[Of(f)] == file.chain
  }

  method WriteStep(v: FatVolume, file: File, buf: seq<Byte>, ghost vol: Vol, ghost f: nat)
    returns (r: Result<nat>, ghost vol': Vol, ghost op: Op)
    requires Holds(v, file, vol, f) && file.position + |buf| < 0x1_0000_0000
    modifies v, file
    ensures Holds(v, file, vol', f) && Step(vol, vol', op)
    ensures file.canWrite == old(file.canWrite)
    ensures op == if !file.canWrite || buf == [] then Refused
                  else if old(file.currentCluster) != 0 then Write(f)
                  else if FreeSet(vol.fat) != {} then Start(f)
                  else Refused
  {
    hide Table, Clusters, DiskOk, BytesOf, IsChain, Edited, FreeSet, ByteIndex, Overwrite, Capacity, Room, SectorIndex;
    ghost var w;
    ghost var seated := file.currentCluster != 0;
    r, w := file.Write(v, buf);
    if !file.canWrite || buf == [] || (!seated && FreeSet(vol.fat) == {}) {
      vol', op := vol, Refused;
    } else {
      ghost var chains := if seated then vol.chains else Noted(vol.chains, f);
      vol' := Vol(v.Fat(), v.Data(), chains[Of(f) := file.chain], Outside(vol.entries, f));
      op := if seated then Write(f) else Start(f);
    }
  }

  method ExpandStep(v: FatVolume, file: File, newSize: nat, ghost vol: Vol, ghost f: nat)
    returns (r: Result<()>, ghost vol': Vol, ghost op: Op)
    requires Holds(v, file, vol, f) && newSize + ClusterBytes(v.g.sectorsPerCluster) <= 0x1_0000_0000
    modifies v, file
    ensures Holds(v, file, vol', f) && Step(vol, vol', op)
    ensures op == if file.chain == old(file.chain) then Refused else if old(file.chain) == [] then Start(f) else Expand(f)
  {
    hide Table, Clusters, DiskOk, BytesOf, IsChain, Edited, FreeSet, Capacity, ClustersFor, ClusterBytes;
    r := file.Expand(v, newSize);
    if file.chain == old(file.chain) {
      vol', op := vol, Refused;
    } else {
      ghost var chains := if old(file.chain) == [] then Noted(vol.chains, f) else vol.chains;
      vol' := Vol(v.Fat(), v.Data(), chains[Of(f) := file.chain], Outside(vol.entries, f));
      op := if old(file.chain) == [] then Start(f) else Expand(f);
    }
  }

  method TruncateStep(v: FatVolume, file: File, ghost vol: Vol, ghost f: nat)
    returns (r: Result<()>, ghost vol': Vol, ghost op: Op)
    requires Holds(v, file, vol, f) && (file.currentCluster != 0 || v.Fat()[0] >= EOC)
    modifies v, file
    ensures Holds(v, file, vol', f) && Step(vol, vol', op)
    ensures op == if file.canWrite then Truncate(f) else Refused
  {
    hide Table, Clusters, DiskOk, BytesOf, IsChain, Edited, FreeSet, Capacity, ByteIndex;
    ghost var keep;
    r, keep := file.Truncate(v);
    if file.canWrite {
      vol', op := Vol(v.Fat(), v.Data(), vol.chains[Of(f) := file.chain], Outside(vol.entries, f)), Truncate(f);
    } else {
      vol', op := vol, Refused;
    }
  }

  /** The directory `dir` starts at `dirCluster`, and if the lookup for `name` finds an entry, it is
      the entry of `f`. */
  ghost predicate Names(vol: Vol, dir: nat, dirCluster: nat, name: seq<Byte>, f: nat) {
    && Of(dir) in vol.chains && vol.chains[Of(dir)] != [] && vol.chains[Of(dir)][0] == dirCluster
    && Searchable(name) && Within(vol.data, vol.chains[Of(dir)])
    && var found := Find(BytesOf(vol.data, vol.chains[Of(dir)]), name, 0);
       found.Some? ==> f in vol.entries && vol.entries[f] == Place(dir, found.value)
  }

  ghost function Found(vol: Vol, dir: nat, name: seq<Byte>): bool
    requires Of(dir) in vol.chains && Within(vol.data, vol.chains[Of(dir)])
  {
    Find(BytesOf(vol.data, vol.chains[Of(dir)]), name, 0).Some?
  }

  method OpenStep(v: FatVolume, name: seq<Byte>, readable: bool, writable: bool, createNew: bool, openAlways: bool,
                  dirCluster: nat, ghost vol: Vol, ghost f: nat, ghost dir: nat)
    returns (r: Result<File>, ghost vol': Vol, ghost op: Op)
    requires Shows(v, vol) && Sound(vol) && Names(vol, dir, dirCluster, name, f)
    requires !Found(vol, dir, name) ==> Of(f) !in vol.chains
    modifies v
    ensures Shows(v, vol') && Step(vol, vol', op) && (r.Ok? ==> Holds(v, r.value, vol', f))
    ensures r.Ok? ==> f in vol'.entries && vol'.entries[f].dir == dir && Of(dir) in vol'.chains
                      && EntryAt(r.value, v.g.sectorsPerCluster, vol'.chains[Of(dir)], vol'.entries[f].slot)
    ensures op == match r {
              case Ok(_) => if Found(vol, dir, name) then Open(f) else Create(f, dir)
              case Err(DiskErr) => CreateFull
              case _ => Refused }
  {
    hide Table, Clusters, DiskOk, BytesOf, IsChain, FreeSet, FreeSlot, NewEntry, Put, Encoded, Find, Slot, Slots, StartIn, AllChains,
      Capacity, ByteIndex, Created, Step, Entries, EntryAt;
    ghost var dchain := vol.chains[Of(dir)];
    ghost var found := Find(BytesOf(vol.data, dchain), name, 0);
    ghost var file := if Of(f) in vol.chains then Recorded(vol.chains, f) else [];
    OneOfAll(vol.fat, vol.chains, Of(dir));
    if found.Some? {
      EntryLeads(vol, f);
    }
    ghost var slot;
    r, slot := O.Open(v, dirCluster, name, readable, writable, createNew, openAlways, dchain, file);
    if r.Ok? {
      if found.Some? {
        vol' := OpenIsStep(vol, f);
        op := Open(f);
      } else {
        vol' := CreateIsStep(vol, v.Fat(), v.Data(), f, dir, name, r.value.startCluster, slot);
        op := Create(f, dir);
      }
    } else if r.error == DiskErr {
      vol' := FullIsStep(vol, v.Fat());
      op := CreateFull;
    } else {
      vol', op := vol, Refused;
      RefusedIsStep(vol);
    }
  }

  lemma RefusedIsStep(vol: Vol)
    ensures Step(vol, vol, Refused)
  {
  }

  lemma FullIsStep(vol: Vol, fat: Fat) returns (vol': Vol)
    requires exists n :: n in FreeSet(vol.fat) && fat == vol.fat[n := LAST]
    ensures vol' == vol.(fat := fat) && Step(vol, vol', CreateFull)
  {
    hide FreeSet;
    vol' := vol.(fat := fat);
  }

  lemma OpenIsStep(vol: Vol, f: nat) returns (vol': Vol)
    requires Sound(vol) && f in vol.entries && Of(f) in vol.chains
    ensures vol'.fat == vol.fat && vol'.data == vol.data && Step(vol, vol', Open(f))
    ensures Of(f) in vol'.chains && vol'.chains[Of(f)] == Recorded(vol.chains, f)
    ensures f in vol'.entries && vol'.entries[f] == vol.entries[f]
    ensures forall g :: g != f && Of(g) in vol.chains ==> Of(g) in vol'.chains && vol'.chains[Of(g)] == vol.chains[Of(g)]
  {
    hide AllChains, EntryOk;
    vol' := vol.(chains := (vol.chains - {Stale(f)})[Of(f) := Recorded(vol.chains, f)],
                 entries := if Stale(f) in vol.chains then Outside(vol.entries, f) else vol.entries);
  }

  lemma CreateIsStep(vol: Vol, fat: Fat, data: seq<seq<Sector>>, f: nat, dir: nat, name: seq<Byte>, cluster: nat, slot: nat)
    returns (vol': Vol)
    requires Of(f) !in vol.chains && Of(dir) in vol.chains && Within(vol.data, vol.chains[Of(dir)]) && Within(data, vol.chains[Of(dir)])
    requires Created(vol.data, data, vol.chains[Of(dir)], name, cluster, slot)
    requires cluster in FreeSet(vol.fat) && |vol.fat| < EOC && fat == vol.fat[cluster := LAST]
    ensures vol' == Vol(fat, data, vol.chains[Of(f) := [cluster]], Free(vol.entries, Place(dir, slot))[f := Place(dir, slot)])
    ensures Step(vol, vol', Create(f, dir))
  {
    hide BytesOf, FreeSlot, NewEntry, Put, Slot, Slots, Encoded;
    vol' := Vol(fat, data, vol.chains[Of(f) := [cluster]], Free(vol.entries, Place(dir, slot))[f := Place(dir, slot)]);
    var was := Slot(BytesOf(vol.data, vol.chains[Of(dir)]), slot);
    var e := NewEntry(was, Encoded(name), cluster);
    O.CreatedSize(was, Encoded(name), cluster);
    assert Puts(vol, vol', dir, slot, e);
  }

  /** In a sound volume the entry of `f` leads to a chain. */
  lemma EntryLeads(vol: Vol, f: nat)
    requires Sound(vol) && f in vol.entries
    ensures EntryOk(vol, f, vol.entries[f]) && vol.entries[f].dir != f && IsChain(vol.fat, Recorded(vol.chains, f))
  {
    hide IsChain;
    OneOfAll(vol.fat, vol.chains, if Stale(f) in vol.chains then Stale(f) else Of(f));
  }

  method SyncStep(v: FatVolume, file: File, ghost vol: Vol, ghost f: nat, ghost dir: nat)
    returns (ok: bool, ghost vol': Vol, ghost op: Op)
    requires Holds(v, file, vol, f) && Sound(vol) && file.size < 0x1_0000_0000
    requires f in vol.entries && vol.entries[f].dir == dir && Of(dir) in vol.chains
    requires EntryAt(file, v.g.sectorsPerCluster, vol.chains[Of(dir)], vol.entries[f].slot)
    modifies v, file
    ensures Holds(v, file, vol', f) && Step(vol, vol', op)
    ensures ok <==> !old(file.modified) || file.dirOffset < 16
    ensures op == if ok && old(file.modified) then Sync(f, dir) else Refused
  {
    hide Table, Clusters, DiskOk, BytesOf, IsChain, FreeSet, Put, Slot, Slots, StartIn, AllChains, Entries, O.Synced;
    OneOfAll(vol.fat, vol.chains, Of(dir));
    if file.chain != [] {
      ChainLink(v.Fat(), file.chain, 0);
    }
    ghost var modified, slot := file.modified, vol.entries[f].slot;
    ok := O.Sync(v, file, vol.chains[Of(dir)], slot);
    vol', op := vol, Refused;
    if ok && modified {
      vol', op := vol.(chains := vol.chains - {Stale(f)}, data := v.Data()), Sync(f, dir);
      ghost var e := O.Synced(Slot(BytesOf(vol.data, vol.chains[Of(dir)]), slot), file.startCluster, file.size);
      assert Puts(vol, vol', dir, slot, e);
    }
  }

  method UnlinkStep(v: FatVolume, name: seq<Byte>, dirCluster: nat, ghost vol: Vol, ghost f: nat, ghost dir: nat)
    returns (r: Result<()>, ghost vol': Vol, ghost op: Op)
    requires Shows(v, vol) && Sound(vol) && Names(vol, dir, dirCluster, name, f)
    modifies v
    ensures Shows(v, vol') && Step(vol, vol', op)
    ensures r == if name == [] then Err(Invalid) else if !Found(vol, dir, name) then Err(NoFile) else Ok(())
    ensures op == if r.Ok? then Unlink(f, dir) else Refused
  {
    hide Table, Clusters, DiskOk, BytesOf, IsChain, FreeSet, Find, Leads, Trail, Cleared, Put, Slot, Slots, StartIn, Marked, AllChains, Entries, Removed, Step;
    ghost var dchain := vol.chains[Of(dir)];
    ghost var found := Find(BytesOf(vol.data, dchain), name, 0);
    OneOfAll(vol.fat, vol.chains, Of(dir));
    if found.Some? {
      EntryLeads(vol, f);
      TrailOfChain(vol.fat, Recorded(vol.chains, f));
    }
    ghost var slot;
    r, slot := Directory.Unlink(v, dirCluster, name, dchain);
    if r.Ok? {
      vol' := UnlinkIsStep(vol, v.Fat(), v.Data(), f, dir, StartOf(Recorded(vol.chains, f)));
      op := Unlink(f, dir);
    } else {
      vol', op := vol, Refused;
      RefusedIsStep(vol);
    }
  }

  lemma UnlinkIsStep(vol: Vol, fat: Fat, data: seq<seq<Sector>>, f: nat, dir: nat, start: nat) returns (vol': Vol)
    requires f in vol.entries && vol.entries[f].dir == dir && Of(f) in vol.chains && Of(dir) in vol.chains
    requires Within(vol.data, vol.chains[Of(dir)]) && Within(data, vol.chains[Of(dir)])
    requires Removed(vol.data, data, vol.chains[Of(dir)], vol.entries[f].slot, start)
    requires fat == Cleared(vol.fat, Recorded(vol.chains, f))
    ensures vol'.fat == fat && vol'.data == data && Step(vol, vol', Unlink(f, dir))
  {
    hide BytesOf, Put, Slot, Slots, StartIn, Marked, Cleared;
    vol' := Vol(fat, data, vol.chains - {Of(f), Stale(f)}, Outside(vol.entries, f) - {f});
    var slot := vol.entries[f].slot;
    assert Puts(vol, vol', dir, slot, Marked(Slot(BytesOf(vol.data, vol.chains[Of(dir)]), slot)));
  }

  lemma StartShows(vol: Vol, vol': Vol, f: nat)
    requires Step(vol, vol', Start(f)) && f in vol.entries && vol.entries[f].dir != f && Stale(f) !in vol.chains
    ensures f in vol'.entries && vol'.entries[f] == vol.entries[f]
    ensures Stale(f) in vol'.chains && vol'.chains[Stale(f)] == vol.chains[Of(f)] && vol'.chains[Of(f)] != []
  {
    hide Edited;
  }

  /** Through a stale entry an unlink frees the chain the entry records, and not the file's. */
  lemma UnlinkFrees(vol: Vol, vol': Vol, f: nat, dir: nat)
    requires Sound(vol) && Step(vol, vol', Unlink(f, dir)) && Stale(f) in vol.chains
    ensures Members(vol.chains[Stale(f)]) <= FreeSet(vol'.fat)
    ensures Of(f) in vol.chains && Members(vol.chains[Of(f)]) == Lost(vol, vol', Unlink(f, dir))
  {
    hide IsChain, BytesOf, Entries;
    var chain := vol.chains[Stale(f)];
    OneOfAll(vol.fat, vol.chains, Stale(f));
    forall c | c in chain ensures c in FreeSet(vol'.fat) {
      ChainEntry(vol.fat, chain, c);
    }
  }

  /** A write without a current cluster and then an unlink of that name: the unlink follows the entry,
      which still records the chain the file had before.  That chain is free, and the clusters just
      written belong to nothing. */
  method StartThenUnlink(v: FatVolume, file: File, buf: seq<Byte>, name: seq<Byte>, dirCluster: nat,
                         ghost vol: Vol, ghost f: nat, ghost dir: nat)
    returns (r: Result<()>, ghost vol': Vol)
    requires Holds(v, file, vol, f) && Sound(vol) && Stale(f) !in vol.chains && file.position + |buf| < 0x1_0000_0000
    requires file.currentCluster == 0 && file.canWrite && buf != [] && FreeSet(vol.fat) != {}
    requires f in vol.entries && vol.entries[f].dir == dir && f != dir && name != []
    requires Names(vol, dir, dirCluster, name, f) && Found(vol, dir, name)
    modifies v, file
    ensures r == Ok(()) && Shows(v, vol') && Sound(vol')
    ensures Members(old(file.chain)) <= FreeSet(vol'.fat)
    ensures file.chain != [] && Members(file.chain) <= Orphans(vol'.fat, vol'.chains)
  {
    hide Table, Clusters, DiskOk, BytesOf, IsChain, FreeSet, Find, AllChains, Entries, Orphans, Step, EntryOk;
    var written, vol1, op1 := WriteStep(v, file, buf, vol, f);
    StepSound(vol, vol1, op1);
    StepKeeps(vol, vol1, op1, Of(dir));
    StartShows(vol, vol1, f);
    ghost var op2;
    r, vol', op2 := UnlinkStep(v, name, dirCluster, vol1, f, dir);
    StepSound(vol1, vol', op2);
    UnlinkFrees(vol1, vol', f, dir);
  }
}
