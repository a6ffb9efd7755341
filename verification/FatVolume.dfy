/** The mounted volume: table and sector access (src/hal/fat32.rs:91-101, 192-299). */
module FatVolume {
  import opened Common
  import opened FatTable
  import opened FatChain
  import opened FatBytes

  class FatVolume {
    const g: Geometry
    var disk: seq<Sector>

    constructor (geometry: Geometry, sectors: seq<Sector>)
      requires DiskOk(geometry, sectors)
      ensures g == geometry && disk == sectors && Valid()
    {
      g, disk := geometry, sectors;
    }

    ghost predicate Valid()
      reads this
    {
      DiskOk(g, disk)
    }

    /** The allocation table as a sequence of entries. */
    ghost function Fat(): (fat: Fat)
      requires Valid()
      reads this
      ensures |fat| == g.MaxCluster() && 2 < |fat| < EOC
    {
      Table(g, disk)
    }

    /** The data region as a sequence of clusters. */
    ghost function Data(): (data: seq<seq<Sector>>)
      requires Valid()
      reads this
      ensures |data| == g.MaxCluster()
      ensures forall c :: 2 <= c < |data| ==> |data[c]| == g.sectorsPerCluster
    {
      Clusters(g, disk)
    }

    method ReadFatEntry(cluster: nat) returns (v: nat)
      requires Valid() && cluster < g.MaxCluster()
      ensures v == Fat()[cluster]
    {
      var fatOffset := cluster * 4;
      var sector := g.FatLba() + fatOffset / SECTOR_SIZE;
      var offset := fatOffset % SECTOR_SIZE;
      TableBounds(g, 0, cluster / ENTRIES);
      assert fatOffset / SECTOR_SIZE == cluster / ENTRIES && offset == cluster % ENTRIES * 4;
      var buf := disk[sector];
      v := WordAt(buf, offset) % ENTRY_MASK;
    }

    /** Stores the low 28 bits in every FAT copy. */
    method WriteFatEntry(cluster: nat, val: nat)
      requires Valid() && cluster < g.MaxCluster()
      modifies this
      ensures Valid() && Fat() == old(Fat())[cluster := val % ENTRY_MASK] && Data() == old(Data())
      ensures old(Mirrored(g, disk)) ==> Mirrored(g, disk)
      ensures Raw(g, disk, cluster) / ENTRY_MASK == old(Raw(g, disk, cluster)) / ENTRY_MASK
    {
      hide Table, Clusters, Mirrored, Geometry.Lba, Geometry.DataLba, Geometry.MaxCluster, WordAt, PutWord;
      var fatOffset := cluster * 4;
      var sector := g.FatLba() + fatOffset / SECTOR_SIZE;
      var offset := fatOffset % SECTOR_SIZE;
      var row := sector - g.FatLba();
      EntryRow(g, cluster);
      TableBounds(g, 0, cluster / ENTRIES);
      assert row == cluster / ENTRIES && offset == cluster % ENTRIES * 4;
      var masked := val % ENTRY_MASK;
      var raw := WordAt(disk[sector], offset);
      MergeBits(raw, val);
      var merged := raw - raw % ENTRY_MASK + masked;
      var buf := PutWord(disk[sector], offset, merged);
      ghost var d := disk;
      WriteCopies(row, buf);
      assert buf == EntrySector(g, d, cluster, val);
      assert EntryWritten(g, d, disk, cluster, val);
      WriteEntryIsUpdate(g, d, disk, cluster, val);
    }

    /** Stores one FAT sector at the same place in every copy. */
    method WriteCopies(row: nat, buf: Sector)
      requires DiskOk(g, disk) && row < g.fatSize
      modifies this
      ensures |disk| == |old(disk)|
      ensures forall f :: 0 <= f < g.numFats ==> CopyLba(g, f, row) < |disk| && disk[CopyLba(g, f, row)] == buf
      ensures forall l :: 0 <= l < |disk| && (forall f :: 0 <= f < g.numFats ==> l != CopyLba(g, f, row)) ==>
                disk[l] == old(disk)[l]
    {
      hide Geometry.Lba, Geometry.DataLba;
      ghost var d := disk;
      for fatIdx := 0 to g.numFats
        invariant |disk| == |d|
        invariant forall f :: 0 <= f < fatIdx ==> CopyLba(g, f, row) < |disk| && disk[CopyLba(g, f, row)] == buf
        invariant forall l :: 0 <= l < |d| && (forall f :: 0 <= f < fatIdx ==> l != CopyLba(g, f, row)) ==> disk[l] == d[l]
      {
        var fatStart := g.FatLba() + fatIdx * g.fatSize;
        TableBounds(g, fatIdx, row);
        disk := disk[fatStart + row := buf];
      }
    }

    method ReadSector(cluster: nat, sector: nat) returns (buf: Sector)
      requires Valid() && 2 <= cluster < g.MaxCluster() && sector < g.sectorsPerCluster
      ensures buf == Data()[cluster][sector]
    {
      DataBounds(g, cluster, sector);
      buf := disk[g.Lba(cluster) + sector];
    }

    method WriteSector(cluster: nat, sector: nat, buf: Sector)
      requires Valid() && 2 <= cluster < g.MaxCluster() && sector < g.sectorsPerCluster
      modifies this
      ensures Valid() && Fat() == old(Fat()) && Data() == SetSector(old(Data()), cluster, sector, buf)
      ensures old(Mirrored(g, disk)) ==> Mirrored(g, disk)
    {
      hide Table, Clusters, Mirrored, SetSector, Geometry.Lba;
      DataBounds(g, cluster, sector);
      ghost var d := disk;
      disk := disk[g.Lba(cluster) + sector := buf];
      WriteSectorIsUpdate(g, d, disk, cluster, sector, buf);
    }

    method ReadCluster(cluster: nat) returns (buf: seq<Byte>)
      requires Valid() && 2 <= cluster < g.MaxCluster()
      ensures buf == Flatten(Data()[cluster])
    {
      hide Table, Clusters, DiskOk;
      buf := [];
      ghost var ss := Data()[cluster];
      for i := 0 to g.sectorsPerCluster
        invariant buf == Flatten(ss[..i])
      {
        var sectorBuf := ReadSector(cluster, i);
        assert ss[..i + 1] == ss[..i] + [ss[i]];
        FlattenConcat(ss[..i], [ss[i]]);
        FlattenOne(ss[i]);
        buf := buf + sectorBuf;
      }
      assert ss[..g.sectorsPerCluster] == ss;
    }

    method WriteCluster(cluster: nat, buf: seq<Byte>)
      requires Valid() && 2 <= cluster < g.MaxCluster() && |buf| == g.sectorsPerCluster * SECTOR_SIZE
      modifies this
      ensures Valid() && Fat() == old(Fat()) && Flatten(Data()[cluster]) == buf
      ensures forall c :: 0 <= c < |Data()| && c != cluster ==> Data()[c] == old(Data())[c]
    {
      hide Table, Clusters, DiskOk, SetSector;
      for i := 0 to g.sectorsPerCluster
        invariant Valid() && Fat() == old(Fat())
        invariant forall c :: 0 <= c < |Data()| && c != cluster ==> Data()[c] == old(Data())[c]
        invariant forall j :: 0 <= j < i ==> Data()[cluster][j] == buf[j * SECTOR_SIZE..j * SECTOR_SIZE + SECTOR_SIZE]
      {
        var sectorBuf: Sector := buf[i * SECTOR_SIZE..i * SECTOR_SIZE + SECTOR_SIZE];
        WriteSector(cluster, i, sectorBuf);
      }
      FlattenChopped(Data()[cluster], SECTOR_SIZE, buf);
    }

    /** The lowest free cluster; none exactly when the table is full. */
    method FindFreeCluster() returns (r: Option<nat>)
      requires Valid()
      ensures r.None? ==> forall c :: 2 <= c < |Fat()| ==> Fat()[c] != 0
      ensures r.Some? ==> 2 <= r.value < |Fat()| && Fat()[r.value] == 0 && forall c :: 2 <= c < r.value ==> Fat()[c] != 0
      ensures r.None? <==> FreeSet(Fat()) == {}
      ensures r.Some? ==> r.value in FreeSet(Fat()) && forall c :: c in FreeSet(Fat()) ==> r.value <= c
    {
      hide Table, Clusters;
      var maxCluster := g.fatSize * SECTOR_SIZE / 4;
      for c := 2 to maxCluster
        invariant forall c' :: 2 <= c' < c ==> Fat()[c'] != 0
      {
        var v := ReadFatEntry(c);
        if v == 0 {
          assert c in FreeSet(Fat());
          return Some(c);
        }
      }
      return None;
    }

    /** Takes the lowest free cluster and makes it a chain of its own. */
    method ClaimCluster() returns (r: Option<nat>)
      requires Valid()
      modifies this
      ensures Valid() && Data() == old(Data())
      ensures r.None? <==> old(FreeSet(Fat()) == {})
      ensures r.None? ==> Fat() == old(Fat())
      ensures r.Some? ==> r.value in old(FreeSet(Fat())) && Fat() == old(Fat())[r.value := LAST]
      ensures r.Some? ==> forall c :: c in old(FreeSet(Fat())) ==> r.value <= c
    {
      hide Table, Clusters, DiskOk;
      r := FindFreeCluster();
      if r.Some? {
        WriteFatEntry(r.value, LAST);
      }
    }

    method CountFreeClusters() returns (count: nat)
      requires Valid()
      ensures count == |FreeSet(Fat())|
    {
      hide Table, Clusters;
      var maxCluster := g.fatSize * SECTOR_SIZE / 4;
      count := 0;
      for c := 2 to maxCluster
        invariant count == |FreeBelow(Fat(), c)|
      {
        var v := ReadFatEntry(c);
        assert FreeBelow(Fat(), c + 1) == FreeBelow(Fat(), c) + if Fat()[c] == 0 then {c} else {};
        if v == 0 {
          count := count + 1;
        }
      }
      assert FreeBelow(Fat(), maxCluster) == FreeSet(Fat());
    }

    /** Frees the clusters reached from `start`; ends on every table. */
    method FreeChain(start: nat)
      requires Valid() && Leads(Fat(), start)
      modifies this
      ensures Valid() && Data() == old(Data())
      ensures Fat() == Cleared(old(Fat()), Trail(old(Fat()), start))
    {
      hide Table, Clusters, DiskOk, NonZero, Trail, Cleared, Leads;
      var clu: nat := start;
      ghost var fat0 := Fat();
      ghost var done: seq<nat> := [];
      assert Cleared(fat0, []) == fat0 && [] + Trail(fat0, start) == Trail(fat0, start);
      while clu >= 2 && clu < EOC
        invariant Valid() && Data() == old(Data()) && Leads(Fat(), clu)
        invariant Trail(fat0, start) == done + Trail(Fat(), clu)
        invariant forall i :: 0 <= i < |done| ==> done[i] < |fat0|
        invariant Fat() == Cleared(fat0, done)
        decreases |NonZero(Fat())|, Follows(clu)
      {
        TrailStep(Fat(), clu);
        ClearedStep(fat0, done, clu);
        ghost var rest := Trail(Fat()[clu := 0], Fat()[clu]);
        assert done + ([clu] + rest) == done + [clu] + rest;
        var next := ReadFatEntry(clu);
        WriteFatEntry(clu, 0);
        done := done + [clu];
        clu := next;
      }
      EmptyTrail(Fat(), clu);
      assert done + [] == done;
    }
  }

  function FreeBelow(fat: Fat, n: nat): set<nat>
    requires n <= |fat|
  {
    set c | 2 <= c < n && fat[c] == 0
  }
}
