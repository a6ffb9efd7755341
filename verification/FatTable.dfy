/** Sectors and the file allocation table at byte level (src/hal/fat32.rs:152-249, 279-299).

    Entries are 32-bit little-endian words of which the low 28 bits count, as the section "FAT Data
    Structure" of the Microsoft FAT32 File System Specification lays down.  Device reads and
    writes succeed. */
module FatTable {
  import opened Common

  const SECTOR_SIZE := 512
  const ENTRIES := 128          // entries per FAT sector
  const ENTRY_MASK := 0x1000_0000
  const EOC := 0xFFF_FFF8       // entries from here on end a chain
  const LAST := 0xFFF_FFFF      // what the code writes to end a chain

  type Sector = s: seq<Byte> | |s| == SECTOR_SIZE witness seq(SECTOR_SIZE, _ => 0)

  /** The fields of the boot sector that the driver keeps. */
  datatype Geometry = Geometry(sectorsPerCluster: nat, reserved: nat, numFats: nat, fatSize: nat) {
    function FatLba(): nat { reserved }

    function DataLba(): nat { reserved + numFats * fatSize }

    /** Clusters are bounded by what the table can hold. */
    function MaxCluster(): nat { fatSize * ENTRIES }

    /** `cluster_to_lba` */
    function Lba(c: nat): nat
      requires c >= 2
    {
      DataLba() + (c - 2) * sectorsPerCluster
    }

    predicate Ok() {
      && sectorsPerCluster >= 1 && numFats >= 1 && fatSize >= 1
      && MaxCluster() < EOC && Lba(MaxCluster()) < 0x1_0000_0000
    }
  }

  predicate DiskOk(g: Geometry, d: seq<Sector>) { g.Ok() && |d| >= g.Lba(g.MaxCluster()) }

  // Little-endian words

  function Word(b0: Byte, b1: Byte, b2: Byte, b3: Byte): nat {
    b0 + 0x100 * b1 + 0x1_0000 * b2 + 0x100_0000 * b3
  }

  function WordAt(s: Sector, off: nat): (w: nat)
    requires off + 4 <= SECTOR_SIZE
    ensures w < 0x1_0000_0000
  {
    Word(s[off], s[off + 1], s[off + 2], s[off + 3])
  }

  function PutWord(s: Sector, off: nat, w: nat): Sector
    requires off + 4 <= SECTOR_SIZE && w < 0x1_0000_0000
  {
    s[off := w % 0x100][off + 1 := w / 0x100 % 0x100][off + 2 := w / 0x1_0000 % 0x100][off + 3 := w / 0x100_0000]
  }

  lemma PutGet(s: Sector, off: nat, w: nat)
    requires off + 4 <= SECTOR_SIZE && w < 0x1_0000_0000
    ensures WordAt(PutWord(s, off, w), off) == w
  {
    var a := w / 0x100;
    var b := a / 0x100;
    assert w == a * 0x100 + w % 0x100 && a == b * 0x100 + a % 0x100;
    assert w / 0x1_0000 == b && w / 0x100_0000 == b / 0x100;
  }

  lemma PutOther(s: Sector, off: nat, w: nat, off': nat)
    requires off + 4 <= SECTOR_SIZE && w < 0x1_0000_0000 && off' + 4 <= SECTOR_SIZE
    requires off' + 4 <= off || off + 4 <= off'
    ensures WordAt(PutWord(s, off, w), off') == WordAt(s, off')
  {
  }

  // The table

  /** The 32 bits stored for cluster `c` in FAT copy 0. */
  function Raw(g: Geometry, d: seq<Sector>, c: nat): (w: nat)
    requires DiskOk(g, d) && c < g.MaxCluster()
    ensures w < 0x1_0000_0000
  {
    TableBounds(g, 0, c / ENTRIES);
    WordAt(d[g.FatLba() + c / ENTRIES], c % ENTRIES * 4)
  }

  function Entry(g: Geometry, d: seq<Sector>, c: nat): nat
    requires DiskOk(g, d) && c < g.MaxCluster()
  {
    Raw(g, d, c) % ENTRY_MASK
  }

  /** All entries, by cluster. */
  function Table(g: Geometry, d: seq<Sector>): (fat: seq<nat>)
    requires DiskOk(g, d)
    ensures |fat| == g.MaxCluster()
  {
    seq(g.MaxCluster(), c requires 0 <= c < g.MaxCluster() => Entry(g, d, c))
  }

  /** All FAT copies hold the same sectors. */
  predicate Mirrored(g: Geometry, d: seq<Sector>)
    requires DiskOk(g, d)
  {
    forall f, s :: 0 <= f < g.numFats && 0 <= s < g.fatSize ==>
      CopyLba(g, f, s) < |d| && CopyLba(g, 0, s) < |d| && d[CopyLba(g, f, s)] == d[CopyLba(g, 0, s)]
  }

  function CopyLba(g: Geometry, f: nat, s: nat): nat { g.FatLba() + f * g.fatSize + s }

  /** Blocks of `n`: an index inside block `a` comes before block `b`. */
  lemma Stride(a: nat, b: nat, n: nat, s: nat)
    requires a < b && s < n
    ensures a * n + s < a * n + n <= b * n
  {
    assert a * n + n == (a + 1) * n;
    assert (a + 1) * n <= b * n by { MulMono(a + 1, b, n); }
  }

  lemma MulMono(a: nat, b: nat, n: nat)
    requires a <= b
    ensures a * n <= b * n
  {
    assert b * n == a * n + (b - a) * n;
  }

  /** Sector `s` of FAT copy `f` lies before the data region, which lies on the device. */
  lemma TableBounds(g: Geometry, f: nat, s: nat)
    requires g.Ok() && f < g.numFats && s < g.fatSize
    ensures g.FatLba() <= CopyLba(g, f, s) < g.DataLba() <= g.Lba(g.MaxCluster())
  {
    Stride(f, g.numFats, g.fatSize, s);
  }

  /** Different sectors of different copies are different sectors of the device. */
  lemma CopiesApart(g: Geometry, f: nat, s: nat, f': nat, s': nat)
    requires s < g.fatSize && s' < g.fatSize && (f, s) != (f', s')
    ensures CopyLba(g, f, s) != CopyLba(g, f', s')
  {
    if f < f' {
      Stride(f, f', g.fatSize, s);
    } else if f' < f {
      Stride(f', f, g.fatSize, s');
    }
  }

  /** Sector `s` of cluster `c` lies in the data region and on the device. */
  lemma DataBounds(g: Geometry, c: nat, s: nat)
    requires g.Ok() && 2 <= c < g.MaxCluster() && s < g.sectorsPerCluster
    ensures g.DataLba() <= g.Lba(c) + s < g.Lba(c) + g.sectorsPerCluster <= g.Lba(g.MaxCluster())
  {
    hide Geometry.DataLba, Geometry.MaxCluster, Geometry.Ok;
    Stride(c - 2, g.MaxCluster() - 2, g.sectorsPerCluster, s);
  }

  /** Distinct clusters do not share a sector. */
  lemma ClustersApart(g: Geometry, c: nat, s: nat, c': nat, s': nat)
    requires c >= 2 && c' >= 2 && s < g.sectorsPerCluster && s' < g.sectorsPerCluster
    requires (c, s) != (c', s')
    ensures g.Lba(c) + s != g.Lba(c') + s'
  {
    if c < c' {
      Stride(c - 2, c' - 2, g.sectorsPerCluster, s);
    } else if c' < c {
      Stride(c' - 2, c - 2, g.sectorsPerCluster, s');
    }
  }

  // Views of the device

  /** The sectors of cluster `c`. */
  function Cluster(g: Geometry, d: seq<Sector>, c: nat): (ss: seq<Sector>)
    requires DiskOk(g, d) && 2 <= c < g.MaxCluster()
    ensures |ss| == g.sectorsPerCluster
  {
    DataBounds(g, c, 0);
    d[g.Lba(c)..g.Lba(c) + g.sectorsPerCluster]
  }

  /** All clusters; 0 and 1 do not exist and are left empty. */
  function Clusters(g: Geometry, d: seq<Sector>): (cs: seq<seq<Sector>>)
    requires DiskOk(g, d)
    ensures |cs| == g.MaxCluster()
  {
    seq(g.MaxCluster(), c requires 0 <= c < g.MaxCluster() => if c < 2 then [] else Cluster(g, d, c))
  }

  // Where the views lie

  /** The table of the first copy lies behind the reserved sectors, 128 entries to a sector: the entry of
      `c` is the low 28 bits of four bytes, lowest first. */
  lemma EntryBytes(g: Geometry, d: seq<Sector>, c: nat, w: nat)
    requires DiskOk(g, d) && c < g.MaxCluster() && w < 0x1_0000_0000
    requires var l, off := g.reserved + c / 128, c % 128 * 4;
             && l < |d| && d[l][off] == w % 0x100 && d[l][off + 1] == w / 0x100 % 0x100
             && d[l][off + 2] == w / 0x1_0000 % 0x100 && d[l][off + 3] == w / 0x100_0000
    ensures Table(g, d)[c] == w % 0x1000_0000
  {
    var s, off := d[g.reserved + c / 128], c % 128 * 4;
    PutGet(s, off, w);
    assert PutWord(s, off, w) == s;
  }

  /** Cluster 2 begins right behind the last table copy, and every cluster right behind the one before. */
  lemma ClustersTile(g: Geometry, c: nat)
    requires g.numFats >= 1 && g.fatSize >= 1 && c >= 2
    ensures g.Lba(2) == CopyLba(g, g.numFats - 1, g.fatSize - 1) + 1
    ensures g.Lba(c + 1) == g.Lba(c) + g.sectorsPerCluster
  {
    assert (g.numFats - 1) * g.fatSize + g.fatSize == g.numFats * g.fatSize;
    assert (c - 1) * g.sectorsPerCluster == (c - 2) * g.sectorsPerCluster + g.sectorsPerCluster;
  }

  /** The sectors of a cluster, in order, by their numbers on the device. */
  lemma SectorPlace(g: Geometry, d: seq<Sector>, c: nat, s: nat)
    requires DiskOk(g, d) && 2 <= c < g.MaxCluster() && s < g.sectorsPerCluster
    ensures var l := g.reserved + g.numFats * g.fatSize + (c - 2) * g.sectorsPerCluster + s;
            l < |d| && |Clusters(g, d)[c]| == g.sectorsPerCluster && Clusters(g, d)[c][s] == d[l]
  {
    DataBounds(g, c, s);
  }

  // What the two kinds of writes do to the views

  /** `d'` is `d` with the 28-bit value `v` stored for cluster `c` in every FAT copy. */
  ghost predicate EntryWritten(g: Geometry, d: seq<Sector>, d': seq<Sector>, c: nat, v: nat)
    requires DiskOk(g, d) && c < g.MaxCluster()
  {
    var s := c / ENTRIES;
    && |d'| == |d|
    && (forall f :: 0 <= f < g.numFats ==>
          CopyLba(g, f, s) < |d'| && d'[CopyLba(g, f, s)] == EntrySector(g, d, c, v))
    && (forall l :: 0 <= l < |d| && (forall f :: 0 <= f < g.numFats ==> l != CopyLba(g, f, s)) ==> d'[l] == d[l])
  }

  /** The FAT sector of `c` with the low 28 bits of its entry replaced. */
  function EntrySector(g: Geometry, d: seq<Sector>, c: nat, v: nat): Sector
    requires DiskOk(g, d) && c < g.MaxCluster()
  {
    var raw := Raw(g, d, c);
    TableBounds(g, 0, c / ENTRIES);
    PutWord(d[g.FatLba() + c / ENTRIES], c % ENTRIES * 4, raw - raw % ENTRY_MASK + v % ENTRY_MASK)
  }

  lemma MergeBits(raw: nat, v: nat)
    requires raw < 0x1_0000_0000
    ensures var w := raw - raw % ENTRY_MASK + v % ENTRY_MASK;
            w < 0x1_0000_0000 && w % ENTRY_MASK == v % ENTRY_MASK && w / ENTRY_MASK == raw / ENTRY_MASK
  {
    var q, r := raw / ENTRY_MASK, v % ENTRY_MASK;
    assert raw - raw % ENTRY_MASK + r == q * ENTRY_MASK + r;
  }

  lemma EntrySectorWords(g: Geometry, d: seq<Sector>, c: nat, v: nat, c': nat)
    requires DiskOk(g, d) && c < g.MaxCluster() && c' < g.MaxCluster() && c' / ENTRIES == c / ENTRIES
    ensures var w, raw := WordAt(EntrySector(g, d, c, v), c' % ENTRIES * 4), Raw(g, d, c');
            if c' == c then w % ENTRY_MASK == v % ENTRY_MASK && w / ENTRY_MASK == raw / ENTRY_MASK
            else w == raw
  {
    hide WordAt, PutWord;
    var raw := Raw(g, d, c);
    MergeBits(raw, v);
    TableBounds(g, 0, c / ENTRIES);
    var s, w := d[g.FatLba() + c / ENTRIES], raw - raw % ENTRY_MASK + v % ENTRY_MASK;
    if c' == c {
      PutGet(s, c % ENTRIES * 4, w);
    } else {
      assert c' % ENTRIES != c % ENTRIES;
      PutOther(s, c % ENTRIES * 4, w, c' % ENTRIES * 4);
    }
  }

  /** A sector that is not sector `c / 128` of any copy is untouched. */
  lemma Untouched(g: Geometry, d: seq<Sector>, d': seq<Sector>, c: nat, v: nat, l: nat)
    requires DiskOk(g, d) && c < g.MaxCluster() && EntryWritten(g, d, d', c, v) && l < |d|
    requires forall f :: 0 <= f < g.numFats ==> l != CopyLba(g, f, c / ENTRIES)
    ensures d'[l] == d[l]
  {
  }

  /** Entry by entry, what the write leaves in copy 0. */
  lemma EntryAfter(g: Geometry, d: seq<Sector>, d': seq<Sector>, c: nat, v: nat, c': nat)
    requires DiskOk(g, d) && c < g.MaxCluster() && EntryWritten(g, d, d', c, v) && c' < g.MaxCluster()
    ensures Entry(g, d', c') == if c' == c then v % ENTRY_MASK else Entry(g, d, c')
    ensures Raw(g, d', c') / ENTRY_MASK == Raw(g, d, c') / ENTRY_MASK
  {
    hide EntrySector, WordAt;
    var s, s' := c / ENTRIES, c' / ENTRIES;
    TableBounds(g, 0, s');
    if s' == s {
      EntrySectorWords(g, d, c, v, c');
      assert d'[CopyLba(g, 0, s)] == EntrySector(g, d, c, v);
    } else {
      forall f | 0 <= f < g.numFats ensures CopyLba(g, 0, s') != CopyLba(g, f, s) {
        CopiesApart(g, 0, s', f, s);
      }
      Untouched(g, d, d', c, v, CopyLba(g, 0, s'));
    }
  }

  lemma ClusterAfter(g: Geometry, d: seq<Sector>, d': seq<Sector>, c: nat, v: nat, c': nat)
    requires DiskOk(g, d) && |d'| == |d| && c < g.MaxCluster() && EntryWritten(g, d, d', c, v)
    requires 2 <= c' < g.MaxCluster()
    ensures Cluster(g, d', c') == Cluster(g, d, c')
  {
    hide EntryWritten, Geometry.Lba, Geometry.DataLba, Geometry.MaxCluster, CopyLba;
    DataBounds(g, c', 0);
    forall l | g.Lba(c') <= l < g.Lba(c') + g.sectorsPerCluster ensures d'[l] == d[l] {
      forall f | 0 <= f < g.numFats ensures l != CopyLba(g, f, c / ENTRIES) {
        EntryRow(g, c);
        TableBounds(g, f, c / ENTRIES);
      }
      Untouched(g, d, d', c, v, l);
    }
  }

  lemma EntryRow(g: Geometry, c: nat)
    requires c < g.MaxCluster()
    ensures c / ENTRIES < g.fatSize
  {
  }

  lemma ClustersAfter(g: Geometry, d: seq<Sector>, d': seq<Sector>, c: nat, v: nat)
    requires DiskOk(g, d) && |d'| == |d| && c < g.MaxCluster() && EntryWritten(g, d, d', c, v)
    ensures Clusters(g, d') == Clusters(g, d)
  {
    hide EntryWritten, Cluster;
    forall c' | 2 <= c' < g.MaxCluster() ensures Cluster(g, d', c') == Cluster(g, d, c') {
      ClusterAfter(g, d, d', c, v, c');
    }
  }

  lemma MirroredAfter(g: Geometry, d: seq<Sector>, d': seq<Sector>, c: nat, v: nat)
    requires DiskOk(g, d) && c < g.MaxCluster() && EntryWritten(g, d, d', c, v) && Mirrored(g, d)
    ensures Mirrored(g, d')
  {
    hide EntrySector;
    var t := c / ENTRIES;
    forall f, s | 0 <= f < g.numFats && 0 <= s < g.fatSize
      ensures CopyLba(g, f, s) < |d'| && CopyLba(g, 0, s) < |d'| && d'[CopyLba(g, f, s)] == d'[CopyLba(g, 0, s)]
    {
      TableBounds(g, f, s);
      TableBounds(g, 0, s);
      if s != t {
        forall f' | 0 <= f' < g.numFats
          ensures CopyLba(g, f, s) != CopyLba(g, f', t) && CopyLba(g, 0, s) != CopyLba(g, f', t)
        {
          CopiesApart(g, f, s, f', t);
          CopiesApart(g, 0, s, f', t);
        }
        Untouched(g, d, d', c, v, CopyLba(g, f, s));
        Untouched(g, d, d', c, v, CopyLba(g, 0, s));
      }
    }
  }

  /** Writing an entry is a map update: it reads back masked, its top four bits and every other
      entry are kept, mirrored copies stay mirrored, and no data sector changes. */
  lemma WriteEntryIsUpdate(g: Geometry, d: seq<Sector>, d': seq<Sector>, c: nat, v: nat)
    requires DiskOk(g, d) && |d'| == |d| && c < g.MaxCluster() && EntryWritten(g, d, d', c, v)
    ensures Table(g, d') == Table(g, d)[c := v % ENTRY_MASK]
    ensures Raw(g, d', c) / ENTRY_MASK == Raw(g, d, c) / ENTRY_MASK
    ensures Clusters(g, d') == Clusters(g, d)
    ensures Mirrored(g, d) ==> Mirrored(g, d')
  {
    hide EntryWritten, Mirrored, Entry, Raw, Clusters;
    forall c' | 0 <= c' < g.MaxCluster()
      ensures Entry(g, d', c') == if c' == c then v % ENTRY_MASK else Entry(g, d, c')
    {
      EntryAfter(g, d, d', c, v, c');
    }
    EntryAfter(g, d, d', c, v, c);
    ClustersAfter(g, d, d', c, v);
    if Mirrored(g, d) {
      MirroredAfter(g, d, d', c, v);
    }
  }

  function SetSector(cs: seq<seq<Sector>>, c: nat, s: nat, b: Sector): (r: seq<seq<Sector>>)
    requires c < |cs| && s < |cs[c]|
    ensures |r| == |cs| && |r[c]| == |cs[c]| && r[c][s] == b
    ensures forall c' :: 0 <= c' < |cs| && c' != c ==> r[c'] == cs[c']
    ensures forall s' :: 0 <= s' < |cs[c]| && s' != s ==> r[c][s'] == cs[c][s']
  {
    var ss: seq<Sector> := cs[c][..s] + [b] + cs[c][s + 1..];
    cs[..c] + [ss] + cs[c + 1..]
  }

  lemma SectorInCluster(g: Geometry, d: seq<Sector>, d': seq<Sector>, c: nat, s: nat, b: Sector, c': nat)
    requires DiskOk(g, d) && 2 <= c < g.MaxCluster() && s < g.sectorsPerCluster && 2 <= c' < g.MaxCluster()
    requires g.Lba(c) + s < |d| == |d'| && d' == d[g.Lba(c) + s := b]
    ensures c' != c ==> Cluster(g, d', c') == Cluster(g, d, c')
    ensures c' == c ==> Cluster(g, d', c)[s] == b
    ensures c' == c ==> forall s' :: 0 <= s' < g.sectorsPerCluster && s' != s ==>
                          Cluster(g, d', c)[s'] == Cluster(g, d, c)[s']
  {
    hide Geometry.Lba, Geometry.MaxCluster;
    DataBounds(g, c', 0);
    if c' != c {
      forall l | g.Lba(c') <= l < g.Lba(c') + g.sectorsPerCluster ensures d'[l] == d[l] {
        ClustersApart(g, c', l - g.Lba(c'), c, s);
      }
    }
  }

  /** Writing a data sector changes that sector of that cluster and no FAT entry. */
  lemma WriteSectorIsUpdate(g: Geometry, d: seq<Sector>, d': seq<Sector>, c: nat, s: nat, b: Sector)
    requires DiskOk(g, d) && 2 <= c < g.MaxCluster() && s < g.sectorsPerCluster
    requires g.Lba(c) + s < |d| == |d'| && d' == d[g.Lba(c) + s := b]
    ensures Table(g, d') == Table(g, d)
    ensures Clusters(g, d') == SetSector(Clusters(g, d), c, s, b)
    ensures Mirrored(g, d) ==> Mirrored(g, d')
  {
    hide Geometry.Lba, Geometry.MaxCluster, Cluster, SetSector, WordAt;
    DataBounds(g, c, s);
    forall c' | 0 <= c' < g.MaxCluster() ensures Entry(g, d', c') == Entry(g, d, c') {
      EntryRow(g, c');
      TableBounds(g, 0, c' / ENTRIES);
    }
    forall c' | 2 <= c' < g.MaxCluster()
      ensures Cluster(g, d', c') == SetSector(Clusters(g, d), c, s, b)[c']
    {
      SectorInCluster(g, d, d', c, s, b, c');
    }
    if Mirrored(g, d) {
      forall f, s | 0 <= f < g.numFats && 0 <= s < g.fatSize
        ensures CopyLba(g, f, s) < |d'| && CopyLba(g, 0, s) < |d'| && d'[CopyLba(g, f, s)] == d'[CopyLba(g, 0, s)]
      {
        TableBounds(g, f, s);
        TableBounds(g, 0, s);
      }
    }
  }
}
