/** Looking up, creating and removing entries in a directory (src/hal/fat32.rs:328-375, 442-509,
    1332-1372).

    A directory is the bytes of its chain, read as 32-byte slots in order. */
module Directory {
  import opened Common
  import opened FatTable
  import opened FatChain
  import opened FatBytes
  import opened FatVolume
  import opened FatFile
  import opened DirEntry

  function Slots(dir: seq<Byte>): nat { |dir| / DIR_SIZE }

  function Slot(dir: seq<Byte>, i: nat): Entry
    requires i < Slots(dir)
  {
    dir[i * DIR_SIZE..i * DIR_SIZE + DIR_SIZE]
  }

  // Lookup

  function Lower(b: Byte): Byte { if 0x41 <= b <= 0x5A then b + 0x20 else b }

  predicate SameLetter(a: Byte, b: Byte) { Lower(a) == Lower(b) }

  /** The same byte, or the two cases of one ASCII letter. */
  lemma SameLetterIff(a: Byte, b: Byte)
    ensures SameLetter(a, b) <==> a == b || (0x41 <= a <= 0x5A && b == a + 0x20) || (0x41 <= b <= 0x5A && a == b + 0x20)
  {
  }

  /** `t` is a prefix of `n` with zeros behind it, ignoring the case of letters. */
  predicate PrefixOf(t: seq<Byte>, n: seq<Byte>) { forall i :: 0 <= i < |t| ==> SameLetter(ByteAt(n, i), t[i]) }

  /** Without zeros of its own, `t` is a prefix of `n` itself. */
  lemma PrefixIsShort(t: seq<Byte>, n: seq<Byte>)
    requires 0 !in t && |t| > |n|
    ensures !PrefixOf(t, n)
  {
    assert t[|n|] in t && !SameLetter(ByteAt(n, |n|), t[|n|]);
  }

  /** A name the comparison with which stays inside thirteen bytes, whatever the entry's name is. */
  predicate Searchable(t: seq<Byte>) { |t| <= NAME_MAX || 0 !in t }

  /** Long-name parts and volume labels. */
  predicate Skipped(e: Entry) { e[ATTR_OFFSET] == ATTR_LFN || e[ATTR_OFFSET] / 8 % 2 == 1 }

  /** The marker behind the last entry in use. */
  predicate Ends(e: Entry) { !Skipped(e) && e[0] == 0 }

  /** The entry the lookup for `t` accepts: a prefix of its name is enough. */
  predicate Hit(e: Entry, t: seq<Byte>) {
    !Skipped(e) && e[0] != 0 && e[0] != DELETED && NameOf(e) != [] && PrefixOf(t, NameOf(e))
  }

  /** First accepted slot from `i` on, before any end marker. */
  function Find(dir: seq<Byte>, t: seq<Byte>, i: nat): (r: Option<nat>)
    ensures r.Some? ==> i <= r.value < Slots(dir) && Hit(Slot(dir, r.value), t)
    decreases Slots(dir) - i
  {
    if i >= Slots(dir) || Ends(Slot(dir, i)) then None
    else if Hit(Slot(dir, i), t) then Some(i)
    else Find(dir, t, i + 1)
  }

  /** A lookup that finds nothing has seen every slot before the end marker. */
  lemma {:induction false} FindNone(dir: seq<Byte>, t: seq<Byte>, i: nat, j: nat)
    requires Find(dir, t, i).None? && i <= j < Slots(dir)
    requires forall k :: i <= k < j ==> !Ends(Slot(dir, k))
    ensures !Hit(Slot(dir, j), t)
    decreases j - i
  {
    hide Hit;
    if i < j {
      FindNone(dir, t, i + 1, j);
    } else {
      HitLives(Slot(dir, j), t);
    }
  }

  lemma HitLives(e: Entry, t: seq<Byte>)
    ensures Hit(e, t) ==> !Ends(e)
  {
  }

  /** An entry on which the comparison with `t` leaves the thirteen bytes of the name. */
  predicate Leaves(e: Entry, t: seq<Byte>) {
    && !Skipped(e) && e[0] != 0 && e[0] != DELETED && NameOf(e) != []
    && |t| > NAME_MAX && PrefixOf(t[..NAME_MAX], NameOf(e))
  }

  /** The lookup passes this entry by. */
  predicate Passed(e: Entry, t: seq<Byte>) { !Hit(e, t) && !Ends(e) && !Leaves(e, t) }

  /** From slot `i` on, the lookup meets such an entry before it finds one or ends. */
  predicate Strays(dir: seq<Byte>, t: seq<Byte>, i: nat)
    decreases Slots(dir) - i
  {
    && i < Slots(dir) && !Ends(Slot(dir, i))
    && (Leaves(Slot(dir, i), t) || (!Hit(Slot(dir, i), t) && Strays(dir, t, i + 1)))
  }

  lemma {:induction false} StraysFrom(dir: seq<Byte>, t: seq<Byte>, i: nat, s: nat)
    requires i <= s <= Slots(dir) && forall j :: i <= j < s ==> Passed(Slot(dir, j), t)
    ensures Strays(dir, t, i) == Strays(dir, t, s)
    decreases s - i
  {
    hide Hit, Ends, Leaves, Slot, Slots;
    if i < s {
      StraysFrom(dir, t, i + 1, s);
    }
  }

  /** A lookup for a name of up to thirteen bytes, or without zeros, never does. */
  lemma {:induction false} SearchableStays(dir: seq<Byte>, t: seq<Byte>, i: nat)
    requires Searchable(t)
    ensures !Strays(dir, t, i)
    decreases Slots(dir) - i
  {
    hide Hit, Ends, NameOf, Slot, Slots;
    if i < Slots(dir) {
      SearchStaysInside(NameOf(Slot(dir, i)), t);
      SearchableStays(dir, t, i + 1);
    }
  }

  predicate SameName(t: seq<Byte>, t': seq<Byte>) { |t| == |t'| && forall i :: 0 <= i < |t| ==> SameLetter(t[i], t'[i]) }

  /** The lookup does not tell apart two names that differ only in the case of ASCII letters. */
  lemma LookupIgnoresCase(dir: seq<Byte>, t: seq<Byte>, t': seq<Byte>, i: nat)
    requires |t| == |t'|
    requires forall j :: 0 <= j < |t| ==>
               t[j] == t'[j] || (0x41 <= t[j] <= 0x5A && t'[j] == t[j] + 0x20) || (0x41 <= t'[j] <= 0x5A && t[j] == t'[j] + 0x20)
    ensures Find(dir, t', i) == Find(dir, t, i) && Strays(dir, t', i) == Strays(dir, t, i)
  {
    hide Find, Strays;
    CaseIsIgnored(dir, t, t', i);
  }

  lemma {:induction false} CaseIsIgnored(dir: seq<Byte>, t: seq<Byte>, t': seq<Byte>, i: nat)
    requires SameName(t, t')
    ensures Find(dir, t', i) == Find(dir, t, i) && Strays(dir, t', i) == Strays(dir, t, i)
    decreases Slots(dir) - i
  {
    hide NameOf, Slot, Slots, PrefixOf;
    if i < Slots(dir) {
      var n := NameOf(Slot(dir, i));
      SamePrefix(t, t', n);
      if |t| > NAME_MAX {
        SamePrefix(t[..NAME_MAX], t'[..NAME_MAX], n);
      }
      CaseIsIgnored(dir, t, t', i + 1);
    }
  }

  lemma SamePrefix(t: seq<Byte>, t': seq<Byte>, n: seq<Byte>)
    requires SameName(t, t')
    ensures PrefixOf(t', n) == PrefixOf(t, n)
  {
    hide ByteAt;
    if PrefixOf(t, n) {
      assert forall i :: 0 <= i < |t'| ==> SameLetter(ByteAt(n, i), t[i]) && SameLetter(t[i], t'[i]);
    }
    if PrefixOf(t', n) {
      assert forall i :: 0 <= i < |t| ==> SameLetter(ByteAt(n, i), t'[i]) && SameLetter(t[i], t'[i]);
    }
  }

  /** What the lookup does with one slot, in terms of its bytes.  Bit 3 of the attributes, which marks
      volume labels and parts of long names, decides first; directories have it clear. */
  lemma LookupRule(dir: seq<Byte>, t: seq<Byte>, i: nat)
    requires i < Slots(dir)
    ensures var e, rest := Slot(dir, i), Find(dir, t, i + 1);
            && (e[0x0B] / 8 % 2 == 1 ==> Find(dir, t, i) == rest)
            && (e[0x0B] / 8 % 2 == 0 && e[0] == 0 ==> Find(dir, t, i) == None)
            && (e[0x0B] / 8 % 2 == 0 && e[0] == 0xE5 ==> Find(dir, t, i) == rest)
            && (e[0x0B] / 8 % 2 == 0 && e[0] != 0 && e[0] != 0xE5 ==>
                Find(dir, t, i) == if NameOf(e) != [] && PrefixOf(t, NameOf(e)) then Some(i) else rest)
  {
    hide NameOf, PrefixOf, Slot, Slots;
  }

  // The lookup against an exact one

  /** The entry really has the name `t`, ignoring case. */
  predicate Named(e: Entry, t: seq<Byte>) { Hit(e, t) && |NameOf(e)| == |t| }

  /** First slot from `i` on that has the name `t` or ends the directory, or the number of slots. */
  function Horizon(dir: seq<Byte>, t: seq<Byte>, i: nat): (h: nat)
    requires i <= Slots(dir)
    ensures i <= h <= Slots(dir)
    decreases Slots(dir) - i
  {
    if i == Slots(dir) || Ends(Slot(dir, i)) || Named(Slot(dir, i), t) then i else Horizon(dir, t, i + 1)
  }

  /** The slot a lookup by exact name would give. */
  function Exact(dir: seq<Byte>, t: seq<Byte>): Option<nat> {
    var h := Horizon(dir, t, 0);
    if h < Slots(dir) && Named(Slot(dir, h), t) then Some(h) else None
  }

  /** The lookup gives the entry with the name asked for, or reports it missing, exactly when no
      entry in front has a longer name that begins with it. */
  lemma LookupExact(dir: seq<Byte>, t: seq<Byte>)
    ensures Find(dir, t, 0) == Exact(dir, t) <==> forall j :: 0 <= j < Horizon(dir, t, 0) ==> !Hit(Slot(dir, j), t)
  {
    hide Hit, Ends, Slot, Slots;
    var h := Horizon(dir, t, 0);
    FindBefore(dir, t, 0);
    if forall j :: 0 <= j < h ==> !Hit(Slot(dir, j), t) {
      FindAtHorizon(dir, t, 0);
    } else {
      var j :| 0 <= j < h && Hit(Slot(dir, j), t);
    }
  }

  /** With an accepted entry in front of the horizon, the lookup stays in front of it. */
  lemma {:induction false} FindBefore(dir: seq<Byte>, t: seq<Byte>, i: nat)
    requires i <= Slots(dir)
    ensures forall j :: i <= j < Horizon(dir, t, i) && Hit(Slot(dir, j), t) ==>
              Find(dir, t, i).Some? && Find(dir, t, i).value < Horizon(dir, t, i)
    decreases Slots(dir) - i
  {
    hide Hit, Ends, Slot, Slots;
    if i < Horizon(dir, t, i) {
      FindBefore(dir, t, i + 1);
    }
  }

  lemma {:induction false} FindAtHorizon(dir: seq<Byte>, t: seq<Byte>, i: nat)
    requires i <= Slots(dir)
    requires forall j :: i <= j < Horizon(dir, t, i) ==> !Hit(Slot(dir, j), t)
    ensures var h := Horizon(dir, t, i);
            Find(dir, t, i) == if h < Slots(dir) && Named(Slot(dir, h), t) then Some(h) else None
    decreases Slots(dir) - i
  {
    hide Hit, Ends, Slot, Slots;
    if i < Horizon(dir, t, i) {
      FindAtHorizon(dir, t, i + 1);
    } else if i < Slots(dir) {
      HitLives(Slot(dir, i), t);
    }
  }

  /** Without a file of that name, a lookup can still succeed: asking for the first letters of an
      entry's name finds that entry. */
  lemma PrefixIsAccepted(dir: seq<Byte>, n: nat)
    requires Slots(dir) > 0 && Slot(dir, 0)[0x0B] / 8 % 2 == 0 && Slot(dir, 0)[0] != 0 && Slot(dir, 0)[0] != DELETED
    requires 0 < n < |NameOf(Slot(dir, 0))|
    ensures Find(dir, NameOf(Slot(dir, 0))[..n], 0) == Some(0)
    ensures NameOf(Slot(dir, 0)) != NameOf(Slot(dir, 0))[..n]
  {
  }

  // Creation

  predicate Unused(e: Entry) { e[0] == 0 || e[0] == DELETED }

  /** First slot from `i` on that a new entry may take. */
  function FreeSlot(dir: seq<Byte>, i: nat): (r: Option<nat>)
    ensures r.Some? ==> i <= r.value < Slots(dir) && Unused(Slot(dir, r.value))
    ensures r.Some? ==> forall j :: i <= j < r.value ==> !Unused(Slot(dir, j))
    ensures r.None? ==> forall j :: i <= j < Slots(dir) ==> !Unused(Slot(dir, j))
    decreases Slots(dir) - i
  {
    if i >= Slots(dir) then None else if Unused(Slot(dir, i)) then Some(i) else FreeSlot(dir, i + 1)
  }

  /** A slot may be taken if it begins with a zero or the mark of a deleted entry. */
  lemma FreeSlotRule(dir: seq<Byte>, i: nat)
    requires i < Slots(dir)
    ensures FreeSlot(dir, i) == if Slot(dir, i)[0] == 0 || Slot(dir, i)[0] == 0xE5 then Some(i) else FreeSlot(dir, i + 1)
  {
    hide Slot, Slots;
  }

  /** The entry for a new file over the bytes `was`: name, archive attribute, first cluster. */
  function NewEntry(was: Entry, name: seq<Byte>, cluster: nat): (e: Entry)
    requires |name| == 11
    ensures e[..11] == name && e[ATTR_OFFSET] == ATTR_ARCHIVE
    ensures cluster < 0x1_0000_0000 ==> Word(e[0x1A], e[0x1B], e[0x14], e[0x15]) == cluster
    ensures e[0x0C..0x14] == was[0x0C..0x14] && e[0x16..0x1A] == was[0x16..0x1A] && e[0x1C..] == was[0x1C..]
  {
    var low, high := cluster % 0x1_0000, cluster / 0x1_0000 % 0x1_0000;
    name + [ATTR_ARCHIVE] + was[0x0C..0x14] + [high % 0x100, high / 0x100] + was[0x16..0x1A]
    + [low % 0x100, low / 0x100] + was[0x1C..]
  }

  function Put(dir: seq<Byte>, i: nat, e: Entry): (r: seq<Byte>)
    requires i < Slots(dir)
    ensures |r| == |dir|
  {
    Splice(dir, i * DIR_SIZE, e)
  }

  lemma PutSlots(dir: seq<Byte>, i: nat, e: Entry, j: nat)
    requires i < Slots(dir) && j < Slots(dir)
    ensures Slots(Put(dir, i, e)) == Slots(dir)
    ensures Slot(Put(dir, i, e), j) == if j == i then e else Slot(dir, j)
  {
  }

  /** After a create, which happens only when the lookup found nothing, the lookup for that name
      returns exactly the slot just written. */
  lemma CreateThenFind(dir: seq<Byte>, base: seq<Byte>, ext: seq<Byte>, slot: nat, e: Entry)
    requires ShortName(base, ext) && Find(dir, Joined(base, ext), 0).None?
    requires FreeSlot(dir, 0) == Some(slot)
    requires e[..11] == Encoded(Joined(base, ext)) && e[ATTR_OFFSET] == ATTR_ARCHIVE
    ensures Find(Put(dir, slot, e), Joined(base, ext), 0) == Some(slot)
  {
    hide Find, FreeSlot, NameOf, Encoded;
    var t, dir' := Joined(base, ext), Put(dir, slot, e);
    NameRoundTrip(base, ext, e);
    forall j | 0 <= j < slot ensures !Hit(Slot(dir', j), t) && !Ends(Slot(dir', j)) {
      PutSlots(dir, slot, e, j);
      FindNone(dir, t, 0, j);
    }
    PutSlots(dir, slot, e, slot);
    FirstHit(dir', t, 0, slot);
  }

  lemma {:induction false} FirstHit(dir: seq<Byte>, t: seq<Byte>, i: nat, s: nat)
    requires i <= s < Slots(dir) && Hit(Slot(dir, s), t)
    requires forall j :: i <= j < s ==> !Hit(Slot(dir, j), t) && !Ends(Slot(dir, j))
    ensures Find(dir, t, i) == Some(s)
    decreases s - i
  {
    hide Hit;
    HitLives(Slot(dir, s), t);
    if i < s {
      FirstHit(dir, t, i + 1, s);
    }
  }

  lemma {:induction false} NoHit(dir: seq<Byte>, t: seq<Byte>, i: nat, end: nat)
    requires i <= end <= Slots(dir) && (end < Slots(dir) ==> Ends(Slot(dir, end)))
    requires forall j :: i <= j < end ==> !Hit(Slot(dir, j), t) && !Ends(Slot(dir, j))
    ensures Find(dir, t, i) == None
    decreases end - i
  {
    hide Hit;
    if i < end {
      NoHit(dir, t, i + 1, end);
    }
  }

  lemma {:induction false} FirstUnused(dir: seq<Byte>, i: nat, s: nat)
    requires i <= s <= Slots(dir) && (s < Slots(dir) ==> Unused(Slot(dir, s)))
    requires forall j :: i <= j < s ==> !Unused(Slot(dir, j))
    ensures FreeSlot(dir, i) == if s < Slots(dir) then Some(s) else None
    decreases s - i
  {
    if i < s {
      FirstUnused(dir, i + 1, s);
    }
  }

  // The loops over the clusters of a directory

  /** Entries per cluster. */
  function PerCluster(spc: nat): nat { spc * 16 }

  /** Slot `k` of the `ci`-th cluster is slot `ci * PerCluster + k` of the directory. */
  lemma ClusterSlots(dir: seq<Byte>, buf: seq<Byte>, spc: nat, ci: nat, k: nat)
    requires |buf| == spc * SECTOR_SIZE && k < PerCluster(spc)
    requires ci * spc * SECTOR_SIZE + spc * SECTOR_SIZE <= |dir|
    requires buf == dir[ci * spc * SECTOR_SIZE..ci * spc * SECTOR_SIZE + spc * SECTOR_SIZE]
    ensures Slots(buf) == PerCluster(spc) && ci * PerCluster(spc) + k < Slots(dir)
    ensures Slot(dir, ci * PerCluster(spc) + k) == Slot(buf, k)
  {
    var at := ci * spc * SECTOR_SIZE;
    assert (ci * PerCluster(spc) + k) * DIR_SIZE == at + k * DIR_SIZE;
    SliceOfSlice(dir, at, spc * SECTOR_SIZE, k * DIR_SIZE, DIR_SIZE);
  }

  lemma SliceOfSlice<T>(s: seq<T>, a: nat, n: nat, b: nat, m: nat)
    requires a + n <= |s| && b + m <= n
    ensures s[a..a + n][b..b + m] == s[a + b..a + b + m]
  {
    var l, r := s[a..a + n][b..b + m], s[a + b..a + b + m];
    forall i | 0 <= i < m ensures l[i] == r[i] {
    }
  }

  /** The comparison loop of the lookup; `None` where the original indexes out of bounds. */
  method NameMatches(name: seq<Byte>, target: seq<Byte>) returns (ok: Option<bool>)
    requires |name| < NAME_MAX
    ensures ok == if |target| > NAME_MAX && PrefixOf(target[..NAME_MAX], name) then None else Some(PrefixOf(target, name))
  {
    var nameBytes := Padded(name);
    var nameLen := 0;
    while nameLen < |target|
      invariant nameLen <= |target| && nameLen <= NAME_MAX
      invariant forall i :: 0 <= i < nameLen ==> SameLetter(ByteAt(name, i), target[i])
    {
      if nameLen == NAME_MAX {
        return None;
      }
      if Lower(nameBytes[nameLen]) != Lower(target[nameLen]) {
        assert |target| > NAME_MAX ==> target[..NAME_MAX][nameLen] == target[nameLen];
        break;
      }
      nameLen := nameLen + 1;
    }
    return Some(nameLen == |target|);
  }

  /** What the scan of one cluster comes to. */
  datatype Scan = More | Stop(k: nat) | Found(k: nat) | Left(k: nat)

  lemma SearchStaysInside(name: seq<Byte>, t: seq<Byte>)
    requires |name| < NAME_MAX && Searchable(t)
    ensures !(|t| > NAME_MAX && PrefixOf(t[..NAME_MAX], name))
  {
    if |t| > NAME_MAX {
      PrefixIsShort(t[..NAME_MAX], name);
    }
  }

  method ScanCluster(buf: seq<Byte>, target: seq<Byte>) returns (r: Scan)
    ensures var n := if r.More? then Slots(buf) else r.k;
            n <= Slots(buf) && forall j :: 0 <= j < n ==> Passed(Slot(buf, j), target)
    ensures r.Stop? ==> r.k < Slots(buf) && Ends(Slot(buf, r.k))
    ensures r.Left? ==> r.k < Slots(buf) && Leaves(Slot(buf, r.k), target)
    ensures r.Found? ==> r.k < Slots(buf) && Hit(Slot(buf, r.k), target) && !Leaves(Slot(buf, r.k), target)
  {
    hide NameOf;
    for k := 0 to Slots(buf)
      invariant forall j :: 0 <= j < k ==> Passed(Slot(buf, j), target)
    {
      var entry := Slot(buf, k);
      var attr := entry[ATTR_OFFSET];
      if attr == ATTR_LFN || attr / 8 % 2 == 1 {
        continue;
      }
      if entry[0] == 0 {
        return Stop(k);
      }
      if entry[0] == DELETED {
        continue;
      }
      var name := ReadDirEntryName(entry);
      if name.Some? {
        var ok := NameMatches(NameOf(entry), target);
        if ok.None? {
          return Left(k);
        }
        if ok.value {
          return Found(k);
        }
      }
    }
    return More;
  }

  /** `find_entry_in_dir`: cluster and index of the slot that `Find` gives, or `None` where the
      original indexes out of bounds. */
  method FindEntryInDir(v: FatVolume, dirCluster: nat, target: seq<Byte>, ghost chain: seq<nat>)
    returns (r: Option<Option<(nat, nat)>>)
    requires v.Valid() && IsChain(v.Fat(), chain) && chain != [] && dirCluster == chain[0]
    ensures Within(v.Data(), chain)
    ensures r.None? <==> Strays(BytesOf(v.Data(), chain), target, 0)
    ensures r.Some? ==> (r.value.None? <==> Find(BytesOf(v.Data(), chain), target, 0).None?)
    ensures r.Some? && r.value.Some? ==>
              && r.value.value.1 < PerCluster(v.g.sectorsPerCluster)
              && exists ci :: 0 <= ci < |chain| && r.value.value.0 == chain[ci] &&
                   Find(BytesOf(v.Data(), chain), target, 0) == Some(ci * PerCluster(v.g.sectorsPerCluster) + r.value.value.1)
  {
    hide Table, Clusters, DiskOk, BytesOf, IsChain, Find, Hit, Ends, Leaves, Passed, Strays, Slot, Slots;
    ChainFits(v, chain);
    ghost var dir, spc, ci := BytesOf(v.Data(), chain), v.g.sectorsPerCluster, 0;
    ghost var per := PerCluster(spc);
    var cluster := dirCluster;
    DirSize(spc, chain, dir);
    while cluster >= 2 && cluster < EOC
      invariant ci <= |chain| && (if ci < |chain| then cluster == chain[ci] else cluster >= EOC)
      invariant ci * per <= Slots(dir) && forall j :: 0 <= j < ci * per ==> Passed(Slot(dir, j), target)
      decreases |chain| - ci
    {
      ChainLink(v.Fat(), chain, ci);
      var buf := v.ReadCluster(cluster);
      BytesCluster(v.Data(), v.Data(), spc, chain, ci);
      var s := ScanCluster(buf, target);
      ghost var n := if s.More? then Slots(buf) else s.k;
      ScannedPart(dir, buf, spc, ci, target, n);
      Settled(dir, target, ci * per + n);
      if s.Stop? {
        return Some(None);
      }
      if s.Left? {
        return None;
      }
      if s.Found? {
        return Some(Some((cluster, s.k)));
      }
      cluster := v.ReadFatEntry(cluster);
      ci := ci + 1;
    }
    assert ci == |chain|;
    Settled(dir, target, ci * per);
    return Some(None);
  }

  /** Behind slots that it passes by, slot `s` or the end of the directory settles the lookup. */
  lemma Settled(dir: seq<Byte>, t: seq<Byte>, s: nat)
    requires s <= Slots(dir) && forall j :: 0 <= j < s ==> Passed(Slot(dir, j), t)
    ensures s == Slots(dir) || Ends(Slot(dir, s)) ==> Find(dir, t, 0) == None && !Strays(dir, t, 0)
    ensures s < Slots(dir) && Leaves(Slot(dir, s), t) ==> Strays(dir, t, 0)
    ensures s < Slots(dir) && Hit(Slot(dir, s), t) && !Leaves(Slot(dir, s), t) ==> Find(dir, t, 0) == Some(s) && !Strays(dir, t, 0)
  {
    hide Hit, Find, Slot, Slots;
    StraysFrom(dir, t, 0, s);
    if s < Slots(dir) {
      HitLives(Slot(dir, s), t);
    }
    if s == Slots(dir) || Ends(Slot(dir, s)) {
      NoHit(dir, t, 0, s);
    } else if Hit(Slot(dir, s), t) {
      FirstHit(dir, t, 0, s);
    }
  }

  lemma DirSize(spc: nat, chain: seq<nat>, dir: seq<Byte>)
    requires |dir| == Capacity(spc, chain)
    ensures Slots(dir) == |chain| * PerCluster(spc)
  {
    assert |chain| * spc * SECTOR_SIZE == |chain| * PerCluster(spc) * DIR_SIZE;
  }

  lemma ScannedPart(dir: seq<Byte>, buf: seq<Byte>, spc: nat, ci: nat, t: seq<Byte>, n: nat)
    requires |buf| == spc * SECTOR_SIZE && n <= Slots(buf)
    requires ci * spc * SECTOR_SIZE + spc * SECTOR_SIZE <= |dir|
    requires buf == dir[ci * spc * SECTOR_SIZE..ci * spc * SECTOR_SIZE + spc * SECTOR_SIZE]
    requires forall j :: 0 <= j < n ==> Passed(Slot(buf, j), t)
    requires ci * PerCluster(spc) <= Slots(dir)
    requires forall j :: 0 <= j < ci * PerCluster(spc) ==> Passed(Slot(dir, j), t)
    ensures Slots(buf) == PerCluster(spc) && (ci + 1) * PerCluster(spc) == ci * PerCluster(spc) + PerCluster(spc) <= Slots(dir)
    ensures forall j :: 0 <= j < ci * PerCluster(spc) + n ==> Passed(Slot(dir, j), t)
    ensures n < PerCluster(spc) ==> Slot(dir, ci * PerCluster(spc) + n) == Slot(buf, n)
  {
    hide Passed;
    var per := PerCluster(spc);
    assert (ci + 1) * per == ci * per + per;
    forall j | 0 <= j < ci * per + n ensures j < Slots(dir) && Passed(Slot(dir, j), t) {
      if j >= ci * per {
        ClusterSlots(dir, buf, spc, ci, j - ci * per);
      }
    }
    if n < per {
      ClusterSlots(dir, buf, spc, ci, n);
    }
    if per > 0 {
      ClusterSlots(dir, buf, spc, ci, per - 1);
    }
  }

  // The create path of `f_open`

  /** First unused slot of one cluster, or the number of its slots. */
  method ScanForSlot(buf: seq<Byte>) returns (k: nat)
    ensures k <= Slots(buf) && (k < Slots(buf) ==> Unused(Slot(buf, k)))
    ensures forall j :: 0 <= j < k ==> !Unused(Slot(buf, j))
  {
    k := 0;
    while k < Slots(buf)
      invariant k <= Slots(buf) && forall j :: 0 <= j < k ==> !Unused(Slot(buf, j))
    {
      if buf[k * DIR_SIZE] == 0 || buf[k * DIR_SIZE] == DELETED {
        return;
      }
      k := k + 1;
    }
  }

  /** The first unused slot of the directory: its cluster, its index there and that cluster's bytes. */
  method FindSlot(v: FatVolume, dirCluster: nat, ghost chain: seq<nat>)
    returns (found: bool, cluster: nat, k: nat, buf: seq<Byte>, ghost ci: nat)
    requires v.Valid() && IsChain(v.Fat(), chain) && chain != [] && dirCluster == chain[0]
    ensures Within(v.Data(), chain)
    ensures !found ==> FreeSlot(BytesOf(v.Data(), chain), 0).None?
    ensures found ==>
              && ci < |chain| && cluster == chain[ci] && k < PerCluster(v.g.sectorsPerCluster)
              && FreeSlot(BytesOf(v.Data(), chain), 0) == Some(ci * PerCluster(v.g.sectorsPerCluster) + k)
              && buf == Flatten(v.Data()[cluster])
  {
    hide Table, Clusters, DiskOk, BytesOf, IsChain, FreeSlot, Unused;
    ChainFits(v, chain);
    ghost var dir, spc := BytesOf(v.Data(), chain), v.g.sectorsPerCluster;
    ghost var per := PerCluster(spc);
    DirSize(spc, chain, dir);
    cluster := dirCluster;
    ci := 0;
    while true
      invariant ci < |chain| && cluster == chain[ci] && ci * per <= Slots(dir)
      invariant forall j :: 0 <= j < ci * per ==> !Unused(Slot(dir, j))
      decreases |chain| - ci
    {
      ChainLink(v.Fat(), chain, ci);
      buf := v.ReadCluster(cluster);
      BytesCluster(v.Data(), v.Data(), spc, chain, ci);
      k := ScanForSlot(buf);
      ScannedSlots(dir, buf, spc, ci, k);
      if k < Slots(buf) {
        FirstUnused(dir, 0, ci * per + k);
        return true, cluster, k, buf, ci;
      }
      var next := v.ReadFatEntry(cluster);
      if next >= EOC {
        FirstUnused(dir, 0, (ci + 1) * per);
        return false, cluster, k, buf, ci;
      }
      cluster := next;
      ci := ci + 1;
    }
  }

  lemma ScannedSlots(dir: seq<Byte>, buf: seq<Byte>, spc: nat, ci: nat, n: nat)
    requires |buf| == spc * SECTOR_SIZE && n <= Slots(buf)
    requires ci * spc * SECTOR_SIZE + spc * SECTOR_SIZE <= |dir|
    requires buf == dir[ci * spc * SECTOR_SIZE..ci * spc * SECTOR_SIZE + spc * SECTOR_SIZE]
    requires forall j :: 0 <= j < n ==> !Unused(Slot(buf, j))
    requires ci * PerCluster(spc) <= Slots(dir)
    requires forall j :: 0 <= j < ci * PerCluster(spc) ==> !Unused(Slot(dir, j))
    ensures Slots(buf) == PerCluster(spc) && (ci + 1) * PerCluster(spc) == ci * PerCluster(spc) + PerCluster(spc) <= Slots(dir)
    ensures forall j :: 0 <= j < ci * PerCluster(spc) + n ==> !Unused(Slot(dir, j))
    ensures n < PerCluster(spc) ==> Slot(dir, ci * PerCluster(spc) + n) == Slot(buf, n)
  {
    hide Unused;
    var per := PerCluster(spc);
    assert (ci + 1) * per == ci * per + per;
    forall j | 0 <= j < ci * per + n ensures j < Slots(dir) && !Unused(Slot(dir, j)) {
      if j >= ci * per {
        ClusterSlots(dir, buf, spc, ci, j - ci * per);
      }
    }
    if n < per {
      ClusterSlots(dir, buf, spc, ci, n);
    }
    if per > 0 {
      ClusterSlots(dir, buf, spc, ci, per - 1);
    }
  }

  /** A claimed cluster is a chain of its own, apart from the directory's. */
  lemma NewChain(fat: Fat, n: nat, chain: seq<nat>)
    requires IsChain(fat, chain) && n in FreeSet(fat) && |fat| < EOC
    ensures IsChain(fat[n := LAST], chain) && IsChain(fat[n := LAST], [n]) && n !in chain && Disjoint([n], chain)
  {
    ClaimKeeps(fat, n, chain);
  }

  /** Writing a cluster of the directory back with one slot changed. */
  lemma SlotWritten(data: seq<seq<Sector>>, data': seq<seq<Sector>>, spc: nat, chain: seq<nat>, ci: nat, k: nat, e: Entry)
    requires DataOk(data, spc) && DataOk(data', spc) && |data'| == |data|
    requires Within(data, chain) && Distinct(chain) && ci < |chain| && k < PerCluster(spc)
    requires forall c :: 0 <= c < |data| && c != chain[ci] ==> data'[c] == data[c]
    requires |Flatten(data[chain[ci]])| == spc * SECTOR_SIZE
    requires Flatten(data'[chain[ci]]) == Splice(Flatten(data[chain[ci]]), k * DIR_SIZE, e)
    ensures ci * PerCluster(spc) + k < Slots(BytesOf(data, chain))
    ensures BytesOf(data', chain) == Put(BytesOf(data, chain), ci * PerCluster(spc) + k, e)
    ensures Slot(BytesOf(data, chain), ci * PerCluster(spc) + k) == Slot(Flatten(data[chain[ci]]), k)
  {
    hide BytesOf, Flatten;
    var dir, buf, at := BytesOf(data, chain), Flatten(data[chain[ci]]), ci * spc * SECTOR_SIZE;
    BytesCluster(data, data', spc, chain, ci);
    ClusterSlots(dir, buf, spc, ci, k);
    SpliceSplice(dir, at, buf, k * DIR_SIZE, e);
    assert (ci * PerCluster(spc) + k) * DIR_SIZE == at + k * DIR_SIZE;
  }

  /** Creates the entry and the first cluster of a file whose lookup found nothing.  The cluster is
      claimed first, so a full directory leaves it behind as an orphan.  `slot` is where in the
      directory the new entry is. */
  method CreateFile(v: FatVolume, dirCluster: nat, name: seq<Byte>, readable: bool, writable: bool, ghost chain: seq<nat>)
    returns (r: Result<File>, ghost slot: nat)
    requires v.Valid() && IsChain(v.Fat(), chain) && chain != [] && dirCluster == chain[0]
    modifies v
    ensures v.Valid() && Within(v.Data(), chain) && Within(old(v.Data()), chain) && IsChain(v.Fat(), chain)
    ensures r == Err(MkfsAborted) <==> FreeSet(old(v.Fat())) == {}
    ensures r == Err(MkfsAborted) ==> v.Fat() == old(v.Fat())
    ensures r.Err? ==> v.Data() == old(v.Data()) && (r.error == MkfsAborted || r.error == DiskErr)
    ensures r == Err(DiskErr) ==>
              && FreeSlot(BytesOf(old(v.Data()), chain), 0).None?
              && exists n :: n in FreeSet(old(v.Fat())) && n !in chain && v.Fat() == old(v.Fat())[n := LAST]
    ensures r.Ok? ==>
              && fresh(r.value) && r.value.Coherent(v) && r.value.OnChain(v.g.sectorsPerCluster) && r.value.size == 0
              && r.value.canRead == readable && r.value.canWrite == writable && r.value.modified && r.value.error == NoError
              && EntryAt(r.value, v.g.sectorsPerCluster, chain, slot)
              && r.value.chain == [r.value.startCluster] && Disjoint(r.value.chain, chain)
              && r.value.startCluster in FreeSet(old(v.Fat())) && v.Fat() == old(v.Fat())[r.value.startCluster := LAST]
    ensures r.Ok? ==> Created(old(v.Data()), v.Data(), chain, name, r.value.startCluster, slot)
  {
    hide Table, Clusters, DiskOk, BytesOf, IsChain, FreeSlot, Unused, NewEntry, FreeSet, Disjoint, Flatten, Encoded, Splice, Put;
    slot := 0;
    ghost var data, spc := v.Data(), v.g.sectorsPerCluster;
    ChainFits(v, chain);
    var c := v.ClaimCluster();
    if c.None? {
      return Err(MkfsAborted), 0;
    }
    NewChain(old(v.Fat()), c.value, chain);
    var found, destCluster, k, destBuf, ci := FindSlot(v, dirCluster, chain);
    if !found {
      return Err(DiskErr), 0;
    }
    ChainLink(v.Fat(), chain, ci);
    BytesCluster(data, data, spc, chain, ci);
    ClusterSlots(BytesOf(data, chain), destBuf, spc, ci, k);
    var nameBytes := EncodeName(name);
    var entry := NewEntry(Slot(destBuf, k), nameBytes, c.value);
    v.WriteCluster(destCluster, Splice(destBuf, k * DIR_SIZE, entry));
    SlotWritten(data, v.Data(), spc, chain, ci, k, entry);
    var f := new File(0, c.value, readable, writable, destCluster, k, true, [c.value]);
    StartIndex(v);
    slot := ci * PerCluster(spc) + k;
    assert Created(data, v.Data(), chain, name, c.value, slot);
    return Ok(f), slot;
  }

  /** The file's entry is slot `slot` of the directory. */
  ghost predicate EntryAt(f: File, spc: nat, chain: seq<nat>, slot: nat)
    reads f
  {
    && f.dirOffset < PerCluster(spc)
    && exists ci :: 0 <= ci < |chain| && f.dirCluster == chain[ci] && slot == ci * PerCluster(spc) + f.dirOffset
  }

  /** One slot of the directory holds `e` now, nothing else of the directory changed, and no cluster
      outside it. */
  ghost predicate Rewritten(data: seq<seq<Sector>>, data': seq<seq<Sector>>, chain: seq<nat>, slot: nat, e: Entry)
    requires Within(data, chain) && Within(data', chain)
  {
    && |data'| == |data|
    && (forall c :: 0 <= c < |data| && c !in chain ==> data'[c] == data[c])
    && slot < Slots(BytesOf(data, chain)) && BytesOf(data', chain) == Put(BytesOf(data, chain), slot, e)
  }

  /** The directory after a create: the first unused slot holds the new entry. */
  ghost predicate Created(data: seq<seq<Sector>>, data': seq<seq<Sector>>, chain: seq<nat>, name: seq<Byte>,
                          cluster: nat, slot: nat)
    requires Within(data, chain) && Within(data', chain)
  {
    var dir := BytesOf(data, chain);
    && FreeSlot(dir, 0) == Some(slot)
    && Rewritten(data, data', chain, slot, NewEntry(Slot(dir, slot), Encoded(name), cluster))
  }

  /** Putting both together: a created file is found again, in the slot the create chose. */
  lemma CreatedIsFound(data: seq<seq<Sector>>, data': seq<seq<Sector>>, chain: seq<nat>,
                       base: seq<Byte>, ext: seq<Byte>, cluster: nat, slot: nat)
    requires Within(data, chain) && Within(data', chain) && ShortName(base, ext)
    requires Find(BytesOf(data, chain), Joined(base, ext), 0).None?
    requires Created(data, data', chain, Joined(base, ext), cluster, slot)
    ensures Find(BytesOf(data', chain), Joined(base, ext), 0) == Some(slot)
    ensures slot < Slots(BytesOf(data', chain)) && NameOf(Slot(BytesOf(data', chain), slot)) == Joined(base, ext)
  {
    hide BytesOf, Find, FreeSlot, NameOf, Encoded;
    var dir := BytesOf(data, chain);
    var e := NewEntry(Slot(dir, slot), Encoded(Joined(base, ext)), cluster);
    CreateThenFind(dir, base, ext, slot, e);
    PutSlots(dir, slot, e, slot);
    NameRoundTrip(base, ext, e);
  }

  // Removal

  function StartIn(e: Entry): nat { Word(e[0x1A], e[0x1B], e[0x14], e[0x15]) }

  function Marked(e: Entry): (m: Entry)
    ensures m[0] == DELETED && m[1..] == e[1..]
  {
    [DELETED] + e[1..]
  }

  /** The directory after an unlink: the slot, which records the first cluster `start`, is marked
      deleted. */
  ghost predicate Removed(data: seq<seq<Sector>>, data': seq<seq<Sector>>, chain: seq<nat>, slot: nat, start: nat)
    requires Within(data, chain) && Within(data', chain)
  {
    var dir := BytesOf(data, chain);
    && slot < Slots(dir) && start == StartIn(Slot(dir, slot))
    && Rewritten(data, data', chain, slot, Marked(Slot(dir, slot)))
  }

  /** `f_unlink`: the slot the lookup finds is marked deleted, and the clusters reached from the
      first cluster it records are freed, which are exactly those of the file's chain if that
      cluster starts one. */
  method Unlink(v: FatVolume, dirCluster: nat, name: seq<Byte>, ghost chain: seq<nat>)
    returns (r: Result<()>, ghost slot: Option<nat>)
    requires v.Valid() && IsChain(v.Fat(), chain) && chain != [] && dirCluster == chain[0] && Searchable(name)
    requires Within(v.Data(), chain)
    requires var dir := BytesOf(v.Data(), chain);
             Find(dir, name, 0).Some? ==> Leads(v.Fat(), StartIn(Slot(dir, Find(dir, name, 0).value)))
    modifies v
    ensures v.Valid() && Within(v.Data(), chain) && Within(old(v.Data()), chain)
    ensures slot == Find(old(BytesOf(v.Data(), chain)), name, 0)
    ensures r == if name == [] then Err(Invalid) else if slot.None? then Err(NoFile) else Ok(())
    ensures r.Err? ==> v.Fat() == old(v.Fat()) && v.Data() == old(v.Data())
    ensures r.Ok? ==>
              var start := StartIn(Slot(old(BytesOf(v.Data(), chain)), slot.value));
              && Removed(old(v.Data()), v.Data(), chain, slot.value, start)
              && v.Fat() == Cleared(old(v.Fat()), Trail(old(v.Fat()), start))
              && forall file :: IsChain(old(v.Fat()), file) && StartOf(file) == start ==>
                   && v.Fat() == Cleared(old(v.Fat()), file)
                   && |FreeSet(v.Fat())| == |FreeSet(old(v.Fat()))| + |file|
  {
    hide Table, Clusters, DiskOk, BytesOf, IsChain, FreeSet, Find, Strays, Trail, Cleared, Leads, Marked, StartIn, Put, Slot, Slots, Rewritten;
    ghost var data, dir, spc := v.Data(), BytesOf(v.Data(), chain), v.g.sectorsPerCluster;
    ChainFits(v, chain);
    slot := Find(dir, name, 0);
    if name == [] {
      return Err(Invalid), slot;
    }
    SearchableStays(dir, name, 0);
    var place := FindEntryInDir(v, dirCluster, name, chain);
    if place.value.None? {
      return Err(NoFile), slot;
    }
    var (entryCluster, k) := place.value.value;
    ghost var ci :| 0 <= ci < |chain| && entryCluster == chain[ci] && slot == Some(ci * PerCluster(spc) + k);
    var start := MarkDeleted(v, entryCluster, k, chain, ci);
    v.FreeChain(start);
    forall file | IsChain(old(v.Fat()), file) && StartOf(file) == start
      ensures v.Fat() == Cleared(old(v.Fat()), file) && |FreeSet(v.Fat())| == |FreeSet(old(v.Fat()))| + |file|
    {
      UnlinkEdits(old(v.Fat()), old(v.Fat()), file);
    }
    return Ok(()), slot;
  }

  /** Marks slot `k` of a directory cluster deleted and reads the first cluster it records. */
  method MarkDeleted(v: FatVolume, cluster: nat, k: nat, ghost chain: seq<nat>, ghost ci: nat) returns (start: nat)
    requires v.Valid() && IsChain(v.Fat(), chain) && ci < |chain| && cluster == chain[ci]
    requires k < PerCluster(v.g.sectorsPerCluster)
    modifies v
    ensures v.Valid() && v.Fat() == old(v.Fat()) && Within(v.Data(), chain) && Within(old(v.Data()), chain)
    ensures Removed(old(v.Data()), v.Data(), chain, ci * PerCluster(v.g.sectorsPerCluster) + k, start)
  {
    hide Table, Clusters, DiskOk, BytesOf, IsChain, Flatten;
    ChainFits(v, chain);
    ghost var data, dir, spc := v.Data(), BytesOf(v.Data(), chain), v.g.sectorsPerCluster;
    ChainLink(v.Fat(), chain, ci);
    BytesCluster(data, data, spc, chain, ci);
    var buf := v.ReadCluster(cluster);
    ClusterSlots(dir, buf, spc, ci, k);
    var entry := Slot(buf, k);
    start := StartIn(entry);
    v.WriteCluster(cluster, Splice(buf, k * DIR_SIZE, Marked(entry)));
    SlotWritten(data, v.Data(), spc, chain, ci, k, Marked(entry));
  }
}
