/** Reading a directory entry by entry (src/hal/fat32.rs:1156-1202), and what create and unlink do
    to what such a reader sees. */
module DirList {
  import opened Common
  import opened FatTable
  import opened FatChain
  import opened FatBytes
  import opened FatVolume
  import opened FatFile
  import opened DirEntry
  import opened Directory
  import opened Glob

  /** The reader stops here.  Unlike the lookup, it stops at any slot that begins with a zero. */
  predicate Closes(e: Entry) { e[0] == 0 }

  predicate Live(e: Entry) { e[0] != 0 && e[0] != DELETED && !Skipped(e) && NameOf(e) != [] }

  /** The reader reports this entry. */
  ghost predicate Listed(e: Entry, pat: seq<Byte>) { Live(e) && Accepts(pat, NameOf(e)) }

  /** The names a reader gets from slot `i` on. */
  ghost function Listing(dir: seq<Byte>, pat: seq<Byte>, i: nat): seq<seq<Byte>>
    decreases Slots(dir) - i
  {
    if i >= Slots(dir) || Closes(Slot(dir, i)) then []
    else (if Listed(Slot(dir, i), pat) then [NameOf(Slot(dir, i))] else []) + Listing(dir, pat, i + 1)
  }

  lemma ListingStep(dir: seq<Byte>, pat: seq<Byte>, i: nat)
    ensures i >= Slots(dir) ==> Listing(dir, pat, i) == []
    ensures i < Slots(dir) && Closes(Slot(dir, i)) ==> Listing(dir, pat, i) == []
    ensures i < Slots(dir) && !Closes(Slot(dir, i)) && !Listed(Slot(dir, i), pat) ==>
              Listing(dir, pat, i) == Listing(dir, pat, i + 1)
    ensures i < Slots(dir) && Listed(Slot(dir, i), pat) ==>
              Listing(dir, pat, i) == [NameOf(Slot(dir, i))] + Listing(dir, pat, i + 1)
  {
  }

  /** What a listing shows of one slot, in terms of its bytes: a zero in front ends it, whatever the
      attributes; deleted entries and those with bit 3 of the attributes set are left out, and all
      others, directories among them, are shown if they have a name that the pattern accepts. */
  lemma ListingRule(dir: seq<Byte>, pat: seq<Byte>, i: nat)
    requires i < Slots(dir)
    ensures var e, rest := Slot(dir, i), Listing(dir, pat, i + 1);
            && (e[0] == 0 ==> Listing(dir, pat, i) == [])
            && (e[0] == 0xE5 ==> Listing(dir, pat, i) == rest)
            && (e[0] != 0 && e[0x0B] / 8 % 2 == 1 ==> Listing(dir, pat, i) == rest)
            && (e[0] != 0 && e[0] != 0xE5 && e[0x0B] / 8 % 2 == 0 ==>
                Listing(dir, pat, i) == (if NameOf(e) != [] && Accepts(pat, NameOf(e)) then [NameOf(e)] else []) + rest)
  {
    hide NameOf, Accepts, Slot, Slots;
  }

  /** A name reported, or the matcher leaving its buffer. */
  datatype Event = Reported(name: seq<Byte>) | OutOfBounds

  ghost predicate Crashes(e: Entry, pat: seq<Byte>) { Live(e) && pat != [] && Overruns(NameOf(e), 0, pat) }

  /** What happens to a reader from slot `i` on. */
  ghost function Events(dir: seq<Byte>, pat: seq<Byte>, i: nat): seq<Event>
    decreases Slots(dir) - i
  {
    if i >= Slots(dir) || Closes(Slot(dir, i)) then []
    else if Crashes(Slot(dir, i), pat) then [OutOfBounds]
    else (if Listed(Slot(dir, i), pat) then [Reported(NameOf(Slot(dir, i)))] else []) + Events(dir, pat, i + 1)
  }

  lemma EventsStep(dir: seq<Byte>, pat: seq<Byte>, i: nat)
    ensures i >= Slots(dir) ==> Events(dir, pat, i) == []
    ensures i < Slots(dir) && Closes(Slot(dir, i)) ==> Events(dir, pat, i) == []
    ensures i < Slots(dir) && Crashes(Slot(dir, i), pat) ==> Events(dir, pat, i) == [OutOfBounds]
    ensures i < Slots(dir) && !Closes(Slot(dir, i)) && !Crashes(Slot(dir, i), pat) && !Listed(Slot(dir, i), pat) ==>
              Events(dir, pat, i) == Events(dir, pat, i + 1)
    ensures i < Slots(dir) && !Crashes(Slot(dir, i), pat) && Listed(Slot(dir, i), pat) ==>
              Events(dir, pat, i) == [Reported(NameOf(Slot(dir, i)))] + Events(dir, pat, i + 1)
  {
  }

  /** No entry before the end marker drives the matcher out of bounds. */
  ghost predicate Safe(dir: seq<Byte>, pat: seq<Byte>, i: nat) { OutOfBounds !in Events(dir, pat, i) }

  /** The reader gets the listing in order, all of it exactly when no entry on the way drives the
      matcher out of bounds; where one does, nothing follows. */
  lemma {:induction false} EventsAre(dir: seq<Byte>, pat: seq<Byte>, i: nat)
    ensures var es, names := Events(dir, pat, i), Listing(dir, pat, i);
            && (forall j :: 0 <= j < |es| && es[j].Reported? ==> j < |names| && es[j] == Reported(names[j]))
            && (forall j :: 0 <= j < |es| && es[j].OutOfBounds? ==> j == |es| - 1)
            && (Safe(dir, pat, i) ==> |es| == |names|)
    decreases Slots(dir) - i
  {
    hide Listed, Crashes, NameOf, Slot, Slots, Events, Listing;
    EventsStep(dir, pat, i);
    ListingStep(dir, pat, i);
    if i < Slots(dir) && !Closes(Slot(dir, i)) && !Crashes(Slot(dir, i), pat) {
      EventsAre(dir, pat, i + 1);
      var es, rest := Events(dir, pat, i), Events(dir, pat, i + 1);
      assert es == rest || es[1..] == rest;
      assert forall j :: 0 <= j < |rest| ==> rest[j] in es;
    }
  }

  /** A pattern without zeros is safe in every directory. */
  lemma {:induction false} PlainIsSafe(dir: seq<Byte>, pat: seq<Byte>, i: nat)
    requires 0 !in pat
    ensures Safe(dir, pat, i)
    decreases Slots(dir) - i
  {
    hide Listed, NameOf, Slot, Slots, Overruns;
    if i < Slots(dir) && !Closes(Slot(dir, i)) {
      ZeroIn(pat);
      NoOverrun(NameOf(Slot(dir, i)), 0, pat);
      PlainIsSafe(dir, pat, i + 1);
    }
  }

  /** The part of a pattern that a reader keeps. */
  function Kept(pattern: seq<Byte>): (r: seq<Byte>)
    ensures r <= pattern && |r| == Min(|pattern|, 11)
  {
    if |pattern| < 11 then pattern else pattern[..11]
  }

  class Dir {
    var currentCluster: nat
    var entryIndex: nat
    var ended: bool
    var pattern: seq<Byte>
    ghost var chain: seq<nat>
    ghost var ci: nat

    /** `f_opendir` and `f_findfirst` on a directory that starts at `cluster`; of a pattern only the
        first eleven bytes count. */
    constructor (cluster: nat, pattern: seq<Byte>, ghost chain: seq<nat>)
      requires chain != [] && cluster == chain[0]
      ensures currentCluster == cluster && entryIndex == 0 && !ended && this.chain == chain && ci == 0
      ensures this.pattern == Kept(pattern)
    {
      currentCluster, entryIndex, ended := cluster, 0, false;
      this.pattern := Kept(pattern);
      this.chain, ci := chain, 0;
    }

    ghost predicate Valid(v: FatVolume)
      reads this, v
    {
      && v.Valid() && IsChain(v.Fat(), chain) && Within(v.Data(), chain)
      && ci < |chain| && currentCluster == chain[ci] && entryIndex <= PerCluster(v.g.sectorsPerCluster)
    }

    /** The slot the reader looks at next. */
    ghost function At(v: FatVolume): nat
      reads this, v
    {
      ci * PerCluster(v.g.sectorsPerCluster) + entryIndex
    }

    /** What is still to happen to the reader. */
    ghost function Rest(v: FatVolume): seq<Event>
      requires Valid(v)
      reads this, v
    {
      if ended then [] else Events(BytesOf(v.Data(), chain), pattern, At(v))
    }

    /** From behind the last slot of a cluster to the next cluster, if there is one. */
    method NextCluster(v: FatVolume) returns (more: bool)
      requires Valid(v) && !ended
      modifies this`currentCluster, this`entryIndex, this`ended, this`ci
      ensures Valid(v) && ended == !more
      ensures more ==> At(v) == old(At(v)) && entryIndex < PerCluster(v.g.sectorsPerCluster)
      ensures !more ==> old(At(v)) >= Slots(BytesOf(v.Data(), chain))
    {
      hide Table, Clusters, DiskOk, BytesOf, Within;
      var per := PerCluster(v.g.sectorsPerCluster);
      ChainFits(v, chain);
      StartIndex(v);
      DirSize(v.g.sectorsPerCluster, chain, BytesOf(v.Data(), chain));
      if entryIndex >= per {
        entryIndex := 0;
        assert Link(v.Fat(), chain, ci) && (ci + 1) * per == ci * per + per;
        var next := v.ReadFatEntry(currentCluster);
        if next >= EOC {
          ended := true;
          return false;
        }
        currentCluster := next;
        ci := ci + 1;
      }
      return true;
    }

    /** The slot under the cursor, which moves on. */
    method TakeEntry(v: FatVolume) returns (e: Entry)
      requires Valid(v) && entryIndex < PerCluster(v.g.sectorsPerCluster)
      modifies this`entryIndex
      ensures Valid(v) && At(v) == old(At(v)) + 1
      ensures old(At(v)) < Slots(BytesOf(v.Data(), chain)) && e == Slot(BytesOf(v.Data(), chain), old(At(v)))
    {
      hide Table, Clusters, DiskOk, BytesOf, IsChain;
      ChainFits(v, chain);
      ChainLink(v.Fat(), chain, ci);
      var buf := v.ReadCluster(currentCluster);
      BytesCluster(v.Data(), v.Data(), v.g.sectorsPerCluster, chain, ci);
      ClusterSlots(BytesOf(v.Data(), chain), buf, v.g.sectorsPerCluster, ci, entryIndex);
      e := Slot(buf, entryIndex);
      entryIndex := entryIndex + 1;
    }

    /** `r` is the first event of `rest`, with zeros behind a name, and the reader goes on behind it. */
    ghost predicate Took(v: FatVolume, rest: seq<Event>, r: Option<Event>)
      requires Valid(v)
      reads this, v
    {
      if rest == [] then r == None && ended
      else match rest[0]
        case Reported(name) => |name| < NAME_MAX && r == Some(Reported(Padded(name))) && Rest(v) == rest[1..]
        case OutOfBounds => r == Some(OutOfBounds)
    }

    /** One turn of the loop, on an open reader. */
    method Turn(v: FatVolume) returns (again: bool, r: Option<Event>)
      requires Valid(v) && !ended
      modifies this`currentCluster, this`entryIndex, this`ended, this`ci
      ensures Valid(v)
      ensures again ==> !ended && Rest(v) == old(Rest(v)) && old(At(v)) < At(v) <= Slots(BytesOf(v.Data(), chain))
      ensures !again ==> Took(v, old(Rest(v)), r)
    {
      hide Table, Clusters, DiskOk, BytesOf, IsChain, Events, Listed, Crashes, Within, Padded, Slot, Slots;
      ghost var dir := BytesOf(v.Data(), chain);
      EventsStep(dir, pattern, At(v));
      var more := NextCluster(v);
      if !more {
        return false, None;
      }
      var entry := TakeEntry(v);
      if entry[0] == 0 {
        ended := true;
        return false, None;
      }
      r := Report(entry, pattern);
      return r.None?, r;
    }

    /** `f_readdir`: the next of the names left, or nothing when none is. */
    method Readdir(v: FatVolume) returns (r: Option<Event>)
      requires Valid(v)
      modifies this`currentCluster, this`entryIndex, this`ended, this`ci
      ensures Valid(v) && Took(v, old(Rest(v)), r)
    {
      hide Events, BytesOf, Padded, Slots, IsChain, Table, Clusters, DiskOk;
      ghost var n := Slots(BytesOf(v.Data(), chain));
      while true
        invariant Valid(v) && old(Rest(v)) == Rest(v)
        decreases n - At(v)
      {
        if ended {
          return None;
        }
        var again;
        again, r := Turn(v);
        if !again {
          return;
        }
      }
    }
  }

  /** What the reader does with an entry that does not close the directory. */
  method Report(entry: Entry, pattern: seq<Byte>) returns (r: Option<Event>)
    requires entry[0] != 0
    ensures r == if Crashes(entry, pattern) then Some(OutOfBounds)
                 else if Listed(entry, pattern) then Some(Reported(Padded(NameOf(entry)))) else None
  {
    hide NameOf, Overruns;
    if entry[0] == DELETED || Skipped(entry) {
      return None;
    }
    var name := ReadDirEntryName(entry);
    if name.Some? {
      var ok := MatchPattern(NameOf(entry), pattern);
      if ok.None? {
        return Some(OutOfBounds);
      }
      if ok.value {
        return Some(Reported(name.value));
      }
    }
    return None;
  }

  /** Reading from the start until nothing is left, as every caller does: the names of the listing,
      each once and in order, up to an entry where the matcher leaves its buffer, which `ok` denies. */
  method ReadAll(v: FatVolume, cluster: nat, pattern: seq<Byte>, ghost chain: seq<nat>)
    returns (names: seq<seq<Byte>>, ok: bool)
    requires v.Valid() && IsChain(v.Fat(), chain) && chain != [] && cluster == chain[0] && Within(v.Data(), chain)
    ensures ok <==> Safe(BytesOf(v.Data(), chain), Kept(pattern), 0)
    ensures |names| == |Events(BytesOf(v.Data(), chain), Kept(pattern), 0)| - if ok then 0 else 1
    ensures var all := Listing(BytesOf(v.Data(), chain), Kept(pattern), 0);
            && (if ok then |names| == |all| else |names| <= |all|)
            && forall i :: 0 <= i < |names| ==> |all[i]| < NAME_MAX && names[i] == Padded(all[i])
  {
    hide Events, Listing, BytesOf, Padded, Slots, IsChain, Table, Clusters, DiskOk;
    var dir := new Dir(cluster, pattern, chain);
    ghost var events := Events(BytesOf(v.Data(), chain), Kept(pattern), 0);
    ghost var all := Listing(BytesOf(v.Data(), chain), Kept(pattern), 0);
    EventsAre(BytesOf(v.Data(), chain), Kept(pattern), 0);
    names := [];
    while true
      invariant dir.Valid(v) && dir.chain == chain && |names| <= |events| && |names| <= |all| && dir.Rest(v) == events[|names|..]
      invariant forall i :: 0 <= i < |names| ==> events[i].Reported? && |all[i]| < NAME_MAX && names[i] == Padded(all[i])
      decreases |events| - |names|
    {
      assert |names| < |events| ==> dir.Rest(v)[0] == events[|names|] && dir.Rest(v)[1..] == events[|names| + 1..];
      var r := dir.Readdir(v);
      if r.None? {
        return names, true;
      }
      if r.value.OutOfBounds? {
        assert events[|names|] == OutOfBounds;
        return names, false;
      }
      names := names + [r.value.name];
    }
  }

  // What create and unlink do to a listing

  /** The names reported between slots `i` and `s`. */
  ghost function Names(dir: seq<Byte>, pat: seq<Byte>, i: nat, s: nat): seq<seq<Byte>>
    requires s <= Slots(dir)
    decreases s - i
  {
    if i >= s then []
    else (if Listed(Slot(dir, i), pat) then [NameOf(Slot(dir, i))] else []) + Names(dir, pat, i + 1, s)
  }

  /** No slot before `s` closes the directory. */
  predicate Open(dir: seq<Byte>, s: nat)
    requires s <= Slots(dir)
  {
    forall j :: 0 <= j < s ==> !Closes(Slot(dir, j))
  }

  lemma {:induction false} ListingSplit(dir: seq<Byte>, pat: seq<Byte>, i: nat, s: nat)
    requires i <= s <= Slots(dir) && Open(dir, s)
    ensures Listing(dir, pat, i) == Names(dir, pat, i, s) + Listing(dir, pat, s)
    decreases s - i
  {
    hide Listed, NameOf, Slot, Slots;
    if i < s {
      ListingSplit(dir, pat, i + 1, s);
    }
  }

  /** A directory that closes before `s` lists nothing from `s` on. */
  lemma {:induction false} ListingClosed(dir: seq<Byte>, dir': seq<Byte>, pat: seq<Byte>, i: nat, c: nat)
    requires i <= c < Slots(dir) == Slots(dir') && Closes(Slot(dir, c))
    requires forall j :: 0 <= j <= c ==> Slot(dir', j) == Slot(dir, j)
    ensures Listing(dir', pat, i) == Listing(dir, pat, i)
    decreases c - i
  {
    hide Listed, NameOf, Slot, Slots;
    if i < c {
      ListingClosed(dir, dir', pat, i + 1, c);
    }
  }

  /** Changing a slot does not change what is listed behind it: a reader already past it goes on as
      before. */
  lemma {:induction false} ListingBehind(dir: seq<Byte>, pat: seq<Byte>, s: nat, e: Entry, i: nat)
    requires s < Slots(dir) && s < i
    ensures Listing(Put(dir, s, e), pat, i) == Listing(dir, pat, i)
    decreases Slots(dir) - i
  {
    hide Listed, NameOf, Slot, Slots, Put;
    PutSlots(dir, s, e, s);
    if i < Slots(dir) {
      PutSlots(dir, s, e, i);
      ListingBehind(dir, pat, s, e, i + 1);
    }
  }

  lemma {:induction false} NamesBefore(dir: seq<Byte>, pat: seq<Byte>, s: nat, e: Entry, i: nat)
    requires i <= s < Slots(dir)
    ensures Slots(Put(dir, s, e)) == Slots(dir)
    ensures Names(Put(dir, s, e), pat, i, s) == Names(dir, pat, i, s)
    decreases s - i
  {
    hide Listed, NameOf, Slot, Slots, Put;
    PutSlots(dir, s, e, i);
    if i < s {
      NamesBefore(dir, pat, s, e, i + 1);
    }
  }

  /** A listing around slot `s`, before and after `e` is put there. */
  lemma ListingAround(dir: seq<Byte>, pat: seq<Byte>, s: nat, e: Entry)
    requires s < Slots(dir) && Open(dir, s)
    ensures Listing(dir, pat, 0) == Names(dir, pat, 0, s) + Listing(dir, pat, s)
    ensures Listing(Put(dir, s, e), pat, 0) == Names(dir, pat, 0, s) +
                                              (if Closes(e) then []
                                               else (if Listed(e, pat) then [NameOf(e)] else []) + Listing(dir, pat, s + 1))
  {
    hide Listed, NameOf, Slot, Slots, Put;
    var dir' := Put(dir, s, e);
    forall j | 0 <= j <= s ensures Slots(dir') == Slots(dir) && Slot(dir', j) == if j == s then e else Slot(dir, j) {
      PutSlots(dir, s, e, j);
    }
    ListingSplit(dir, pat, 0, s);
    ListingSplit(dir', pat, 0, s);
    NamesBefore(dir, pat, s, e, 0);
    ListingBehind(dir, pat, s, e, s + 1);
    ListingStep(dir', pat, s);
  }

  /** A create adds its name to the listing.  When it takes the slot that closed the directory,
      whatever is behind that slot shows again: the listing gains the new name and nothing else
      exactly when the slot was a deleted one or nothing is listed behind it. */
  lemma CreateLists(dir: seq<Byte>, pat: seq<Byte>, base: seq<Byte>, ext: seq<Byte>, s: nat, e: Entry)
    requires ShortName(base, ext) && FreeSlot(dir, 0) == Some(s)
    requires e[..11] == Encoded(Joined(base, ext)) && e[ATTR_OFFSET] == ATTR_ARCHIVE
    ensures var before, name := Names(dir, pat, 0, s), Joined(base, ext);
            var added := if Accepts(pat, name) then [name] else [];
            && before <= Listing(dir, pat, 0)
            && Listing(Put(dir, s, e), pat, 0) == before + added + Listing(dir, pat, s + 1)
            && (Listing(Put(dir, s, e), pat, 0) == before + added + Listing(dir, pat, 0)[|before|..] <==>
                Slot(dir, s)[0] == DELETED || Listing(dir, pat, s + 1) == [])
  {
    hide Listing, NameOf, Slot, Slots, Put, Encoded, Accepts, FreeSlot;
    FreeIsOpen(dir, s);
    NameRoundTrip(base, ext, e);
    ListingAround(dir, pat, s, e);
    ListingStep(dir, pat, s);
  }

  lemma FreeIsOpen(dir: seq<Byte>, s: nat)
    requires FreeSlot(dir, 0) == Some(s)
    ensures Open(dir, s) && Unused(Slot(dir, s))
  {
    hide FreeSlot, Slot;
  }

  /** An unlink takes the name of the slot it marks out of the listing, and nothing else; behind a
      slot where the reader stops, it changes nothing the reader sees. */
  lemma UnlinkLists(dir: seq<Byte>, pat: seq<Byte>, t: seq<Byte>, s: nat)
    requires Find(dir, t, 0) == Some(s)
    ensures var before, name := Names(dir, pat, 0, s), NameOf(Slot(dir, s));
            var listed := if Accepts(pat, name) then [name] else [];
            if Open(dir, s) then
              && Listing(dir, pat, 0) == before + listed + Listing(dir, pat, s + 1)
              && Listing(Put(dir, s, Marked(Slot(dir, s))), pat, 0) == before + Listing(dir, pat, s + 1)
            else Listing(Put(dir, s, Marked(Slot(dir, s))), pat, 0) == Listing(dir, pat, 0)
  {
    hide Listing, NameOf, Slot, Slots, Put, Accepts, Find, PrefixOf;
    var e := Slot(dir, s);
    var dir' := Put(dir, s, Marked(e));
    if Open(dir, s) {
      ListingAround(dir, pat, s, Marked(e));
      ListingStep(dir, pat, s);
    } else {
      var c :| 0 <= c < s && Closes(Slot(dir, c));
      forall j | 0 <= j <= c ensures Slots(dir') == Slots(dir) && Slot(dir', j) == Slot(dir, j) {
        PutSlots(dir, s, Marked(e), j);
      }
      ListingClosed(dir, dir', pat, 0, c);
    }
  }
}
