/** All files and directories of a volume together, over whole runs of the operations on them.

    A directory entry records the first cluster of its file.  When a file starts another chain, its
    entry goes on recording the old one until the file is synced: the entry is stale.  So a cluster in
    use belongs to the chain of a file, or to one that only a stale entry leads to, or is an orphan. */
module FatFiles {
  import opened FatTable
  import opened FatChain
  import opened FatBytes
  import opened DirEntry
  import opened Directory

  /** Where the entry of a file is. */
  datatype Place = Place(dir: nat, slot: nat)

  /** Table, clusters, the chains by their owners, and the place of each file's entry. */
  datatype Vol = Vol(fat: Fat, data: seq<seq<Sector>>, chains: Chains, entries: map<nat, Place>)

  /** The chain whose first cluster the entry of `f` records. */
  function Recorded(chains: Chains, f: nat): seq<nat>
    requires Of(f) in chains
  {
    if Stale(f) in chains then chains[Stale(f)] else chains[Of(f)]
  }

  /** The slot `p` is there and records the first cluster of what it should. */
  ghost predicate EntryOk(v: Vol, f: nat, p: Place) {
    && Of(f) in v.chains && Of(p.dir) in v.chains && Within(v.data, v.chains[Of(p.dir)])
    && p.slot < Slots(BytesOf(v.data, v.chains[Of(p.dir)]))
    && StartIn(Slot(BytesOf(v.data, v.chains[Of(p.dir)]), p.slot)) == StartOf(Recorded(v.chains, f))
  }

  ghost predicate Entries(v: Vol) {
    && (forall f :: f in v.entries ==> EntryOk(v, f, v.entries[f]) && v.entries[f].dir != f)
    && (forall f, g :: f in v.entries && g in v.entries && f != g ==> v.entries[f] != v.entries[g])
  }

  /** All chains are acyclic, terminated and disjoint, and every entry leads to its chain. */
  ghost predicate Sound(v: Vol) {
    && |v.data| == |v.fat| < EOC && AllChains(v.fat, v.chains)
    && (forall f :: Stale(f) in v.chains ==> Of(f) in v.chains)
    && Entries(v)
  }

  /** What an operation comes to.  `Start` is a write or expand that gives the file a new first
      cluster, `CreateFull` a create in a directory without a free slot, `Refused` an operation that
      changes nothing. */
  datatype Op =
    | Write(f: nat)
    | Start(f: nat)
    | Expand(f: nat)
    | Truncate(f: nat)
    | Create(f: nat, dir: nat)
    | CreateFull
    | Open(f: nat)
    | Sync(f: nat, dir: nat)
    | Unlink(f: nat, dir: nat)
    | Refused

  /** Of a directory that is written like a file nothing is known any more. */
  function Outside(entries: map<nat, Place>, dir: nat): map<nat, Place> {
    map f | f in entries && entries[f].dir != dir :: entries[f]
  }

  function Free(entries: map<nat, Place>, p: Place): map<nat, Place> {
    map f | f in entries && entries[f] != p :: entries[f]
  }

  /** The chain of `f` becomes another, and nothing else changes. */
  ghost predicate Edits(v: Vol, v': Vol, f: nat) {
    && Of(f) in v.chains && Of(f) in v'.chains && v'.chains == v.chains[Of(f) := v'.chains[Of(f)]]
    && Edited(v.fat, v'.fat, v.data, v'.data, v.chains[Of(f)], v'.chains[Of(f)])
    && StartOf(v'.chains[Of(f)]) == StartOf(v.chains[Of(f)]) && v'.entries == Outside(v.entries, f)
  }

  /** The chains once what the entry of `f` records is told apart from the chain of `f`. */
  function Noted(chains: Chains, f: nat): Chains
    requires Of(f) in chains
  {
    if Stale(f) in chains then chains else chains[Stale(f) := chains[Of(f)]]
  }

  /** The slot of the directory now holds `e`, and nothing else on the disk changed. */
  ghost predicate Puts(v: Vol, v': Vol, dir: nat, slot: nat, e: Entry) {
    && Of(dir) in v.chains && Within(v.data, v.chains[Of(dir)]) && Within(v'.data, v.chains[Of(dir)])
    && Rewritten(v.data, v'.data, v.chains[Of(dir)], slot, e)
  }

  ghost predicate Step(v: Vol, v': Vol, op: Op) {
    match op
    case Write(f) => Edits(v, v', f) && v.chains[Of(f)] <= v'.chains[Of(f)]
    case Expand(f) => Edits(v, v', f) && v.chains[Of(f)] <= v'.chains[Of(f)] && v'.data == v.data
    case Truncate(f) => Edits(v, v', f) && v'.chains[Of(f)] <= v.chains[Of(f)] && v'.data == v.data
    case Start(f) =>
      && Of(f) in v.chains && Of(f) in v'.chains && v'.chains == Noted(v.chains, f)[Of(f) := v'.chains[Of(f)]]
      && Edited(v.fat, v'.fat, v.data, v'.data, [], v'.chains[Of(f)]) && v'.chains[Of(f)] != []
      && v'.entries == Outside(v.entries, f)
    case Create(f, dir) =>
      && Of(f) !in v.chains && Of(dir) in v.chains && Of(f) in v'.chains && v'.chains == v.chains[Of(f) := v'.chains[Of(f)]]
      && |v'.chains[Of(f)]| == 1 && v'.chains[Of(f)][0] in FreeSet(v.fat) && v'.fat == v.fat[v'.chains[Of(f)][0] := LAST]
      && f in v'.entries && v'.entries[f].dir == dir && v'.entries == Free(v.entries, v'.entries[f])[f := v'.entries[f]]
      && exists e: Entry :: StartIn(e) == v'.chains[Of(f)][0] && Puts(v, v', dir, v'.entries[f].slot, e)
    case CreateFull =>
      && v'.chains == v.chains && v'.data == v.data && v'.entries == v.entries
      && exists n :: n in FreeSet(v.fat) && v'.fat == v.fat[n := LAST]
    case Open(f) =>
      && f in v.entries && Of(f) in v.chains
      && v' == v.(chains := (v.chains - {Stale(f)})[Of(f) := Recorded(v.chains, f)],
                  entries := if Stale(f) in v.chains then Outside(v.entries, f) else v.entries)
    case Sync(f, dir) =>
      && f in v.entries && v.entries[f].dir == dir && Of(f) in v.chains
      && v' == v.(chains := v.chains - {Stale(f)}, data := v'.data)
      && exists e: Entry :: StartIn(e) == StartOf(v.chains[Of(f)]) && Puts(v, v', dir, v.entries[f].slot, e)
    case Unlink(f, dir) =>
      && f in v.entries && v.entries[f].dir == dir && Of(f) in v.chains
      && v'.chains == v.chains - {Of(f), Stale(f)} && v'.entries == Outside(v.entries, f) - {f}
      && v'.fat == Cleared(v.fat, Recorded(v.chains, f))
      && exists e: Entry :: Puts(v, v', dir, v.entries[f].slot, e)
    case Refused => v' == v
  }

  /** The chains that an operation works on. */
  function Touched(op: Op): set<Owner> {
    match op
    case Start(f) => {Of(f), Stale(f)}
    case Open(f) => {Of(f), Stale(f)}
    case Create(f, dir) => {Of(f), Of(dir)}
    case Sync(f, dir) => {Stale(f), Of(dir)}
    case Unlink(f, dir) => {Of(f), Stale(f), Of(dir)}
    case CreateFull => {}
    case Refused => {}
    case _ => {Of(op.f)}
  }

  /** The clusters that an operation makes orphans.  A file that starts a new chain leaves the old one
      to its entry, unless that is stale already.  Through a stale entry an unlink frees what the
      entry records and forgets the file's chain, an open goes back to the former and forgets the
      latter, and a sync forgets the former. */
  ghost function Lost(v: Vol, v': Vol, op: Op): set<nat> {
    match op
    case Start(f) => IfStale(v.chains, f, Of(f))
    case Open(f) => IfStale(v.chains, f, Of(f))
    case Unlink(f, _) => IfStale(v.chains, f, Of(f))
    case Sync(f, _) => IfStale(v.chains, f, Stale(f))
    case CreateFull => FreeSet(v.fat) - FreeSet(v'.fat)
    case _ => {}
  }

  ghost function IfStale(chains: Chains, f: nat, o: Owner): set<nat> {
    if Stale(f) in chains && o in chains then Members(chains[o]) else {}
  }

  // Chains that change their owner

  /** Adding or removing an empty chain. */
  lemma EmptyChain(fat: Fat, chains: Chains, o: Owner)
    requires AllChains(fat, chains) && (o in chains ==> chains[o] == [])
    ensures AllChains(fat, chains[o := []]) && Orphans(fat, chains[o := []]) == Orphans(fat, chains)
    ensures AllChains(fat, chains - {o}) && Orphans(fat, chains - {o}) == Orphans(fat, chains)
  {
    hide IsChain;
    NoChain(fat);
    SameButEmpty(fat, chains, chains[o := []], o);
    SameButEmpty(fat, chains, chains - {o}, o);
  }

  lemma SameButEmpty(fat: Fat, chains: Chains, chains': Chains, o: Owner)
    requires AllChains(fat, chains) && IsChain(fat, [])
    requires (o in chains ==> chains[o] == []) && (o in chains' ==> chains'[o] == [])
    requires forall x :: x != o ==> (x in chains' <==> x in chains)
    requires forall x :: x in chains && x != o ==> chains'[x] == chains[x]
    ensures AllChains(fat, chains') && Orphans(fat, chains') == Orphans(fat, chains)
  {
    hide IsChain;
    forall c | 2 <= c < |fat| ensures c in Orphans(fat, chains') <==> c in Orphans(fat, chains) {
      if c in Orphans(fat, chains') {
        forall x | x in chains ensures c !in chains[x] {
          assert x != o ==> x in chains';
        }
      }
    }
  }

  /** Forgetting a chain makes its clusters orphans. */
  lemma ForgottenChain(fat: Fat, chains: Chains, o: Owner)
    requires AllChains(fat, chains) && o in chains
    ensures AllChains(fat, chains[o := []])
    ensures Orphans(fat, chains[o := []]) == Orphans(fat, chains) + Members(chains[o])
  {
    hide IsChain;
    var less := chains[o := []];
    assert IsChain(fat, []) by {
      NoChain(fat);
    }
    forall c | c in chains[o] ensures 2 <= c < |fat| && fat[c] != 0 {
      ChainEntry(fat, chains[o], c);
    }
    forall c | c in chains[o] ensures c in Orphans(fat, less) {
      forall x | x in less ensures c !in less[x] {
        assert x != o ==> Disjoint(chains[o], chains[x]);
      }
    }
    forall c | c in Orphans(fat, less) && c !in chains[o] ensures c in Orphans(fat, chains) {
      forall x | x in chains ensures c !in chains[x] {
        assert x != o ==> less[x] == chains[x];
      }
    }
    forall c | c in Orphans(fat, chains) ensures c in Orphans(fat, less) {
      forall x | x in less ensures c !in less[x] {
        assert x in chains;
      }
    }
  }

  lemma NoChain(fat: Fat)
    ensures IsChain(fat, [])
  {
  }

  /** Handing a chain over makes no orphan. */
  lemma MovedChain(fat: Fat, chains: Chains, from: Owner, to: Owner)
    requires AllChains(fat, chains) && from in chains && from != to && (to in chains ==> chains[to] == [])
    ensures var moved := chains[to := chains[from]][from := []];
            AllChains(fat, moved) && Orphans(fat, moved) == Orphans(fat, chains)
  {
    hide IsChain;
    var moved := chains[to := chains[from]][from := []];
    NoChain(fat);
    forall x, y | x in moved && y in moved && x != y ensures Disjoint(moved[x], moved[y]) {
      assert x != from && x != to ==> x in chains && moved[x] == chains[x];
      assert y != from && y != to ==> y in chains && moved[y] == chains[y];
    }
    forall c | 2 <= c < |fat| ensures c in Orphans(fat, moved) <==> c in Orphans(fat, chains) {
      if c in Orphans(fat, moved) {
        assert c !in moved[to];
        forall x | x in chains ensures c !in chains[x] {
          assert x != from && x != to ==> moved[x] == chains[x];
        }
      }
      if c in Orphans(fat, chains) {
        assert c !in chains[from];
        forall x | x in moved ensures c !in moved[x] {
          assert x != from && x != to ==> x in chains && moved[x] == chains[x];
        }
      }
    }
  }

  // One step: chains

  ghost predicate ChainsSound(v: Vol, v': Vol, lost: set<nat>) {
    && |v'.data| == |v'.fat| == |v.fat| && AllChains(v'.fat, v'.chains)
    && Orphans(v'.fat, v'.chains) == Orphans(v.fat, v.chains) + lost
  }

  lemma EditedSizes(v: Vol, v': Vol, chain: seq<nat>, chain': seq<nat>)
    requires Edited(v.fat, v'.fat, v.data, v'.data, chain, chain')
    ensures |v'.fat| == |v.fat| == |v.data| == |v'.data|
  {
  }

  lemma EditChains(v: Vol, v': Vol, op: Op)
    requires Sound(v) && Step(v, v', op) && (op.Write? || op.Expand? || op.Truncate?)
    ensures ChainsSound(v, v', {})
  {
    hide IsChain, AllChains, Orphans, Edited, Entries;
    var f := op.f;
    EditedAll(v.fat, v'.fat, v.data, v'.data, v.chains, Of(f), v'.chains[Of(f)]);
    EditedSizes(v, v', v.chains[Of(f)], v'.chains[Of(f)]);
  }

  lemma StartChains(v: Vol, v': Vol, f: nat)
    requires Sound(v) && Step(v, v', Start(f))
    ensures ChainsSound(v, v', Lost(v, v', Start(f)))
  {
    hide IsChain, AllChains, Orphans, Edited, Entries;
    var without := Noted(v.chains, f)[Of(f) := []];
    if Stale(f) in v.chains {
      ForgottenChain(v.fat, v.chains, Of(f));
    } else {
      MovedChain(v.fat, v.chains, Of(f), Stale(f));
    }
    EditedAll(v.fat, v'.fat, v.data, v'.data, without, Of(f), v'.chains[Of(f)]);
    EditedSizes(v, v', [], v'.chains[Of(f)]);
    assert without[Of(f) := v'.chains[Of(f)]] == v'.chains;
  }

  lemma CreateChains(v: Vol, v': Vol, f: nat, dir: nat)
    requires Sound(v) && Step(v, v', Create(f, dir))
    ensures ChainsSound(v, v', {})
  {
    hide IsChain, AllChains, Orphans, Edited, Entries, FreeSet, BytesOf;
    var n := v'.chains[Of(f)][0];
    var e: Entry :| StartIn(e) == n && Puts(v, v', dir, v'.entries[f].slot, e);
    FreeEntry(v.fat, n);
    EmptyChain(v.fat, v.chains, Of(f));
    ClaimEdits(v.fat, v.data, n);
    EditedAll(v.fat, v'.fat, v.data, v.data, v.chains[Of(f) := []], Of(f), [n]);
    assert v'.chains[Of(f)] == [n];
    assert v.chains[Of(f) := []][Of(f) := [n]] == v'.chains;
  }

  lemma FullChains(v: Vol, v': Vol)
    requires Sound(v) && Step(v, v', CreateFull)
    ensures ChainsSound(v, v', Lost(v, v', CreateFull))
  {
    hide IsChain, AllChains, Orphans, Entries;
    var n :| n in FreeSet(v.fat) && v'.fat == v.fat[n := LAST];
    AppendMidway(v.fat, v.chains, n);
    assert FreeSet(v.fat) - FreeSet(v'.fat) == {n};
  }

  lemma OpenChains(v: Vol, v': Vol, f: nat)
    requires Sound(v) && Step(v, v', Open(f))
    ensures ChainsSound(v, v', Lost(v, v', Open(f)))
  {
    hide IsChain, AllChains, Orphans, Entries;
    if Stale(f) in v.chains {
      var c1 := v.chains[Of(f) := []];
      ForgottenChain(v.fat, v.chains, Of(f));
      MovedChain(v.fat, c1, Stale(f), Of(f));
      var c2 := c1[Of(f) := c1[Stale(f)]][Stale(f) := []];
      EmptyChain(v.fat, c2, Stale(f));
      assert c2 - {Stale(f)} == v'.chains;
    } else {
      assert v'.chains == v.chains;
    }
  }

  lemma SyncChains(v: Vol, v': Vol, f: nat, dir: nat)
    requires Sound(v) && Step(v, v', Sync(f, dir))
    ensures ChainsSound(v, v', Lost(v, v', Sync(f, dir)))
  {
    hide IsChain, AllChains, Orphans, Entries, BytesOf;
    if Stale(f) in v.chains {
      ForgottenChain(v.fat, v.chains, Stale(f));
      EmptyChain(v.fat, v.chains[Stale(f) := []], Stale(f));
      assert v.chains[Stale(f) := []] - {Stale(f)} == v'.chains;
    } else {
      assert v'.chains == v.chains;
    }
  }

  lemma UnlinkChains(v: Vol, v': Vol, f: nat, dir: nat)
    requires Sound(v) && Step(v, v', Unlink(f, dir))
    ensures ChainsSound(v, v', Lost(v, v', Unlink(f, dir)))
  {
    hide IsChain, AllChains, Orphans, Edited, Entries, BytesOf, Cleared;
    var o := if Stale(f) in v.chains then Stale(f) else Of(f);
    OneOfAll(v.fat, v.chains, o);
    UnlinkEdits(v.fat, v.data, v.chains[o]);
    EditedAll(v.fat, v'.fat, v.data, v.data, v.chains, o, []);
    EmptyChain(v'.fat, v.chains[o := []], o);
    var c1 := v.chains[o := []] - {o};
    if o == Stale(f) {
      ForgottenChain(v'.fat, c1, Of(f));
      EmptyChain(v'.fat, c1[Of(f) := []], Of(f));
      assert c1[Of(f) := []] - {Of(f)} == v'.chains;
    } else {
      assert c1 == v'.chains;
    }
    EditedSizes(v, v'.(data := v.data), v.chains[o], []);
  }

  // One step: entries

  /** A chain that the operation does not work on stays, with all its bytes. */
  lemma StepKeeps(v: Vol, v': Vol, op: Op, o: Owner)
    requires Sound(v) && Step(v, v', op) && o in v.chains && o !in Touched(op)
    ensures o in v'.chains && v'.chains[o] == v.chains[o]
    ensures Within(v.data, v.chains[o]) && Within(v'.data, v.chains[o])
    ensures BytesOf(v'.data, v.chains[o]) == BytesOf(v.data, v.chains[o])
  {
    hide IsChain, Edited, Entries, BytesOf, Slots, Put, FreeSet, Cleared, StartIn;
    var chain := v.chains[o];
    OneOfAll(v.fat, v.chains, o);
    forall c | c in chain ensures 2 <= c < |v.data| {
      ChainEntry(v.fat, chain, c);
    }
    if op.Create? || op.Unlink? || op.Sync? {
      assert Disjoint(chain, v.chains[Of(op.dir)]);
    } else if op.Start? {
      EditedSizes(v, v', [], v'.chains[Of(op.f)]);
      OthersKept(v.fat, v'.fat, v.data, v'.data, [], v'.chains[Of(op.f)], chain);
    } else if op.Write? || op.Expand? || op.Truncate? {
      EditedSizes(v, v', v.chains[Of(op.f)], v'.chains[Of(op.f)]);
      OthersKept(v.fat, v'.fat, v.data, v'.data, v.chains[Of(op.f)], v'.chains[Of(op.f)], chain);
    }
    BytesFrame(v.data, v'.data, chain);
  }

  lemma KeptEntry(v: Vol, v': Vol, f: nat, p: Place)
    requires EntryOk(v, f, p) && Of(f) in v'.chains && StartOf(Recorded(v'.chains, f)) == StartOf(Recorded(v.chains, f))
    requires Of(p.dir) in v'.chains && v'.chains[Of(p.dir)] == v.chains[Of(p.dir)] && Within(v'.data, v.chains[Of(p.dir)])
    requires var d, d' := BytesOf(v.data, v.chains[Of(p.dir)]), BytesOf(v'.data, v.chains[Of(p.dir)]);
             p.slot < Slots(d') && Slot(d', p.slot) == Slot(d, p.slot)
    ensures EntryOk(v', f, p)
  {
  }

  /** An entry of a directory that the operation does not work on, or another slot of one that it
      writes an entry into. */
  lemma FrameEntry(v: Vol, v': Vol, op: Op, f: nat, p: Place)
    requires Sound(v) && Step(v, v', op) && EntryOk(v, f, p) && Of(p.dir) !in Touched(op)
    requires Of(f) in v'.chains && StartOf(Recorded(v'.chains, f)) == StartOf(Recorded(v.chains, f))
    ensures EntryOk(v', f, p)
  {
    hide IsChain, AllChains, Edited, Entries, BytesOf, Slots, Slot, Put, FreeSet, Cleared, StartIn, Recorded, Step, Touched;
    StepKeeps(v, v', op, Of(p.dir));
    KeptEntry(v, v', f, p);
  }

  lemma OtherSlot(v: Vol, v': Vol, dir: nat, slot: nat, e: Entry, f: nat, p: Place)
    requires Puts(v, v', dir, slot, e) && EntryOk(v, f, p) && p.dir == dir && p.slot != slot
    requires Of(dir) in v'.chains && v'.chains[Of(dir)] == v.chains[Of(dir)]
    requires Of(f) in v'.chains && StartOf(Recorded(v'.chains, f)) == StartOf(Recorded(v.chains, f))
    ensures EntryOk(v', f, p)
  {
    hide BytesOf, Slots, Slot, Put, StartIn, Recorded;
    PutSlots(BytesOf(v.data, v.chains[Of(dir)]), slot, e, p.slot);
    KeptEntry(v, v', f, p);
  }

  /** The written slot itself. */
  lemma PutEntry(v: Vol, v': Vol, f: nat, p: Place, e: Entry)
    requires Puts(v, v', p.dir, p.slot, e) && Of(p.dir) in v'.chains && v'.chains[Of(p.dir)] == v.chains[Of(p.dir)]
    requires Of(f) in v'.chains && StartIn(e) == StartOf(Recorded(v'.chains, f))
    ensures EntryOk(v', f, p)
  {
    hide BytesOf, Slots, Slot, Put, StartIn, Recorded;
    PutSlots(BytesOf(v.data, v.chains[Of(p.dir)]), p.slot, e, p.slot);
  }

  lemma EditEntries(v: Vol, v': Vol, op: Op)
    requires Sound(v) && Step(v, v', op) && (op.Write? || op.Expand? || op.Truncate? || op.Start?)
    ensures Entries(v')
  {
    hide IsChain, AllChains, Edited, EntryOk;
    forall f | f in v'.entries ensures EntryOk(v', f, v'.entries[f]) && v'.entries[f].dir != f {
      EntryFiles(v, f);
      FrameEntry(v, v', op, f, v.entries[f]);
    }
  }

  lemma EntryFiles(v: Vol, f: nat)
    requires Entries(v) && f in v.entries
    ensures Of(f) in v.chains && Of(v.entries[f].dir) in v.chains
  {
  }

  lemma OpenEntries(v: Vol, v': Vol, f: nat)
    requires Sound(v) && Step(v, v', Open(f))
    ensures Entries(v')
  {
    hide IsChain, AllChains, EntryOk;
    if Stale(f) in v.chains {
      forall g | g in v'.entries ensures EntryOk(v', g, v'.entries[g]) && v'.entries[g].dir != g {
        EntryFiles(v, g);
        FrameEntry(v, v', Open(f), g, v.entries[g]);
      }
    } else {
      assert v'.chains == v.chains && v' == v;
    }
  }

  lemma CreateEntries(v: Vol, v': Vol, f: nat, dir: nat)
    requires Sound(v) && Step(v, v', Create(f, dir))
    ensures Entries(v')
  {
    hide IsChain, AllChains, EntryOk, Puts, StartIn, FreeSet;
    var p := v'.entries[f];
    var e: Entry :| StartIn(e) == v'.chains[Of(f)][0] && Puts(v, v', dir, p.slot, e);
    PutEntry(v, v', f, p, e);
    forall g | g in v'.entries && g != f ensures EntryOk(v', g, v'.entries[g]) && v'.entries[g].dir != g {
      EntryFiles(v, g);
      if v.entries[g].dir == dir {
        OtherSlot(v, v', dir, p.slot, e, g, v.entries[g]);
      } else {
        FrameEntry(v, v', Create(f, dir), g, v.entries[g]);
      }
    }
  }

  lemma SyncEntries(v: Vol, v': Vol, f: nat, dir: nat)
    requires Sound(v) && Step(v, v', Sync(f, dir))
    ensures Entries(v')
  {
    hide IsChain, AllChains, EntryOk, Puts, StartIn;
    var p := v.entries[f];
    var e: Entry :| StartIn(e) == StartOf(v.chains[Of(f)]) && Puts(v, v', dir, p.slot, e);
    EntryFiles(v, f);
    PutEntry(v, v', f, p, e);
    forall g | g in v'.entries && g != f ensures EntryOk(v', g, v'.entries[g]) && v'.entries[g].dir != g {
      EntryFiles(v, g);
      if v.entries[g].dir == dir {
        OtherSlot(v, v', dir, p.slot, e, g, v.entries[g]);
      } else {
        FrameEntry(v, v', Sync(f, dir), g, v.entries[g]);
      }
    }
  }

  lemma UnlinkEntries(v: Vol, v': Vol, f: nat, dir: nat)
    requires Sound(v) && Step(v, v', Unlink(f, dir))
    ensures Entries(v')
  {
    hide IsChain, AllChains, EntryOk, Puts, StartIn, Cleared;
    var p := v.entries[f];
    var e: Entry :| Puts(v, v', dir, p.slot, e);
    forall g | g in v'.entries ensures EntryOk(v', g, v'.entries[g]) && v'.entries[g].dir != g {
      EntryFiles(v, g);
      if v.entries[g].dir == dir {
        OtherSlot(v, v', dir, p.slot, e, g, v.entries[g]);
      } else {
        FrameEntry(v, v', Unlink(f, dir), g, v.entries[g]);
      }
    }
  }

  lemma FullEntries(v: Vol, v': Vol)
    requires Entries(v) && Step(v, v', CreateFull)
    ensures Entries(v')
  {
    forall f | f in v'.entries ensures EntryOk(v', f, v'.entries[f]) && v'.entries[f].dir != f {
      assert EntryOk(v, f, v.entries[f]);
    }
  }

  lemma StaleHasFile(v: Vol, v': Vol, op: Op)
    requires Sound(v) && Step(v, v', op)
    ensures forall f :: Stale(f) in v'.chains ==> Of(f) in v'.chains
  {
    hide IsChain, AllChains, Edited, Entries, Puts, FreeSet, Cleared;
  }

  lemma RefusedSame(v: Vol, v': Vol)
    requires Step(v, v', Refused)
    ensures v' == v
  {
  }

  /** Every operation keeps all chains acyclic, terminated and disjoint, and every entry leading to
      its chain.  The orphans are those from before and exactly the clusters lost: no operation
      brings one back. */
  lemma StepSound(v: Vol, v': Vol, op: Op)
    requires Sound(v) && Step(v, v', op)
    ensures Sound(v') && Orphans(v'.fat, v'.chains) == Orphans(v.fat, v.chains) + Lost(v, v', op)
  {
    hide AllChains, Orphans, Entries, Step, Members, FreeSet;
    StaleHasFile(v, v', op);
    match op
    case Start(f) => StartChains(v, v', f); EditEntries(v, v', op);
    case Create(f, dir) => CreateChains(v, v', f, dir); CreateEntries(v, v', f, dir);
    case CreateFull => FullChains(v, v'); FullEntries(v, v');
    case Open(f) => OpenChains(v, v', f); OpenEntries(v, v', f);
    case Sync(f, dir) => SyncChains(v, v', f, dir); SyncEntries(v, v', f, dir);
    case Unlink(f, dir) => UnlinkChains(v, v', f, dir); UnlinkEntries(v, v', f, dir);
    case Refused => RefusedSame(v, v');
    case _ => EditChains(v, v', op); EditEntries(v, v', op);
  }

  // Whole runs

  ghost predicate IsRun(run: seq<Vol>, ops: seq<Op>) {
    |run| == |ops| + 1 && forall t :: 0 <= t < |ops| ==> StepAt(run, ops, t)
  }

  ghost predicate StepAt(run: seq<Vol>, ops: seq<Op>, t: nat)
    requires t < |ops| && |run| == |ops| + 1
  {
    Step(run[t], run[t + 1], ops[t])
  }

  /** In every run all chains stay acyclic, terminated and disjoint, and every entry goes on leading to
      the chain it recorded. */
  lemma {:induction false} RunSound(run: seq<Vol>, ops: seq<Op>, t: nat)
    requires IsRun(run, ops) && Sound(run[0]) && t <= |ops|
    ensures Sound(run[t])
  {
    hide Sound;
    if t > 0 {
      RunSound(run, ops, t - 1);
      assert StepAt(run, ops, t - 1);
      StepSound(run[t - 1], run[t], ops[t - 1]);
    }
  }

  lemma ChainWithin(v: Vol, o: Owner)
    requires Sound(v) && o in v.chains
    ensures Within(v.data, v.chains[o])
  {
    hide Entries;
    OneOfAll(v.fat, v.chains, o);
  }

  /** A chain that no operation works on stays, with every byte, whatever happens to the others. */
  lemma {:induction false} RunKeepsOthers(run: seq<Vol>, ops: seq<Op>, t: nat, o: Owner)
    requires IsRun(run, ops) && Sound(run[0]) && t <= |ops|
    requires o in run[0].chains && forall i :: 0 <= i < |ops| ==> o !in Touched(ops[i])
    ensures o in run[t].chains && run[t].chains[o] == run[0].chains[o]
    ensures Within(run[0].data, run[0].chains[o]) && Within(run[t].data, run[0].chains[o])
    ensures BytesOf(run[t].data, run[0].chains[o]) == BytesOf(run[0].data, run[0].chains[o])
  {
    hide BytesOf, Within, Sound, Step, Touched;
    ChainWithin(run[0], o);
    if t > 0 {
      RunKeepsOthers(run, ops, t - 1, o);
      RunSound(run, ops, t - 1);
      assert StepAt(run, ops, t - 1);
      StepKeeps(run[t - 1], run[t], ops[t - 1], o);
    }
  }

  /** The clusters lost in the first `t` steps. */
  ghost function AllLost(run: seq<Vol>, ops: seq<Op>, t: nat): set<nat>
    requires |run| == |ops| + 1 && t <= |ops|
  {
    if t == 0 then {} else AllLost(run, ops, t - 1) + Lost(run[t - 1], run[t], ops[t - 1])
  }

  /** Clusters of the chains that only a stale entry leads to. */
  ghost function StaleClusters(v: Vol): set<nat> {
    set c | 2 <= c < |v.fat| && OfStale(v, c)
  }

  ghost predicate OfStale(v: Vol, c: nat) { exists f :: Stale(f) in v.chains && c in v.chains[Stale(f)] }

  /** Clusters in use that are in the chain of no file. */
  ghost function Unowned(v: Vol): set<nat> {
    set c | 2 <= c < |v.fat| && v.fat[c] != 0 && forall f :: Of(f) in v.chains ==> c !in v.chains[Of(f)]
  }

  lemma UnownedIs(v: Vol)
    requires Sound(v)
    ensures Unowned(v) == Orphans(v.fat, v.chains) + StaleClusters(v)
  {
    hide IsChain, Entries;
    forall c | c in StaleClusters(v) ensures c in Unowned(v) {
      var f :| Stale(f) in v.chains && c in v.chains[Stale(f)];
      OneOfAll(v.fat, v.chains, Stale(f));
      ChainEntry(v.fat, v.chains[Stale(f)], c);
      forall g | Of(g) in v.chains ensures c !in v.chains[Of(g)] {
        assert Disjoint(v.chains[Stale(f)], v.chains[Of(g)]);
      }
    }
    forall c | c in Unowned(v) && c !in StaleClusters(v) ensures c in Orphans(v.fat, v.chains) {
      forall o | o in v.chains ensures c !in v.chains[o] {
        assert o == Of(o.f) || o == Stale(o.f);
      }
    }
  }

  /** Over every run the orphans are those of the beginning and the clusters lost since, for good.  What
      is in the chain of no file besides, the stale entries lead to. */
  lemma {:induction false} RunLoses(run: seq<Vol>, ops: seq<Op>, t: nat)
    requires IsRun(run, ops) && Sound(run[0]) && t <= |ops|
    ensures Orphans(run[t].fat, run[t].chains) == Orphans(run[0].fat, run[0].chains) + AllLost(run, ops, t)
    ensures Unowned(run[t]) == Orphans(run[0].fat, run[0].chains) + AllLost(run, ops, t) + StaleClusters(run[t])
  {
    hide Orphans, Sound, Unowned, StaleClusters;
    RunSound(run, ops, t);
    UnownedIs(run[t]);
    if t > 0 {
      RunLoses(run, ops, t - 1);
      RunSound(run, ops, t - 1);
      assert StepAt(run, ops, t - 1);
      StepSound(run[t - 1], run[t], ops[t - 1]);
    }
  }
}
