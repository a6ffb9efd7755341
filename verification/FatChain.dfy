/** Cluster chains in the table: what each change to it does to them (src/hal/fat32.rs:279-299,
    448-450, 658-670, 736-757, 817-853, 1362-1368). */
module FatChain {
  import opened FatTable

  type Fat = seq<nat>

  /** `chain` is a list of distinct clusters, each entry naming the next, the last ending it. */
  predicate IsChain(fat: Fat, chain: seq<nat>) {
    && (forall i :: 0 <= i < |chain| ==> 2 <= chain[i] < |fat| < EOC)
    && (forall i, j :: 0 <= i < j < |chain| ==> chain[i] != chain[j])
    && (forall i :: 0 <= i < |chain| ==> Link(fat, chain, i))
  }

  /** The entry of cluster `i` names the next one, or ends the chain. */
  predicate Link(fat: Fat, chain: seq<nat>, i: nat)
    requires i < |chain| && chain[i] < |fat|
  {
    if i + 1 < |chain| then fat[chain[i]] == chain[i + 1] else fat[chain[i]] >= EOC
  }

  /** No cluster of a chain is free. */
  lemma ChainEntry(fat: Fat, chain: seq<nat>, c: nat)
    requires IsChain(fat, chain) && c in chain
    ensures 2 <= c < |fat| && fat[c] != 0
  {
    var i :| 0 <= i < |chain| && chain[i] == c;
    assert Link(fat, chain, i);
  }

  /** First cluster as a directory entry records it: 0 for an empty file. */
  function StartOf(chain: seq<nat>): nat { if chain == [] then 0 else chain[0] }

  predicate Disjoint(x: seq<nat>, y: seq<nat>) { forall c :: c in x ==> c !in y }

  lemma FreeEntry(fat: Fat, n: nat)
    requires n in FreeSet(fat)
    ensures 2 <= n < |fat| && fat[n] == 0
  {
  }

  function FreeSet(fat: Fat): set<nat> { set c | 2 <= c < |fat| && fat[c] == 0 }

  /** Table and clusters before and after an operation that turned `chain` into `chain'`: only
      these clusters changed, added ones were free, dropped ones are free now. */
  ghost predicate Edited<T>(fat: Fat, fat': Fat, data: seq<T>, data': seq<T>, chain: seq<nat>, chain': seq<nat>) {
    && |fat'| == |fat| == |data| == |data'|
    && IsChain(fat', chain')
    && (forall c :: 0 <= c < |fat| && c !in chain && c !in chain' ==> fat'[c] == fat[c] && data'[c] == data[c])
    && (forall c :: c in chain' && c !in chain ==> c < |fat| && fat[c] == 0)
    && (forall c :: c in chain && c !in chain' ==> c < |fat| && fat'[c] == 0)
  }

  lemma EditedChain<T>(fat: Fat, fat': Fat, data: seq<T>, data': seq<T>, chain: seq<nat>, chain': seq<nat>)
    requires Edited(fat, fat', data, data', chain, chain')
    ensures IsChain(fat', chain')
  {
  }

  lemma EditedRefl<T>(fat: Fat, data: seq<T>, chain: seq<nat>)
    requires IsChain(fat, chain) && |data| == |fat|
    ensures Edited(fat, fat, data, data, chain, chain)
  {
  }

  lemma EditedTrans<T>(fat: Fat, fat1: Fat, fat2: Fat, data: seq<T>, data1: seq<T>, data2: seq<T>,
                       chain: seq<nat>, chain1: seq<nat>, chain2: seq<nat>)
    requires Edited(fat, fat1, data, data1, chain, chain1) && Edited(fat1, fat2, data1, data2, chain1, chain2)
    requires chain <= chain1 <= chain2
    ensures Edited(fat, fat2, data, data2, chain, chain2)
  {
    hide IsChain;
  }

  /** Any other chain, disjoint from the edited one, is still a chain, still disjoint, and its
      clusters hold what they held. */
  lemma OthersKept<T>(fat: Fat, fat': Fat, data: seq<T>, data': seq<T>, chain: seq<nat>, chain': seq<nat>, other: seq<nat>)
    requires Edited(fat, fat', data, data', chain, chain')
    requires IsChain(fat, other) && Disjoint(other, chain)
    ensures IsChain(fat', other) && Disjoint(other, chain')
    ensures forall c :: c in other ==> c < |data| && data'[c] == data[c]
  {
    forall c | c in other ensures 2 <= c < |fat| && c !in chain' && fat'[c] == fat[c] && data'[c] == data[c] {
      ChainEntry(fat, other, c);
    }
    forall i | 0 <= i < |other| ensures other[i] < |fat| && Link(fat', other, i) {
      assert other[i] in other && Link(fat, other, i);
    }
  }

  // Appending one cluster: two table writes

  /** Ending a free cluster's chain at itself: every chain survives, the cluster is in none. */
  lemma ClaimKeeps(fat: Fat, n: nat, chain: seq<nat>)
    requires IsChain(fat, chain) && 2 <= n < |fat| && fat[n] == 0
    ensures n !in chain && IsChain(fat[n := LAST], chain)
  {
    if n in chain {
      ChainEntry(fat, chain, n);
    }
    ChainFrame(fat, chain, n, LAST);
  }

  lemma LinkExtends(fat: Fat, n: nat, chain: seq<nat>)
    requires IsChain(fat, chain) && chain != [] && 2 <= n < |fat| < EOC && fat[n] >= EOC && n !in chain
    ensures IsChain(fat[chain[|chain| - 1] := n], chain + [n])
  {
    var fat' := fat[chain[|chain| - 1] := n];
    forall i | 0 <= i < |chain| + 1 ensures (chain + [n])[i] < |fat| && Link(fat', chain + [n], i) {
      assert i < |chain| ==> chain[i] in chain && Link(fat, chain, i);
    }
  }

  /** Taking the first cluster of a file, and appending one, as changes of its chain. */
  lemma ClaimEdits<T>(fat: Fat, data: seq<T>, n: nat)
    requires |data| == |fat| < EOC && n in FreeSet(fat)
    ensures Edited(fat, fat[n := LAST], data, data, [], [n])
    ensures |FreeSet(fat[n := LAST])| == |FreeSet(fat)| - 1
  {
    assert FreeSet(fat[n := LAST]) == FreeSet(fat) - {n};
  }

  lemma AppendEdits<T>(fat: Fat, data: seq<T>, chain: seq<nat>, n: nat)
    requires |data| == |fat| < EOC && IsChain(fat, chain) && chain != [] && n in FreeSet(fat)
    ensures chain[|chain| - 1] < |fat|
    ensures var fat' := fat[n := LAST][chain[|chain| - 1] := n];
            Edited(fat, fat', data, data, chain, chain + [n]) && |FreeSet(fat')| == |FreeSet(fat)| - 1
  {
    var tail := chain[|chain| - 1];
    var fat' := fat[n := LAST][tail := n];
    ClaimKeeps(fat, n, chain);
    LinkExtends(fat[n := LAST], n, chain);
    ChainEntry(fat, chain, tail);
    assert FreeSet(fat') == FreeSet(fat) - {n};
  }

  /** Writing into a cluster of the new chain does not add to the change. */
  lemma EditedData<T>(fat: Fat, fat': Fat, data: seq<T>, data1: seq<T>, data2: seq<T>, chain: seq<nat>, chain': seq<nat>)
    requires Edited(fat, fat', data, data1, chain, chain') && |data2| == |data1|
    requires forall c :: 0 <= c < |data1| && c !in chain' ==> data2[c] == data1[c]
    ensures Edited(fat, fat', data, data2, chain, chain')
  {
    hide IsChain;
  }

  /** What a chain belongs to: a file or directory, or only a directory entry, which still records
      the first cluster of a chain that was the file's before it started another. */
  datatype Owner = Of(f: nat) | Stale(f: nat)

  type Chains = map<Owner, seq<nat>>

  /** Every chain is acyclic and terminated, and no two share a cluster. */
  ghost predicate AllChains(fat: Fat, chains: Chains) {
    && (forall o :: o in chains ==> IsChain(fat, chains[o]))
    && (forall o, o' :: o in chains && o' in chains && o != o' ==> Disjoint(chains[o], chains[o']))
  }

  /** Clusters in use that belong to no chain. */
  ghost function Orphans(fat: Fat, chains: Chains): set<nat> {
    set c | 2 <= c < |fat| && fat[c] != 0 && forall o :: o in chains ==> c !in chains[o]
  }

  /** Between the two writes of an append, every existing chain is still terminated and disjoint
      from the others, and exactly one cluster, the new one, has become an orphan. */
  lemma AppendMidway(fat: Fat, chains: Chains, n: nat)
    requires AllChains(fat, chains) && 2 <= n < |fat| && fat[n] == 0
    ensures var mid := fat[n := LAST];
            AllChains(mid, chains) && Orphans(mid, chains) == Orphans(fat, chains) + {n} && n !in Orphans(fat, chains)
  {
    var mid := fat[n := LAST];
    forall o | o in chains ensures IsChain(mid, chains[o]) && n !in chains[o] {
      ClaimKeeps(fat, n, chains[o]);
    }
    assert Orphans(mid, chains) == Orphans(fat, chains) + {n} by {
      hide IsChain;
      forall c | c in Orphans(mid, chains) && c != n ensures c in Orphans(fat, chains) {
        assert mid[c] == fat[c];
      }
    }
  }

  lemma ChainFrame(fat: Fat, chain: seq<nat>, c: nat, v: nat)
    requires IsChain(fat, chain) && c < |fat| && c !in chain
    ensures IsChain(fat[c := v], chain)
  {
    var fat' := fat[c := v];
    forall i | 0 <= i < |chain| ensures 2 <= chain[i] < |fat'| < EOC && Link(fat', chain, i) {
      assert chain[i] in chain && Link(fat, chain, i);
      assert fat'[chain[i]] == fat[chain[i]];
    }
    assert IsChain(fat', chain);
  }

  /** An edit of the chain of `o` keeps all chains in order.  What becomes an orphan or stops being
      one is decided by the clusters of that chain alone: none does. */
  lemma EditedAll<T>(fat: Fat, fat': Fat, data: seq<T>, data': seq<T>, chains: Chains, o: Owner, chain': seq<nat>)
    requires AllChains(fat, chains) && o in chains && Edited(fat, fat', data, data', chains[o], chain')
    ensures AllChains(fat', chains[o := chain']) && Orphans(fat', chains[o := chain']) == Orphans(fat, chains)
  {
    hide IsChain;
    var chain, chains' := chains[o], chains[o := chain'];
    EditedChain(fat, fat', data, data', chain, chain');
    forall g | g in chains && g != o ensures IsChain(fat', chains[g]) && Disjoint(chains[g], chain') && Disjoint(chain', chains[g]) {
      OthersKept(fat, fat', data, data', chain, chain', chains[g]);
    }
    forall c | 2 <= c < |fat| ensures c in Orphans(fat', chains') <==> c in Orphans(fat, chains) {
      SameOrphan(fat, fat', data, data', chains, o, chain', c);
    }
  }

  lemma SameOrphan<T>(fat: Fat, fat': Fat, data: seq<T>, data': seq<T>, chains: Chains, o: Owner, chain': seq<nat>, c: nat)
    requires AllChains(fat, chains) && o in chains && Edited(fat, fat', data, data', chains[o], chain') && 2 <= c < |fat|
    ensures c in Orphans(fat', chains[o := chain']) <==> c in Orphans(fat, chains)
  {
    hide IsChain, AllChains;
    var chain, chains' := chains[o], chains[o := chain'];
    if c in chain' {
      assert c in chains'[o];
      if c !in chain {
        assert fat[c] == 0;
      }
    } else if c in chain {
      assert c in chains[o] && fat'[c] == 0;
    } else {
      forall g | g in chains ensures c in chains'[g] <==> c in chains[g] {
      }
      if c in Orphans(fat', chains') {
        forall g | g in chains ensures c !in chains[g] {
          assert c !in chains'[g];
        }
      }
      if c in Orphans(fat, chains) {
        forall g | g in chains' ensures c !in chains'[g] {
          assert g in chains;
        }
      }
    }
  }

  /** After the second write the orphan is the last cluster of the chain, and there is no other. */
  lemma AppendDone(fat: Fat, chains: Chains, o: Owner, n: nat)
    requires AllChains(fat, chains) && 2 <= n < |fat| < EOC && fat[n] == 0 && o in chains && chains[o] != []
    ensures var chain := chains[o];
            chain[|chain| - 1] < |fat| &&
            var done, chains' := fat[n := LAST][chain[|chain| - 1] := n], chains[o := chain + [n]];
            AllChains(done, chains') && Orphans(done, chains') == Orphans(fat, chains)
  {
    hide Orphans, IsChain, AllChains, Edited;
    var chain := chains[o];
    assert IsChain(fat, chain) by {
      OneOfAll(fat, chains, o);
    }
    AppendEdits(fat, fat, chain, n);
    EditedAll(fat, fat[n := LAST][chain[|chain| - 1] := n], fat, fat, chains, o, chain + [n]);
  }

  /** The order of the two writes of an append, for any chains of which one ends in `tail`: after the
      first, `mid`, all chains are in order and `n` is the one orphan more; after the second, `n` is
      the last cluster of that file and no orphan has been added. */
  ghost predicate Ordered(fat: Fat, mid: Fat, fat': Fat, tail: nat, n: nat) {
    forall chains: Chains, o: Owner :: AllChains(fat, chains) && EndsIn(chains, o, tail) ==>
      && AllChains(mid, chains) && Orphans(mid, chains) == Orphans(fat, chains) + {n} && n !in Orphans(fat, chains)
      && AllChains(fat', chains[o := chains[o] + [n]]) && Orphans(fat', chains[o := chains[o] + [n]]) == Orphans(fat, chains)
  }

  predicate EndsIn(chains: Chains, o: Owner, tail: nat) { o in chains && chains[o] != [] && chains[o][|chains[o]| - 1] == tail }

  lemma AppendOrdered(fat: Fat, tail: nat, n: nat)
    requires 2 <= n < |fat| < EOC && fat[n] == 0 && tail < |fat|
    ensures Ordered(fat, fat[n := LAST], fat[n := LAST][tail := n], tail, n)
  {
    hide AllChains, Orphans;
    var mid := fat[n := LAST];
    forall chains, o | AllChains(fat, chains) && EndsIn(chains, o, tail)
      ensures AllChains(mid, chains) && Orphans(mid, chains) == Orphans(fat, chains) + {n} && n !in Orphans(fat, chains)
      ensures AllChains(mid[tail := n], chains[o := chains[o] + [n]])
      ensures Orphans(mid[tail := n], chains[o := chains[o] + [n]]) == Orphans(fat, chains)
    {
      AppendMidway(fat, chains, n);
      AppendDone(fat, chains, o, n);
    }
  }

  lemma OneOfAll(fat: Fat, chains: Chains, o: Owner)
    requires AllChains(fat, chains) && o in chains
    ensures IsChain(fat, chains[o])
  {
  }

  // Releasing clusters

  /** The entries of `cs` set to zero, one after the other. */
  function Cleared(fat: Fat, cs: seq<nat>): (r: Fat)
    ensures |r| == |fat|
    ensures forall c :: 0 <= c < |fat| ==> r[c] == if c in cs then 0 else fat[c]
  {
    seq(|fat|, c requires 0 <= c < |fat| => if c in cs then 0 else fat[c])
  }

  /** Dropping the clusters behind index `keep` and ending the chain there. */
  lemma TruncateChain(fat: Fat, chain: seq<nat>, keep: nat)
    requires IsChain(fat, chain) && 0 < keep <= |chain|
    ensures IsChain(Cleared(fat, chain[keep..])[chain[keep - 1] := LAST], chain[..keep])
  {
    var fat' := Cleared(fat, chain[keep..])[chain[keep - 1] := LAST];
    forall i | 0 <= i < keep ensures chain[i] < |fat| && Link(fat', chain[..keep], i) {
      assert chain[i] !in chain[keep..] && Link(fat, chain, i);
    }
  }

  lemma {:induction false} ChainSet(chain: seq<nat>)
    requires forall i, j :: 0 <= i < j < |chain| ==> chain[i] != chain[j]
    ensures |Members(chain)| == |chain|
  {
    if chain != [] {
      var n := |chain| - 1;
      ChainSet(chain[..n]);
      assert Members(chain) == Members(chain[..n]) + {chain[n]};
    }
  }

  function Members(chain: seq<nat>): set<nat> { set c | c in chain }

  /** Releasing clusters of a chain raises the free count by exactly their number. */
  lemma ClearedCount(fat: Fat, chain: seq<nat>, keep: nat)
    requires IsChain(fat, chain) && keep <= |chain|
    ensures |FreeSet(Cleared(fat, chain[keep..]))| == |FreeSet(fat)| + |chain| - keep
  {
    var cs := chain[keep..];
    var dropped := Members(cs);
    ChainSet(cs);
    forall c | c in cs ensures 2 <= c < |fat| && fat[c] != 0 {
      ChainEntry(fat, chain, c);
    }
    hide IsChain;
    assert FreeSet(Cleared(fat, cs)) == FreeSet(fat) + dropped;
    assert FreeSet(fat) !! dropped;
  }

  // The freeing loop on any table

  predicate Follows(c: nat) { 2 <= c < EOC }

  function NonZero(fat: Fat): set<nat> { set c | 0 <= c < |fat| && fat[c] != 0 }

  lemma NonZeroShrinks(fat: Fat, c: nat)
    requires c < |fat|
    ensures NonZero(fat[c := 0]) == NonZero(fat) - {c}
  {
  }

  /** The clusters the loop `while clu >= 2 && clu < EOC` frees, in order, as long as it stays in
      the table.  It ends on every table, cyclic ones included: each step zeroes an entry or meets
      one that is zero already. */
  function Trail(fat: Fat, c: nat): (cs: seq<nat>)
    ensures forall i :: 0 <= i < |cs| ==> 2 <= cs[i] < |fat|
    decreases |NonZero(fat)|, Follows(c)
  {
    if !Follows(c) || c >= |fat| then []
    else
      NonZeroShrinks(fat, c);
      assert fat[c] != 0 ==> c in NonZero(fat);
      assert fat[c] == 0 ==> !Follows(fat[c]) && NonZero(fat) - {c} == NonZero(fat);
      [c] + Trail(fat[c := 0], fat[c])
  }

  predicate Known(fat: Fat, c: nat) { Follows(c) ==> c < |fat| }

  /** The loop that starts at `start` stays in the table: it meets no reserved value, no mark of a
      bad cluster and no number behind the last cluster. */
  predicate Leads(fat: Fat, start: nat) {
    Known(fat, start) && forall c :: c in Trail(fat, start) ==> Known(fat, fat[c])
  }

  /** One turn of the loop: what it frees, and that its measure goes down. */
  lemma TrailStep(fat: Fat, c: nat)
    requires Leads(fat, c) && Follows(c)
    ensures c < |fat| && Leads(fat[c := 0], fat[c])
    ensures Trail(fat, c) == [c] + Trail(fat[c := 0], fat[c])
    ensures |NonZero(fat[c := 0])| < |NonZero(fat)| ||
            (|NonZero(fat[c := 0])| == |NonZero(fat)| && !Follows(fat[c]))
  {
    NonZeroShrinks(fat, c);
    if fat[c] != 0 {
      assert c in NonZero(fat);
    } else {
      assert NonZero(fat) - {c} == NonZero(fat);
    }
    var rest := Trail(fat[c := 0], fat[c]);
    assert Trail(fat, c) == [c] + rest;
    forall d | d in rest ensures Known(fat[c := 0], fat[c := 0][d]) {
      assert d in [c] + rest;
    }
    assert c in [c] + rest;
  }

  lemma ClearedStep(fat: Fat, cs: seq<nat>, c: nat)
    requires (forall i :: 0 <= i < |cs| ==> cs[i] < |fat|) && c < |fat|
    ensures forall i :: 0 <= i < |cs + [c]| ==> (cs + [c])[i] < |fat|
    ensures Cleared(fat, cs)[c := 0] == Cleared(fat, cs + [c])
  {
  }

  /** On a chain the loop frees exactly its clusters. */
  lemma {:induction false} TrailOfChain(fat: Fat, chain: seq<nat>)
    requires IsChain(fat, chain)
    ensures Trail(fat, StartOf(chain)) == chain && Leads(fat, StartOf(chain))
    decreases |chain|
  {
    hide Trail, IsChain, NonZero;
    if chain == [] {
      EmptyTrail(fat, 0);
    } else {
      var c, rest := chain[0], chain[1..];
      ChainTail(fat, chain);
      ChainFrame(fat, rest, c, 0);
      TrailOfChain(fat[c := 0], rest);
      if rest == [] {
        EmptyTrail(fat[c := 0], fat[c]);
      }
      assert chain == [c] + rest;
      TrailFrom(fat, c);
      forall d | d in chain ensures d < |fat| && Known(fat, fat[d]) {
        ChainKnown(fat, chain, d);
      }
    }
  }

  lemma TrailFrom(fat: Fat, c: nat)
    requires Follows(c) && c < |fat|
    ensures Trail(fat, c) == [c] + Trail(fat[c := 0], fat[c])
  {
  }

  lemma ChainKnown(fat: Fat, chain: seq<nat>, c: nat)
    requires IsChain(fat, chain) && c in chain
    ensures c < |fat| && Known(fat, fat[c])
  {
    var i :| 0 <= i < |chain| && chain[i] == c;
    assert Link(fat, chain, i);
  }

  /** The chain behind its first cluster. */
  lemma ChainTail(fat: Fat, chain: seq<nat>)
    requires IsChain(fat, chain) && chain != []
    ensures 2 <= chain[0] < |fat| < EOC && chain[0] !in chain[1..] && IsChain(fat, chain[1..])
    ensures if |chain| == 1 then fat[chain[0]] >= EOC else fat[chain[0]] == chain[1] && Follows(chain[1])
  {
    var rest := chain[1..];
    assert Link(fat, chain, 0);
    forall i | 0 <= i < |rest| ensures 2 <= rest[i] < |fat| < EOC && Link(fat, rest, i) {
      assert Link(fat, chain, i + 1);
    }
  }

  /** On any table the loop frees a set closed under following entries. */
  lemma {:induction false} TrailClosed(fat: Fat, start: nat, c: nat)
    requires c in Trail(fat, start) && Follows(fat[c]) && fat[c] < |fat|
    ensures fat[c] in Trail(fat, start)
    decreases |NonZero(fat)|, Follows(start)
  {
    NonZeroShrinks(fat, start);
    assert fat[start] != 0 ==> start in NonZero(fat);
    assert fat[start] == 0 ==> NonZero(fat) - {start} == NonZero(fat);
    var rest := Trail(fat[start := 0], fat[start]);
    if c == start {
      assert fat[start] in [fat[start]] + Trail(fat[start := 0][fat[start] := 0], fat[start := 0][fat[start]]);
    } else {
      assert c in rest;
      TrailClosed(fat[start := 0], fat[start], c);
    }
  }

  /** From the entry of cluster `i` the loop frees exactly the clusters behind it. */
  lemma RestOfChain(fat: Fat, chain: seq<nat>, i: nat)
    requires IsChain(fat, chain) && i < |chain|
    ensures Trail(fat, fat[chain[i]]) == chain[i + 1..] && Leads(fat, fat[chain[i]])
  {
    var rest := chain[i + 1..];
    assert Link(fat, chain, i);
    forall j | 0 <= j < |rest| ensures rest[j] < |fat| && Link(fat, rest, j) {
      assert Link(fat, chain, i + 1 + j);
    }
    TrailOfChain(fat, rest);
    if rest == [] {
      EmptyTrail(fat, fat[chain[i]]);
    }
  }

  lemma TruncateEdits<T>(fat: Fat, data: seq<T>, chain: seq<nat>, keep: nat)
    requires IsChain(fat, chain) && |data| == |fat| && 0 < keep <= |chain|
    ensures chain[keep - 1] < |fat|
    ensures var fat' := Cleared(fat, chain[keep..])[chain[keep - 1] := LAST];
            Edited(fat, fat', data, data, chain, chain[..keep]) && |FreeSet(fat')| == |FreeSet(fat)| + |chain| - keep
  {
    var fat1 := Cleared(fat, chain[keep..]);
    var fat', last := fat1[chain[keep - 1] := LAST], chain[keep - 1];
    TruncateChain(fat, chain, keep);
    ClearedCount(fat, chain, keep);
    assert chain == chain[..keep] + chain[keep..];
    ChainEntry(fat, chain, last);
    assert last !in chain[keep..];
    assert FreeSet(fat') == FreeSet(fat1);
  }

  lemma EmptyTrail(fat: Fat, c: nat)
    requires !Follows(c)
    ensures Trail(fat, c) == [] && Leads(fat, c) && Cleared(fat, []) == fat
  {
  }

  /** Freeing the whole chain, as `f_unlink` does. */
  lemma UnlinkEdits<T>(fat: Fat, data: seq<T>, chain: seq<nat>)
    requires IsChain(fat, chain) && |data| == |fat|
    ensures Trail(fat, StartOf(chain)) == chain && Leads(fat, StartOf(chain))
    ensures Edited(fat, Cleared(fat, chain), data, data, chain, [])
    ensures |FreeSet(Cleared(fat, chain))| == |FreeSet(fat)| + |chain|
  {
    TrailOfChain(fat, chain);
    ClearedCount(fat, chain, 0);
    assert chain[0..] == chain;
    forall c | c in chain ensures c < |fat| {
      ChainEntry(fat, chain, c);
    }
  }
}
