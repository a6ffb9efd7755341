/** Whole runs of the allocator with its clients storing into their blocks. */
module HeapRuns {
  import opened HeapLayout
  import opened HeapChunkOps
  import opened HeapState
  import opened HeapOps
  import opened HeapBlocks

  /** One call, or one word stored by a client. */
  datatype Op =
    | AddRegion(base: nat, end: nat)
    | Request(size: nat, align: nat)
    | Return(p: nat)
    | Store(w: nat, v: Word)

  /** Word `w` belongs to the payload of live chunk `i` of segment `k`. */
  predicate Owns(h: Heap, k: nat, i: nat, w: nat) {
    && Live(h.segs, k, i) && w in h.mem
    && h.segs[k].At(i) + HEADER_SIZE <= w < h.segs[k].At(i) + h.segs[k].chunks[i].size
  }

  /** What each caller must respect. */
  ghost predicate Legal(h: Heap, op: Op)
    requires Inv(h)
  {
    match op
    case AddRegion(base, end) => Usable(h, base, end)
    case Request(_, _) => true
    case Return(p) => !Judge(h, p).Forged?
    case Store(w, _) => exists k: nat, i: nat :: Owns(h, k, i, w)
  }

  ghost function Apply(h: Heap, op: Op): Heap
    requires Inv(h) && Legal(h, op)
  {
    match op
    case AddRegion(base, end) => InitRegion(h, base, end)
    case Request(size, align) => Alloc(h, size, align).0
    case Return(p) => Free(h, p)
    case Store(w, v) => h.(mem := h.mem[w := v])
  }

  lemma StoreInv(h: Heap, k: nat, i: nat, w: nat, v: Word)
    requires Inv(h) && Owns(h, k, i, w)
    ensures Inv(h.(mem := h.mem[w := v]))
  {
    hide Mapped;
    var s, m, m' := h.segs[k], h.mem, h.mem[w := v];
    ChunkPlace(m, s, i);
    MappedKeep(m, m', s.base, s.end);
    StoreFenced(m, m', s.base + PROLOGUE_SIZE, s.chunks, i, w);
    SegsUpdate(m, m', h.segs, k, s.chunks);
    assert h.segs[k := s.(chunks := s.chunks)] == h.segs;
  }

  lemma StoreFenced(m: Memory, m': Memory, a: nat, cs: seq<Chunk>, i: nat, w: nat)
    requires Fenced(m, a, cs, true) && i < |cs| && cs[i].used && w in m
    requires var c := a + Total(cs[..i]); c + HEADER_SIZE <= w < c + cs[i].size
    requires m'.Keys == m.Keys && forall u :: u in m && u != w ==> m'[u] == m[u]
    ensures Fenced(m', a, cs, true)
  {
    hide Fenced, Tiled;
    var x, c, y := cs[..i], cs[i], cs[i + 1..];
    SplitAt(m, a, cs, true, i);
    FencedFrame(m, m', a + Total(x) + c.size, y, c.used);
    FencedCons(m', a + Total(x), c, y, LastUsed(x, true));
    Rebuild(m, m', a, x, [c] + y, true);
    assert cs == x + ([c] + y);
  }

  lemma ApplyInv(h: Heap, op: Op)
    requires Inv(h) && Legal(h, op)
    ensures Inv(Apply(h, op))
  {
    hide Inv;
    match op
    case AddRegion(base, end) => InitInv(h, base, end);
    case Request(size, align) => AllocInv(h, size, align);
    case Return(p) => FreeInv(h, p);
    case Store(w, v) =>
      var k: nat, i: nat :| Owns(h, k, i, w);
      StoreInv(h, k, i, w, v);
  }

  /** `h'` is reached from `h` by the operations `ops`, each legal when it happens. */
  ghost predicate Runs(h: Heap, ops: seq<Op>, h': Heap)
    decreases |ops|
  {
    if ops == [] then h' == h
    else Inv(h) && Legal(h, ops[0]) && Runs(Apply(h, ops[0]), ops[1..], h')
  }

  /** The invariant, with both counters, holds after every run from any memory without segments. */
  lemma {:induction false} RunInv(h: Heap, ops: seq<Op>, h': Heap)
    requires Inv(h) && Runs(h, ops, h')
    ensures Inv(h')
    decreases |ops|
  {
    hide Inv;
    if ops != [] {
      ApplyInv(h, ops[0]);
      RunInv(Apply(h, ops[0]), ops[1..], h');
    }
  }

  // Payloads survive

  /** The block of chunk `i` in `h` is that of chunk `i'` in `h'`, and word `w` of it is the same. */
  predicate Survives(h: Heap, h': Heap, k: nat, i: nat, i': nat, w: nat) {
    && Owns(h, k, i, w) && Owns(h', k, i', w)
    && h'.segs[k].At(i') == h.segs[k].At(i)
    && h'.segs[k].chunks[i'].size == h.segs[k].chunks[i].size
    && h'.mem[w] == h.mem[w]
  }

  /** `op` neither frees the block at payload address `p` nor stores into word `w`. */
  predicate Spares(op: Op, p: nat, w: nat) {
    op != Return(p) && !(op.Store? && op.w == w)
  }

  lemma InitKeeps(h: Heap, base: nat, end: nat, k: nat, i: nat, w: nat)
    requires Inv(h) && Usable(h, base, end) && Owns(h, k, i, w)
    ensures Survives(h, InitRegion(h, base, end), k, i, i, w)
  {
    OwnedPlace(h, k, i, w);
    hide Inv, Mapped, InitWords, AlignUp, AlignDown, SegOk;
    if Accepts(h, base, end) {
      var b, e := AlignUp(base), AlignDown(end);
      InitWordsOk(h.mem, b, e);
      assert Apart(h.segs[k], Seg(b, e, []));
    }
  }

  lemma OwnedPlace(h: Heap, k: nat, i: nat, w: nat)
    requires Inv(h) && Owns(h, k, i, w)
    ensures h.segs[k].base <= w < h.segs[k].end
  {
    hide Fenced, Tiled, Mapped, Sum;
    ChunkPlace(h.mem, h.segs[k], i);
  }

  lemma ApplyKeeps(h: Heap, op: Op, k: nat, i: nat, w: nat) returns (i': nat)
    requires Inv(h) && Legal(h, op) && Owns(h, k, i, w)
    requires Spares(op, h.segs[k].At(i) + HEADER_SIZE, w)
    ensures Survives(h, Apply(h, op), k, i, i', w)
  {
    hide Inv, InitRegion, Take, Release, Needed, FitSeg, FitIn, Usable;
    i' := i;
    match op
    case AddRegion(base, end) => InitKeeps(h, base, end, k, i, w);
    case Request(size, align) =>
      if Alloc(h, size, align).1 != NULL {
        var needed := Needed(size).value;
        var k2 := FitSeg(h.segs, needed);
        i' := TakeKeeps(h, k2, FitIn(h.segs[k2].chunks, needed), needed, k, i);
      }
    case Return(p) =>
      var v := Judge(h, p);
      if v.Frees? {
        i' := ReleaseKeeps(h, v.k, v.i, k, i);
      }
    case Store(_, _) =>
  }

  /** In every run, a block that is not freed stays where it is, and each of its words keeps the
      value its owner last stored, whatever is allocated, freed and stored elsewhere meanwhile. */
  lemma {:induction false} RunKeeps(h: Heap, ops: seq<Op>, h': Heap, k: nat, i: nat, w: nat) returns (i': nat)
    requires Inv(h) && Runs(h, ops, h') && Owns(h, k, i, w)
    requires forall op :: op in ops ==> Spares(op, h.segs[k].At(i) + HEADER_SIZE, w)
    ensures Survives(h, h', k, i, i', w)
    decreases |ops|
  {
    hide Inv, Legal, Apply, Spares;
    if ops == [] {
      i' := i;
    } else {
      ApplyInv(h, ops[0]);
      assert Spares(ops[0], h.segs[k].At(i) + HEADER_SIZE, w) by { assert ops[0] in ops; }
      i' := ApplyKeeps(h, ops[0], k, i, w);
      assert forall op :: op in ops[1..] ==> op in ops;
      i' := RunKeeps(Apply(h, ops[0]), ops[1..], h', k, i', w);
    }
  }

  // Double frees

  /** `p` points behind a header word of segment `k` that has IN_USE clear. */
  predicate Stale(h: Heap, k: nat, p: nat) {
    && p >= HEADER_SIZE && p % CHUNK_ALIGN == 0 && k < |h.segs| && Holds(h.segs[k], p - HEADER_SIZE)
    && p - 8 in h.mem && !InUseBit(h.mem[p - 8])
  }

  /** Freeing a stale pointer counts one double free and changes nothing else. */
  lemma StaleIsDoubleFree(h: Heap, k: nat, p: nat)
    requires Inv(h) && Stale(h, k, p)
    ensures Free(h, p) == h.(doubleFreeCount := h.doubleFreeCount + 1)
  {
    hide Inv, SegOf, IndexOf, Release, Forge, SizeBits, InUseBit;
    StaleSeg(h, k, p);
  }

  lemma StaleSeg(h: Heap, k: nat, p: nat)
    requires Inv(h) && Stale(h, k, p)
    ensures SegOf(h.segs, p - HEADER_SIZE) == k
  {
    hide SegsOk;
    SegOfComplete(h.mem, h.segs, k, p - HEADER_SIZE);
  }

  lemma FreedIsStale(h: Heap, k: nat, i: nat)
    requires Inv(h) && Live(h.segs, k, i)
    ensures Stale(Release(h, k, i), k, h.segs[k].At(i) + HEADER_SIZE)
  {
    hide Fenced, Tiled, Mapped, Sum, ReleaseWords, StaysFree;
    ReleaseInv(h, k, i);
    ChunkPlace(h.mem, h.segs[k], i);
  }

  /** `op` neither hands out `p` nor stores into the header word in front of it. */
  ghost predicate LeavesStale(h: Heap, op: Op, p: nat)
    requires Inv(h)
  {
    && (op.Request? ==> Alloc(h, op.size, op.align).1 != p)
    && !(op.Store? && op.w == p - 8)
  }

  lemma InitStale(h: Heap, base: nat, end: nat, k: nat, p: nat)
    requires Inv(h) && Usable(h, base, end) && Stale(h, k, p)
    ensures Stale(InitRegion(h, base, end), k, p)
  {
    if Accepts(h, base, end) {
      hide Fenced, Tiled, Mapped, Sum, InitWords, AlignUp, AlignDown;
      var b, e := AlignUp(base), AlignDown(end);
      InitWordsOk(h.mem, b, e);
      assert Apart(h.segs[k], Seg(b, e, []));
    }
  }

  lemma ApplyStale(h: Heap, op: Op, k: nat, p: nat)
    requires Inv(h) && Legal(h, op) && Stale(h, k, p) && LeavesStale(h, op, p)
    ensures Stale(Apply(h, op), k, p)
  {
    hide Inv, InitRegion, Needed, FitSeg, FitIn, Usable, TakeWords, ReleaseWords;
    assert (p - 8) % CHUNK_ALIGN == 8;
    match op
    case AddRegion(base, end) => InitStale(h, base, end, k, p);
    case Request(size, align) =>
      if Alloc(h, size, align).1 != NULL {
        var needed := Needed(size).value;
        var k2 := FitSeg(h.segs, needed);
        TakeInv(h, k2, FitIn(h.segs[k2].chunks, needed), needed);
      }
    case Return(q) =>
      var v := Judge(h, q);
      if v.Frees? {
        ReleaseInv(h, v.k, v.i);
      }
    case Store(_, _) =>
  }

  /** Every operation of the run leaves `p` stale. */
  ghost predicate LeftStale(h: Heap, ops: seq<Op>, p: nat)
    decreases |ops|
  {
    ops != [] ==> Inv(h) && Legal(h, ops[0]) && LeavesStale(h, ops[0], p) && LeftStale(Apply(h, ops[0]), ops[1..], p)
  }

  lemma {:induction false} RunStale(h: Heap, ops: seq<Op>, h': Heap, k: nat, p: nat)
    requires Inv(h) && Runs(h, ops, h') && Stale(h, k, p) && LeftStale(h, ops, p)
    ensures Stale(h', k, p)
    decreases |ops|
  {
    hide Inv, Legal, Apply, Stale, LeavesStale;
    if ops != [] {
      ApplyInv(h, ops[0]);
      ApplyStale(h, ops[0], k, p);
      RunStale(Apply(h, ops[0]), ops[1..], h', k, p);
    }
  }

  /** After `dealloc(p)` of a live block, any later `dealloc(p)` only counts a double free, as long
      as no `alloc` returned `p` again and no client stored into its former header word. */
  lemma DoubleFreeDetected(h: Heap, k: nat, i: nat, p: nat, ops: seq<Op>, h': Heap)
    requires Inv(h) && Block(h.segs, k, i, p)
    requires Runs(Free(h, p), ops, h') && LeftStale(Free(h, p), ops, p)
    ensures Inv(h') && Free(h', p) == h'.(doubleFreeCount := h'.doubleFreeCount + 1)
  {
    hide Inv, Stale, Runs, LeftStale, Judge, Release;
    JudgeBlock(h, k, i, p);
    FreeInv(h, p);
    FreedIsStale(h, k, i);
    RunInv(Free(h, p), ops, h');
    RunStale(Free(h, p), ops, h', k, p);
    StaleIsDoubleFree(h', k, p);
  }
}
