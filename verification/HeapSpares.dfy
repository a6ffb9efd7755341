/** No call of the allocator changes a word that belongs to a payload afterwards, so that clients may
    store into their blocks while another core is inside the allocator. */
module HeapSpares {
  import opened HeapLayout
  import opened HeapChunkOps
  import opened HeapState
  import opened HeapOps
  import opened HeapBlocks
  import opened HeapRuns

  /** A word of a payload lies outside every other chunk and outside the tags behind that chunk. */
  lemma OwnedOutside(h: Heap, k2: nat, j: nat, w: nat, k: nat, i: nat)
    requires Inv(h) && Owns(h, k2, j, w) && k < |h.segs| && i < |h.segs[k].chunks| && (k2, j) != (k, i)
    ensures w < h.segs[k].At(i) || w >= h.segs[k].At(i) + h.segs[k].chunks[i].size + 16
  {
    hide Inv;
    ChunksApart(h, k, i, k2, j);
  }

  lemma TakeInner(m: Memory, c: nat, size: nat, needed: nat, w: nat)
    requires c + 8 in m && c + size + 8 in m && MIN_CHUNK <= needed <= size && size + 3 < WORD_LIMIT
    requires w in m && c + 16 <= w < c + TakenSize(size, needed)
    ensures w in TakeWords(m, c, size, needed) && TakeWords(m, c, size, needed)[w] == m[w]
  {
  }

  /** Place of the chunk taken and of the rest split off. */
  lemma TakeRest(h: Heap, k: nat, i: nat, needed: nat)
    requires Inv(h) && CanTake(h, k, i, needed) && h.segs[k].chunks[i].size - needed >= MIN_CHUNK
    ensures var s, s' := h.segs[k], Take(h, k, i, needed).segs[k];
            && i + 1 < |s'.chunks| && !s'.chunks[i + 1].used
            && s'.At(i + 1) == s.At(i) + needed && s'.chunks[i + 1].size == s.chunks[i].size - needed
  {
    hide Fenced, Tiled, Sum, TakeWords, Mapped;
    TakePlace(h, k, i, needed);
    var s := h.segs[k];
    var x, t, y := s.chunks[..i], Taken(s.chunks[i].size, needed), s.chunks[i + 1..];
    assert (x + (t + y))[i + 1] == t[1];
    TotalPrefix(x + (t + y), i);
  }

  lemma TakeSpares(h: Heap, k: nat, i: nat, needed: nat, k2: nat, j: nat, w: nat)
    requires Inv(h) && CanTake(h, k, i, needed) && Owns(Take(h, k, i, needed), k2, j, w)
    ensures Take(h, k, i, needed).mem.Keys == h.mem.Keys && Take(h, k, i, needed).mem[w] == h.mem[w]
  {
    hide Fenced, Tiled, Sum, Mapped, StaysFree, SizeBits, InUseBit, PrevInUseBit, Inv;
    var h', s := Take(h, k, i, needed), h.segs[k];
    var c, size := s.At(i), s.chunks[i].size;
    TakeInv(h, k, i, needed);
    TakePlace(h, k, i, needed);
    if (k2, j) == (k, i) {
      TakenWords(h, k, i, needed, w);
    } else {
      OwnedOutside(h', k2, j, w, k, i);
      if size - needed >= MIN_CHUNK {
        TakeRest(h, k, i, needed);
        OwnedOutside(h', k2, j, w, k, i + 1);
      }
    }
  }

  lemma TakenWords(h: Heap, k: nat, i: nat, needed: nat, w: nat)
    requires Inv(h) && CanTake(h, k, i, needed) && w in h.mem
    requires var s := h.segs[k]; s.At(i) + 16 <= w < s.At(i) + TakenSize(s.chunks[i].size, needed)
    ensures w in Take(h, k, i, needed).mem && Take(h, k, i, needed).mem[w] == h.mem[w]
  {
    hide Fenced, Tiled, Sum, Mapped, TakeWords;
    var s := h.segs[k];
    TakeSite(h.mem, s, i);
    TakeInner(h.mem, s.At(i), s.chunks[i].size, needed, w);
  }

  /** Place of the merged chunk. */
  lemma ReleasePlace(h: Heap, k: nat, i: nat) returns (i': nat)
    requires Inv(h) && Live(h.segs, k, i)
    ensures var s, s' := h.segs[k], Release(h, k, i).segs[k];
            && i' < |s'.chunks| && !s'.chunks[i'].used && s'.At(i') + BeforeSize(s.chunks, i) == s.At(i)
            && s'.chunks[i'].size == BeforeSize(s.chunks, i) + s.chunks[i].size + AfterSize(s.chunks, i)
  {
    hide Inv, Total, ReleaseAt, ReleaseWords;
    var s := h.segs[k];
    var x, b, d, y := AroundChunk(s.chunks, i);
    i' := |x|;
    var span := Chunk(Total(b) + s.chunks[i].size + Total(d), false);
    assert (x + ([span] + y))[..i'] == x && (x + ([span] + y))[i'] == span;
  }

  lemma ReleaseSpares(h: Heap, k: nat, i: nat, k2: nat, j: nat, w: nat)
    requires Inv(h) && Live(h.segs, k, i) && Owns(Release(h, k, i), k2, j, w)
    ensures Release(h, k, i).mem.Keys == h.mem.Keys && Release(h, k, i).mem[w] == h.mem[w]
  {
    hide Inv, BeforeSize, AfterSize, ReleaseAt, ReleaseWords, StaysFree, SizeBits, InUseBit;
    ReleaseInv(h, k, i);
    var i' := ReleasePlace(h, k, i);
    OwnedOutside(Release(h, k, i), k2, j, w, k, i');
  }

  /** What belongs to a payload after an allocation or a free was not changed by it. */
  lemma CallSpares(h: Heap, op: Op, k: nat, i: nat, w: nat)
    requires Inv(h) && Legal(h, op) && (op.Request? || op.Return?) && Owns(Apply(h, op), k, i, w)
    ensures Apply(h, op).mem.Keys == h.mem.Keys && Apply(h, op).mem[w] == h.mem[w]
  {
    hide Inv, Take, Release, Needed, FitSeg, FitIn, Owns;
    match op
    case Request(size, align) =>
      if Alloc(h, size, align).1 != NULL {
        var needed := Needed(size).value;
        var k2 := FitSeg(h.segs, needed);
        TakeSpares(h, k2, FitIn(h.segs[k2].chunks, needed), needed, k, i, w);
      }
    case Return(p) =>
      var v := Judge(h, p);
      if v.Frees? {
        ReleaseSpares(h, v.k, v.i, k, i, w);
      }
  }

  /** No call maps or unmaps a word. */
  lemma CallKeys(h: Heap, op: Op)
    requires Inv(h) && Legal(h, op) && (op.Request? || op.Return?)
    ensures Apply(h, op).mem.Keys == h.mem.Keys
  {
    hide Inv, Take, Release, Needed, FitSeg, FitIn;
    match op
    case Request(size, align) =>
      if Alloc(h, size, align).1 != NULL {
        var needed := Needed(size).value;
        var k2 := FitSeg(h.segs, needed);
        TakeInv(h, k2, FitIn(h.segs[k2].chunks, needed), needed);
      }
    case Return(p) =>
      var v := Judge(h, p);
      if v.Frees? {
        ReleaseInv(h, v.k, v.i);
      }
  }
}
