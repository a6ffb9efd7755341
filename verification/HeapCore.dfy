/** The allocator as the code runs it: `HeapCore` over memory words (src/hal/heap.rs:50-325).

    Every method is tied to the function of the same operation in `HeapOps`. */
module HeapCore {
  import opened HeapLayout
  import opened HeapChunkOps
  import opened HeapState
  import opened HeapCoalesce
  import Ops = HeapOps

  datatype Segment = Segment(base: nat, end: nat)

  class HeapCore {
    var mem: Memory
    var segments: seq<Segment>
    var freeBytes: nat
    var allocCount: nat
    var oomCount: nat
    var alignFailCount: nat
    var badFreeCount: nat
    var doubleFreeCount: nat
    ghost var segs: seq<Seg>

    ghost function State(): Heap
      reads this
    {
      Heap(mem, segs, freeBytes, allocCount, oomCount, alignFailCount, badFreeCount, doubleFreeCount)
    }

    ghost predicate Valid()
      reads this
    {
      && |segs| == |segments|
      && (forall k :: 0 <= k < |segs| ==> segs[k].base == segments[k].base && segs[k].end == segments[k].end)
      && Inv(State())
    }

    constructor (memory: Memory)
      ensures Valid() && State() == Heap(memory, [], 0, 0, 0, 0, 0, 0)
    {
      mem, segments, segs := memory, [], [];
      freeBytes, allocCount := 0, 0;
      oomCount, alignFailCount, badFreeCount, doubleFreeCount := 0, 0, 0, 0;
    }

    method InitRegion(base: nat, end: nat)
      requires Valid() && Ops.Usable(State(), base, end)
      modifies this
      ensures Valid() && State() == Ops.InitRegion(old(State()), base, end)
    {
      hide SegsOk, Sum, Ops.AlignUp, Ops.AlignDown, Mapped;
      Ops.InitInv(State(), base, end);
      if |segments| >= MAX_SEGMENTS {
        return;
      }
      var b := Ops.AlignUp(base);
      var e := Ops.AlignDown(end);
      if e < b + MIN_CHUNK + PROLOGUE_SIZE + EPILOGUE_SIZE {
        return;
      }
      var free := e - b - PROLOGUE_SIZE - EPILOGUE_SIZE;
      mem := SetHeader(mem, b, PROLOGUE_SIZE, Flags(true, true));
      mem := SetHeader(mem, b + PROLOGUE_SIZE, free, Flags(false, true));
      mem := SetPrevSize(mem, e - EPILOGUE_SIZE, free);
      mem := SetHeader(mem, e - EPILOGUE_SIZE, EPILOGUE_SIZE, Flags(true, false));
      segments := segments + [Segment(b, e)];
      segs := segs + [Seg(b, e, [Chunk(free, false)])];
      freeBytes := freeBytes + free;
    }

    /** Writes the tags when the free chunk at `chunk` is taken, splitting off the rest. */
    method Carve(chunk: nat, size: nat, needed: nat)
      requires chunk + 8 in mem && chunk + size + 8 in mem
      requires needed <= size && size + 3 < WORD_LIMIT && size >= MIN_CHUNK
      requires freeBytes >= Ops.TakenSize(size, needed)
      modifies this`mem, this`freeBytes
      ensures mem == TakeWords(old(mem), chunk, size, needed)
      ensures freeBytes == old(freeBytes) - Ops.TakenSize(size, needed)
    {
      var prevInUse := PrevInUse(mem, chunk);
      var rest := size - needed;
      if rest >= MIN_CHUNK {
        var right := chunk + needed;
        mem := SetPrevSize(mem, right, needed);
        mem := SetHeader(mem, right, rest, Flags(false, true));
        mem := SetHeader(mem, chunk, needed, Flags(true, prevInUse));
        mem := SetPrevSize(mem, chunk + size, rest);
        freeBytes := freeBytes - needed;
      } else {
        mem := SetHeader(mem, chunk, size, Flags(true, prevInUse));
        var a := chunk + size;
        mem := MarkPrevUsed(mem, a);
        freeBytes := freeBytes - size;
      }
    }

    /** First fit: the lowest chunk of the first segment that has one. */
    method Alloc(size: nat, align: nat) returns (p: nat)
      requires Valid()
      modifies this
      ensures Valid() && (State(), p) == Ops.Alloc(old(State()), size, align)
    {
      hide SegsOk, Sum, TakeWords, Ops.FitSeg, Ops.FitIn, Ops.Needed;
      Ops.AllocInv(State(), size, align);
      if align > CHUNK_ALIGN {
        alignFailCount := alignFailCount + 1;
        return Ops.NULL;
      }
      var n := Ops.Needed(size);
      if n.None? {
        return Ops.NULL;
      }
      var needed := n.value;
      for segIdx := 0 to |segments|
        invariant Valid() && State() == old(State()) && segments == old(segments)
        invariant forall j :: 0 <= j < segIdx ==> Ops.FitIn(segs[j].chunks, needed) == |segs[j].chunks|
      {
        var chunk, i := FindInSegment(segIdx, needed);
        if chunk != Ops.NULL {
          assert segIdx == Ops.FitSeg(segs, needed) && i == Ops.FitIn(segs[segIdx].chunks, needed);
          Ops.TakeBound(State(), segIdx, i, needed);
          var sz := SizeOf(mem, chunk);
          Carve(chunk, sz, needed);
          segs := segs[segIdx := segs[segIdx].(chunks := TakeAt(segs[segIdx].chunks, i, needed))];
          allocCount := allocCount + 1;
          return chunk + HEADER_SIZE;
        }
      }
      oomCount := oomCount + 1;
      return Ops.NULL;
    }

    /** The walk over one segment: the first fitting chunk's address, or `NULL`. */
    method FindInSegment(segIdx: nat, needed: nat) returns (chunk: nat, ghost i: nat)
      requires Valid() && segIdx < |segments|
      ensures i == Ops.FitIn(segs[segIdx].chunks, needed)
      ensures chunk == var s := segs[segIdx];
                       var fit := Ops.FitIn(s.chunks, needed);
                       if fit < |s.chunks| then s.At(fit) else Ops.NULL
      ensures chunk == Ops.NULL <==> i == |segs[segIdx].chunks|
      ensures chunk != Ops.NULL ==>
                && chunk + 8 in mem && SizeOf(mem, chunk) == segs[segIdx].chunks[i].size
                && chunk + SizeOf(mem, chunk) + 8 in mem && MIN_CHUNK <= SizeOf(mem, chunk) < WORD_LIMIT - 3
    {
      hide Fenced, Tiled, Mapped;
      var epilogue := segments[segIdx].end - EPILOGUE_SIZE;
      ghost var s := segs[segIdx];
      chunk, i := segments[segIdx].base + PROLOGUE_SIZE, 0;
      ChunkPlace(mem, s, 0);
      while chunk < epilogue
        invariant i <= |s.chunks| && chunk == s.At(i) <= epilogue
        invariant chunk == epilogue <==> i == |s.chunks|
        invariant forall j :: 0 <= j < i ==> !Fits(s.chunks[j], needed)
        decreases epilogue - chunk
      {
        ChunkPlace(mem, s, i);
        HeaderBits(mem[chunk + 8], s.chunks[i].size, s.chunks[i].used, LastUsed(s.chunks[..i], true));
        var sz := SizeOf(mem, chunk);
        if sz < MIN_CHUNK || sz % CHUNK_ALIGN != 0 {
          assert false;
          break;
        }
        if !InUse(mem, chunk) && sz >= needed {
          TakeSite(mem, s, i);
          return;
        }
        chunk, i := chunk + sz, i + 1;
      }
      chunk := Ops.NULL;
    }

    /** Frees a block; anything else is counted and ignored, except for a pointer to no block that
        passes for one. */
    method Dealloc(p: nat)
      requires Valid()
      modifies this
      ensures State() == Ops.Free(old(State()), p)
      ensures !old(Ops.Judge(State(), p)).Forged? ==> Valid()
    {
      hide Inv, Ops.Release, Ops.Forge, Ops.SegOf, Ops.IndexOf, SizeBits, InUseBit;
      if !Ops.Judge(State(), p).Forged? {
        Ops.FreeInv(State(), p);
      }
      if p == Ops.NULL {
        badFreeCount := badFreeCount + 1;
        return;
      }
      if p % CHUNK_ALIGN != 0 {
        badFreeCount := badFreeCount + 1;
        return;
      }
      var c := p - HEADER_SIZE;
      var segIdx := FindSegment(c);
      if segIdx == |segments| {
        badFreeCount := badFreeCount + 1;
        return;
      }
      Ops.HeaderMapped(State(), segIdx, c);
      if !InUse(mem, c) {
        doubleFreeCount := doubleFreeCount + 1;
        return;
      }
      var cSize := SizeOf(mem, c);
      if cSize % CHUNK_ALIGN != 0 || cSize < MIN_CHUNK {
        badFreeCount := badFreeCount + 1;
        return;
      }
      Merge(segIdx, c, cSize, p);
    }

    /** The rest of a free, once the word in front of `p` reads as the header of a chunk in use. */
    method Merge(segIdx: nat, c: nat, cSize: nat, ghost p: nat)
      requires Valid() && p == c + HEADER_SIZE && Ops.LooksUsed(State(), segIdx, c) && cSize == SizeOf(mem, c)
      requires Ops.Judge(State(), p).Forged? || Ops.Judge(State(), p).Frees?
      requires Ops.Judge(State(), p).k == segIdx
      modifies this
      ensures State() == Ops.Free(old(State()), p)
      ensures segments == old(segments) && |segs| == |old(segs)|
      ensures forall k :: 0 <= k < |segs| ==> segs[k].base == old(segs)[k].base && segs[k].end == old(segs)[k].end
    {
      hide Inv, Ops.Judge, ReleaseWords, ReleaseAt, BeforeSize, AfterSize, SizeBits, InUseBit, Coalesced, Inside, Sum;
      ghost var h, verdict := State(), Ops.Judge(State(), p);
      var seg := segments[segIdx];
      Ops.SegInside(h, segIdx, c);
      if verdict.Frees? {
        Ops.FreeMerges(h, verdict.k, verdict.i);
        Ops.ReleaseBound(h, verdict.k, verdict.i);
      }
      var ok := Coalesce(c, cSize, seg.base, seg.end - EPILOGUE_SIZE);
      if !ok {
        badFreeCount := badFreeCount + 1;
        return;
      }
      if verdict.Frees? {
        segs := segs[verdict.k := segs[verdict.k].(chunks := ReleaseAt(segs[verdict.k].chunks, verdict.i))];
      }
      freeBytes := freeBytes + cSize;
      allocCount := Ops.OneLess(allocCount);
    }

    method FindSegment(c: nat) returns (segIdx: nat)
      requires Valid()
      ensures segIdx == Ops.SegOf(segs, c)
    {
      hide SegsOk, Sum;
      segIdx := 0;
      while segIdx < |segments|
        invariant segIdx <= |segments|
        invariant forall j :: 0 <= j < segIdx ==> !Ops.Holds(segs[j], c)
      {
        var base, end := segments[segIdx].base, segments[segIdx].end;
        if c >= base + PROLOGUE_SIZE && c < end - EPILOGUE_SIZE {
          return;
        }
        segIdx := segIdx + 1;
      }
    }

    /** Merges the chunk at `c` with its neighbours and writes the tags of the span; on any words. */
    method Coalesce(c: nat, cSize: nat, base: nat, segEnd: nat) returns (ok: bool)
      requires Inside(mem, base, segEnd, c) && c + 8 in mem && cSize == SizeOf(mem, c) && cSize % CHUNK_ALIGN == 0
      modifies this`mem
      ensures (ok, mem) == Coalesced(old(mem), base, segEnd, c)
    {
      hide SizeBits, InUseBit, PrevInUseBit, Mapped, Absorb, SpanWords;
      ghost var top := segEnd + EPILOGUE_SIZE;
      var e := c + cSize;
      MappedAt(mem, base, top, c);
      AlignedSum(c, cSize);
      var span, spanSize := c, cSize;
      if !PrevInUse(mem, c) {
        var prevSize := PrevSizeOf(mem, c);
        var prev := if prevSize <= c then c - prevSize else 0;
        if prev < base + PROLOGUE_SIZE {
          return false;
        }
        SpanMapped(mem, base, segEnd, c);
        spanSize := (spanSize + SizeOf(mem, prev)) % WORD_LIMIT;
        span := prev;
        mem := SetHeader(mem, c, 0, 0);
      }
      ghost var more := if PrevInUse(old(mem), c) then 0 else SizeOf(old(mem), span);
      SizeBound(old(mem)[c + 8]);
      SizeBound(old(mem)[span + 8]);
      ghost var m1 := mem;
      MappedKeep(old(mem), m1, base, top);
      MappedPart(m1, base, top, e, top);
      ok := CoalesceFrom(span, spanSize, e, base, segEnd, cSize, more);
    }

    /** The forward walk and the tags. */
    method CoalesceFrom(span: nat, soFar: nat, e: nat, base: nat, segEnd: nat, ghost size: nat, ghost more: nat)
      returns (ok: bool)
      requires base <= e && e % CHUNK_ALIGN == 0 && segEnd % CHUNK_ALIGN == 0 && Mapped(mem, base, segEnd + EPILOGUE_SIZE)
      requires span + 8 in mem && size % CHUNK_ALIGN == 0 && more % 8 == 0 && soFar == (size + more) % WORD_LIMIT
      modifies this`mem
      ensures (ok, mem) == CoalescedFrom(old(mem), base, segEnd, span, e, size, more)
    {
      hide SizeBits, InUseBit, PrevInUseBit, Mapped, SpanWords, Absorb;
      ghost var m1, top := mem, segEnd + EPILOGUE_SIZE;
      MappedPart(m1, base, top, e, top);
      var n, spanSize := AbsorbFree(e, segEnd, soFar, size + more);
      if n > segEnd {
        return false;
      }
      MappedAt(m1, base, top, n);
      SpanTotal(size, more, e, n);
      mem := SpanWords(mem, span, n, spanSize);
      return true;
    }

    /** Neutralises the headers that look free from `e` on, adding up their sizes. */
    method AbsorbFree(e: nat, segEnd: nat, soFar: nat, ghost total: nat) returns (n: nat, spanSize: nat)
      requires e % CHUNK_ALIGN == 0 && segEnd % CHUNK_ALIGN == 0 && Mapped(mem, e, segEnd + EPILOGUE_SIZE)
      requires soFar == total % WORD_LIMIT
      modifies this`mem
      ensures (mem, n) == Absorb(old(mem), e, segEnd) && e <= n && spanSize == (total + (n - e)) % WORD_LIMIT
    {
      hide SizeBits, InUseBit, Mapped, Absorb;
      n, spanSize := e, soFar;
      while n < segEnd
        invariant e <= n && n % CHUNK_ALIGN == 0 && Mapped(mem, n, segEnd + EPILOGUE_SIZE)
        invariant Absorb(old(mem), e, segEnd) == Absorb(mem, n, segEnd)
        invariant spanSize == (total + (n - e)) % WORD_LIMIT
        decreases segEnd - n
      {
        AbsorbStep(mem, n, segEnd);
        if InUse(mem, n) {
          return;
        }
        var ns := SizeOf(mem, n);
        if ns < MIN_CHUNK || ns % CHUNK_ALIGN != 0 {
          return;
        }
        ModAdd(total + (n - e), ns);
        mem := SetHeader(mem, n, 0, 0);
        spanSize := (spanSize + ns) % WORD_LIMIT;
        n := n + ns;
      }
      AbsorbEnd(mem, n, segEnd);
    }
  }

  lemma ModAdd(a: nat, b: nat)
    ensures (a % WORD_LIMIT + b) % WORD_LIMIT == (a + b) % WORD_LIMIT
  {
    var q := a / WORD_LIMIT;
    assert a + b == WORD_LIMIT * q + (a % WORD_LIMIT + b);
  }
}
