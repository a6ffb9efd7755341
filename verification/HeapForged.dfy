/** What `dealloc` does with a pointer to no block in front of which the word reads as the header of a
    chunk in use (src/hal/heap.rs:167-257). */
module HeapForged {
  import opened HeapLayout
  import opened HeapChunkOps
  import opened HeapState
  import opened HeapCoalesce
  import opened HeapOps
  import opened HeapBlocks
  import opened HeapRuns
  import HeapCheck

  predicate IsForged(h: Heap, k: nat, p: nat) {
    Inv(h) && Judge(h, p) == Forged(k)
  }

  /** The merge gets through, rather than giving up on a span outside the segment. */
  predicate Through(h: Heap, k: nat, p: nat)
    requires IsForged(h, k, p)
  {
    SegInside(h, k, p - HEADER_SIZE);
    Coalesced(h.mem, h.segs[k].base, h.segs[k].end - EPILOGUE_SIZE, p - HEADER_SIZE).0
  }

  // Giving up

  lemma {:induction false} AbsorbKeeps(m: Memory, n: nat, last: nat, w: nat)
    requires n % CHUNK_ALIGN == 0 && last % CHUNK_ALIGN == 0 && Mapped(m, n, last + EPILOGUE_SIZE)
    requires w in m && w < n + 8
    ensures Absorb(m, n, last).0[w] == m[w]
    decreases last - n
  {
    hide Absorb, Mapped, SizeBits, InUseBit;
    if n >= last {
      AbsorbEnd(m, n, last);
    } else {
      AbsorbStep(m, n, last);
      var ns := SizeOf(m, n);
      if !InUse(m, n) && ns >= MIN_CHUNK && ns % CHUNK_ALIGN == 0 {
        AbsorbKeeps(SetHeader(m, n, 0, 0), n + ns, last, w);
      }
    }
  }

  /** A walk that leaves the segment has neutralised the header it started at, unless it started
      behind the segment. */
  lemma AbsorbChanges(m: Memory, n: nat, last: nat)
    requires n % CHUNK_ALIGN == 0 && last % CHUNK_ALIGN == 0 && Mapped(m, n, last + EPILOGUE_SIZE)
    requires Absorb(m, n, last).1 > last
    ensures Absorb(m, n, last).0 == m <==> n > last
  {
    hide Absorb, Mapped;
    if n >= last {
      AbsorbEnd(m, n, last);
    } else {
      AbsorbStep(m, n, last);
      AbsorbKeeps(SetHeader(m, n, 0, 0), n + SizeOf(m, n), last, n + 8);
    }
  }

  /** The condition under which the merge writes nothing: the span would begin in front of the segment,
      or the chunk in question ends behind it and is marked as having no free neighbour in front. */
  predicate WritesNothing(m: Memory, base: nat, last: nat, c: nat)
    requires c in m && c + 8 in m
  {
    SpanStart(m, c) < base + PROLOGUE_SIZE || (PrevInUse(m, c) && c + SizeOf(m, c) > last)
  }

  lemma GivingUp(m: Memory, base: nat, last: nat, c: nat)
    requires Inside(m, base, last, c) && c in m && c + 8 in m && InUse(m, c)
    requires SizeOf(m, c) % CHUNK_ALIGN == 0 && SizeOf(m, c) >= MIN_CHUNK && !Coalesced(m, base, last, c).0
    ensures Coalesced(m, base, last, c).1 == m <==> WritesNothing(m, base, last, c)
  {
    hide Absorb, Mapped, SpanWords, SizeBits, InUseBit, PrevInUseBit;
    var top, e := last + EPILOGUE_SIZE, c + SizeOf(m, c);
    if SpanStart(m, c) >= base + PROLOGUE_SIZE {
      var m1 := if PrevInUse(m, c) then m else SetHeader(m, c, 0, 0);
      MappedKeep(m, m1, base, top);
      MappedPart(m1, base, top, e, top);
      AlignedSum(c, SizeOf(m, c));
      AbsorbChanges(m1, e, last);
      if !PrevInUse(m, c) {
        AbsorbKeeps(m1, e, last, c + 8);
        UsedIsNotZero(m[c + 8]);
      }
    }
  }

  lemma UsedIsNotZero(w: Word)
    requires InUseBit(w)
    ensures w != 0
  {
  }

  // Getting through

  /** The words of the span leave no IN_USE in the header at `c`. */
  lemma SpanClears(m: Memory, span: nat, n: nat, size: nat, c: nat)
    requires span + 8 in m && n + 8 in m && c + 8 in m && size + 3 < WORD_LIMIT && size % 8 == 0
    requires n > c + 8 && (span == c || (span < c && m[c + 8] == 0))
    ensures !InUse(SpanWords(m, span, n, size), c)
  {
    var m' := SpanWords(m, span, n, size);
    if span == c {
      var prev := PrevInUse(SetPrevSize(m, n, size), span);
      assert m'[c + 8] == size + Flags(false, prev);
      EvenHeader(size, prev);
    }
  }

  lemma EvenHeader(size: nat, prev: bool)
    requires size % 8 == 0
    ensures (size + Flags(false, prev)) % 2 == 0
  {
    var half := 4 * (size / 8) + if prev then 1 else 0;
    assert size == 8 * (size / 8);
    Doubled(size + Flags(false, prev), half);
  }

  lemma Doubled(x: nat, half: nat)
    requires x == 2 * half
    ensures x % 2 == 0
  {
  }

  lemma EightWraps(total: nat)
    requires total % 8 == 0
    ensures total % WORD_LIMIT % 8 == 0
  {
    var q, r := total / WORD_LIMIT, total % WORD_LIMIT;
    assert total == 8 * (0x2000_0000_0000_0000 * q) + r;
  }

  /** A merge that gets through has cleared IN_USE in the header it was asked for. */
  lemma ThroughClears(m: Memory, base: nat, last: nat, c: nat)
    requires Inside(m, base, last, c) && c in m && c + 8 in m && SizeOf(m, c) % CHUNK_ALIGN == 0 && SizeOf(m, c) >= MIN_CHUNK
    requires Coalesced(m, base, last, c).0
    ensures !InUse(Coalesced(m, base, last, c).1, c) && !WritesNothing(m, base, last, c)
  {
    hide Absorb, Mapped, SpanWords, SizeBits, InUseBit, PrevInUseBit;
    var top, size := last + EPILOGUE_SIZE, SizeOf(m, c);
    var e, span := c + size, SpanStart(m, c);
    var m1 := if PrevInUse(m, c) then m else SetHeader(m, c, 0, 0);
    MappedKeep(m, m1, base, top);
    MappedPart(m1, base, top, e, top);
    AlignedSum(c, size);
    SpanMapped(m, base, last, c);
    AbsorbKeeps(m1, e, last, c + 8);
    var (m2, n) := Absorb(m1, e, last);
    var more := if PrevInUse(m, c) then 0 else SizeOf(m, span);
    SizeBound(m[span + 8]);
    if n <= last {
      MappedAt(m1, base, top, n);
      SpanTotal(size, more, e, n);
      TotalEight(size, more, e, n);
      EightWraps(size + more + (n - e));
      SpanClears(m2, span, n, (size + more + (n - e)) % WORD_LIMIT, c);
    }
  }

  lemma TotalEight(size: nat, more: nat, e: nat, n: nat)
    requires size % CHUNK_ALIGN == 0 && more % 8 == 0
    requires e <= n && e % CHUNK_ALIGN == 0 && n % CHUNK_ALIGN == 0
    ensures (size + more + (n - e)) % 8 == 0
  {
    var k := 2 * (size / CHUNK_ALIGN) + more / 8 + 2 * (n / CHUNK_ALIGN - e / CHUNK_ALIGN);
    assert size + more + (n - e) == 8 * k;
    EightTimes(k);
  }

  /** From heap `h` to `h'` on the free of a chunk at `c` that is none: memory stays as it was exactly
      when `WritesNothing`; when the merge got through, its size is counted as free, one block less is
      counted, and the lists no longer fit. */
  predicate Touches(h: Heap, h': Heap, s: Seg, c: nat, through: bool) {
    && s.end >= EPILOGUE_SIZE && c in h.mem && c + 8 in h.mem && c + 8 in h'.mem
    && (h'.mem == h.mem <==> WritesNothing(h.mem, s.base, s.end - EPILOGUE_SIZE, c))
    && (through ==> !Inv(h') && !InUse(h'.mem, c) && h' == h.(mem := h'.mem, freeBytes := h.freeBytes + SizeOf(h.mem, c), allocCount := h'.allocCount))
    && (through ==> h'.allocCount == if h.allocCount == 0 then WORD_LIMIT - 1 else h.allocCount - 1)
    && (!through ==> h' == h.(mem := h'.mem, badFreeCount := h.badFreeCount + 1))
  }

  /** The documentation says that violations are counted and no memory is touched.  A free of a pointer
      that passes for a block leaves all memory alone if and only if it finds the span to begin in
      front of the segment, or the chunk to end behind it without a free neighbour in front. */
  lemma FreeTouches(h: Heap, k: nat, p: nat)
    requires IsForged(h, k, p)
    ensures Touches(h, Free(h, p), h.segs[k], p - HEADER_SIZE, Through(h, k, p))
  {
    hide SegsOk, Coalesced, Inside, WritesNothing, SizeBits, InUseBit, PrevInUseBit;
    var c, s := p - HEADER_SIZE, h.segs[k];
    var last := s.end - EPILOGUE_SIZE;
    SegInside(h, k, c);
    InsideAt(h.mem, s.base, last, c);
    if Through(h, k, p) {
      ThroughClears(h.mem, s.base, last, c);
    } else {
      GivingUp(h.mem, s.base, last, c);
    }
  }

  lemma InsideAt(m: Memory, base: nat, last: nat, c: nat)
    requires Inside(m, base, last, c)
    ensures c in m && c + 8 in m
  {
    hide Mapped;
    MappedAt(m, base, last + EPILOGUE_SIZE, c);
  }

  predicate SameRegions(segs: seq<Seg>, segs': seq<Seg>) {
    |segs'| == |segs| && forall k :: 0 <= k < |segs| ==> segs'[k].base == segs[k].base && segs'[k].end == segs[k].end
  }

  /** The words determine the lists of all segments. */
  lemma ListsUnique(m: Memory, segs: seq<Seg>, segs': seq<Seg>)
    requires SegsOk(m, segs) && SegsOk(m, segs') && SameRegions(segs, segs')
    ensures segs' == segs
  {
    hide Fenced, Tiled, Mapped;
    forall k | 0 <= k < |segs| ensures segs'[k] == segs[k] {
      var a := segs[k].base + PROLOGUE_SIZE;
      HeapCheck.LastHeader(m, a, segs[k].chunks, true);
      HeapCheck.LastHeader(m, a, segs'[k].chunks, true);
      HeapCheck.ParseUnique(m, a, segs[k].chunks, segs'[k].chunks, true, true);
    }
  }

  /** Writing the three words of a span inside one payload leaves all tags alone. */
  lemma SpanInPayload(h: Heap, k: nat, i: nat, c: nat, e: nat, size: nat)
    requires Inv(h) && Owns(h, k, i, c + 8) && Owns(h, k, i, e) && Owns(h, k, i, e + 8) && size + 3 < WORD_LIMIT
    ensures SegsOk(SpanWords(h.mem, c, e, size), h.segs)
  {
    hide Inv, Owns, SizeBits, InUseBit, PrevInUseBit, SegsOk;
    OwnedMapped(h, k, i, c + 8);
    OwnedMapped(h, k, i, e + 8);
    var h3 := h.(mem := h.mem[e := size]);
    StoreInv(h, k, i, e, size);
    StoreOwns(h, h3, k, i, c + 8);
    StoreOwns(h, h3, k, i, e + 8);
    var w := size + Flags(false, PrevInUse(h3.mem, c));
    var h4 := h3.(mem := h3.mem[c + 8 := w]);
    StoreInv(h3, k, i, c + 8, w);
    StoreOwns(h3, h4, k, i, e + 8);
    SizeBound(h4.mem[e + 8]);
    var w' := SizeOf(h4.mem, e) + Flags(InUse(h4.mem, e), false);
    StoreInv(h4, k, i, e + 8, w');
    InvLists(h4.(mem := h4.mem[e + 8 := w']));
  }

  lemma OwnedMapped(h: Heap, k: nat, i: nat, w: nat)
    requires Owns(h, k, i, w)
    ensures w in h.mem
  {
  }

  lemma StoreOwns(h: Heap, h': Heap, k: nat, i: nat, w: nat)
    requires Owns(h, k, i, w) && h'.segs == h.segs && forall u :: u in h.mem ==> u in h'.mem
    ensures Owns(h', k, i, w)
  {
  }

  lemma InvLists(h: Heap)
    requires Inv(h)
    ensures SegsOk(h.mem, h.segs) && h.allocCount == Sum(h.segs, SegLive)
  {
  }

  /** A chunk at `c` inside the payload of a block, with PREV_IN_USE set and a word behind it that reads
      as in use. */
  predicate Nested(h: Heap, k: nat, i: nat, c: nat) {
    && Owns(h, k, i, c + 8) && PrevInUse(h.mem, c)
    && var e := c + SizeOf(h.mem, c);
       Owns(h, k, i, e) && Owns(h, k, i, e + 8) && InUse(h.mem, e)
  }

  lemma NestedThrough(h: Heap, k: nat, i: nat, c: nat)
    requires Inv(h) && LooksUsed(h, k, c) && Nested(h, k, i, c)
    ensures h.segs[k].end >= EPILOGUE_SIZE && Inside(h.mem, h.segs[k].base, h.segs[k].end - EPILOGUE_SIZE, c)
    ensures var (ok, m) := Coalesced(h.mem, h.segs[k].base, h.segs[k].end - EPILOGUE_SIZE, c);
            ok && SegsOk(m, h.segs)
  {
    hide Fenced, Tiled, Mapped, SpanWords, SizeBits, InUseBit, PrevInUseBit, Absorb, Sum;
    var m, s := h.mem, h.segs[k];
    var size, last := SizeOf(m, c), s.end - EPILOGUE_SIZE;
    var e := c + size;
    SegInside(h, k, c);
    ChunkPlace(m, s, i);
    MappedAt(m, s.base, s.end, c);
    AlignedSum(c, size);
    SizeBound(m[c + 8]);
    FromSite(m, s.base, last, c, e, size, 0, 0);
    SpanInPayload(h, k, i, c, e, size);
  }

  /** Such a chunk gets through.  Afterwards no lists at all satisfy the invariant: the words still are
      the tags of the blocks that the clients hold, which the counter denies. */
  lemma ForgedInPayload(h: Heap, k: nat, i: nat, p: nat, segs': seq<Seg>)
    requires IsForged(h, k, p) && Nested(h, k, i, p - HEADER_SIZE) && SameRegions(h.segs, segs')
    ensures Through(h, k, p) && !Inv(Free(h, p).(segs := segs'))
  {
    hide SegsOk, Coalesced, Inside, Sum, Nested;
    NestedThrough(h, k, i, p - HEADER_SIZE);
    var h' := Free(h, p);
    if Inv(h'.(segs := segs')) {
      ListsUnique(h'.mem, h.segs, segs');
    }
  }

  // How such a pointer comes about

  /** No chunk begins inside another. */
  lemma NotAtStart(cs: seq<Chunk>, i: nat, off: nat)
    requires i < |cs| && Total(cs[..i]) < off < Total(cs[..i]) + cs[i].size
    ensures IndexOf(cs, off) == |cs|
  {
    hide Total, IndexOf;
    var j := IndexOf(cs, off);
    if j <= i {
      TotalMonotone(cs, j, i);
    } else if j < |cs| {
      TotalPrefix(cs, i);
      TotalMonotone(cs, i + 1, j);
    }
  }

  /** The words of a block at `at` that the two stores go to, and the one between. */
  lemma InnerWords(h: Heap, k: nat, i: nat, at: nat)
    requires Inv(h) && Live(h.segs, k, i) && at == h.segs[k].At(i) && h.segs[k].chunks[i].size >= 64
    ensures Owns(h, k, i, at + 24) && Owns(h, k, i, at + 48) && Owns(h, k, i, at + 56)
    ensures at % CHUNK_ALIGN == 0 && Holds(h.segs[k], at + 16) && at == h.segs[k].base + PROLOGUE_SIZE + Total(h.segs[k].chunks[..i])
  {
    hide Fenced, Tiled, Mapped, Sum;
    var s := h.segs[k];
    ChunkPlace(h.mem, s, i);
    AlignedSum(at, 16);
    AlignedSum(at, 48);
    MappedAt(h.mem, s.base, s.end, at + 16);
    MappedAt(h.mem, s.base, s.end, at + 48);
  }

  lemma TwoStores(h: Heap, k: nat, i: nat, at: nat) returns (h': Heap)
    requires Inv(h) && Live(h.segs, k, i) && at == h.segs[k].At(i) && h.segs[k].chunks[i].size >= 64
    ensures Runs(h, [Store(at + 24, 35), Store(at + 56, 1)], h') && Inv(h')
    ensures h' == h.(mem := h.mem[at + 24 := 35][at + 56 := 1])
  {
    hide Inv, Owns;
    InnerWords(h, k, i, at);
    var h1 := h.(mem := h.mem[at + 24 := 35]);
    StoreInv(h, k, i, at + 24, 35);
    InnerWords(h1, k, i, at);
    h' := h1.(mem := h1.mem[at + 56 := 1]);
    StoreInv(h1, k, i, at + 56, 1);
    OneStore(h1, k, i, at + 56, 1, [], h');
    OneStore(h, k, i, at + 24, 35, [Store(at + 56, 1)], h');
    assert [Store(at + 24, 35)] + [Store(at + 56, 1)] == [Store(at + 24, 35), Store(at + 56, 1)];
    assert [Store(at + 56, 1)] + [] == [Store(at + 56, 1)];
  }

  lemma OneStore(h: Heap, k: nat, i: nat, w: nat, v: Word, ops: seq<Op>, h': Heap)
    requires Inv(h) && Owns(h, k, i, w) && Runs(h.(mem := h.mem[w := v]), ops, h')
    ensures Runs(h, [Store(w, v)] + ops, h')
  {
    hide Inv, Owns;
    var all := [Store(w, v)] + ops;
    assert all[0] == Store(w, v) && all[1..] == ops;
    assert Legal(h, all[0]);
  }

  lemma ForgedNow(h: Heap, k: nat, i: nat, at: nat)
    requires Inv(h) && Live(h.segs, k, i) && at == h.segs[k].At(i) && h.segs[k].chunks[i].size >= 64
    requires at + 24 in h.mem && h.mem[at + 24] == 35 && at + 56 in h.mem && h.mem[at + 56] == 1
    ensures IsForged(h, k, at + 32) && Nested(h, k, i, at + 16) && InUse(h.mem, at + 16)
  {
    hide SegsOk, Owns, Sum, IndexOf, Total;
    InnerWords(h, k, i, at);
    AlignedSum(at, 32);
    SegOfComplete(h.mem, h.segs, k, at + 16);
    NotAtStart(h.segs[k].chunks, i, Total(h.segs[k].chunks[..i]) + 16);
  }

  /** Any block whose chunk has at least 64 bytes will do: two words that its owner stores into it, a
      header of 32 bytes in use and a header in use behind it, make a pointer into the block pass for
      one of its own. */
  lemma ForgedArises(h: Heap, k: nat, i: nat, segs': seq<Seg>) returns (h': Heap)
    requires Inv(h) && Live(h.segs, k, i) && h.segs[k].chunks[i].size >= 64 && SameRegions(h.segs, segs')
    ensures var at := h.segs[k].At(i);
            && Runs(h, [Store(at + 24, 35), Store(at + 56, 1)], h')
            && IsForged(h', k, at + 32) && Free(h', at + 32).mem != h'.mem && !Inv(Free(h', at + 32).(segs := segs'))
  {
    hide Inv, Nested, Judge, Free, Runs, Through;
    var at := h.segs[k].At(i);
    h' := TwoStores(h, k, i, at);
    ForgedNow(h', k, i, at);
    FreeTouches(h', k, at + 32);
    ForgedInPayload(h', k, i, at + 32, segs');
  }
}
