/** What `alloc` and `dealloc` do for their clients: which bytes a block owns, that no operation
    touches the payload of another block, and how the two operations undo each other. */
module HeapBlocks {
  import opened HeapLayout
  import opened HeapChunkOps
  import opened HeapState
  import opened HeapOps

  /** A chunk outside the replaced middle part keeps its place. */
  lemma KeptChunk(x: seq<Chunk>, mid: seq<Chunk>, new_: seq<Chunk>, y: seq<Chunk>, j: nat) returns (j': nat)
    requires j < |x| || |x| + |mid| <= j < |x| + |mid| + |y|
    requires Total(mid) == Total(new_)
    ensures j' < |x| + |new_| + |y| && (x + (new_ + y))[j'] == (x + (mid + y))[j]
    ensures Total((x + (new_ + y))[..j']) == Total((x + (mid + y))[..j])
    ensures j < |x| ==> Total((x + (mid + y))[..j]) + x[j].size <= Total(x)
    ensures j >= |x| ==> Total((x + (mid + y))[..j]) >= Total(x) + Total(mid)
  {
    if j < |x| {
      j' := j;
      assert (x + (new_ + y))[..j'] == x[..j] && (x + (mid + y))[..j] == x[..j];
      TotalPrefix(x, j);
    } else {
      var n := j - |x| - |mid|;
      j' := |x| + |new_| + n;
      assert (x + (new_ + y))[..j'] == x + (new_ + y[..n]);
      assert (x + (mid + y))[..j] == x + (mid + y[..n]);
      Parts(x, new_, y[..n]);
      Parts(x, mid, y[..n]);
    }
  }

  /** The block of chunk `j` in `h` is chunk `j'` in `h'`: same place, size and payload words. */
  predicate SameBlock(h: Heap, h': Heap, k: nat, j: nat, j': nat)
    requires Live(h.segs, k, j)
  {
    && Live(h'.segs, k, j')
    && h'.segs[k].At(j') == h.segs[k].At(j)
    && h'.segs[k].chunks[j'].size == h.segs[k].chunks[j].size
    && SamePayload(h.mem, h'.mem, h.segs[k].At(j), h.segs[k].chunks[j].size)
  }

  predicate SamePayload(m: Memory, m': Memory, c: nat, size: nat) {
    forall w :: c + HEADER_SIZE <= w < c + size && w in m ==> w in m' && m'[w] == m[w]
  }

  /** Rewriting the words and chunks of a middle part leaves every block outside it alone. */
  lemma EditKeeps(h: Heap, h': Heap, k: nat, x: seq<Chunk>, mid: seq<Chunk>, new_: seq<Chunk>, y: seq<Chunk>,
                  k2: nat, j: nat) returns (j': nat)
    requires SegsOk(h.mem, h.segs) && k < |h.segs| && Live(h.segs, k2, j)
    requires h.segs[k].chunks == x + (mid + y) && Total(mid) == Total(new_)
    requires h'.segs == h.segs[k := h.segs[k].(chunks := x + (new_ + y))]
    requires var a := h.segs[k].base + PROLOGUE_SIZE + Total(x);
             OnlyWithin(h.mem, h'.mem, a + 8, a + Total(mid) + 8)
    requires k2 == k ==> j < |x| || j >= |x| + |mid|
    ensures SameBlock(h, h', k2, j, j')
  {
    var s := h.segs[k];
    if k2 == k {
      j' := KeptChunk(x, mid, new_, y, j);
    } else {
      j' := j;
      ChunkPlace(h.mem, h.segs[k2], j);
      assert Apart(h.segs[k2], s) || Apart(s, h.segs[k2]);
      Parts(x, mid, y);
    }
  }

  lemma TakeKeeps(h: Heap, k: nat, i: nat, needed: nat, k2: nat, j: nat) returns (j': nat)
    requires Inv(h) && CanTake(h, k, i, needed) && Live(h.segs, k2, j)
    ensures SameBlock(h, Take(h, k, i, needed), k2, j, j')
  {
    hide SegOk, Total, Sum, TakeWords, StaysFree, OnlyWithin;
    var s, h' := h.segs[k], Take(h, k, i, needed);
    var x, t, y := s.chunks[..i], Taken(s.chunks[i].size, needed), s.chunks[i + 1..];
    assert s.chunks == x + ([s.chunks[i]] + y);
    TakeInv(h, k, i, needed);
    TotalOne(s.chunks[i]);
    TakenTotal(s.chunks[i].size, needed);
    j' := EditKeeps(h, h', k, x, [s.chunks[i]], t, y, k2, j);
  }

  lemma TakenTotal(size: nat, needed: nat)
    requires needed <= size
    ensures Total(Taken(size, needed)) == size
  {
    var t := Taken(size, needed);
    if |t| == 2 {
      assert t == [t[0]] + [t[1]];
      TotalConcat([t[0]], [t[1]]);
    }
  }

  lemma ReleaseKeeps(h: Heap, k: nat, i: nat, k2: nat, j: nat) returns (j': nat)
    requires Inv(h) && Live(h.segs, k, i) && Live(h.segs, k2, j) && (k2, j) != (k, i)
    ensures SameBlock(h, Release(h, k, i), k2, j, j')
  {
    hide SegOk, Total, Sum, ReleaseWords, StaysFree, Site, OnlyWithin;
    var s, h' := h.segs[k], Release(h, k, i);
    ReleaseInv(h, k, i);
    var x, b, d, y := AroundChunk(s.chunks, i);
    var mid := b + ([s.chunks[i]] + d);
    assert s.chunks == x + (mid + y);
    Parts(b, [s.chunks[i]], d);
    TotalOne(s.chunks[i]);
    var span := Chunk(Total(mid), false);
    TotalOne(span);
    j' := EditKeeps(h, h', k, x, mid, [span], y, k2, j);
  }

  // First fit

  /** A free chunk that holds header and payload of a request. */
  predicate Suits(c: Chunk, size: nat) { !c.used && c.size >= MIN_CHUNK && c.size >= size + HEADER_SIZE }

  predicate NothingSuits(h: Heap, size: nat) {
    forall k, i :: 0 <= k < |h.segs| && 0 <= i < |h.segs[k].chunks| ==> !Suits(h.segs[k].chunks[i], size)
  }

  /** The least chunk size decides what suits: chunks have sizes that are multiples of 16. */
  lemma SuitsIff(h: Heap, k: nat, i: nat, size: nat, n: nat)
    requires SegsOk(h.mem, h.segs) && k < |h.segs| && i < |h.segs[k].chunks| && Least(size, n)
    ensures Fits(h.segs[k].chunks[i], n) <==> Suits(h.segs[k].chunks[i], size)
  {
    hide Fenced, Tiled, Mapped;
    ChunkPlace(h.mem, h.segs[k], i);
    if Suits(h.segs[k].chunks[i], size) {
      LeastIs(size, n, h.segs[k].chunks[i].size);
    }
  }

  /** `alloc` refuses exactly for stricter alignment, overflow, or when no free chunk holds header and
      payload; only the last counts as out of memory, and a refusal changes neither words nor chunks. */
  lemma AllocRefuses(h: Heap, size: nat, align: nat)
    requires Inv(h)
    ensures var (h', p) := Alloc(h, size, align);
            && (p == NULL <==> align > CHUNK_ALIGN || Overflows(size) || NothingSuits(h, size))
            && (p == NULL ==> h' == h.(alignFailCount := h'.alignFailCount, oomCount := h'.oomCount))
            && h'.oomCount == h.oomCount + (if align <= CHUNK_ALIGN && !Overflows(size) && NothingSuits(h, size) then 1 else 0)
            && h'.alignFailCount == h.alignFailCount + (if align > CHUNK_ALIGN then 1 else 0)
  {
    hide SegsOk, Sum, Take, FitIn, FitSeg, Needed, Least, Overflows, Fits, Suits;
    if align <= CHUNK_ALIGN && Needed(size).Some? {
      var needed := Needed(size).value;
      var k := FitSeg(h.segs, needed);
      if k < |h.segs| {
        var i := FitIn(h.segs[k].chunks, needed);
        SuitsIff(h, k, i, size, needed);
        LeastChunk(size, needed);
        TakeCounts(h, k, i, needed);
      } else {
        forall k, i | 0 <= k < |h.segs| && 0 <= i < |h.segs[k].chunks|
          ensures !Suits(h.segs[k].chunks[i], size)
        {
          assert FitIn(h.segs[k].chunks, needed) == |h.segs[k].chunks|;
          SuitsIff(h, k, i, size, needed);
        }
      }
    }
  }

  lemma TakeCounts(h: Heap, k: nat, i: nat, needed: nat)
    requires Inv(h) && CanTake(h, k, i, needed)
    ensures Take(h, k, i, needed).oomCount == h.oomCount && Take(h, k, i, needed).alignFailCount == h.alignFailCount
    ensures Take(h, k, i, needed).badFreeCount == h.badFreeCount && Take(h, k, i, needed).doubleFreeCount == h.doubleFreeCount
  {
  }

  predicate PayloadsApart(c: nat, size: nat, c': nat, size': nat) {
    c + size <= c' + HEADER_SIZE || c' + size' <= c + HEADER_SIZE
  }

  /** The payload of a chunk of `size` bytes at `c` overlaps no live payload. */
  ghost predicate ApartFromLive(h: Heap, c: nat, size: nat) {
    forall k: nat, j: nat :: Live(h.segs, k, j) ==>
      PayloadsApart(c, size, h.segs[k].At(j), h.segs[k].chunks[j].size)
  }

  /** Chunk `i` of segment `k` is the first that suits, in segment order then address order. */
  ghost predicate FirstSuited(h: Heap, k: nat, i: nat, size: nat) {
    && k < |h.segs| && i < |h.segs[k].chunks| && Suits(h.segs[k].chunks[i], size)
    && (forall k' :: 0 <= k' < k ==> NoneSuits(h.segs[k'].chunks, size))
    && NoneSuits(h.segs[k].chunks[..i], size)
  }

  predicate NoneSuits(cs: seq<Chunk>, size: nat) { forall i :: 0 <= i < |cs| ==> !Suits(cs[i], size) }

  /** A granted block: the first chunk that suits, cut down to the least size if what is left over can
      be a chunk and whole if not; aligned, between the fences, and apart from every payload that was
      live before.  Only words, lists and the two counts of blocks and free bytes change. */
  lemma AllocGrants(h: Heap, size: nat, align: nat) returns (k: nat, i: nat, least: nat)
    requires Inv(h) && Alloc(h, size, align).1 != NULL
    ensures Least(size, least) && FirstSuited(h, k, i, size) && CanTake(h, k, i, least)
    ensures Alloc(h, size, align).0 == Take(h, k, i, least)
    ensures var (h', p) := Alloc(h, size, align);
            && Block(h'.segs, k, i, p)
            && var s, c, n := h.segs[k], p - HEADER_SIZE, h'.segs[k].chunks[i].size;
               && n == (if s.chunks[i].size < least + MIN_CHUNK then s.chunks[i].size else least)
               && p == s.At(i) + HEADER_SIZE && p % CHUNK_ALIGN == 0 && least <= n < least + MIN_CHUNK
               && s.base + PROLOGUE_SIZE <= c && c + n <= s.end - EPILOGUE_SIZE
               && ApartFromLive(h, c, n) && h.freeBytes >= n
               && h' == h.(mem := h'.mem, segs := h'.segs, freeBytes := h.freeBytes - n, allocCount := h.allocCount + 1)
  {
    hide SegsOk, Sum, FitIn, FitSeg, Needed, PayloadsApart, TakeWords, Least, Suits, Fits;
    least := Needed(size).value;
    k := FitSeg(h.segs, least);
    i := FitIn(h.segs[k].chunks, least);
    FitIsFirst(h, k, i, size, least);
    LeastChunk(size, least);
    TakePlace(h, k, i, least);
    TakeApart(h, k, i, least);
    TakeBound(h, k, i, least);
  }

  lemma LeastChunk(size: nat, n: nat)
    requires Least(size, n)
    ensures MIN_CHUNK <= n && n % CHUNK_ALIGN == 0
  {
  }

  lemma FitIsFirst(h: Heap, k: nat, i: nat, size: nat, n: nat)
    requires SegsOk(h.mem, h.segs) && Least(size, n)
    requires k == FitSeg(h.segs, n) < |h.segs| && i == FitIn(h.segs[k].chunks, n)
    ensures FirstSuited(h, k, i, size) && i < |h.segs[k].chunks| && Fits(h.segs[k].chunks[i], n)
  {
    hide SegsOk, FitIn, FitSeg, Least, Suits, Fits;
    SuitsIff(h, k, i, size, n);
    forall k' | 0 <= k' < k ensures NoneSuits(h.segs[k'].chunks, size) {
      assert FitIn(h.segs[k'].chunks, n) == |h.segs[k'].chunks|;
      forall j | 0 <= j < |h.segs[k'].chunks| ensures !Suits(h.segs[k'].chunks[j], size) {
        SuitsIff(h, k', j, size, n);
      }
    }
    forall j | 0 <= j < i ensures !Suits(h.segs[k].chunks[j], size) {
      SuitsIff(h, k, j, size, n);
    }
  }

  lemma TakeApart(h: Heap, k: nat, i: nat, needed: nat)
    requires Inv(h) && CanTake(h, k, i, needed)
    ensures ApartFromLive(h, h.segs[k].At(i), TakenSize(h.segs[k].chunks[i].size, needed))
  {
    hide SegsOk, Sum, PayloadsApart;
    forall k2: nat, j: nat | Live(h.segs, k2, j)
      ensures PayloadsApart(h.segs[k].At(i), TakenSize(h.segs[k].chunks[i].size, needed),
                            h.segs[k2].At(j), h.segs[k2].chunks[j].size)
    {
      ChunksApart(h, k, i, k2, j);
      ShrinkApart(h.segs[k].At(i), h.segs[k].chunks[i].size, TakenSize(h.segs[k].chunks[i].size, needed),
                  h.segs[k2].At(j), h.segs[k2].chunks[j].size);
    }
  }

  lemma ShrinkApart(c: nat, size: nat, less: nat, c': nat, size': nat)
    requires c + size <= c' || c' + size' <= c
    requires less <= size
    ensures PayloadsApart(c, less, c', size')
  {
  }

  lemma TakePlace(h: Heap, k: nat, i: nat, needed: nat)
    requires Inv(h) && CanTake(h, k, i, needed)
    ensures var s, h' := h.segs[k], Take(h, k, i, needed);
            && Block(h'.segs, k, i, s.At(i) + HEADER_SIZE)
            && h'.segs[k].At(i) == s.At(i)
            && h'.segs[k].chunks[i].size == TakenSize(s.chunks[i].size, needed) >= needed
            && s.At(i) % CHUNK_ALIGN == 0
            && s.base + PROLOGUE_SIZE <= s.At(i) && s.At(i) + s.chunks[i].size <= s.end - EPILOGUE_SIZE
  {
    hide Fenced, Tiled, Sum, TakeWords, Mapped;
    var s := h.segs[k];
    ChunkPlace(h.mem, s, i);
    var x, t, y := s.chunks[..i], Taken(s.chunks[i].size, needed), s.chunks[i + 1..];
    assert (x + (t + y))[..i] == x && (x + (t + y))[i] == t[0];
  }

  /** Distinct chunks do not overlap. */
  lemma ChunksApart(h: Heap, k: nat, i: nat, k2: nat, j: nat)
    requires Inv(h) && k < |h.segs| && i < |h.segs[k].chunks|
    requires k2 < |h.segs| && j < |h.segs[k2].chunks| && (k, i) != (k2, j)
    ensures h.segs[k].At(i) + h.segs[k].chunks[i].size <= h.segs[k2].At(j) ||
            h.segs[k2].At(j) + h.segs[k2].chunks[j].size <= h.segs[k].At(i)
  {
    hide Fenced, Tiled, Sum, Mapped;
    ChunkPlace(h.mem, h.segs[k], i);
    ChunkPlace(h.mem, h.segs[k2], j);
    if k == k2 {
      var cs := h.segs[k].chunks;
      if i < j {
        TotalMonotone(cs, i + 1, j);
      } else {
        TotalMonotone(cs, j + 1, i);
      }
    } else {
      assert Apart(h.segs[k], h.segs[k2]) || Apart(h.segs[k2], h.segs[k]);
    }
  }

  lemma TotalMonotone(cs: seq<Chunk>, i: nat, j: nat)
    requires i <= j <= |cs|
    ensures Total(cs[..i]) <= Total(cs[..j])
  {
    assert cs[..j] == cs[..i] + cs[i..j];
    TotalConcat(cs[..i], cs[i..j]);
  }

  // What a free counts

  /** A null, misaligned or foreign pointer is a bad free, and nothing else changes. */
  lemma ForeignIsBadFree(h: Heap, p: nat)
    requires Inv(h)
    requires p % 16 != 0 || forall k :: 0 <= k < |h.segs| ==> !(h.segs[k].base + 32 <= p < h.segs[k].end)
    ensures Free(h, p) == h.(badFreeCount := h.badFreeCount + 1)
  {
    hide SegsOk, Sum, SegOf;
    assert p != NULL && p % CHUNK_ALIGN == 0 ==> SegOf(h.segs, p - HEADER_SIZE) == |h.segs|;
  }

  /** Between the fences of a segment the word in front decides: a clear lowest bit is a double free, and
      with a size that is no chunk's the free is a bad one; nothing else changes. */
  lemma WordDecides(h: Heap, k: nat, p: nat)
    requires Inv(h) && k < |h.segs| && h.segs[k].base + 32 <= p < h.segs[k].end && p % 16 == 0
    ensures p - 8 in h.mem
    ensures var w := h.mem[p - 8];
            && (w % 2 == 0 ==> Free(h, p) == h.(doubleFreeCount := h.doubleFreeCount + 1))
            && (w % 2 == 1 && (w / 8 % 2 == 1 || w < 32) ==> Free(h, p) == h.(badFreeCount := h.badFreeCount + 1))
  {
    hide Fenced, Mapped, Sum, SegOf, SegsOk;
    SegOfComplete(h.mem, h.segs, k, p - HEADER_SIZE);
    HeaderMapped(h, k, p - HEADER_SIZE);
    WordSize(h.mem[p - 8]);
  }

  lemma WordSize(w: Word)
    ensures SizeBits(w) % CHUNK_ALIGN == 0 <==> w / 8 % 2 == 0
    ensures SizeBits(w) < MIN_CHUNK <==> w < 32
  {
    var q := w / 8;
    assert SizeBits(w) == 8 * q;
    if q % 2 == 0 {
      assert 8 * q == 16 * (q / 2);
    } else {
      assert 8 * q == 16 * (q / 2) + 8;
    }
  }

  /** The free of a block counts it and its bytes, and leaves the four counts of violations and refusals
      alone. */
  lemma BlockIsFreed(h: Heap, k: nat, i: nat, p: nat)
    requires Inv(h) && Block(h.segs, k, i, p)
    ensures h.allocCount >= 1
    ensures var h' := Free(h, p);
            h' == h.(mem := h'.mem, segs := h'.segs, freeBytes := h.freeBytes + h.segs[k].chunks[i].size,
                     allocCount := h.allocCount - 1)
  {
    hide SegsOk, Sum, Judge, ReleaseWords, ReleaseAt;
    JudgeBlock(h, k, i, p);
    ReleaseBound(h, k, i);
  }

  // Round trip and full release

  /** On the list: releasing what was just taken restores the list. */
  lemma TakeRelease(m: Memory, a: nat, cs: seq<Chunk>, i: nat, needed: nat)
    requires Fenced(m, a, cs, true) && i < |cs| && Fits(cs[i], needed)
    ensures i < |TakeAt(cs, i, needed)| && ReleaseAt(TakeAt(cs, i, needed), i) == cs
  {
    hide Fenced, Tiled;
    var x, c, y := cs[..i], cs[i], cs[i + 1..];
    SplitAt(m, a, cs, true, i);
    NextHeader(m, a + Total(x) + c.size, y, false);
    assert cs == x + ([c] + y);
    RejoinTaken(x, c.size, y, needed);
  }

  lemma RejoinTaken(x: seq<Chunk>, size: nat, y: seq<Chunk>, needed: nat)
    requires needed <= size && LastUsed(x, true) && (y != [] ==> y[0].used)
    ensures ReleaseAt(x + (Taken(size, needed) + y), |x|) == x + ([Chunk(size, false)] + y)
  {
    hide Total;
    var t := Taken(size, needed);
    var cs, i := x + (t + y), |x|;
    assert cs[..i] == x && cs[i] == t[0];
    assert MergeFrom(cs, i) == i && cs[i..i] == [];
    assert MergeTo(cs, i) == i + |t|;
    assert cs[i + |t|..] == y;
    assert cs[i + 1..i + |t|] == t[1..];
    TotalNone();
    if |t| == 2 {
      assert t[1..] == [t[1]];
      TotalOne(t[1]);
    }
  }

  lemma TotalNone()
    ensures Total([]) == 0
  {
  }

  /** `dealloc` undoes `alloc`: chunk lists and both counters are as before. */
  lemma AllocThenFree(h: Heap, size: nat, align: nat)
    requires Inv(h) && Alloc(h, size, align).1 != NULL
    ensures var (h', p) := Alloc(h, size, align);
            && Inv(h')
            && var h'' := Free(h', p);
               h''.segs == h.segs && h''.freeBytes == h.freeBytes && h''.allocCount == h.allocCount
  {
    hide SegsOk, SegOk, Sum, TakeWords, ReleaseWords, ReleaseAt, TakeAt, FitSeg, FitIn, Needed, Judge;
    var (h', p) := Alloc(h, size, align);
    AllocInv(h, size, align);
    var k, i, least := AllocGrants(h, size, align);
    JudgeBlock(h', k, i, p);
    RestoreSegs(h, k, i, least);
    FreeInv(h', p);
  }

  lemma RestoreSegs(h: Heap, k: nat, i: nat, needed: nat)
    requires Inv(h) && CanTake(h, k, i, needed)
    ensures var h' := Take(h, k, i, needed);
            Inv(h') && Live(h'.segs, k, i) && Release(h', k, i).segs == h.segs
  {
    hide SegsOk, Sum, TakeWords, ReleaseWords, ReleaseAt, TakeAt, Fenced;
    TakeInv(h, k, i, needed);
    TakePlace(h, k, i, needed);
    SegFenced(h, k);
    TakeRelease(h.mem, h.segs[k].base + PROLOGUE_SIZE, h.segs[k].chunks, i, needed);
  }

  lemma SegFenced(h: Heap, k: nat)
    requires Inv(h) && k < |h.segs|
    ensures Fenced(h.mem, h.segs[k].base + PROLOGUE_SIZE, h.segs[k].chunks, true)
    ensures h.segs[k].chunks != []
    ensures h.segs[k].end == h.segs[k].base + PROLOGUE_SIZE + Total(h.segs[k].chunks) + EPILOGUE_SIZE
  {
  }

  lemma {:induction false} SumZero<T>(s: seq<T>, f: T -> nat, k: nat)
    requires Sum(s, f) == 0 && k < |s|
    ensures f(s[k]) == 0
  {
    if k > 0 {
      SumZero(s[1..], f, k - 1);
    }
  }

  /** Once no block is live, in whatever order they were freed, every segment is one free chunk. */
  lemma AllFreed(h: Heap, k: nat)
    requires Inv(h) && h.allocCount == 0 && k < |h.segs|
    ensures h.segs[k].chunks == [Chunk(h.segs[k].end - h.segs[k].base - 32, false)]
  {
    hide SegsOk;
    var s := h.segs[k];
    SegFenced(h, k);
    SumZero(h.segs, SegLive, k);
    forall i | 0 <= i < |s.chunks| ensures !s.chunks[i].used {
      SumZero(s.chunks, LiveOne, i);
    }
    NoTwoFree(h.mem, s.base + PROLOGUE_SIZE, s.chunks);
    assert s.chunks == [s.chunks[0]];
    TotalOne(s.chunks[0]);
  }

  lemma NoTwoFree(m: Memory, a: nat, cs: seq<Chunk>)
    requires Fenced(m, a, cs, true) && |cs| > 0 && forall i :: 0 <= i < |cs| ==> !cs[i].used
    ensures |cs| == 1
  {
  }
}
