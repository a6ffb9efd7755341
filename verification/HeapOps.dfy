/** `init_region`, `alloc` and `dealloc` as functions on the allocator state, and the proof that
    each keeps the invariant (src/hal/heap.rs). */
module HeapOps {
  import opened Common
  import opened HeapLayout
  import opened HeapChunkOps
  import opened HeapState
  import opened HeapCoalesce

  const NULL := 0

  function AlignUp(x: nat): (r: nat)
    ensures x <= r < x + CHUNK_ALIGN && r % CHUNK_ALIGN == 0
  {
    (x + CHUNK_ALIGN - 1) / CHUNK_ALIGN * CHUNK_ALIGN
  }

  function AlignDown(x: nat): (r: nat)
    ensures x - CHUNK_ALIGN < r <= x && r % CHUNK_ALIGN == 0
  {
    x / CHUNK_ALIGN * CHUNK_ALIGN
  }

  // init_region

  predicate Accepts(h: Heap, base: nat, end: nat) {
    |h.segs| < MAX_SEGMENTS && AlignUp(base) + MIN_CHUNK + PROLOGUE_SIZE + EPILOGUE_SIZE <= AlignDown(end)
  }

  /** The caller's duty: a mapped region of the address space that overlaps no segment. */
  predicate Usable(h: Heap, base: nat, end: nat) {
    && end < WORD_LIMIT && Mapped(h.mem, AlignUp(base), AlignDown(end))
    && forall k :: 0 <= k < |h.segs| ==> Apart(h.segs[k], Seg(AlignUp(base), AlignDown(end), []))
  }

  function InitWords(m: Memory, base: nat, end: nat): Memory
    requires base + 64 <= end < WORD_LIMIT
  {
    var free := end - base - PROLOGUE_SIZE - EPILOGUE_SIZE;
    var m1 := SetHeader(m, base, PROLOGUE_SIZE, Flags(true, true));
    var m2 := SetHeader(m1, base + PROLOGUE_SIZE, free, Flags(false, true));
    var m3 := SetPrevSize(m2, end - EPILOGUE_SIZE, free);
    SetHeader(m3, end - EPILOGUE_SIZE, EPILOGUE_SIZE, Flags(true, false))
  }

  function InitRegion(h: Heap, base: nat, end: nat): Heap
    requires end < WORD_LIMIT
  {
    if !Accepts(h, base, end) then h else
    var base, end := AlignUp(base), AlignDown(end);
    var free := end - base - PROLOGUE_SIZE - EPILOGUE_SIZE;
    h.(mem := InitWords(h.mem, base, end), segs := h.segs + [Seg(base, end, [Chunk(free, false)])],
       freeBytes := h.freeBytes + free)
  }

  /** A region becomes a segment with one free chunk, cut to multiples of 16, if there is room for a chunk
      between the fences and for another segment; otherwise nothing changes. */
  lemma RegionIsAdded(h: Heap, base: nat, end: nat, b: nat, e: nat)
    requires end < WORD_LIMIT && b % 16 == 0 && base <= b < base + 16 && e % 16 == 0 && e <= end < e + 16
    ensures var h' := InitRegion(h, base, end);
            if |h.segs| < 16 && b + 64 <= e then
              h' == h.(mem := h'.mem, segs := h.segs + [Seg(b, e, [Chunk(e - b - 32, false)])], freeBytes := h.freeBytes + (e - b - 32))
            else h' == h
  {
    hide AlignUp, AlignDown, InitWords;
    SameBlock16(b, AlignUp(base));
    SameBlock16(e, AlignDown(end));
  }

  lemma SameBlock16(a: nat, b: nat)
    requires a % 16 == 0 && b % 16 == 0 && a < b + 16 && b < a + 16
    ensures a == b
  {
    assert a == 16 * (a / 16) && b == 16 * (b / 16);
  }

  lemma InitWordsEffect(m: Memory, base: nat, end: nat)
    requires base + 64 <= end < WORD_LIMIT
    ensures var m', free := InitWords(m, base, end), end - base - 32;
            && OnlyAt(m, m', {base + 8, base + 24, end - 16, end - 8})
            && m'[base + 8] == PROLOGUE_SIZE + Flags(true, true)
            && m'[base + 24] == free + Flags(false, true) && m'[end - 16] == free
            && m'[end - 8] == EPILOGUE_SIZE + Flags(true, false)
  {
  }

  /** One free chunk between its header and the epilogue that holds its footer. */
  lemma InitFenced(m: Memory, a: nat, free: nat)
    requires free >= MIN_CHUNK && free % CHUNK_ALIGN == 0
    requires a + 8 in m && m[a + 8] == free + Flags(false, true)
    requires a + free in m && m[a + free] == free
    requires a + free + 8 in m && m[a + free + 8] == EPILOGUE_SIZE + Flags(true, false)
    ensures Fenced(m, a, [Chunk(free, false)], true)
  {
    var c := Chunk(free, false);
    FencedCons(m, a, c, [], true);
    assert [c] + [] == [c];
  }

  lemma InitWordsOk(m: Memory, base: nat, end: nat)
    requires base + 64 <= end < WORD_LIMIT && Mapped(m, base, end)
    requires base % CHUNK_ALIGN == 0 && end % CHUNK_ALIGN == 0
    ensures SegOk(InitWords(m, base, end), Seg(base, end, [Chunk(end - base - 32, false)]))
    ensures forall w :: w in m ==> w in InitWords(m, base, end)
    ensures forall w :: w in m && !(base <= w < end) ==> InitWords(m, base, end)[w] == m[w]
  {
    hide InitWords, Fenced, Mapped, Total, Flags;
    InitWordsEffect(m, base, end);
    var m' := InitWords(m, base, end);
    var free := end - base - 32;
    assert free % CHUNK_ALIGN == 0;
    forall w | w in m ensures w in m' {
    }
    MappedMore(m, m', base, end);
    InitFenced(m', base + PROLOGUE_SIZE, free);
    TotalOne(Chunk(free, false));
  }

  lemma OneChunkSeg(s: Seg)
    requires |s.chunks| == 1 && !s.chunks[0].used
    ensures Sum([s], SegFree) == s.chunks[0].size && Sum([s], SegLive) == 0
  {
    SumOne(s, SegFree);
    SumOne(s, SegLive);
    assert s.chunks == [s.chunks[0]];
    SumOne(s.chunks[0], FreeSize);
    SumOne(s.chunks[0], LiveOne);
  }

  /** Adding a region keeps everything in order; the new segment is one free chunk. */
  lemma InitInv(h: Heap, base: nat, end: nat)
    requires Inv(h) && Usable(h, base, end)
    ensures Inv(InitRegion(h, base, end))
  {
    hide SegsOk, SegOk, InitWords, AlignUp, AlignDown, Mapped, Sum;
    if Accepts(h, base, end) {
      var b, e := AlignUp(base), AlignDown(end);
      var s := Seg(b, e, [Chunk(e - b - 32, false)]);
      InitWordsOk(h.mem, b, e);
      forall k | 0 <= k < |h.segs| ensures Apart(h.segs[k], s) {
        assert Apart(h.segs[k], Seg(b, e, []));
      }
      SegsAppend(h.mem, InitWords(h.mem, b, e), h.segs, s);
      SumConcat(h.segs, [s], SegFree);
      SumConcat(h.segs, [s], SegLive);
      OneChunkSeg(s);
    }
  }

  // alloc

  /** The size of a request, which is never zero, does not fit in 64 bits once header and rounding are
      added. */
  predicate Overflows(size: nat) { (if size == 0 then 1 else size) + HEADER_SIZE + CHUNK_ALIGN - 1 >= WORD_LIMIT }

  /** `n` is the least chunk size for a request: no multiple of 16 below it is at least `MIN_CHUNK` and
      holds header and payload. */
  predicate Least(size: nat, n: nat) {
    && n % CHUNK_ALIGN == 0 && MIN_CHUNK <= n && size + HEADER_SIZE <= n
    && (n == MIN_CHUNK || n - CHUNK_ALIGN < size + HEADER_SIZE)
  }

  lemma LeastIs(size: nat, n: nat, x: nat)
    requires Least(size, n) && x % CHUNK_ALIGN == 0 && MIN_CHUNK <= x && size + HEADER_SIZE <= x
    ensures n <= x
  {
    Blocks16(n, x);
  }

  lemma Blocks16(n: nat, x: nat)
    requires n % CHUNK_ALIGN == 0 && x % CHUNK_ALIGN == 0
    ensures x < n ==> x <= n - CHUNK_ALIGN
  {
    assert n == CHUNK_ALIGN * (n / CHUNK_ALIGN) && x == CHUNK_ALIGN * (x / CHUNK_ALIGN);
  }

  /** Chunk size for a request: header and payload rounded up, or nothing on overflow. */
  function Needed(size: nat): (r: Option<nat>)
    ensures r.None? <==> Overflows(size)
    ensures r.Some? ==> Least(size, r.value)
  {
    var payload := if size == 0 then 1 else size;
    if payload + HEADER_SIZE >= WORD_LIMIT || payload + HEADER_SIZE + CHUNK_ALIGN - 1 >= WORD_LIMIT then None
    else
      var n := AlignUp(payload + HEADER_SIZE);
      Some(if n < MIN_CHUNK then MIN_CHUNK else n)
  }

  /** Index of the first chunk that fits, or the length. */
  function FitIn(cs: seq<Chunk>, needed: nat): (i: nat)
    ensures i <= |cs|
    ensures i < |cs| ==> Fits(cs[i], needed)
    ensures forall j :: 0 <= j < i ==> !Fits(cs[j], needed)
  {
    if cs == [] then 0 else if Fits(cs[0], needed) then 0 else 1 + FitIn(cs[1..], needed)
  }

  /** Index of the first segment with a chunk that fits, or the length. */
  function FitSeg(segs: seq<Seg>, needed: nat): (k: nat)
    ensures k <= |segs|
    ensures k < |segs| ==> FitIn(segs[k].chunks, needed) < |segs[k].chunks|
    ensures forall j :: 0 <= j < k ==> FitIn(segs[j].chunks, needed) == |segs[j].chunks|
  {
    if segs == [] then 0
    else if FitIn(segs[0].chunks, needed) < |segs[0].chunks| then 0
    else 1 + FitSeg(segs[1..], needed)
  }

  predicate CanTake(h: Heap, k: nat, i: nat, needed: nat) {
    && k < |h.segs| && i < |h.segs[k].chunks| && Fits(h.segs[k].chunks[i], needed)
    && MIN_CHUNK <= needed && needed % CHUNK_ALIGN == 0
  }

  /** Bytes leaving the free pool when a chunk of `size` is taken. */
  function TakenSize(size: nat, needed: nat): nat
    requires needed <= size
  {
    if size - needed >= MIN_CHUNK then needed else size
  }

  function Take(h: Heap, k: nat, i: nat, needed: nat): Heap
    requires Inv(h) && CanTake(h, k, i, needed)
  {
    var s := h.segs[k];
    var c, size := s.At(i), s.chunks[i].size;
    TakeSite(h.mem, s, i);
    TakeBound(h, k, i, needed);
    h.(mem := TakeWords(h.mem, c, size, needed),
       segs := h.segs[k := s.(chunks := TakeAt(s.chunks, i, needed))],
       freeBytes := h.freeBytes - TakenSize(size, needed),
       allocCount := h.allocCount + 1)
  }

  lemma TakeBound(h: Heap, k: nat, i: nat, needed: nat)
    requires Inv(h) && CanTake(h, k, i, needed)
    ensures h.freeBytes >= TakenSize(h.segs[k].chunks[i].size, needed)
  {
    hide SegsOk;
    SumUpdate(h.segs, k, h.segs[k], SegFree);
    TakeTotals(h.segs[k].chunks, i, needed);
  }

  lemma TakeInv(h: Heap, k: nat, i: nat, needed: nat)
    requires Inv(h) && CanTake(h, k, i, needed)
    ensures Inv(Take(h, k, i, needed))
    ensures var c, size := h.segs[k].At(i), h.segs[k].chunks[i].size;
            && OnlyWithin(h.mem, Take(h, k, i, needed).mem, c + 8, c + size + 8)
            && StaysFree(h.mem, Take(h, k, i, needed).mem, c + 8)
  {
    var s := h.segs[k];
    var c, size, cs := s.At(i), s.chunks[i].size, TakeAt(s.chunks, i, needed);
    var h' := Take(h, k, i, needed);
    TakeSite(h.mem, s, i);
    TakeSeg(h.mem, h'.mem, s, i, needed, c, size);
    ChunkPlace(h.mem, s, i);
    SegsUpdate(h.mem, h'.mem, h.segs, k, cs);
    TakeTotals(s.chunks, i, needed);
    SumUpdate(h.segs, k, s.(chunks := cs), SegFree);
    SumUpdate(h.segs, k, s.(chunks := cs), SegLive);
  }

  /** The allocator's answer to a request: the new state and the payload address or `NULL`. */
  function Alloc(h: Heap, size: nat, align: nat): (Heap, nat)
    requires Inv(h)
  {
    if align > CHUNK_ALIGN then (h.(alignFailCount := h.alignFailCount + 1), NULL)
    else
      match Needed(size)
      case None => (h, NULL)
      case Some(needed) =>
        var k := FitSeg(h.segs, needed);
        if k == |h.segs| then (h.(oomCount := h.oomCount + 1), NULL)
        else
          var i := FitIn(h.segs[k].chunks, needed);
          (Take(h, k, i, needed), h.segs[k].At(i) + HEADER_SIZE)
  }

  lemma AllocInv(h: Heap, size: nat, align: nat)
    requires Inv(h)
    ensures Inv(Alloc(h, size, align).0)
  {
    if align <= CHUNK_ALIGN && Needed(size).Some? {
      var needed := Needed(size).value;
      var k := FitSeg(h.segs, needed);
      if k < |h.segs| {
        TakeInv(h, k, FitIn(h.segs[k].chunks, needed), needed);
      }
    }
  }

  // dealloc

  predicate Holds(s: Seg, c: nat) { s.base + PROLOGUE_SIZE <= c < s.end - EPILOGUE_SIZE }

  /** The segment between whose fences `c` lies, or the length. */
  function SegOf(segs: seq<Seg>, c: nat): (k: nat)
    ensures k <= |segs|
    ensures k < |segs| ==> Holds(segs[k], c)
    ensures forall j :: 0 <= j < k ==> !Holds(segs[j], c)
  {
    if segs == [] then 0 else if Holds(segs[0], c) then 0 else 1 + SegOf(segs[1..], c)
  }

  lemma SegOfComplete(m: Memory, segs: seq<Seg>, k: nat, c: nat)
    requires SegsOk(m, segs) && k < |segs| && Holds(segs[k], c)
    ensures SegOf(segs, c) == k
  {
    hide SegOk;
    forall j | 0 <= j < k ensures !Holds(segs[j], c) {
      assert Apart(segs[j], segs[k]);
    }
  }

  /** The chunk that starts `off` bytes behind the first, or the length. */
  function IndexOf(cs: seq<Chunk>, off: nat): (i: nat)
    ensures i <= |cs|
    ensures i < |cs| ==> Total(cs[..i]) == off
  {
    if cs == [] then 0
    else if off == 0 then 0
    else if off < cs[0].size then |cs|
    else
      var i := 1 + IndexOf(cs[1..], off - cs[0].size);
      assert i < |cs| ==> cs[..i] == [cs[0]] + cs[1..][..i - 1];
      i
  }

  lemma {:induction false} IndexOfComplete(m: Memory, a: nat, cs: seq<Chunk>, prevUsed: bool, i: nat)
    requires Fenced(m, a, cs, prevUsed) && i < |cs|
    ensures IndexOf(cs, Total(cs[..i])) == i
    decreases i
  {
    if i > 0 {
      assert cs[..i] == [cs[0]] + cs[1..][..i - 1];
      IndexOfComplete(m, a + cs[0].size, cs[1..], cs[0].used, i - 1);
    }
  }

  /** How `dealloc` classifies a pointer.  `Forged` is a pointer to no block, in front of which the
      word, by accident or design of a client, reads as the header of a chunk in use. */
  datatype Verdict = BadFree | DoubleFree | Frees(k: nat, i: nat) | Forged(k: nat)

  predicate Live(segs: seq<Seg>, k: nat, i: nat) {
    k < |segs| && i < |segs[k].chunks| && segs[k].chunks[i].used
  }

  /** `p` is the payload address of live chunk `i` of segment `k`. */
  predicate Block(segs: seq<Seg>, k: nat, i: nat, p: nat) {
    Live(segs, k, i) && p == segs[k].At(i) + HEADER_SIZE
  }

  lemma HeaderMapped(h: Heap, k: nat, c: nat)
    requires Inv(h) && k < |h.segs| && Holds(h.segs[k], c) && c % CHUNK_ALIGN == 0
    ensures c + 8 in h.mem
  {
    MappedAt(h.mem, h.segs[k].base, h.segs[k].end, c);
  }

  /** The word at the aligned address `c` of segment `k` reads as the header of a chunk in use. */
  predicate LooksUsed(h: Heap, k: nat, c: nat) {
    && k < |h.segs| && Holds(h.segs[k], c) && c % CHUNK_ALIGN == 0 && c + 8 in h.mem && InUse(h.mem, c)
    && SizeOf(h.mem, c) % CHUNK_ALIGN == 0 && SizeOf(h.mem, c) >= MIN_CHUNK
  }

  lemma SegInside(h: Heap, k: nat, c: nat)
    requires Inv(h) && k < |h.segs| && Holds(h.segs[k], c) && c % CHUNK_ALIGN == 0
    ensures h.segs[k].end >= EPILOGUE_SIZE && Inside(h.mem, h.segs[k].base, h.segs[k].end - EPILOGUE_SIZE, c)
  {
    hide Fenced, Mapped;
    var s := h.segs[k];
    TotalAligned(h.mem, s.base + PROLOGUE_SIZE, s.chunks, true);
  }

  function Judge(h: Heap, p: nat): (v: Verdict)
    requires Inv(h)
    ensures v.Frees? ==> Block(h.segs, v.k, v.i, p)
    ensures v.Forged? ==> p >= HEADER_SIZE && LooksUsed(h, v.k, p - HEADER_SIZE)
  {
    if p == NULL || p % CHUNK_ALIGN != 0 then BadFree
    else
      var c := p - HEADER_SIZE;
      var k := SegOf(h.segs, c);
      if k == |h.segs| then BadFree
      else
        HeaderMapped(h, k, c);
        if !InUse(h.mem, c) then DoubleFree
        else if SizeOf(h.mem, c) % CHUNK_ALIGN != 0 || SizeOf(h.mem, c) < MIN_CHUNK then BadFree
        else
          var s := h.segs[k];
          var i := IndexOf(s.chunks, c - s.base - PROLOGUE_SIZE);
          if i < |s.chunks| && s.chunks[i].used then Frees(k, i) else Forged(k)
  }

  function Release(h: Heap, k: nat, i: nat): Heap
    requires Inv(h) && Live(h.segs, k, i)
  {
    var s := h.segs[k];
    var before, after := BeforeSize(s.chunks, i), AfterSize(s.chunks, i);
    ReleaseSite(h.mem, s, i);
    ReleaseBound(h, k, i);
    h.(mem := ReleaseWords(h.mem, s.At(i), s.chunks[i].size, before, after),
       segs := h.segs[k := s.(chunks := ReleaseAt(s.chunks, i))],
       freeBytes := h.freeBytes + s.chunks[i].size,
       allocCount := h.allocCount - 1)
  }

  lemma ReleaseBound(h: Heap, k: nat, i: nat)
    requires Inv(h) && Live(h.segs, k, i)
    ensures h.allocCount >= 1
  {
    hide SegsOk;
    SumUpdate(h.segs, k, h.segs[k], SegLive);
    ReleaseTotals(h.segs[k].chunks, i);
  }

  /** The words around a live chunk, for `dealloc` to read. */
  lemma FreeSite(h: Heap, k: nat, i: nat)
    requires Inv(h) && Live(h.segs, k, i)
    ensures var s := h.segs[k];
            var c, size, before, after := s.At(i), s.chunks[i].size, BeforeSize(s.chunks, i), AfterSize(s.chunks, i);
            && Site(h.mem, c, size, before, after) && c >= before
            && s.base + PROLOGUE_SIZE <= c - before && c + size + after <= s.end - EPILOGUE_SIZE
            && before + size + after + 3 < WORD_LIMIT
            && c + 8 in h.mem && SizeOf(h.mem, c) == size
  {
    hide Fenced, Mapped, BeforeSize, AfterSize;
    ReleaseSite(h.mem, h.segs[k], i);
  }

  /** For a live chunk the merge on the words gets through. */
  lemma FreeMerges(h: Heap, k: nat, i: nat)
    requires Inv(h) && Live(h.segs, k, i)
    ensures var s := h.segs[k];
            var c, size, before, after := s.At(i), s.chunks[i].size, BeforeSize(s.chunks, i), AfterSize(s.chunks, i);
            && s.end >= EPILOGUE_SIZE && Inside(h.mem, s.base, s.end - EPILOGUE_SIZE, c)
            && c >= before && c + 8 in h.mem && c - before + 8 in h.mem && c + size + after + 8 in h.mem
            && before + size + after + 3 < WORD_LIMIT && size > 0 && SizeOf(h.mem, c) == size && size % CHUNK_ALIGN == 0
            && Coalesced(h.mem, s.base, s.end - EPILOGUE_SIZE, c) == (true, ReleaseWords(h.mem, c, size, before, after))
  {
    hide Fenced, Mapped, BeforeSize, AfterSize, Coalesced, ReleaseWords, SizeBits, InUseBit, PrevInUseBit;
    var s := h.segs[k];
    var c, size, before, after := s.At(i), s.chunks[i].size, BeforeSize(s.chunks, i), AfterSize(s.chunks, i);
    FreeSite(h, k, i);
    ChunkPlace(h.mem, s, i);
    SegInside(h, k, c);
    SiteCoalesces(h.mem, s.base, s.end - EPILOGUE_SIZE, c, size, before, after);
  }

  /** The allocator's answer to a free. */
  function Free(h: Heap, p: nat): Heap
    requires Inv(h)
  {
    match Judge(h, p)
    case BadFree => h.(badFreeCount := h.badFreeCount + 1)
    case DoubleFree => h.(doubleFreeCount := h.doubleFreeCount + 1)
    case Frees(k, i) => Release(h, k, i)
    case Forged(k) => Forge(h, k, p - HEADER_SIZE)
  }

  /** What a free does with words that only look like a live chunk: it merges and counts as usual,
      while the blocks that the clients hold stay the same.  The counter of blocks wraps at zero. */
  function Forge(h: Heap, k: nat, c: nat): Heap
    requires Inv(h) && LooksUsed(h, k, c)
  {
    SegInside(h, k, c);
    var (ok, m) := Coalesced(h.mem, h.segs[k].base, h.segs[k].end - EPILOGUE_SIZE, c);
    if ok then h.(mem := m, freeBytes := h.freeBytes + SizeOf(h.mem, c), allocCount := OneLess(h.allocCount))
    else h.(mem := m, badFreeCount := h.badFreeCount + 1)
  }

  function OneLess(count: nat): nat { if count == 0 then WORD_LIMIT - 1 else count - 1 }

  /** The words of a free: only the span changes, no header gains IN_USE, and the freed one lost it. */
  predicate Freed(m: Memory, m': Memory, c: nat, size: nat, before: nat, after: nat) {
    && c >= before && OnlyWithin(m, m', c - before + 8, c + size + after + 8)
    && StaysFree(m, m', 0) && c + 8 in m' && !InUse(m', c)
  }

  lemma ReleaseInv(h: Heap, k: nat, i: nat)
    requires Inv(h) && Live(h.segs, k, i)
    ensures Inv(Release(h, k, i))
    ensures var s := h.segs[k];
            Freed(h.mem, Release(h, k, i).mem, s.At(i), s.chunks[i].size, BeforeSize(s.chunks, i), AfterSize(s.chunks, i))
  {
    hide Fenced, ReleaseWords, Released, StaysFree, Mapped, BeforeSize, AfterSize, ReleaseAt;
    var s := h.segs[k];
    var c, size, cs := s.At(i), s.chunks[i].size, ReleaseAt(s.chunks, i);
    var before, after := BeforeSize(s.chunks, i), AfterSize(s.chunks, i);
    var h' := Release(h, k, i);
    ReleaseSite(h.mem, s, i);
    ReleaseWordsEffect(h.mem, c, size, before, after);
    ReleaseSeg(h.mem, h'.mem, s, i, c, size, before, after);
    SegsUpdate(h.mem, h'.mem, h.segs, k, cs);
    ReleaseTotals(s.chunks, i);
    SumUpdate(h.segs, k, s.(chunks := cs), SegFree);
    SumUpdate(h.segs, k, s.(chunks := cs), SegLive);
  }

  lemma FreeInv(h: Heap, p: nat)
    requires Inv(h) && !Judge(h, p).Forged?
    ensures Inv(Free(h, p))
  {
    var v := Judge(h, p);
    if v.Frees? {
      ReleaseInv(h, v.k, v.i);
    }
  }

  /** A block is never mistaken: the corrupt-size exits are not taken for it. */
  lemma JudgeBlock(h: Heap, k: nat, i: nat, p: nat)
    requires Inv(h) && Block(h.segs, k, i, p)
    ensures Judge(h, p) == Frees(k, i)
  {
    hide Fenced, Tiled, Mapped, Site, SizeBits, InUseBit, PrevInUseBit;
    var s, c := h.segs[k], p - HEADER_SIZE;
    ChunkPlace(h.mem, s, i);
    HeaderBits(h.mem[c + 8], s.chunks[i].size, true, LastUsed(s.chunks[..i], true));
    SegOfComplete(h.mem, h.segs, k, c);
    IndexOfComplete(h.mem, s.base + PROLOGUE_SIZE, s.chunks, true, i);
  }
}
