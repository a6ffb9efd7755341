/** The allocator state and its operations as functions on it (src/hal/heap.rs).

    `Heap` holds the memory words and counters the code holds, and beside every segment the list
    of chunks that its words describe.  `Inv` is the full structural invariant. */
module HeapState {
  import opened HeapLayout
  import opened HeapChunkOps

  // Sums over sequences

  function Sum<T>(s: seq<T>, f: T -> nat): nat {
    if s == [] then 0 else f(s[0]) + Sum(s[1..], f)
  }

  lemma {:induction false} SumConcat<T>(x: seq<T>, y: seq<T>, f: T -> nat)
    ensures Sum(x + y, f) == Sum(x, f) + Sum(y, f)
  {
    if x == [] {
      assert x + y == y;
    } else {
      assert (x + y)[1..] == x[1..] + y;
      SumConcat(x[1..], y, f);
    }
  }

  lemma SumOne<T>(v: T, f: T -> nat)
    ensures Sum([v], f) == f(v)
  {
    assert [v][1..] == [];
  }

  lemma SumUpdate<T>(s: seq<T>, k: nat, v: T, f: T -> nat)
    requires k < |s|
    ensures Sum(s, f) == Sum(s[..k], f) + f(s[k]) + Sum(s[k + 1..], f)
    ensures Sum(s[k := v], f) == Sum(s[..k], f) + f(v) + Sum(s[k + 1..], f)
  {
    hide Sum;
    SumOne(s[k], f);
    SumOne(v, f);
    assert s == s[..k] + ([s[k]] + s[k + 1..]);
    SumConcat(s[..k], [s[k]] + s[k + 1..], f);
    SumConcat([s[k]], s[k + 1..], f);
    assert s[k := v] == s[..k] + ([v] + s[k + 1..]);
    SumConcat(s[..k], [v] + s[k + 1..], f);
    SumConcat([v], s[k + 1..], f);
  }

  function FreeSize(c: Chunk): nat { if c.used then 0 else c.size }

  function LiveOne(c: Chunk): nat { if c.used then 1 else 0 }

  // State

  datatype Seg = Seg(base: nat, end: nat, chunks: seq<Chunk>) {
    /** Address of chunk `i`. */
    function At(i: nat): nat
      requires i <= |chunks|
    {
      base + PROLOGUE_SIZE + Total(chunks[..i])
    }
  }

  function SegFree(s: Seg): nat { Sum(s.chunks, FreeSize) }

  function SegLive(s: Seg): nat { Sum(s.chunks, LiveOne) }

  datatype Heap = Heap(mem: Memory, segs: seq<Seg>, freeBytes: nat, allocCount: nat, oomCount: nat,
                       alignFailCount: nat, badFreeCount: nat, doubleFreeCount: nat)

  predicate Mapped(m: Memory, base: nat, end: nat) {
    forall w :: base <= w < end && w % 8 == 0 ==> w in m
  }

  predicate SegOk(m: Memory, s: Seg) {
    && s.base % CHUNK_ALIGN == 0 && s.chunks != []
    && s.end == s.base + PROLOGUE_SIZE + Total(s.chunks) + EPILOGUE_SIZE < WORD_LIMIT
    && Mapped(m, s.base, s.end)
    && s.base + 8 in m && m[s.base + 8] == PROLOGUE_SIZE + Flags(true, true)
    && Fenced(m, s.base + PROLOGUE_SIZE, s.chunks, true)
  }

  predicate Apart(s: Seg, t: Seg) { s.end <= t.base || t.end <= s.base }

  predicate SegsOk(m: Memory, segs: seq<Seg>) {
    && (forall k :: 0 <= k < |segs| ==> SegOk(m, segs[k]))
    && (forall j, k :: 0 <= j < k < |segs| ==> Apart(segs[j], segs[k]))
  }

  predicate Inv(h: Heap) {
    && SegsOk(h.mem, h.segs) && |h.segs| <= MAX_SEGMENTS
    && h.freeBytes == Sum(h.segs, SegFree)
    && h.allocCount == Sum(h.segs, SegLive)
  }

  /** The words of a segment include everything `SegOk` looks at. */
  lemma SegFrame(m: Memory, m': Memory, s: Seg)
    requires SegOk(m, s)
    requires forall w :: w in m ==> w in m'
    requires forall w :: s.base <= w < s.end && w in m ==> m'[w] == m[w]
    ensures SegOk(m', s)
  {
    FencedFrame(m, m', s.base + PROLOGUE_SIZE, s.chunks, true);
  }

  /** Replacing one segment's chunk list, with words changed only inside that segment. */
  lemma SegsUpdate(m: Memory, m': Memory, segs: seq<Seg>, k: nat, cs: seq<Chunk>)
    requires SegsOk(m, segs) && k < |segs|
    requires forall w :: w in m ==> w in m'
    requires forall w :: w in m && !(segs[k].base <= w < segs[k].end) ==> m'[w] == m[w]
    requires SegOk(m', segs[k].(chunks := cs))
    ensures SegsOk(m', segs[k := segs[k].(chunks := cs)])
  {
    var segs' := segs[k := segs[k].(chunks := cs)];
    forall j | 0 <= j < |segs'| ensures SegOk(m', segs'[j]) {
      if j != k {
        assert Apart(segs[j], segs[k]) || Apart(segs[k], segs[j]);
        SegFrame(m, m', segs[j]);
      }
    }
  }

  lemma SegsAppend(m: Memory, m': Memory, segs: seq<Seg>, s: Seg)
    requires SegsOk(m, segs) && SegOk(m', s)
    requires forall w :: w in m ==> w in m'
    requires forall w :: w in m && !(s.base <= w < s.end) ==> m'[w] == m[w]
    requires forall k :: 0 <= k < |segs| ==> Apart(segs[k], s)
    ensures SegsOk(m', segs + [s])
  {
    hide SegOk;
    forall k | 0 <= k < |segs| ensures SegOk(m', segs[k]) {
      SegFrame(m, m', segs[k]);
    }
  }

  // What one operation does to the words

  predicate OnlyWithin(m: Memory, m': Memory, lo: nat, hi: nat) {
    m'.Keys == m.Keys && forall w :: w in m && (w < lo || w > hi) ==> m'[w] == m[w]
  }

  /** No header word with IN_USE clear gains it, except possibly the one at address `except`. */
  predicate StaysFree(m: Memory, m': Memory, except: nat) {
    forall w :: w in m && w % CHUNK_ALIGN == 8 && w != except && !InUseBit(m[w]) ==>
      w in m' && !InUseBit(m'[w])
  }

  /** Both words of an aligned address are mapped, and the second is a header word. */
  lemma MappedAt(m: Memory, base: nat, end: nat, q: nat)
    requires Mapped(m, base, end) && base <= q && q + 16 <= end && q % CHUNK_ALIGN == 0
    ensures q in m && q + 8 in m
  {
    HalfAligned(q);
  }

  lemma HalfAligned(q: nat)
    requires q % CHUNK_ALIGN == 0
    ensures q % 8 == 0 && (q + 8) % 8 == 0
  {
    var j := q / CHUNK_ALIGN;
    assert q == 8 * (2 * j) && q + 8 == 8 * (2 * j + 1);
    EightTimes(2 * j);
    EightTimes(2 * j + 1);
  }

  lemma EightTimes(k: nat)
    ensures 8 * k % 8 == 0
  {
  }

  lemma AlignedSum(a: nat, b: nat)
    requires a % CHUNK_ALIGN == 0 && b % CHUNK_ALIGN == 0
    ensures (a + b) % CHUNK_ALIGN == 0
  {
    assert a + b == CHUNK_ALIGN * (a / CHUNK_ALIGN + b / CHUNK_ALIGN);
  }

  /** Clearing or keeping IN_USE at each changed header word is enough for `StaysFree`. */
  lemma StaysFreeAt(m: Memory, m': Memory, ws: set<nat>, except: nat)
    requires OnlyAt(m, m', ws)
    requires forall w :: w in ws && w % CHUNK_ALIGN == 8 ==>
               w == except || !InUseBit(m'[w]) || (w in m && InUseBit(m[w]))
    ensures StaysFree(m, m', except)
  {
  }

  lemma TakeSplitEffect(m: Memory, c: nat, size: nat, needed: nat)
    requires c + 8 in m && c + size + 8 in m && size + 3 < WORD_LIMIT
    requires MIN_CHUNK <= needed <= size - MIN_CHUNK
    requires size % CHUNK_ALIGN == 0 && needed % CHUNK_ALIGN == 0
    requires c % CHUNK_ALIGN == 0 && Mapped(m, c, c + size + 16)
    ensures OnlyWithin(m, TakeWords(m, c, size, needed), c + 8, c + size + 8)
    ensures StaysFree(m, TakeWords(m, c, size, needed), c + 8)
  {
    hide Mapped, TakeWords, StaysFree, InUseBit, PrevInUseBit, SizeBits, Flags;
    var m' := TakeWords(m, c, size, needed);
    TakeSplitWords(m, c, size, needed);
    AlignedSum(c, needed);
    AlignedSum(c, size);
    MappedAt(m, c, c + size + 16, c + needed);
    MappedAt(m, c, c + size + 16, c + size);
    HeaderBits(m'[c + needed + 8], size - needed, false, true);
    StaysFreeAt(m, m', {c + 8, c + needed, c + needed + 8, c + size}, c + 8);
  }

  lemma TakeWholeEffect(m: Memory, c: nat, size: nat, needed: nat)
    requires c + 8 in m && c + size + 8 in m && size + 3 < WORD_LIMIT && size >= MIN_CHUNK
    requires needed <= size < needed + MIN_CHUNK
    requires InUse(m, c + size)
    ensures OnlyWithin(m, TakeWords(m, c, size, needed), c + 8, c + size + 8)
    ensures StaysFree(m, TakeWords(m, c, size, needed), c + 8)
  {
    var m' := TakeWords(m, c, size, needed);
    assert OnlyAt(m, m', {c + 8, c + size + 8});
    StaysFreeAt(m, m', {c + 8, c + size + 8}, c + 8);
  }

  lemma ReleaseEffect(m: Memory, m': Memory, c: nat, size: nat, before: nat, after: nat)
    requires Site(m, c, size, before, after) && Released(m, m', c, size, before, after)
    requires Mapped(m, c - before, c + size + after + 16) && c % CHUNK_ALIGN == 0
    ensures OnlyWithin(m, m', c - before + 8, c + size + after + 8)
    ensures StaysFree(m, m', 0) && !InUse(m', c)
  {
    hide Mapped, StaysFree, Flags, InUseBit, SizeBits, PrevInUseBit;
    var span, n := c - before, c + size + after;
    AlignedSum(size, after);
    AlignedSum(c, size + after);
    MappedAt(m, span, n + 16, n);
    SpanHeader(m'[span + 8], before, size, after, PrevInUse(m, span));
    ZeroHeader();
    TailHeader(m[n + 8], m'[n + 8]);
    StaysFreeAt(m, m', {span + 8, c + 8, c + size + 8, n, n + 8}, 0);
  }

  lemma ZeroHeader()
    ensures !InUseBit(0)
  {
  }

  lemma TailHeader(w: Word, w': Word)
    requires w' == SizeBits(w) + Flags(InUseBit(w), false)
    ensures InUseBit(w') == InUseBit(w)
  {
    var k := 4 * (w / 8);
    assert w' == 2 * k + w % 2;
    Parity(k, w % 2);
  }

  lemma Parity(k: nat, b: nat)
    requires b < 2
    ensures (2 * k + b) % 2 == b
  {
  }

  /** The header of a merged span has IN_USE clear. */
  lemma SpanHeader(w: Word, before: nat, size: nat, after: nat, prevUsed: bool)
    requires before % CHUNK_ALIGN == 0 && size % CHUNK_ALIGN == 0 && after % CHUNK_ALIGN == 0
    requires w == before + size + after + Flags(false, prevUsed)
    ensures !InUseBit(w)
  {
    HeaderBits(w, before + size + after, false, prevUsed);
  }

  // Taking and releasing a chunk of a segment

  /** Where chunk `i` lies, and that its address is aligned. */
  lemma ChunkPlace(m: Memory, s: Seg, i: nat)
    requires SegOk(m, s) && i < |s.chunks|
    ensures s.At(i) % CHUNK_ALIGN == 0
    ensures ChunkAt(m, s.At(i), s.chunks[i], LastUsed(s.chunks[..i], true))
    ensures s.At(i + 1) == s.At(i) + s.chunks[i].size <= s.end - EPILOGUE_SIZE
    ensures Fenced(m, s.At(i + 1), s.chunks[i + 1..], s.chunks[i].used)
    ensures i + 1 == |s.chunks| <==> s.At(i + 1) == s.end - EPILOGUE_SIZE
    ensures Tiled(m, s.base + PROLOGUE_SIZE, s.chunks[..i], true)
  {
    hide Fenced, Tiled, Mapped;
    var a := s.base + PROLOGUE_SIZE;
    SplitAt(m, a, s.chunks, true, i);
    TotalPrefix(s.chunks, i);
    TiledAligned(m, a, s.chunks[..i], true);
    AlignedSum(s.base, PROLOGUE_SIZE);
    AlignedSum(a, Total(s.chunks[..i]));
    TotalAligned(m, s.At(i + 1), s.chunks[i + 1..], s.chunks[i].used);
  }

  lemma TakeSeg(m: Memory, m': Memory, s: Seg, i: nat, needed: nat, c: nat, size: nat)
    requires SegOk(m, s) && i < |s.chunks| && Fits(s.chunks[i], needed)
    requires MIN_CHUNK <= needed && needed % CHUNK_ALIGN == 0
    requires c == s.At(i) && size == s.chunks[i].size
    requires c + 8 in m && c + size + 8 in m && MIN_CHUNK <= size && size + 3 < WORD_LIMIT
    requires m' == TakeWords(m, c, size, needed)
    ensures SegOk(m', s.(chunks := TakeAt(s.chunks, i, needed)))
    ensures OnlyWithin(m, m', c + 8, c + size + 8) && StaysFree(m, m', c + 8)
  {
    hide Fenced, TakeWords, Mapped, StaysFree;
    var a := s.base + PROLOGUE_SIZE;
    ChunkPlace(m, s, i);
    TakeFenced(m, a, s.chunks, true, i, needed);
    MappedPart(m, s.base, s.end, c, c + size + 16);
    if size - needed >= MIN_CHUNK {
      TakeSplitEffect(m, c, size, needed);
    } else {
      NextHeader(m, c + size, s.chunks[i + 1..], false);
      TakeWholeEffect(m, c, size, needed);
    }
    MappedKeep(m, m', s.base, s.end);
    TakeTotals(s.chunks, i, needed);
  }

  /** What `alloc` reads at free chunk `i`. */
  lemma TakeSite(m: Memory, s: Seg, i: nat)
    requires SegOk(m, s) && i < |s.chunks| && !s.chunks[i].used
    ensures var c, size := s.At(i), s.chunks[i].size;
            && c + 8 in m && c + size + 8 in m && MIN_CHUNK <= size && size + 3 < WORD_LIMIT
            && PrevInUse(m, c)
  {
    hide Fenced, Tiled, Mapped;
    ChunkPlace(m, s, i);
    HeaderBits(m[s.At(i) + 8], s.chunks[i].size, false, true);
    NextHeader(m, s.At(i + 1), s.chunks[i + 1..], false);
  }

  /** Everything `dealloc` reads around live chunk `i`, and that it lies between the fences. */
  lemma ReleaseSite(m: Memory, s: Seg, i: nat)
    requires SegOk(m, s) && i < |s.chunks| && s.chunks[i].used
    ensures var c, size, before, after := s.At(i), s.chunks[i].size, BeforeSize(s.chunks, i), AfterSize(s.chunks, i);
            && Site(m, c, size, before, after) && c % CHUNK_ALIGN == 0
            && s.base + PROLOGUE_SIZE <= c - before && c + size + after <= s.end - EPILOGUE_SIZE
  {
    hide Fenced, Tiled, Mapped, Site, Total;
    var cs, a := s.chunks, s.base + PROLOGUE_SIZE;
    ChunkPlace(m, s, i);
    var x, b, d, y := AroundChunk(cs, i);
    FencedConcat(m, a, x, b + ([cs[i]] + (d + y)), true);
    SiteHolds(m, a + Total(x), b, cs[i], d, y, LastUsed(x, true), Total(b), Total(d));
    Parts(x, b, [cs[i]] + (d + y));
    Parts([cs[i]], d, y);
    TotalOne(cs[i]);
  }

  lemma TotalOne(c: Chunk)
    ensures Total([c]) == c.size
  {
  }

  lemma ReleaseSeg(m: Memory, m': Memory, s: Seg, i: nat, c: nat, size: nat, before: nat, after: nat)
    requires SegOk(m, s) && i < |s.chunks| && s.chunks[i].used
    requires c == s.At(i) && size == s.chunks[i].size
    requires before == BeforeSize(s.chunks, i) && after == AfterSize(s.chunks, i)
    requires SiteMapped(m, c, size, before, after) && Released(m, m', c, size, before, after)
    ensures SegOk(m', s.(chunks := ReleaseAt(s.chunks, i)))
    ensures OnlyWithin(m, m', c - before + 8, c + size + after + 8)
    ensures StaysFree(m, m', 0) && !InUse(m', c)
  {
    hide Fenced, Tiled, Mapped, StaysFree, Total, Released, Site;
    ReleaseSite(m, s, i);
    ReleaseChunks(m, m', s.base + PROLOGUE_SIZE, s.chunks, i);
    MappedPart(m, s.base, s.end, c - before, c + size + after + 16);
    ReleaseEffect(m, m', c, size, before, after);
    MappedKeep(m, m', s.base, s.end);
    ReleaseTotals(s.chunks, i);
  }

  lemma ReleaseChunks(m: Memory, m': Memory, a: nat, cs: seq<Chunk>, i: nat)
    requires Fenced(m, a, cs, true) && i < |cs| && cs[i].used
    requires SiteMapped(m, a + Total(cs[..i]), cs[i].size, BeforeSize(cs, i), AfterSize(cs, i))
    requires Released(m, m', a + Total(cs[..i]), cs[i].size, BeforeSize(cs, i), AfterSize(cs, i))
    ensures Fenced(m', a, ReleaseAt(cs, i), true)
  {
    hide Fenced, Total, Released;
    var x, b, d, y := AroundChunk(cs, i);
    ReleaseFenced(m, m', a, x, b, cs[i], d, y, Total(b), Total(d));
  }

  /** The list effect of releasing: same total, one live chunk less, its bytes free again. */
  lemma ReleaseTotals(cs: seq<Chunk>, i: nat)
    requires i < |cs| && cs[i].used
    ensures Total(ReleaseAt(cs, i)) == Total(cs) && ReleaseAt(cs, i) != []
    ensures Sum(cs, LiveOne) == Sum(ReleaseAt(cs, i), LiveOne) + 1
    ensures Sum(ReleaseAt(cs, i), FreeSize) == Sum(cs, FreeSize) + cs[i].size
  {
    hide Total, Sum, ReleaseAt, FreeNeighbour, BeforeSize, AfterSize;
    var x, b, d, y := AroundChunk(cs, i);
    MergeTotals(x, b, cs[i], d, y);
  }

  lemma MergeTotals(x: seq<Chunk>, b: seq<Chunk>, c: Chunk, d: seq<Chunk>, y: seq<Chunk>)
    requires FreeNeighbour(b) && FreeNeighbour(d) && c.used
    ensures var cs, cs' := x + (b + ([c] + (d + y))), x + ([Chunk(Total(b) + c.size + Total(d), false)] + y);
            && Total(cs') == Total(cs) && Sum(cs, LiveOne) == Sum(cs', LiveOne) + 1
            && Sum(cs', FreeSize) == Sum(cs, FreeSize) + c.size
  {
    Parts(x, b, [c] + (d + y));
    Parts([c], d, y);
    Parts(x, [Chunk(Total(b) + c.size + Total(d), false)], y);
    FreeNeighbourSums(b);
    FreeNeighbourSums(d);
  }

  lemma FreeNeighbourSums(b: seq<Chunk>)
    requires FreeNeighbour(b)
    ensures Sum(b, LiveOne) == 0 && Sum(b, FreeSize) == Total(b)
  {
  }

  lemma MappedPart(m: Memory, base: nat, end: nat, lo: nat, hi: nat)
    requires Mapped(m, base, end) && base <= lo && hi <= end
    ensures Mapped(m, lo, hi)
  {
  }

  lemma MappedMore(m: Memory, m': Memory, base: nat, end: nat)
    requires Mapped(m, base, end) && forall w :: w in m ==> w in m'
    ensures Mapped(m', base, end)
  {
  }

  lemma MappedKeep(m: Memory, m': Memory, base: nat, end: nat)
    requires Mapped(m, base, end) && m'.Keys == m.Keys
    ensures Mapped(m', base, end)
  {
  }

  /** The list effect of taking: same total, one more live chunk, fewer free bytes. */
  lemma TakeTotals(cs: seq<Chunk>, i: nat, needed: nat)
    requires i < |cs| && Fits(cs[i], needed) && needed > 0
    ensures Total(TakeAt(cs, i, needed)) == Total(cs) && TakeAt(cs, i, needed) != []
    ensures Sum(TakeAt(cs, i, needed), LiveOne) == Sum(cs, LiveOne) + 1
    ensures Sum(TakeAt(cs, i, needed), FreeSize) == Sum(cs, FreeSize) - Taken(cs[i].size, needed)[0].size
  {
    var x, t, y := cs[..i], Taken(cs[i].size, needed), cs[i + 1..];
    assert cs == x + ([cs[i]] + y);
    Parts(x, [cs[i]], y);
    Parts(x, t, y);
    if |t| == 2 {
      assert t == [t[0]] + [t[1]];
      Parts([], [t[0]], [t[1]]);
    }
  }

  lemma Parts(x: seq<Chunk>, t: seq<Chunk>, y: seq<Chunk>)
    ensures Total(x + (t + y)) == Total(x) + Total(t) + Total(y)
    ensures Sum(x + (t + y), LiveOne) == Sum(x, LiveOne) + Sum(t, LiveOne) + Sum(y, LiveOne)
    ensures Sum(x + (t + y), FreeSize) == Sum(x, FreeSize) + Sum(t, FreeSize) + Sum(y, FreeSize)
  {
    TotalConcat(x, t + y);
    TotalConcat(t, y);
    SumConcat(x, t + y, LiveOne);
    SumConcat(t, y, LiveOne);
    SumConcat(x, t + y, FreeSize);
    SumConcat(t, y, FreeSize);
  }
}
