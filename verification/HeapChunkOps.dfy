/** Taking and releasing one chunk: on the abstract list, on the words, and the proof that the
    words keep describing the list (src/hal/heap.rs, `alloc` and `dealloc`). */
module HeapChunkOps {
  import opened HeapLayout

  predicate Fits(c: Chunk, needed: nat) { !c.used && c.size >= needed }

  /** What a taken chunk becomes in the list. */
  function Taken(size: nat, needed: nat): seq<Chunk>
    requires needed <= size
  {
    if size - needed >= MIN_CHUNK then [Chunk(needed, true), Chunk(size - needed, false)]
    else [Chunk(size, true)]
  }

  /** First-fit take-or-split at index `i`. */
  function TakeAt(cs: seq<Chunk>, i: nat, needed: nat): seq<Chunk>
    requires i < |cs| && Fits(cs[i], needed)
  {
    cs[..i] + (Taken(cs[i].size, needed) + cs[i + 1..])
  }

  /** The words `alloc` writes when it takes the free chunk of `size` bytes at `c`. */
  function TakeWords(m: Memory, c: nat, size: nat, needed: nat): Memory
    requires c + 8 in m && c + size + 8 in m
    requires needed <= size && size + 3 < WORD_LIMIT && size >= MIN_CHUNK
  {
    var keep := Flags(true, PrevInUse(m, c));
    var rest := size - needed;
    if rest >= MIN_CHUNK then
      var right := c + needed;
      var m1 := SetPrevSize(m, right, needed);
      var m2 := SetHeader(m1, right, rest, Flags(false, true));
      var m3 := SetHeader(m2, c, needed, keep);
      SetPrevSize(m3, c + size, rest)
    else
      var m1 := SetHeader(m, c, size, keep);
      var next := c + size;
      MarkPrevUsed(m1, next)
  }

  /** Sets PREV_IN_USE in the header at `n` and keeps the rest of it. */
  function MarkPrevUsed(m: Memory, n: nat): Memory
    requires n + 8 in m
  {
    SetHeader(m, n, SizeOf(m, n), Flags(InUse(m, n), true))
  }

  /** Clears PREV_IN_USE in the header at `n` and keeps the rest of it. */
  function MarkPrevFree(m: Memory, n: nat): Memory
    requires n + 8 in m
  {
    SetHeader(m, n, SizeOf(m, n), Flags(InUse(m, n), false))
  }

  /** First and one-past-last index of the chunks that merge when chunk `i` is released. */
  function MergeFrom(cs: seq<Chunk>, i: nat): (lo: nat)
    requires i < |cs|
    ensures lo <= i
  {
    if i > 0 && !cs[i - 1].used then i - 1 else i
  }

  function MergeTo(cs: seq<Chunk>, i: nat): (hi: nat)
    requires i < |cs|
    ensures i < hi <= |cs|
  {
    if i + 1 < |cs| && !cs[i + 1].used then i + 2 else i + 1
  }

  /** Release chunk `i` and merge it with its free neighbours. */
  function ReleaseAt(cs: seq<Chunk>, i: nat): seq<Chunk>
    requires i < |cs|
  {
    cs[..MergeFrom(cs, i)] +
    ([Chunk(BeforeSize(cs, i) + cs[i].size + AfterSize(cs, i), false)] + cs[MergeTo(cs, i)..])
  }

  /** Bytes of the free neighbours that the release absorbs. */
  function BeforeSize(cs: seq<Chunk>, i: nat): nat
    requires i < |cs|
  {
    Total(cs[MergeFrom(cs, i)..i])
  }

  function AfterSize(cs: seq<Chunk>, i: nat): nat
    requires i < |cs|
  {
    Total(cs[i + 1..MergeTo(cs, i)])
  }

  /** Footer and header of the span, and PREV_IN_USE cleared in the header behind it. */
  function SpanWords(m: Memory, span: nat, n: nat, size: nat): (m': Memory)
    requires span + 8 in m && n + 8 in m && size + 3 < WORD_LIMIT
    ensures m'.Keys == m.Keys + {n}
  {
    var m3 := SetPrevSize(m, n, size);
    var m4 := SetHeader(m3, span, size, Flags(false, PrevInUse(m3, span)));
    MarkPrevFree(m4, n)
  }

  /** The words `dealloc` writes: neutralised headers of absorbed chunks, then the footer, the
      header of the span and the header of the chunk behind it. */
  function ReleaseWords(m: Memory, c: nat, size: nat, before: nat, after: nat): Memory
    requires c >= before && c + 8 in m && c - before + 8 in m && c + size + after + 8 in m
    requires before + size + after + 3 < WORD_LIMIT && size > 0
  {
    var span, n := c - before, c + size + after;
    var spanSize := before + size + after;
    var m1 := if before > 0 then SetHeader(m, c, 0, 0) else m;
    var m2 := if after > 0 then SetHeader(m1, c + size, 0, 0) else m1;
    SpanWords(m2, span, n, spanSize)
  }

  /** `m'` is `m` except at the words in `ws`, all of which it maps. */
  predicate OnlyAt(m: Memory, m': Memory, ws: set<nat>) {
    && m'.Keys == m.Keys + ws
    && forall w :: w in m && w !in ws ==> m'[w] == m[w]
  }

  lemma TakeSplitWords(m: Memory, c: nat, size: nat, needed: nat)
    requires c + 8 in m && c + size + 8 in m
    requires MIN_CHUNK <= needed <= size - MIN_CHUNK && size + 3 < WORD_LIMIT
    ensures var m' := TakeWords(m, c, size, needed);
            && OnlyAt(m, m', {c + 8, c + needed, c + needed + 8, c + size})
            && m'[c + 8] == needed + Flags(true, PrevInUse(m, c))
            && m'[c + needed + 8] == size - needed + Flags(false, true)
            && m'[c + size] == size - needed
  {
  }

  lemma TakeSplit(m: Memory, m': Memory, c: nat, size: nat, y: seq<Chunk>, prevUsed: bool, needed: nat)
    requires Fenced(m, c + size, y, false)
    requires MIN_CHUNK <= needed <= size - MIN_CHUNK
    requires size % CHUNK_ALIGN == 0 && needed % CHUNK_ALIGN == 0
    requires c + 8 in m' && m'[c + 8] == needed + Flags(true, prevUsed)
    requires c + needed + 8 in m' && m'[c + needed + 8] == size - needed + Flags(false, true)
    requires c + size in m' && m'[c + size] == size - needed
    requires SameWords(m, m', c + size, c + size + Total(y) + 8)
    ensures Fenced(m', c, Taken(size, needed) + y, prevUsed)
  {
    FencedFrame(m, m', c + size, y, false);
    var left, right := Chunk(needed, true), Chunk(size - needed, false);
    FencedCons(m', c + needed, right, y, true);
    FencedCons(m', c, left, [right] + y, prevUsed);
    assert Taken(size, needed) + y == [left] + ([right] + y);
  }

  lemma TakeWhole(m: Memory, c: nat, size: nat, y: seq<Chunk>, prevUsed: bool, needed: nat)
    requires ChunkAt(m, c, Chunk(size, false), prevUsed) && Fenced(m, c + size, y, false)
    requires needed <= size < needed + MIN_CHUNK
    requires size + 3 < WORD_LIMIT && c + size + 8 in m
    ensures Fenced(TakeWords(m, c, size, needed), c, Taken(size, needed) + y, prevUsed)
  {
    HeaderBits(m[c + 8], size, false, prevUsed);
    var m' := TakeWords(m, c, size, needed);
    NextHeader(m, c + size, y, false);
    Retag(m, m', c + size, y, false, true);
    FencedConcat(m', c, [Chunk(size, true)], y, prevUsed);
  }

  /** The header behind a chunk, be it a chunk's or the epilogue's. */
  lemma NextHeader(m: Memory, a: nat, y: seq<Chunk>, prevUsed: bool)
    requires Fenced(m, a, y, prevUsed)
    ensures a + 8 in m
    ensures var size := if y == [] then EPILOGUE_SIZE else y[0].size;
            var used := y == [] || y[0].used;
            && m[a + 8] == size + Flags(used, prevUsed)
            && SizeOf(m, a) == size && InUse(m, a) == used && PrevInUse(m, a) == prevUsed
            && size + 3 < WORD_LIMIT
    ensures y != [] && !y[0].used ==> prevUsed
  {
    HeaderBits(m[a + 8], if y == [] then EPILOGUE_SIZE else y[0].size, y == [] || y[0].used, prevUsed);
  }

  lemma TakeHead(m: Memory, c: nat, size: nat, y: seq<Chunk>, prevUsed: bool, needed: nat)
    requires ChunkAt(m, c, Chunk(size, false), prevUsed) && Fenced(m, c + size, y, false)
    requires MIN_CHUNK <= needed <= size && needed % CHUNK_ALIGN == 0
    ensures size + 3 < WORD_LIMIT && c + size + 8 in m
    ensures Fenced(TakeWords(m, c, size, needed), c, Taken(size, needed) + y, prevUsed)
    ensures SameWords(m, TakeWords(m, c, size, needed), 0, c)
  {
    hide Fenced;
    HeaderBits(m[c + 8], size, false, prevUsed);
    NextHeader(m, c + size, y, false);
    if size - needed >= MIN_CHUNK {
      TakeSplitWords(m, c, size, needed);
      TakeSplit(m, TakeWords(m, c, size, needed), c, size, y, prevUsed, needed);
    } else {
      TakeWhole(m, c, size, y, prevUsed, needed);
    }
  }

  /** Taking chunk `i` in the words takes it in the list. */
  lemma TakeFenced(m: Memory, a: nat, cs: seq<Chunk>, prevUsed: bool, i: nat, needed: nat)
    requires Fenced(m, a, cs, prevUsed)
    requires i < |cs| && Fits(cs[i], needed)
    requires needed >= MIN_CHUNK && needed % CHUNK_ALIGN == 0
    ensures var c := a + Total(cs[..i]);
            && c + 8 in m && c + cs[i].size + 8 in m && cs[i].size + 3 < WORD_LIMIT
            && cs[i].size >= MIN_CHUNK
            && Fenced(TakeWords(m, c, cs[i].size, needed), a, TakeAt(cs, i, needed), prevUsed)
  {
    hide Fenced, Tiled, TakeWords;
    var x, y := cs[..i], cs[i + 1..];
    var c, size, p := a + Total(x), cs[i].size, LastUsed(x, prevUsed);
    SplitAt(m, a, cs, prevUsed, i);
    TakeHead(m, c, size, y, p, needed);
    Rebuild(m, TakeWords(m, c, size, needed), a, x, Taken(size, needed) + y, prevUsed);
  }

  lemma SplitAt(m: Memory, a: nat, cs: seq<Chunk>, prevUsed: bool, i: nat)
    requires Fenced(m, a, cs, prevUsed)
    requires i < |cs|
    ensures Tiled(m, a, cs[..i], prevUsed)
    ensures ChunkAt(m, a + Total(cs[..i]), cs[i], LastUsed(cs[..i], prevUsed))
    ensures Fenced(m, a + Total(cs[..i]) + cs[i].size, cs[i + 1..], cs[i].used)
  {
    var c := a + Total(cs[..i]);
    assert cs == cs[..i] + cs[i..];
    FencedConcat(m, a, cs[..i], cs[i..], prevUsed);
    assert cs[i..] == [cs[i]] + cs[i + 1..];
    FencedConcat(m, c, [cs[i]], cs[i + 1..], LastUsed(cs[..i], prevUsed));
  }

  /** What `ReleaseWords` writes, word by word. */
  predicate Released(m: Memory, m': Memory, c: nat, size: nat, before: nat, after: nat)
    requires c >= before && c + 8 in m && c - before + 8 in m && c + size + after + 8 in m
  {
    var span, n, spanSize := c - before, c + size + after, before + size + after;
    && OnlyAt(m, m', {span + 8, c + 8, c + size + 8, n, n + 8})
    && m'[span + 8] == spanSize + Flags(false, PrevInUse(m, span))
    && m'[n] == spanSize
    && m'[n + 8] == SizeOf(m, n) + Flags(InUse(m, n), false)
    && (before > 0 ==> m'[c + 8] == 0)
    && (after > 0 ==> m'[c + size + 8] == 0)
  }

  lemma ReleaseWordsEffect(m: Memory, c: nat, size: nat, before: nat, after: nat)
    requires c >= before && c + 8 in m && c - before + 8 in m && c + size + after + 8 in m
    requires before + size + after + 3 < WORD_LIMIT && size >= MIN_CHUNK
    requires after == 0 || after >= MIN_CHUNK
    requires before == 0 || before >= MIN_CHUNK
    ensures Released(m, ReleaseWords(m, c, size, before, after), c, size, before, after)
  {
  }

  /** One free span in front of the untouched rest. */
  lemma FreeSpan(m: Memory, m': Memory, span: nat, size: nat, y: seq<Chunk>, was: bool)
    requires Fenced(m, span + size, y, was)
    requires y != [] ==> y[0].used
    requires size >= MIN_CHUNK && size % CHUNK_ALIGN == 0
    requires span + 8 in m' && m'[span + 8] == size + Flags(false, true)
    requires span + size in m' && m'[span + size] == size
    requires span + size + 8 in m' && m'[span + size + 8] == m[span + size + 8] - Flags(false, was)
    requires SameWords(m, m', span + size + 8, span + size + Total(y) + 8)
    ensures Fenced(m', span, [Chunk(size, false)] + y, true)
  {
    Retag(m, m', span + size, y, was, false);
    FencedCons(m', span, Chunk(size, false), y, true);
  }

  /** A free neighbour to merge with, or none. */
  predicate FreeNeighbour(b: seq<Chunk>) { b == [] || (|b| == 1 && !b[0].used) }

  /** What `dealloc` finds in the words in front of a live chunk `c` that follows `b`. */
  lemma BeforeChunk(m: Memory, a: nat, b: seq<Chunk>, c: Chunk, z: seq<Chunk>, prevUsed: bool)
    requires Fenced(m, a, b + ([c] + z), prevUsed)
    requires FreeNeighbour(b) && c.used && (b == [] ==> prevUsed)
    ensures prevUsed
    ensures a + 8 in m && PrevInUse(m, a)
    ensures Total(b) % CHUNK_ALIGN == 0 && (b == [] || Total(b) >= MIN_CHUNK)
    ensures a + Total(b) + 8 in m && SizeOf(m, a + Total(b)) == c.size
    ensures InUse(m, a + Total(b)) && PrevInUse(m, a + Total(b)) == (b == [])
    ensures b != [] ==> a + Total(b) in m && PrevSizeOf(m, a + Total(b)) == Total(b) == SizeOf(m, a)
    ensures c.size >= MIN_CHUNK && c.size % CHUNK_ALIGN == 0
    ensures Fenced(m, a + Total(b) + c.size, z, true)
  {
    hide Fenced, SizeBits, InUseBit, PrevInUseBit;
    if b == [] {
      assert b + ([c] + z) == [c] + z;
      FencedCons(m, a, c, z, prevUsed);
      HeaderBits(m[a + 8], c.size, true, prevUsed);
    } else {
      var d := b[0];
      assert b == [d];
      FencedCons(m, a, d, [c] + z, prevUsed);
      FencedCons(m, a + d.size, c, z, false);
      HeaderBits(m[a + 8], d.size, false, prevUsed);
      HeaderBits(m[a + d.size], d.size, false, false);
      HeaderBits(m[a + d.size + 8], c.size, true, false);
    }
  }

  /** What it finds behind the chunk: at most one free neighbour `d`, then a header in use. */
  lemma AfterChunk(m: Memory, a: nat, d: seq<Chunk>, y: seq<Chunk>)
    requires Fenced(m, a, d + y, true)
    requires FreeNeighbour(d) && (d == [] && y != [] ==> y[0].used)
    ensures Total(d) % CHUNK_ALIGN == 0 && (d == [] || Total(d) >= MIN_CHUNK)
    ensures a + 8 in m && a + Total(d) + 8 in m && InUse(m, a) == (d == []) && InUse(m, a + Total(d))
    ensures d != [] ==> SizeOf(m, a) == Total(d)
    ensures Fenced(m, a + Total(d), y, d == [])
    ensures y != [] ==> y[0].used
  {
    FencedConcat(m, a, d, y, true);
    NextHeader(m, a, d + y, true);
    NextHeader(m, a + Total(d), y, d == []);
  }

  lemma ReleaseSpan(m: Memory, m': Memory, c: nat, size: nat, before: nat, after: nat, y: seq<Chunk>)
    requires c >= before && c + 8 in m && c - before + 8 in m && PrevInUse(m, c - before)
    requires Fenced(m, c + size + after, y, after == 0) && c + size + after + 8 in m
    requires Released(m, m', c, size, before, after)
    requires y != [] ==> y[0].used
    requires size >= MIN_CHUNK && (after == 0 || after >= MIN_CHUNK)
    requires before % CHUNK_ALIGN == 0 && size % CHUNK_ALIGN == 0 && after % CHUNK_ALIGN == 0
    ensures Fenced(m', c - before, [Chunk(before + size + after, false)] + y, true)
    ensures SameWords(m, m', 0, c - before)
  {
    hide Fenced;
    NextHeader(m, c + size + after, y, after == 0);
    FreeSpan(m, m', c - before, before + size + after, y, after == 0);
  }

  /** Every word `dealloc` reads or writes around the chunk at `c` is mapped. */
  predicate SiteMapped(m: Memory, c: nat, size: nat, before: nat, after: nat) {
    c >= before && c + 8 in m && c - before + 8 in m && c + size + after + 8 in m
  }

  /** Everything `dealloc` reads around a live chunk of `size` bytes at `c`. */
  predicate Site(m: Memory, c: nat, size: nat, before: nat, after: nat) {
    && SiteMapped(m, c, size, before, after)
    && size % CHUNK_ALIGN == 0 && size >= MIN_CHUNK
    && before % CHUNK_ALIGN == 0 && (before == 0 || before >= MIN_CHUNK)
    && after % CHUNK_ALIGN == 0 && (after == 0 || after >= MIN_CHUNK)
    && InUse(m, c) && SizeOf(m, c) == size
    && PrevInUse(m, c) == (before == 0)
    && (before > 0 ==> c in m && PrevSizeOf(m, c) == before && SizeOf(m, c - before) == before)
    && PrevInUse(m, c - before)
    && c + size + 8 in m && InUse(m, c + size) == (after == 0)
    && (after > 0 ==> SizeOf(m, c + size) == after)
    && InUse(m, c + size + after)
  }

  lemma SiteHolds(m: Memory, span: nat, b: seq<Chunk>, c: Chunk, d: seq<Chunk>, y: seq<Chunk>,
                  prevUsed: bool, before: nat, after: nat)
    requires Fenced(m, span, b + ([c] + (d + y)), prevUsed)
    requires FreeNeighbour(b) && c.used && FreeNeighbour(d)
    requires (b == [] ==> prevUsed) && (d == [] && y != [] ==> y[0].used)
    requires before == Total(b) && after == Total(d)
    ensures prevUsed && Site(m, span + before, c.size, before, after)
  {
    hide Fenced;
    BeforeChunk(m, span, b, c, d + y, prevUsed);
    AfterChunk(m, span + before + c.size, d, y);
  }

  lemma ReleaseMiddle(m: Memory, m': Memory, span: nat, b: seq<Chunk>, c: Chunk, d: seq<Chunk>,
                      y: seq<Chunk>, prevUsed: bool, before: nat, after: nat)
    requires Fenced(m, span, b + ([c] + (d + y)), prevUsed)
    requires FreeNeighbour(b) && c.used && FreeNeighbour(d)
    requires (b == [] ==> prevUsed) && (d == [] && y != [] ==> y[0].used)
    requires before == Total(b) && after == Total(d)
    requires SiteMapped(m, span + before, c.size, before, after)
    requires Released(m, m', span + before, c.size, before, after)
    ensures prevUsed && Fenced(m', span, [Chunk(before + c.size + after, false)] + y, true)
    ensures SameWords(m, m', 0, span)
  {
    hide Fenced, Released;
    BeforeChunk(m, span, b, c, d + y, prevUsed);
    AfterChunk(m, span + before + c.size, d, y);
    ReleaseSpan(m, m', span + before, c.size, before, after, y);
  }

  /** Releasing a chunk in the words releases it in the list. */
  lemma ReleaseFenced(m: Memory, m': Memory, a: nat, x: seq<Chunk>, b: seq<Chunk>, c: Chunk,
                      d: seq<Chunk>, y: seq<Chunk>, before: nat, after: nat)
    requires Fenced(m, a, x + (b + ([c] + (d + y))), true)
    requires FreeNeighbour(b) && c.used && FreeNeighbour(d)
    requires (b == [] ==> LastUsed(x, true)) && (d == [] && y != [] ==> y[0].used)
    requires before == Total(b) && after == Total(d)
    requires SiteMapped(m, a + Total(x) + before, c.size, before, after)
    requires Released(m, m', a + Total(x) + before, c.size, before, after)
    ensures Fenced(m', a, x + ([Chunk(before + c.size + after, false)] + y), true)
  {
    hide Fenced, Released;
    FencedConcat(m, a, x, b + ([c] + (d + y)), true);
    ReleaseMiddle(m, m', a + Total(x), b, c, d, y, LastUsed(x, true), before, after);
    Rebuild(m, m', a, x, [Chunk(before + c.size + after, false)] + y, true);
  }

  /** Chunk `i` with the chunks before it, its free neighbours and the chunks behind it. */
  lemma AroundChunk(cs: seq<Chunk>, i: nat) returns (x: seq<Chunk>, b: seq<Chunk>, d: seq<Chunk>, y: seq<Chunk>)
    requires i < |cs|
    ensures cs == x + (b + ([cs[i]] + (d + y)))
    ensures FreeNeighbour(b) && FreeNeighbour(d)
    ensures (b == [] ==> LastUsed(x, true)) && (d == [] && y != [] ==> y[0].used)
    ensures |x| == MergeFrom(cs, i) && |x| + |b| == i && i + 1 + |d| == MergeTo(cs, i)
    ensures BeforeSize(cs, i) == Total(b) && AfterSize(cs, i) == Total(d)
    ensures ReleaseAt(cs, i) == x + ([Chunk(Total(b) + cs[i].size + Total(d), false)] + y)
    ensures Total(cs[..i]) == Total(x) + Total(b)
  {
    hide Total;
    var lo, hi := MergeFrom(cs, i), MergeTo(cs, i);
    x, b, d, y := cs[..lo], cs[lo..i], cs[i + 1..hi], cs[hi..];
    assert cs[..i] == x + b;
    TotalConcat(x, b);
  }
}
