/** `check_invariants` on arbitrary words, what the invariant implies for it, and what it cannot
    see (src/hal/heap.rs:259-325). */
module HeapCheck {
  import opened HeapLayout
  import opened HeapChunkOps
  import opened HeapState
  import HeapCore

  /** The walk reads only mapped words. */
  predicate Walkable(m: Memory, c: nat, last: nat) {
    c % CHUNK_ALIGN == 0 && last % CHUNK_ALIGN == 0 && Mapped(m, c, last + EPILOGUE_SIZE)
  }

  /** The tests made at one chunk, given the chunk or epilogue behind it. */
  predicate StepOk(m: Memory, c: nat, next: nat, last: nat)
    requires c + 8 in m && next in m && next + 8 in m
  {
    && (!InUse(m, c) ==> PrevSizeOf(m, next) == next - c && !PrevInUse(m, next))
    && (next < last ==> InUse(m, c) || InUse(m, next))
    && (next < last && InUse(m, c) ==> PrevInUse(m, next))
  }

  predicate SizeOk(size: nat) { size >= MIN_CHUNK && size % CHUNK_ALIGN == 0 }

  /** The chunks from `c` on pass every test and end exactly at `last`. */
  predicate Walk(m: Memory, c: nat, last: nat)
    requires Walkable(m, c, last)
    decreases last - c
  {
    if c >= last then c == last else
    MappedAt(m, c, last + EPILOGUE_SIZE, c);
    var size := SizeOf(m, c);
    SizeOk(size) && c + size <= last &&
    (MappedAt(m, c, last + EPILOGUE_SIZE, c + size);
     StepOk(m, c, c + size, last) && Walk(m, c + size, last))
  }

  predicate Checkable(m: Memory, base: nat, end: nat) {
    && base % CHUNK_ALIGN == 0 && end % CHUNK_ALIGN == 0
    && base + PROLOGUE_SIZE + EPILOGUE_SIZE <= end && Mapped(m, base, end)
  }

  predicate SegmentPasses(m: Memory, base: nat, end: nat)
    requires Checkable(m, base, end)
  {
    MappedAt(m, base, end, base);
    MappedAt(m, base, end, end - EPILOGUE_SIZE);
    && SizeOf(m, base) == PROLOGUE_SIZE && InUse(m, base) && PrevInUse(m, base)
    && Walk(m, base + PROLOGUE_SIZE, end - EPILOGUE_SIZE)
    && SizeOf(m, end - EPILOGUE_SIZE) == EPILOGUE_SIZE && InUse(m, end - EPILOGUE_SIZE)
  }

  /** `check_invariants`: true exactly when every segment passes. */
  method CheckInvariants(m: Memory, segments: seq<HeapCore.Segment>) returns (ok: bool)
    requires forall k :: 0 <= k < |segments| ==> Checkable(m, segments[k].base, segments[k].end)
    ensures ok <==> forall k :: 0 <= k < |segments| ==> SegmentPasses(m, segments[k].base, segments[k].end)
  {
    hide SegmentPasses;
    for segIdx := 0 to |segments|
      invariant forall k :: 0 <= k < segIdx ==> SegmentPasses(m, segments[k].base, segments[k].end)
    {
      var good := CheckSegment(m, segments[segIdx].base, segments[segIdx].end);
      if !good {
        return false;
      }
    }
    return true;
  }

  method CheckStep(m: Memory, c: nat, next: nat, last: nat) returns (ok: bool)
    requires c + 8 in m && next in m && next + 8 in m && c <= next
    ensures ok <==> StepOk(m, c, next, last)
  {
    hide SizeBits, InUseBit, PrevInUseBit;
    if next < last {
      if !InUse(m, c) {
        if PrevSizeOf(m, next) != next - c {
          return false;
        }
        if !InUse(m, next) || PrevInUse(m, next) {
          return false;
        }
      } else if !PrevInUse(m, next) {
        return false;
      }
    } else if !InUse(m, c) {
      if PrevSizeOf(m, next) != next - c || PrevInUse(m, next) {
        return false;
      }
    }
    return true;
  }

  lemma WalkableFrom(m: Memory, base: nat, end: nat)
    requires Checkable(m, base, end)
    ensures Walkable(m, base + PROLOGUE_SIZE, end - EPILOGUE_SIZE)
  {
  }

  lemma WalkNil(m: Memory, last: nat)
    requires Walkable(m, last, last)
    ensures Walk(m, last, last)
  {
  }

  /** One unfolding of the walk, with everything the loop reads. */
  lemma WalkStep(m: Memory, c: nat, last: nat)
    requires Walkable(m, c, last) && c < last
    ensures c + 8 in m
    ensures var size := SizeOf(m, c);
            if SizeOk(size) && c + size <= last then
              && c + size in m && c + size + 8 in m && Walkable(m, c + size, last)
              && (Walk(m, c, last) <==> StepOk(m, c, c + size, last) && Walk(m, c + size, last))
            else !Walk(m, c, last)
  {
    hide SizeBits, Mapped, StepOk;
    MappedAt(m, c, last + EPILOGUE_SIZE, c);
    var size := SizeOf(m, c);
    if SizeOk(size) && c + size <= last {
      assert (c + size) % CHUNK_ALIGN == 0;
      MappedAt(m, c, last + EPILOGUE_SIZE, c + size);
      MappedPart(m, c, last + EPILOGUE_SIZE, c + size, last + EPILOGUE_SIZE);
    }
  }

  method CheckSegment(m: Memory, base: nat, end: nat) returns (ok: bool)
    requires Checkable(m, base, end)
    ensures ok <==> SegmentPasses(m, base, end)
  {
    hide Mapped, SizeBits, InUseBit, PrevInUseBit, StepOk, Walk, Walkable;
    MappedAt(m, base, end, base);
    if SizeOf(m, base) != PROLOGUE_SIZE || !(InUse(m, base) && PrevInUse(m, base)) {
      return false;
    }
    var last := end - EPILOGUE_SIZE;
    MappedAt(m, base, end, last);
    var c := base + PROLOGUE_SIZE;
    WalkableFrom(m, base, end);
    while c < last
      invariant c <= last && Walkable(m, c, last)
      invariant Walk(m, base + PROLOGUE_SIZE, last) <==> Walk(m, c, last)
      decreases last - c
    {
      WalkStep(m, c, last);
      var sz := SizeOf(m, c);
      if sz < MIN_CHUNK || sz % CHUNK_ALIGN != 0 {
        return false;
      }
      if c + sz > last {
        return false;
      }
      var next := c + sz;
      var good := CheckStep(m, c, next, last);
      if !good {
        return false;
      }
      c := next;
    }
    assert Walk(m, last, last) by { WalkNil(m, last); }
    return c == last && SizeOf(m, last) == EPILOGUE_SIZE && InUse(m, last);
  }

  // What the invariant implies

  lemma {:induction false} TiledWalks(m: Memory, c: nat, cs: seq<Chunk>, prevUsed: bool, last: nat)
    requires Tiled(m, c, cs, prevUsed) && last == c + Total(cs)
    requires Walkable(m, c, last) && last + 8 in m
    requires !LastUsed(cs, true) ==> !PrevInUse(m, last)
    ensures Walk(m, c, last)
    decreases |cs|
  {
    hide Mapped, SizeBits, InUseBit, PrevInUseBit;
    if cs != [] {
      var next, rest := c + cs[0].size, cs[1..];
      HeaderBits(m[c + 8], cs[0].size, cs[0].used, prevUsed);
      WalkStep(m, c, last);
      if !cs[0].used {
        HeaderBits(m[next], cs[0].size, false, false);
      }
      if rest != [] {
        HeaderBits(m[next + 8], rest[0].size, rest[0].used, cs[0].used);
        TiledWalks(m, next, rest, cs[0].used, last);
      }
    }
  }

  /** The invariant makes `check_invariants` return true. */
  lemma InvariantPasses(m: Memory, s: Seg)
    requires SegOk(m, s)
    ensures Checkable(m, s.base, s.end) && SegmentPasses(m, s.base, s.end)
  {
    hide Mapped, Fenced, Walk, Tiled, SizeBits, InUseBit, PrevInUseBit;
    var a := s.base + PROLOGUE_SIZE;
    TotalAligned(m, a, s.chunks, true);
    MappedPart(m, s.base, s.end, a, s.end);
    HeaderBits(m[s.base + 8], PROLOGUE_SIZE, true, true);
    LastHeader(m, a, s.chunks, true);
    HeaderBits(m[s.end - 8], EPILOGUE_SIZE, true, LastUsed(s.chunks, true));
    TiledWalks(m, a, s.chunks, true, s.end - EPILOGUE_SIZE);
  }

  lemma LastHeader(m: Memory, a: nat, cs: seq<Chunk>, prevUsed: bool)
    requires Fenced(m, a, cs, prevUsed)
    ensures Tiled(m, a, cs, prevUsed) && EpilogueAt(m, a + Total(cs), LastUsed(cs, prevUsed))
  {
    FencedConcat(m, a, cs, [], prevUsed);
    assert cs + [] == cs;
  }

  // Exactly what it cannot see

  /** The chunks a walk that passes goes through. */
  function Parse(m: Memory, c: nat, last: nat): (cs: seq<Chunk>)
    requires Walkable(m, c, last) && Walk(m, c, last)
    ensures cs == [] <==> c == last
    decreases last - c
  {
    if c >= last then [] else
    WalkStep(m, c, last);
    [Chunk(SizeOf(m, c), InUse(m, c))] + Parse(m, c + SizeOf(m, c), last)
  }

  /** A header word holds nothing but the size and the two flags the accessors take from it. */
  predicate Plain(m: Memory, c: nat)
    requires c + 8 in m
  {
    m[c + 8] == SizeOf(m, c) + Flags(InUse(m, c), PrevInUse(m, c))
  }

  /** Nothing is masked away along the walk: every header is plain, and the three lowest bits of the
      footer of every free chunk are clear. */
  predicate Unmasked(m: Memory, c: nat, last: nat)
    requires Walkable(m, c, last) && Walk(m, c, last)
    decreases last - c
  {
    if c >= last then true else
    WalkStep(m, c, last);
    var next := c + SizeOf(m, c);
    Plain(m, c) && (!InUse(m, c) ==> m[next] % 8 == 0) && Unmasked(m, next, last)
  }

  /** What the checker would have to look at besides: PREV_IN_USE of the first chunk, that of the
      epilogue behind a chunk in use, and the bits that the accessors mask away. */
  predicate BlindSpotsInOrder(m: Memory, base: nat, end: nat)
    requires Checkable(m, base, end) && SegmentPasses(m, base, end) && base + 32 < end
  {
    WalkableFrom(m, base, end);
    MappedAt(m, base, end, base);
    MappedAt(m, base, end, base + PROLOGUE_SIZE);
    MappedAt(m, base, end, end - EPILOGUE_SIZE);
    var first, last := base + PROLOGUE_SIZE, end - EPILOGUE_SIZE;
    && PrevInUse(m, first) && (LastUsed(Parse(m, first, last), true) ==> PrevInUse(m, last))
    && Plain(m, base) && Plain(m, last) && Unmasked(m, first, last)
  }

  /** A walk that passes with nothing masked away goes over the tags of a chunk list, ... */
  lemma {:induction false} ParseTiled(m: Memory, c: nat, last: nat)
    requires Walkable(m, c, last) && Walk(m, c, last) && Unmasked(m, c, last) && c < last
    ensures c + 8 in m && Total(Parse(m, c, last)) == last - c
    ensures InUse(m, c) || PrevInUse(m, c) ==> Tiled(m, c, Parse(m, c, last), PrevInUse(m, c))
    ensures last + 8 in m && (!LastUsed(Parse(m, c, last), true) ==> !PrevInUse(m, last))
    decreases last - c
  {
    hide Mapped, SizeBits, InUseBit, PrevInUseBit;
    WalkStep(m, c, last);
    var next := c + SizeOf(m, c);
    if !InUse(m, c) {
      WholeWord(m[next]);
    }
    var rest := Parse(m, next, last);
    var chunk := Chunk(SizeOf(m, c), InUse(m, c));
    assert ([chunk] + rest)[1..] == rest;
    if next < last {
      ParseTiled(m, next, last);
    }
  }

  lemma WholeWord(w: Word)
    requires w % 8 == 0
    ensures SizeBits(w) == w
  {
  }

  lemma Sixteenths(size: nat)
    requires size % CHUNK_ALIGN == 0
    ensures size % 8 == 0
  {
    assert size == 8 * (2 * (size / CHUNK_ALIGN));
  }

  /** ... and the tags of a chunk list are such a walk. */
  lemma {:induction false} TiledParses(m: Memory, c: nat, cs: seq<Chunk>, prevUsed: bool, last: nat)
    requires Tiled(m, c, cs, prevUsed) && last == c + Total(cs) && Walkable(m, c, last) && Walk(m, c, last)
    ensures Parse(m, c, last) == cs && Unmasked(m, c, last)
    decreases |cs|
  {
    hide Mapped, SizeBits, InUseBit, PrevInUseBit;
    if cs != [] {
      HeaderBits(m[c + 8], cs[0].size, cs[0].used, prevUsed);
      WalkStep(m, c, last);
      Sixteenths(cs[0].size);
      TiledParses(m, c + cs[0].size, cs[1..], cs[0].used, last);
      assert [cs[0]] + cs[1..] == cs;
    }
  }

  /** When the checker is right.  The words of a region are the tags of a chunk list if and only if
      the checker passes, the region is not empty, and the unchecked bits are in order. */
  lemma CheckExact(m: Memory, base: nat, end: nat)
    requires Checkable(m, base, end) && end < WORD_LIMIT
    ensures (exists cs :: SegOk(m, Seg(base, end, cs))) <==>
            base + 32 < end && SegmentPasses(m, base, end) && BlindSpotsInOrder(m, base, end)
  {
    hide SegOk, SegmentPasses, BlindSpotsInOrder;
    if exists cs :: SegOk(m, Seg(base, end, cs)) {
      var cs :| SegOk(m, Seg(base, end, cs));
      CheckComplete(m, base, end, cs);
    }
    if base + 32 < end && SegmentPasses(m, base, end) && BlindSpotsInOrder(m, base, end) {
      var cs := CheckSound(m, base, end);
    }
  }

  lemma CheckComplete(m: Memory, base: nat, end: nat, cs: seq<Chunk>)
    requires SegOk(m, Seg(base, end, cs)) && Checkable(m, base, end)
    ensures base + 32 < end && SegmentPasses(m, base, end) && BlindSpotsInOrder(m, base, end)
  {
    hide Mapped, Fenced, Tiled, Walk, Parse, Unmasked, SizeBits, InUseBit, PrevInUseBit;
    var s := Seg(base, end, cs);
    var first, last := base + PROLOGUE_SIZE, end - EPILOGUE_SIZE;
    InvariantPasses(m, s);
    TotalAligned(m, first, cs, true);
    WalkableFrom(m, base, end);
    LastHeader(m, first, cs, true);
    FirstHeader(m, first, cs);
    TiledParses(m, first, cs, true, last);
    HeaderBits(m[base + 8], PROLOGUE_SIZE, true, true);
    HeaderBits(m[end - 8], EPILOGUE_SIZE, true, LastUsed(cs, true));
  }

  lemma CheckSound(m: Memory, base: nat, end: nat) returns (cs: seq<Chunk>)
    requires Checkable(m, base, end) && end < WORD_LIMIT && base + 32 < end
    requires SegmentPasses(m, base, end) && BlindSpotsInOrder(m, base, end)
    ensures SegOk(m, Seg(base, end, cs))
  {
    hide Mapped, Fenced, Tiled, Walk, Parse, Unmasked, SizeBits, InUseBit, PrevInUseBit;
    var first, last := base + PROLOGUE_SIZE, end - EPILOGUE_SIZE;
    WalkableFrom(m, base, end);
    MappedAt(m, base, end, base);
    MappedAt(m, base, end, last);
    ParseTiled(m, first, last);
    cs := Parse(m, first, last);
    FencedConcat(m, first, cs, [], true);
    assert cs + [] == cs;
    FencedNone(m, last, LastUsed(cs, true));
  }

  lemma FencedNone(m: Memory, a: nat, prevUsed: bool)
    ensures Fenced(m, a, [], prevUsed) <==> EpilogueAt(m, a, prevUsed)
  {
  }

  /** The words determine the chunk list. */
  lemma {:induction false} ParseUnique(m: Memory, a: nat, cs: seq<Chunk>, cs': seq<Chunk>, p: bool, p': bool)
    requires Tiled(m, a, cs, p) && Tiled(m, a, cs', p') && Total(cs) == Total(cs')
    ensures cs == cs'
    decreases |cs|
  {
    if cs != [] && cs' != [] {
      HeaderBits(m[a + 8], cs[0].size, cs[0].used, p);
      HeaderBits(m[a + 8], cs'[0].size, cs'[0].used, p');
      ParseUnique(m, a + cs[0].size, cs[1..], cs'[1..], cs[0].used, cs'[0].used);
    }
  }

  lemma {:induction false} WalkFrame(m: Memory, m': Memory, c: nat, last: nat)
    requires Walkable(m, c, last) && Walkable(m', c, last) && c < last
    requires Walk(m, c, last)
    requires c + 8 in m && c + 8 in m' && SizeOf(m', c) == SizeOf(m, c) && InUse(m', c) == InUse(m, c)
    requires SameWords(m, m', c + 8, last + 8)
    ensures Walk(m', c, last)
    decreases last - c
  {
    hide Mapped, SizeBits, InUseBit, PrevInUseBit;
    var next, end := c + SizeOf(m, c), last + EPILOGUE_SIZE;
    assert next % CHUNK_ALIGN == 0;
    MappedAt(m, c, end, next);
    MappedPart(m, c, end, next, end);
    MappedPart(m', c, end, next, end);
    if next < last {
      WalkFrame(m, m', next, last);
    }
  }

  lemma FirstFlagPasses(m: Memory, m': Memory, base: nat, end: nat, size: nat, used: bool)
    requires Checkable(m, base, end) && SegmentPasses(m, base, end) && base + 64 <= end
    requires base + 24 in m && size % CHUNK_ALIGN == 0 && m[base + 24] == size + Flags(used, true)
    requires m'.Keys == m.Keys && m'[base + 24] == size + Flags(used, false)
    requires forall w :: w in m && w != base + 24 ==> m'[w] == m[w]
    ensures Checkable(m', base, end) && SegmentPasses(m', base, end)
  {
    hide Walk, Mapped, SizeBits, InUseBit, PrevInUseBit, Walkable;
    var a, last := base + PROLOGUE_SIZE, end - EPILOGUE_SIZE;
    HeaderBits(m[a + 8], size, used, true);
    HeaderBits(m'[a + 8], size, used, false);
    MappedKeep(m, m', base, end);
    WalkableFrom(m, base, end);
    WalkableFrom(m', base, end);
    MappedAt(m, base, end, base);
    MappedAt(m, base, end, last);
    WalkFrame(m, m', a, last);
  }

  lemma {:induction false} FooterStops(m: Memory, m': Memory, c: nat, cs: seq<Chunk>, prevUsed: bool, last: nat, i: nat, foot: nat, w: Word)
    requires Tiled(m, c, cs, prevUsed) && last == c + Total(cs) && Walkable(m', c, last) && i < |cs|
    requires foot == c + Total(cs[..i + 1]) && foot % CHUNK_ALIGN == 0 && m' == m[foot := w]
    requires !cs[i].used && SizeBits(w) != cs[i].size
    ensures !Walk(m', c, last)
    decreases |cs|
  {
    hide Mapped, SizeBits, InUseBit, PrevInUseBit;
    var next, rest := c + cs[0].size, cs[1..];
    HeaderBits(m[c + 8], cs[0].size, cs[0].used, prevUsed);
    WalkStep(m', c, last);
    assert cs[..i + 1] == [cs[0]] + rest[..i];
    if i > 0 {
      FooterStops(m, m', next, rest, cs[0].used, last, i - 1, foot, w);
    }
  }

  /** The footers are looked at: with another size in the footer of any free chunk, a segment in order
      no longer passes. */
  lemma WrongFooterFails(m: Memory, s: Seg, i: nat, w: Word)
    requires SegOk(m, s) && i < |s.chunks| && !s.chunks[i].used && SizeBits(w) != s.chunks[i].size
    ensures var m' := m[s.At(i + 1) := w];
            Checkable(m', s.base, s.end) && !SegmentPasses(m', s.base, s.end)
  {
    hide Mapped, Fenced, Walk, Walkable, Checkable, Tiled, SizeBits, InUseBit, PrevInUseBit, ChunkAt;
    var a, m' := s.base + PROLOGUE_SIZE, m[s.At(i + 1) := w];
    StillCheckable(m, m', s);
    FooterAligned(m, s, i);
    LastHeader(m, a, s.chunks, true);
    FooterStops(m, m', a, s.chunks, true, s.end - EPILOGUE_SIZE, i, s.At(i + 1), w);
  }

  lemma StillCheckable(m: Memory, m': Memory, s: Seg)
    requires SegOk(m, s) && forall w :: w in m ==> w in m'
    ensures Checkable(m', s.base, s.end) && Walkable(m', s.base + PROLOGUE_SIZE, s.end - EPILOGUE_SIZE)
  {
    hide Mapped, Fenced;
    TotalAligned(m, s.base + PROLOGUE_SIZE, s.chunks, true);
    MappedMore(m, m', s.base, s.end);
    WalkableFrom(m', s.base, s.end);
  }

  lemma FooterAligned(m: Memory, s: Seg, i: nat)
    requires SegOk(m, s) && i < |s.chunks|
    ensures s.At(i + 1) % CHUNK_ALIGN == 0
  {
    hide Mapped, Fenced, Tiled;
    ChunkPlace(m, s, i);
    AlignedSum(s.At(i), s.chunks[i].size);
  }

  /** Blind spot: with PREV_IN_USE cleared in the first chunk, every segment in order still passes,
      though its words then describe no chunk list at all. */
  lemma FirstFlagUnchecked(m: Memory, m': Memory, s: Seg)
    requires SegOk(m, s) && s.base + 24 in m && m[s.base + 24] >= 2
    requires m' == m[s.base + 24 := m[s.base + 24] - 2]
    ensures Checkable(m', s.base, s.end) && SegmentPasses(m', s.base, s.end)
    ensures forall cs :: !SegOk(m', s.(chunks := cs))
  {
    hide SegmentPasses, Checkable, Fenced, Mapped, SizeBits, InUseBit, PrevInUseBit;
    var a, c := s.base + PROLOGUE_SIZE, s.chunks[0];
    ChunkPlace(m, s, 0);
    InvariantPasses(m, s);
    FirstFlagPasses(m, m', s.base, s.end, c.size, c.used);
    HeaderBits(m'[a + 8], c.size, c.used, false);
    forall cs | SegOk(m', s.(chunks := cs)) ensures false {
      FirstHeader(m', a, cs);
    }
  }

  /** Blind spot: neither is PREV_IN_USE of the epilogue tested behind a chunk in use. */
  lemma EpilogueFlagUnchecked(m: Memory, m': Memory, s: Seg)
    requires SegOk(m, s) && s.chunks[|s.chunks| - 1].used && s.end - 8 in m
    requires m' == m[s.end - 8 := EPILOGUE_SIZE + Flags(true, false)]
    ensures Checkable(m', s.base, s.end) && SegmentPasses(m', s.base, s.end)
    ensures forall cs :: !SegOk(m', s.(chunks := cs))
  {
    hide Walk, Tiled, Fenced, Mapped, SizeBits, InUseBit, PrevInUseBit, SegmentPasses, Checkable;
    var a := s.base + PROLOGUE_SIZE;
    LastHeader(m, a, s.chunks, true);
    TiledFrame(m, m', a, s.chunks, true);
    HeaderBits(m'[s.end - 8], EPILOGUE_SIZE, true, false);
    EpilogueWordPasses(m, m', s);
    forall cs | SegOk(m', s.(chunks := cs)) ensures false {
      LastHeader(m', a, cs, true);
      ParseUnique(m', a, s.chunks, cs, true, true);
    }
  }

  /** Blind spot: the accessors mask bit 2, so that a header with that bit set is not noticed. */
  lemma SpareBitUnchecked(m: Memory, m': Memory, s: Seg)
    requires SegOk(m, s) && s.end - 8 in m && m[s.end - 8] + 4 < WORD_LIMIT
    requires m' == m[s.end - 8 := m[s.end - 8] + 4]
    ensures Checkable(m', s.base, s.end) && SegmentPasses(m', s.base, s.end)
    ensures forall cs :: !SegOk(m', s.(chunks := cs))
  {
    hide Walk, Tiled, Fenced, Mapped, SegmentPasses, Checkable;
    var a := s.base + PROLOGUE_SIZE;
    LastHeader(m, a, s.chunks, true);
    TiledFrame(m, m', a, s.chunks, true);
    EpilogueWordPasses(m, m', s);
    forall cs | SegOk(m', s.(chunks := cs)) ensures false {
      LastHeader(m', a, cs, true);
    }
  }

  lemma EpilogueWordPasses(m: Memory, m': Memory, s: Seg)
    requires SegOk(m, s) && s.end - 8 in m && Tiled(m', s.base + PROLOGUE_SIZE, s.chunks, true)
    requires m'.Keys == m.Keys && forall w :: w in m && w != s.end - 8 ==> m'[w] == m[w]
    requires SizeBits(m'[s.end - 8]) == EPILOGUE_SIZE && InUseBit(m'[s.end - 8])
    requires !LastUsed(s.chunks, true) ==> !PrevInUseBit(m'[s.end - 8])
    ensures Checkable(m', s.base, s.end) && SegmentPasses(m', s.base, s.end)
  {
    hide Walk, Tiled, Fenced, Mapped, SizeBits, InUseBit, PrevInUseBit;
    var a, last := s.base + PROLOGUE_SIZE, s.end - EPILOGUE_SIZE;
    TotalAligned(m, a, s.chunks, true);
    MappedKeep(m, m', s.base, s.end);
    MappedPart(m', s.base, s.end, a, s.end);
    HeaderBits(m'[s.base + 8], PROLOGUE_SIZE, true, true);
    TiledWalks(m', a, s.chunks, true, last);
  }

  lemma FirstHeader(m: Memory, a: nat, cs: seq<Chunk>)
    requires Fenced(m, a, cs, true)
    ensures a + 8 in m && PrevInUse(m, a)
  {
    NextHeader(m, a, cs, true);
  }
}
