/** The boundary-tag layout of a heap segment (src/hal/heap.rs).

    Memory is a map from the byte address of an aligned 64-bit word to its value.  A chunk at
    address `a` keeps `prev_size` at `a`, `size | flags` at `a + 8` and its payload from `a + 16`.
    All sizes are multiples of 16, so `size | flags` is `size + flags`. */
module HeapLayout {
  const CHUNK_ALIGN := 16
  const MIN_CHUNK := 32
  const MAX_SEGMENTS := 16
  const PROLOGUE_SIZE := 16
  const EPILOGUE_SIZE := 16
  const HEADER_SIZE := 16
  const WORD_LIMIT := 0x1_0000_0000_0000_0000

  type Word = w: nat | w < WORD_LIMIT
  type Memory = map<nat, Word>

  // Chunk field accessors. `& !7`, `& 7`, `& IN_USE` and `& PREV_IN_USE` are written arithmetically.

  function SizeBits(w: Word): nat { w - w % 8 }

  predicate InUseBit(w: Word) { w % 2 == 1 }

  predicate PrevInUseBit(w: Word) { w / 2 % 2 == 1 }

  function Flags(used: bool, prevUsed: bool): nat {
    (if used then 1 else 0) + (if prevUsed then 2 else 0)
  }

  function SizeOf(m: Memory, a: nat): nat
    requires a + 8 in m
  {
    SizeBits(m[a + 8])
  }

  predicate InUse(m: Memory, a: nat)
    requires a + 8 in m
  {
    InUseBit(m[a + 8])
  }

  predicate PrevInUse(m: Memory, a: nat)
    requires a + 8 in m
  {
    PrevInUseBit(m[a + 8])
  }

  function SetHeader(m: Memory, a: nat, size: nat, flags: nat): Memory
    requires size + flags < WORD_LIMIT
  {
    m[a + 8 := size + flags]
  }

  function PrevSizeOf(m: Memory, a: nat): nat
    requires a in m
  {
    SizeBits(m[a])
  }

  function SetPrevSize(m: Memory, a: nat, size: nat): Memory
    requires size < WORD_LIMIT
  {
    m[a := size]
  }

  lemma SizeBound(w: Word)
    ensures SizeBits(w) % 8 == 0 && SizeBits(w) + 7 < WORD_LIMIT
  {
    assert w / 8 <= 0x1FFF_FFFF_FFFF_FFFF;
  }

  /** The parts of any word: a multiple of 8, then bit 2, PREV_IN_USE and IN_USE. */
  lemma WordParts(w: Word)
    ensures w == SizeBits(w) + (if w / 4 % 2 == 1 then 4 else 0) + (if PrevInUseBit(w) then 2 else 0) + (if InUseBit(w) then 1 else 0)
    ensures SizeBits(w) % 8 == 0
  {
    var half, quarter := w / 2, w / 4;
    Halved(w);
    Halved(half);
    Halved(quarter);
    assert half / 2 == quarter && quarter / 2 == w / 8;
    assert w % 8 == w - 8 * (w / 8);
  }

  lemma Halved(x: nat)
    ensures x == 2 * (x / 2) + if x % 2 == 1 then 1 else 0
  {
  }

  /** A header word gives back the size and the two flags it was built from. */
  lemma HeaderBits(w: Word, size: nat, used: bool, prevUsed: bool)
    requires size % CHUNK_ALIGN == 0 && w == size + Flags(used, prevUsed)
    ensures SizeBits(w) == size && InUseBit(w) == used && PrevInUseBit(w) == prevUsed
    ensures size + 3 < WORD_LIMIT
  {
    var q, f := size / CHUNK_ALIGN, Flags(used, prevUsed);
    assert w == 8 * (2 * q) + f;
    assert w / 2 == 8 * q + (if prevUsed then 1 else 0);
  }

  // The abstract list that the words represent

  datatype Chunk = Chunk(size: nat, used: bool)

  function Total(cs: seq<Chunk>): nat {
    if cs == [] then 0 else cs[0].size + Total(cs[1..])
  }

  function LastUsed(cs: seq<Chunk>, prevUsed: bool): bool {
    if cs == [] then prevUsed else cs[|cs| - 1].used
  }

  /** The words at `a` describe chunk `c`, and `c` is not the second of two free neighbours. */
  predicate ChunkAt(m: Memory, a: nat, c: Chunk, prevUsed: bool) {
    && c.size >= MIN_CHUNK
    && c.size % CHUNK_ALIGN == 0
    && a + 8 in m && m[a + 8] == c.size + Flags(c.used, prevUsed)
    && (!c.used ==> prevUsed && a + c.size in m && m[a + c.size] == c.size)
  }

  /** The words after `a` describe exactly the chunks `cs`, one after the other. */
  predicate Tiled(m: Memory, a: nat, cs: seq<Chunk>, prevUsed: bool)
    decreases |cs|
  {
    cs == [] || (ChunkAt(m, a, cs[0], prevUsed) && Tiled(m, a + cs[0].size, cs[1..], cs[0].used))
  }

  predicate EpilogueAt(m: Memory, a: nat, prevUsed: bool) {
    a + 8 in m && m[a + 8] == EPILOGUE_SIZE + Flags(true, prevUsed)
  }

  /** As `Tiled`, with the epilogue fence right behind the last chunk. */
  predicate Fenced(m: Memory, a: nat, cs: seq<Chunk>, prevUsed: bool)
    decreases |cs|
  {
    if cs == [] then EpilogueAt(m, a, prevUsed)
    else ChunkAt(m, a, cs[0], prevUsed) && Fenced(m, a + cs[0].size, cs[1..], cs[0].used)
  }

  predicate SameWords(m: Memory, m': Memory, after: nat, upTo: nat) {
    forall w :: after < w <= upTo && w in m ==> w in m' && m'[w] == m[w]
  }

  lemma {:induction false} TotalConcat(x: seq<Chunk>, y: seq<Chunk>)
    ensures Total(x + y) == Total(x) + Total(y)
  {
    if x == [] {
      assert x + y == y;
    } else {
      assert (x + y)[1..] == x[1..] + y;
      TotalConcat(x[1..], y);
    }
  }

  lemma {:induction false} FencedConcat(m: Memory, a: nat, x: seq<Chunk>, y: seq<Chunk>, prevUsed: bool)
    ensures Fenced(m, a, x + y, prevUsed) <==>
            Tiled(m, a, x, prevUsed) && Fenced(m, a + Total(x), y, LastUsed(x, prevUsed))
    decreases |x|
  {
    if x == [] {
      assert x + y == y;
    } else {
      assert (x + y)[1..] == x[1..] + y;
      FencedConcat(m, a + x[0].size, x[1..], y, x[0].used);
    }
  }

  lemma FencedCons(m: Memory, a: nat, c: Chunk, y: seq<Chunk>, prevUsed: bool)
    ensures Fenced(m, a, [c] + y, prevUsed) <==> ChunkAt(m, a, c, prevUsed) && Fenced(m, a + c.size, y, c.used)
  {
    assert ([c] + y)[1..] == y;
  }

  /** `Tiled` depends only on the words after `a`, up to and including the last footer. */
  lemma {:induction false} TiledFrame(m: Memory, m': Memory, a: nat, cs: seq<Chunk>, prevUsed: bool)
    requires Tiled(m, a, cs, prevUsed)
    requires SameWords(m, m', a, a + Total(cs))
    ensures Tiled(m', a, cs, prevUsed)
    decreases |cs|
  {
    if cs != [] {
      TiledFrame(m, m', a + cs[0].size, cs[1..], cs[0].used);
    }
  }

  lemma {:induction false} FencedFrame(m: Memory, m': Memory, a: nat, cs: seq<Chunk>, prevUsed: bool)
    requires Fenced(m, a, cs, prevUsed)
    requires SameWords(m, m', a, a + Total(cs) + 8)
    ensures Fenced(m', a, cs, prevUsed)
    decreases |cs|
  {
    if cs != [] {
      FencedFrame(m, m', a + cs[0].size, cs[1..], cs[0].used);
    }
  }

  /** A change behind the chunks `x` that leaves the words up to their last footer alone. */
  lemma Rebuild(m: Memory, m': Memory, a: nat, x: seq<Chunk>, z: seq<Chunk>, prevUsed: bool)
    requires Tiled(m, a, x, prevUsed)
    requires SameWords(m, m', 0, a + Total(x))
    requires Fenced(m', a + Total(x), z, LastUsed(x, prevUsed))
    ensures Fenced(m', a, x + z, prevUsed)
  {
    TiledFrame(m, m', a, x, prevUsed);
    FencedConcat(m', a, x, z, prevUsed);
  }

  /** Rewriting only the PREV_IN_USE flag of the header that follows a chunk. */
  lemma Retag(m: Memory, m': Memory, a: nat, cs: seq<Chunk>, was: bool, now: bool)
    requires Fenced(m, a, cs, was)
    requires cs != [] ==> cs[0].used
    requires a + 8 in m' && m'[a + 8] == m[a + 8] - Flags(false, was) + Flags(false, now)
    requires SameWords(m, m', a + 8, a + Total(cs) + 8)
    ensures Fenced(m', a, cs, now)
  {
    if cs != [] {
      FencedFrame(m, m', a + cs[0].size, cs[1..], cs[0].used);
    }
  }

  lemma TotalPrefix(cs: seq<Chunk>, i: nat)
    requires i < |cs|
    ensures Total(cs[..i + 1]) == Total(cs[..i]) + cs[i].size
    ensures Total(cs) == Total(cs[..i + 1]) + Total(cs[i + 1..])
  {
    assert cs[..i + 1] == cs[..i] + [cs[i]];
    TotalConcat(cs[..i], [cs[i]]);
    assert cs == cs[..i + 1] + cs[i + 1..];
    TotalConcat(cs[..i + 1], cs[i + 1..]);
  }

  lemma {:induction false} TotalAligned(m: Memory, a: nat, cs: seq<Chunk>, prevUsed: bool)
    requires Fenced(m, a, cs, prevUsed)
    ensures Total(cs) % CHUNK_ALIGN == 0
    ensures cs != [] ==> Total(cs) >= MIN_CHUNK
    decreases |cs|
  {
    if cs != [] {
      TotalAligned(m, a + cs[0].size, cs[1..], cs[0].used);
    }
  }

  lemma {:induction false} TiledAligned(m: Memory, a: nat, cs: seq<Chunk>, prevUsed: bool)
    requires Tiled(m, a, cs, prevUsed)
    ensures Total(cs) % CHUNK_ALIGN == 0
    decreases |cs|
  {
    if cs != [] {
      TiledAligned(m, a + cs[0].size, cs[1..], cs[0].used);
    }
  }
}
