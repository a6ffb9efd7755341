/** The merging part of `dealloc` on arbitrary words (src/hal/heap.rs:210-254), and that for a live
    chunk it is the merge with its free neighbours. */
module HeapCoalesce {
  import opened HeapLayout
  import opened HeapChunkOps
  import opened HeapState

  /** The words of a segment up to its epilogue at `last`, and an aligned address inside. */
  predicate Inside(m: Memory, base: nat, last: nat, c: nat) {
    && base % CHUNK_ALIGN == 0 && last % CHUNK_ALIGN == 0 && c % CHUNK_ALIGN == 0
    && base + PROLOGUE_SIZE <= c < last && Mapped(m, base, last + EPILOGUE_SIZE)
  }

  /** The forward walk: from `n` on, headers that look free are neutralised and stepped over. */
  function Absorb(m: Memory, n: nat, last: nat): (r: (Memory, nat))
    requires n % CHUNK_ALIGN == 0 && last % CHUNK_ALIGN == 0 && Mapped(m, n, last + EPILOGUE_SIZE)
    ensures r.0.Keys == m.Keys && r.1 >= n && r.1 % CHUNK_ALIGN == 0
    decreases last - n
  {
    if n >= last then (m, n) else
    MappedAt(m, n, last + EPILOGUE_SIZE, n);
    var ns := SizeOf(m, n);
    if InUse(m, n) || ns < MIN_CHUNK || ns % CHUNK_ALIGN != 0 then (m, n) else
    AlignedSum(n, ns);
    var m' := SetHeader(m, n, 0, 0);
    assert Mapped(m', n + ns, last + EPILOGUE_SIZE) by {
      MappedKeep(m, m', n, last + EPILOGUE_SIZE);
      MappedPart(m', n, last + EPILOGUE_SIZE, n + ns, last + EPILOGUE_SIZE);
    }
    Absorb(m', n + ns, last)
  }

  lemma AbsorbStep(m: Memory, n: nat, last: nat)
    requires n % CHUNK_ALIGN == 0 && last % CHUNK_ALIGN == 0 && Mapped(m, n, last + EPILOGUE_SIZE) && n < last
    ensures n + 8 in m
    ensures var ns := SizeOf(m, n);
            if InUse(m, n) || ns < MIN_CHUNK || ns % CHUNK_ALIGN != 0 then Absorb(m, n, last) == (m, n)
            else
              && (n + ns) % CHUNK_ALIGN == 0 && Mapped(SetHeader(m, n, 0, 0), n + ns, last + EPILOGUE_SIZE)
              && Absorb(m, n, last) == Absorb(SetHeader(m, n, 0, 0), n + ns, last)
  {
    hide SizeBits, InUseBit;
    var top := last + EPILOGUE_SIZE;
    MappedAt(m, n, top, n);
    var ns, m' := SizeOf(m, n), SetHeader(m, n, 0, 0);
    MappedKeep(m, m', n, top);
    MappedPart(m', n, top, n + ns, top);
    if ns % CHUNK_ALIGN == 0 {
      AlignedSum(n, ns);
    }
  }

  lemma AbsorbEnd(m: Memory, n: nat, last: nat)
    requires n % CHUNK_ALIGN == 0 && last % CHUNK_ALIGN == 0 && Mapped(m, n, last + EPILOGUE_SIZE) && n >= last
    ensures Absorb(m, n, last) == (m, n)
  {
  }

  /** What the walk changes and where it stops: it only clears words that did not read as in use, all
      of them between its start and its end, and it ends at a header in use or with an impossible
      size, or at the end of the segment. */
  lemma {:induction false} AbsorbMeans(m: Memory, n: nat, last: nat)
    requires n % CHUNK_ALIGN == 0 && last % CHUNK_ALIGN == 0 && Mapped(m, n, last + EPILOGUE_SIZE)
    ensures var (m', e) := Absorb(m, n, last);
            && (forall w :: w in m ==> m'[w] == m[w] || (n + 8 <= w < e && m'[w] == 0 && !InUseBit(m[w])))
            && (e < last ==> e + 8 in m && (InUse(m, e) || SizeOf(m, e) < MIN_CHUNK || SizeOf(m, e) % CHUNK_ALIGN != 0))
    decreases last - n
  {
    hide Absorb, Mapped, SizeBits, InUseBit;
    if n >= last {
      AbsorbEnd(m, n, last);
    } else {
      AbsorbStep(m, n, last);
      var ns := SizeOf(m, n);
      if !InUse(m, n) && ns >= MIN_CHUNK && ns % CHUNK_ALIGN == 0 {
        AbsorbMeans(SetHeader(m, n, 0, 0), n + ns, last);
      }
    }
  }

  /** Where the span begins: at `c`, or at the address its `prev_size` gives. */
  function SpanStart(m: Memory, c: nat): nat
    requires c in m && c + 8 in m
  {
    if PrevInUse(m, c) then c else if PrevSizeOf(m, c) <= c then c - PrevSizeOf(m, c) else 0
  }

  /** The memory after the merge, and whether it got through.  It gives up on a span that would begin
      in front of the segment, before writing anything, or end behind it, after neutralising
      headers.  Sizes add up in 64 bits. */
  function Coalesced(m: Memory, base: nat, last: nat, c: nat): (r: (bool, Memory))
    requires Inside(m, base, last, c) && c + 8 in m && SizeOf(m, c) % CHUNK_ALIGN == 0
    ensures r.1.Keys == m.Keys
  {
    MappedAt(m, base, last + EPILOGUE_SIZE, c);
    var size, span := SizeOf(m, c), SpanStart(m, c);
    if span < base + PROLOGUE_SIZE then (false, m) else
    SpanMapped(m, base, last, c);
    AlignedSum(c, size);
    var m1 := if PrevInUse(m, c) then m else SetHeader(m, c, 0, 0);
    MappedKeep(m, m1, base, last + EPILOGUE_SIZE);
    CoalescedFrom(m1, base, last, span, c + size, size, if PrevInUse(m, c) then 0 else SizeOf(m, span))
  }

  /** The merge from the end `e` of the chunk on, for a span of `size + more` bytes so far. */
  function CoalescedFrom(m: Memory, base: nat, last: nat, span: nat, e: nat, size: nat, more: nat): (r: (bool, Memory))
    requires base <= e && e % CHUNK_ALIGN == 0 && last % CHUNK_ALIGN == 0 && Mapped(m, base, last + EPILOGUE_SIZE)
    requires span + 8 in m && size % CHUNK_ALIGN == 0 && more % 8 == 0
    ensures r.1.Keys == m.Keys
  {
    MappedPart(m, base, last + EPILOGUE_SIZE, e, last + EPILOGUE_SIZE);
    var (m2, n) := Absorb(m, e, last);
    if n > last then (false, m2) else
    MappedAt(m, base, last + EPILOGUE_SIZE, n);
    SpanTotal(size, more, e, n);
    (true, SpanWords(m2, span, n, (size + more + (n - e)) % WORD_LIMIT))
  }

  lemma SpanTotal(size: nat, more: nat, e: nat, n: nat)
    requires size % CHUNK_ALIGN == 0 && more % 8 == 0
    requires e <= n && e % CHUNK_ALIGN == 0 && n % CHUNK_ALIGN == 0
    ensures (size + more + (n - e)) % WORD_LIMIT + 3 < WORD_LIMIT
  {
    var k := 2 * (size / CHUNK_ALIGN) + more / 8 + 2 * (n / CHUNK_ALIGN - e / CHUNK_ALIGN);
    assert size + more + (n - e) == 8 * k;
    EightTimes(k);
    WrappedSize(8 * k);
  }

  /** Sums of sizes are multiples of 8, so that the flags fit in beside them. */
  lemma WrappedSize(total: nat)
    requires total % 8 == 0
    ensures total % WORD_LIMIT + 3 < WORD_LIMIT
  {
    var q, r := total / WORD_LIMIT, total % WORD_LIMIT;
    assert total == 8 * (0x2000_0000_0000_0000 * q) + r;
  }

  lemma SpanMapped(m: Memory, base: nat, last: nat, c: nat)
    requires Inside(m, base, last, c) && c in m && c + 8 in m && SpanStart(m, c) >= base + PROLOGUE_SIZE
    ensures SpanStart(m, c) <= c && SpanStart(m, c) + 8 in m
  {
    var s := SpanStart(m, c);
    HalfAligned(c);
    EightLess(c, PrevSizeOf(m, c));
  }

  lemma EightLess(a: nat, b: nat)
    requires a % 8 == 0
    ensures b % 8 == 0 && b <= a ==> (a - b + 8) % 8 == 0
  {
  }

  /** The forward walk over at most one free chunk, up to a header in use. */
  lemma AbsorbOne(m: Memory, n: nat, last: nat, after: nat)
    requires n % CHUNK_ALIGN == 0 && last % CHUNK_ALIGN == 0 && Mapped(m, n, last + EPILOGUE_SIZE)
    requires n + after <= last && n + 8 in m && n + after + 8 in m
    requires InUse(m, n) == (after == 0) && InUse(m, n + after)
    requires after % CHUNK_ALIGN == 0 && (after > 0 ==> after >= MIN_CHUNK && SizeOf(m, n) == after)
    ensures Absorb(m, n, last) == (if after > 0 then SetHeader(m, n, 0, 0) else m, n + after)
  {
    hide SizeBits, InUseBit;
    if after > 0 {
      var m' := SetHeader(m, n, 0, 0);
      MappedKeep(m, m', n, last + EPILOGUE_SIZE);
      MappedPart(m', n, last + EPILOGUE_SIZE, n + after, last + EPILOGUE_SIZE);
      AlignedSum(n, after);
      assert InUse(m', n + after);
      assert Absorb(m', n + after, last) == (m', n + after);
    }
  }

  /** For a live chunk the merge gets through and writes the tags of the merged chunk. */
  lemma SiteCoalesces(m: Memory, base: nat, last: nat, c: nat, size: nat, before: nat, after: nat)
    requires Inside(m, base, last, c) && Site(m, c, size, before, after)
    requires base + PROLOGUE_SIZE <= c - before && c + size + after <= last
    requires before + size + after + 3 < WORD_LIMIT
    ensures Coalesced(m, base, last, c) == (true, ReleaseWords(m, c, size, before, after))
  {
    hide SizeBits, InUseBit, PrevInUseBit, Absorb, Mapped, SpanWords, CoalescedFrom;
    var e, top := c + size, last + EPILOGUE_SIZE;
    MappedAt(m, base, top, c);
    AlignedSum(c, size);
    if before == 0 {
      FromSite(m, base, last, c, e, size, 0, after);
    } else {
      var m1 := SetHeader(m, c, 0, 0);
      MappedKeep(m, m1, base, top);
      HalfAligned(before);
      FromSite(m1, base, last, c - before, e, size, before, after);
    }
  }

  lemma FromSite(m: Memory, base: nat, last: nat, span: nat, e: nat, size: nat, before: nat, after: nat)
    requires base <= e && e % CHUNK_ALIGN == 0 && last % CHUNK_ALIGN == 0 && Mapped(m, base, last + EPILOGUE_SIZE)
    requires span + 8 in m && size % CHUNK_ALIGN == 0 && before % CHUNK_ALIGN == 0 && before % 8 == 0
    requires e + after <= last && e + 8 in m && e + after + 8 in m
    requires InUse(m, e) == (after == 0) && InUse(m, e + after)
    requires after % CHUNK_ALIGN == 0 && (after > 0 ==> after >= MIN_CHUNK && SizeOf(m, e) == after)
    requires before + size + after + 3 < WORD_LIMIT
    ensures CoalescedFrom(m, base, last, span, e, size, before) ==
            (true, SpanWords(if after > 0 then SetHeader(m, e, 0, 0) else m, span, e + after, before + size + after))
  {
    hide Absorb, Mapped, SpanWords, SizeBits, InUseBit;
    MappedPart(m, base, last + EPILOGUE_SIZE, e, last + EPILOGUE_SIZE);
    AbsorbOne(m, e, last, after);
  }
}
