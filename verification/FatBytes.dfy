/** The bytes of a file, read off its chain of clusters, and what writing one sector or adding one
    cluster does to them. */
module FatBytes {
  import opened Common
  import opened FatTable

  function Flatten<T>(xss: seq<seq<T>>): seq<T> {
    if xss == [] then [] else xss[0] + Flatten(xss[1..])
  }

  predicate Even<T>(xss: seq<seq<T>>, n: nat) { forall i :: 0 <= i < |xss| ==> |xss[i]| == n }

  lemma {:induction false} FlattenConcat<T>(a: seq<seq<T>>, b: seq<seq<T>>)
    ensures Flatten(a + b) == Flatten(a) + Flatten(b)
  {
    if a == [] {
      assert a + b == b;
    } else {
      assert (a + b)[1..] == a[1..] + b;
      FlattenConcat(a[1..], b);
    }
  }

  lemma {:induction false} FlattenLength<T>(xss: seq<seq<T>>, n: nat)
    requires Even(xss, n)
    ensures |Flatten(xss)| == |xss| * n
  {
    if xss != [] {
      FlattenLength(xss[1..], n);
      assert |xss| * n == n + (|xss| - 1) * n;
    }
  }

  lemma FlattenOne<T>(x: seq<T>)
    ensures Flatten([x]) == x
  {
    assert [x][1..] == [];
  }

  /** The part before block `i`, the block, and the part behind it. */
  lemma FlattenAt<T>(xss: seq<seq<T>>, n: nat, i: nat)
    requires Even(xss, n) && i < |xss|
    ensures |Flatten(xss[..i])| == i * n
    ensures Flatten(xss) == Flatten(xss[..i]) + (xss[i] + Flatten(xss[i + 1..]))
    ensures |Flatten(xss)| == |xss| * n && i * n + n <= |xss| * n
  {
    assert xss == xss[..i] + ([xss[i]] + xss[i + 1..]);
    FlattenConcat(xss[..i], [xss[i]] + xss[i + 1..]);
    FlattenConcat([xss[i]], xss[i + 1..]);
    FlattenOne(xss[i]);
    FlattenLength(xss[..i], n);
    FlattenLength(xss, n);
    MulMono(i + 1, |xss|, n);
    assert (i + 1) * n == i * n + n;
  }

  /** `s` with `piece` in place of the elements from `at` on. */
  function Splice<T>(s: seq<T>, at: nat, piece: seq<T>): (r: seq<T>)
    requires at + |piece| <= |s|
    ensures |r| == |s|
  {
    s[..at] + piece + s[at + |piece|..]
  }

  /** Replacing block `i` by `x` is a splice of the whole. */
  lemma FlattenReplace<T>(xss: seq<seq<T>>, n: nat, i: nat, x: seq<T>)
    requires Even(xss, n) && i < |xss| && |x| == n
    ensures |Flatten(xss)| == |xss| * n && i * n + n <= |xss| * n
    ensures Flatten(xss[i := x]) == Splice(Flatten(xss), i * n, x)
    ensures Flatten(xss)[i * n..i * n + n] == xss[i]
  {
    hide Flatten;
    FlattenAt(xss, n, i);
    FlattenAt(xss[i := x], n, i);
    assert xss[i := x][..i] == xss[..i] && xss[i := x][i + 1..] == xss[i + 1..];
    SpliceMiddle(Flatten(xss[..i]), xss[i], Flatten(xss[i + 1..]), x);
  }

  lemma SpliceMiddle<T>(a: seq<T>, b: seq<T>, c: seq<T>, x: seq<T>)
    requires |x| == |b|
    ensures Splice(a + (b + c), |a|, x) == a + (x + c)
    ensures (a + (b + c))[|a|..|a| + |b|] == b
  {
    var s := a + (b + c);
    assert s[..|a|] == a && s[|a| + |b|..] == c;
  }

  lemma SpliceSplice<T>(s: seq<T>, at: nat, block: seq<T>, off: nat, piece: seq<T>)
    requires at + |block| <= |s| && s[at..at + |block|] == block && off + |piece| <= |block|
    ensures Splice(s, at, Splice(block, off, piece)) == Splice(s, at + off, piece)
  {
    var l, r := Splice(s, at, Splice(block, off, piece)), Splice(s, at + off, piece);
    forall k | 0 <= k < |s| ensures l[k] == r[k] {
      if at <= k < at + |block| {
        assert s[k] == block[k - at];
      }
    }
  }

  /** Blocks that are the consecutive parts of `all` flatten to it. */
  lemma {:induction false} FlattenChopped<T>(xss: seq<seq<T>>, n: nat, all: seq<T>)
    requires Even(xss, n) && |all| == |xss| * n
    requires forall i :: 0 <= i < |xss| ==> i * n + n <= |all| && xss[i] == all[i * n..i * n + n]
    ensures Flatten(xss) == all
  {
    if xss != [] {
      var rest, part := xss[1..], all[n..];
      assert |part| == |rest| * n;
      forall i | 0 <= i < |rest| ensures i * n + n <= |part| && rest[i] == part[i * n..i * n + n] {
        assert xss[i + 1] == all[(i + 1) * n..(i + 1) * n + n];
        SliceShift(all, n, i * n, (i + 1) * n);
      }
      FlattenChopped(rest, n, part);
      assert xss[0] == all[0 * n..0 * n + n] == all[..n];
    }
  }

  lemma SliceShift<T>(s: seq<T>, n: nat, at: nat, at': nat)
    requires at' == at + n && at' + n <= |s|
    ensures s[at'..at' + n] == s[n..][at..at + n]
  {
  }

  // Clusters, sectors and bytes of a chain

  predicate DataOk(data: seq<seq<Sector>>, spc: nat) { forall c :: 2 <= c < |data| ==> |data[c]| == spc }

  predicate Within(data: seq<seq<Sector>>, chain: seq<nat>) {
    forall i :: 0 <= i < |chain| ==> 2 <= chain[i] < |data|
  }

  function ClustersOf(data: seq<seq<Sector>>, chain: seq<nat>): seq<seq<Sector>>
    requires Within(data, chain)
  {
    seq(|chain|, i requires 0 <= i < |chain| => data[chain[i]])
  }

  function SectorsOf(data: seq<seq<Sector>>, chain: seq<nat>): seq<Sector>
    requires Within(data, chain)
  {
    Flatten(ClustersOf(data, chain))
  }

  /** All bytes of the clusters of the chain; the file is a prefix of them. */
  function BytesOf(data: seq<seq<Sector>>, chain: seq<nat>): seq<Byte>
    requires Within(data, chain)
  {
    Flatten(SectorsOf(data, chain))
  }

  /** Index of sector `s` of the `ci`-th cluster, and of its byte `b`. */
  function SectorIndex(spc: nat, ci: nat, s: nat): nat { ci * spc + s }

  function ByteIndex(spc: nat, ci: nat, s: nat, b: nat): nat { SectorIndex(spc, ci, s) * SECTOR_SIZE + b }

  /** Bytes that `n` clusters hold. */
  function Room(spc: nat, n: nat): nat { n * spc * SECTOR_SIZE }

  function Capacity(spc: nat, chain: seq<nat>): nat { Room(spc, |chain|) }

  lemma SectorsAt(data: seq<seq<Sector>>, spc: nat, chain: seq<nat>, ci: nat, s: nat)
    requires DataOk(data, spc) && Within(data, chain) && ci < |chain| && s < spc
    ensures |SectorsOf(data, chain)| == |chain| * spc && SectorIndex(spc, ci, s) < |chain| * spc
    ensures SectorsOf(data, chain)[SectorIndex(spc, ci, s)] == data[chain[ci]][s]
  {
    var css := ClustersOf(data, chain);
    FlattenAt(css, spc, ci);
    Stride(ci, |chain|, spc, s);
  }

  lemma BytesLength(data: seq<seq<Sector>>, spc: nat, chain: seq<nat>)
    requires DataOk(data, spc) && Within(data, chain)
    ensures |BytesOf(data, chain)| == Capacity(spc, chain)
  {
    FlattenLength(ClustersOf(data, chain), spc);
    FlattenLength(SectorsOf(data, chain), SECTOR_SIZE);
  }

  /** Reading: part of a sector is the corresponding part of the file's bytes. */
  lemma BytesAt(data: seq<seq<Sector>>, spc: nat, chain: seq<nat>, ci: nat, s: nat, b: nat, n: nat)
    requires DataOk(data, spc) && Within(data, chain) && ci < |chain| && s < spc && b + n <= SECTOR_SIZE
    ensures ByteIndex(spc, ci, s, b) + n <= |BytesOf(data, chain)| == Capacity(spc, chain)
    ensures BytesOf(data, chain)[ByteIndex(spc, ci, s, b)..ByteIndex(spc, ci, s, b) + n] == data[chain[ci]][s][b..b + n]
  {
    SectorsAt(data, spc, chain, ci, s);
    var ss, q := SectorsOf(data, chain), SectorIndex(spc, ci, s);
    FlattenReplace(ss, SECTOR_SIZE, q, ss[q]);
    BytesLength(data, spc, chain);
    var all := BytesOf(data, chain);
    assert all[q * SECTOR_SIZE..q * SECTOR_SIZE + SECTOR_SIZE][b..b + n] == all[q * SECTOR_SIZE + b..q * SECTOR_SIZE + b + n];
  }

  predicate Distinct(chain: seq<nat>) { forall i, j :: 0 <= i < j < |chain| ==> chain[i] != chain[j] }

  lemma SectorsSet(data: seq<seq<Sector>>, spc: nat, chain: seq<nat>, ci: nat, s: nat, b: Sector)
    requires DataOk(data, spc) && Within(data, chain) && Distinct(chain) && ci < |chain| && s < spc
    ensures var data', q := SetSector(data, chain[ci], s, b), SectorIndex(spc, ci, s);
            && |data'| == |data| && DataOk(data', spc)
            && q < |SectorsOf(data, chain)| && SectorsOf(data', chain) == SectorsOf(data, chain)[..q] + [b] + SectorsOf(data, chain)[q + 1..]
  {
    hide SetSector;
    var data', q := SetSector(data, chain[ci], s, b), SectorIndex(spc, ci, s);
    var css, ss, ss' := ClustersOf(data, chain), SectorsOf(data, chain), SectorsOf(data', chain);
    assert ClustersOf(data', chain) == css[ci := data'[chain[ci]]];
    FlattenReplace(css, spc, ci, data'[chain[ci]]);
    SectorsAt(data, spc, chain, ci, s);
    forall k | 0 <= k < |ss| && k != q ensures ss'[k] == ss[k] {
      if ci * spc <= k < ci * spc + spc {
        assert ss[k] == ss[ci * spc..ci * spc + spc][k - ci * spc];
      }
    }
    assert ss'[q] == b;
  }

  /** Writing: replacing part of one sector replaces the corresponding part of the bytes. */
  lemma BytesWritten(data: seq<seq<Sector>>, spc: nat, chain: seq<nat>, ci: nat, s: nat, b: nat, piece: seq<Byte>)
    requires DataOk(data, spc) && Within(data, chain) && Distinct(chain) && ci < |chain| && s < spc
    requires b + |piece| <= SECTOR_SIZE
    ensures var data' := SetSector(data, chain[ci], s, Splice(data[chain[ci]][s], b, piece));
            && |data'| == |data| && DataOk(data', spc)
            && ByteIndex(spc, ci, s, b) + |piece| <= |BytesOf(data, chain)|
            && BytesOf(data', chain) == Splice(BytesOf(data, chain), ByteIndex(spc, ci, s, b), piece)
  {
    hide SetSector;
    var sector: Sector := data[chain[ci]][s];
    var new_: Sector := Splice(sector, b, piece);
    var data', q := SetSector(data, chain[ci], s, new_), SectorIndex(spc, ci, s);
    var ss := SectorsOf(data, chain);
    SectorsAt(data, spc, chain, ci, s);
    SectorsSet(data, spc, chain, ci, s, new_);
    BytesAt(data, spc, chain, ci, s, b, |piece|);
    FlattenReplace(ss, SECTOR_SIZE, q, new_);
    assert ss[..q] + [new_] + ss[q + 1..] == ss[q := new_];
    SpliceSplice(BytesOf(data, chain), q * SECTOR_SIZE, sector, b, piece);
  }

  /** The bytes of the `ci`-th cluster, and what replacing them does. */
  lemma BytesCluster(data: seq<seq<Sector>>, data': seq<seq<Sector>>, spc: nat, chain: seq<nat>, ci: nat)
    requires DataOk(data, spc) && DataOk(data', spc) && |data'| == |data|
    requires Within(data, chain) && Distinct(chain) && ci < |chain|
    requires forall c :: 0 <= c < |data| && c != chain[ci] ==> data'[c] == data[c]
    ensures |Flatten(data[chain[ci]])| == |Flatten(data'[chain[ci]])| == spc * SECTOR_SIZE
    ensures |BytesOf(data, chain)| == Capacity(spc, chain) && ci * spc * SECTOR_SIZE + spc * SECTOR_SIZE <= Capacity(spc, chain)
    ensures BytesOf(data, chain)[ci * spc * SECTOR_SIZE..ci * spc * SECTOR_SIZE + spc * SECTOR_SIZE] == Flatten(data[chain[ci]])
    ensures BytesOf(data', chain) == Splice(BytesOf(data, chain), ci * spc * SECTOR_SIZE, Flatten(data'[chain[ci]]))
  {
    ClusterBlocks(data, spc, chain, ci);
    ClusterBlocks(data', spc, chain, ci);
    var css, css' := ClustersOf(data, chain), ClustersOf(data', chain);
    assert css'[..ci] == css[..ci] && css'[ci + 1..] == css[ci + 1..];
  }

  lemma ClusterBlocks(data: seq<seq<Sector>>, spc: nat, chain: seq<nat>, ci: nat)
    requires DataOk(data, spc) && Within(data, chain) && ci < |chain|
    ensures var css := ClustersOf(data, chain);
            BytesOf(data, chain) == Flatten(Flatten(css[..ci])) + Flatten(css[ci]) + Flatten(Flatten(css[ci + 1..]))
    ensures |Flatten(Flatten(ClustersOf(data, chain)[..ci]))| == ci * spc * SECTOR_SIZE
    ensures |Flatten(ClustersOf(data, chain)[ci])| == spc * SECTOR_SIZE
    ensures |BytesOf(data, chain)| == Capacity(spc, chain)
  {
    var css := ClustersOf(data, chain);
    FlattenAt(css, spc, ci);
    var a: seq<Sector>, b: seq<Sector>, c: seq<Sector> := Flatten(css[..ci]), css[ci], Flatten(css[ci + 1..]);
    FlattenConcat(a, b + c);
    FlattenConcat(b, c);
    FlattenLength(a, SECTOR_SIZE);
    FlattenLength(b, SECTOR_SIZE);
    BytesLength(data, spc, chain);
  }

  lemma BytesAppend(data: seq<seq<Sector>>, chain: seq<nat>, tail: seq<nat>)
    requires Within(data, chain + tail) && Within(data, chain) && Within(data, tail)
    ensures BytesOf(data, chain + tail) == BytesOf(data, chain) + BytesOf(data, tail)
  {
    assert ClustersOf(data, chain + tail) == ClustersOf(data, chain) + ClustersOf(data, tail);
    FlattenConcat(ClustersOf(data, chain), ClustersOf(data, tail));
    FlattenConcat(SectorsOf(data, chain), SectorsOf(data, tail));
  }

  lemma BytesFrame(data: seq<seq<Sector>>, data': seq<seq<Sector>>, chain: seq<nat>)
    requires Within(data, chain) && |data'| == |data| && forall c :: c in chain ==> data'[c] == data[c]
    ensures Within(data', chain) && BytesOf(data', chain) == BytesOf(data, chain)
  {
    assert ClustersOf(data', chain) == ClustersOf(data, chain);
  }

  // File contents under writes

  /** `c` overwritten with `d` from `at` on, growing if `d` reaches past its end. */
  function Overwrite<T>(c: seq<T>, at: nat, d: seq<T>): (r: seq<T>)
    requires at <= |c|
    ensures |r| == if at + |d| > |c| then at + |d| else |c|
  {
    c[..at] + d + (if at + |d| <= |c| then c[at + |d|..] else [])
  }

  lemma OverwriteAll<T>(d: seq<T>)
    ensures Overwrite([], 0, d) == d
  {
  }

  lemma OverwriteNone<T>(c: seq<T>, at: nat, d: seq<T>)
    requires at <= |c|
    ensures Overwrite(c, at, d[..0]) == c
  {
  }

  lemma OverwriteMore<T>(c: seq<T>, at: nat, d: seq<T>, w: nat, n: nat, all: seq<T>, size: nat, size': nat)
    requires at <= |c| && w + n <= |d| && size <= size' <= |all| && at + w + n <= |all|
    requires all[..size] == Overwrite(c, at, d[..w])
    requires size' == if at + w + n > size then at + w + n else size
    ensures Splice(all, at + w, d[w..w + n])[..size'] == Overwrite(c, at, d[..w + n])
  {
    var l, r := Splice(all, at + w, d[w..w + n])[..size'], Overwrite(c, at, d[..w + n]);
    var o := Overwrite(c, at, d[..w]);
    forall k | 0 <= k < size' ensures l[k] == r[k] {
      if k < at + w {
        assert all[k] == o[k];
      } else if k >= at + w + n {
        assert all[k] == o[k];
      }
    }
  }

  /** One more piece, on bytes that may have grown since. */
  lemma OverwriteNext<T>(c: seq<T>, at: nat, d: seq<T>, w: nat, n: nat, all: seq<T>, all': seq<T>, c0: nat)
    requires at <= |c| == c0 && w + n <= |d| && at + w + n <= |all| <= |all'| && c0 <= |all|
    requires all[..if c0 < at + w then at + w else c0] == Overwrite(c, at, d[..w])
    requires all'[..|all|] == Splice(all, at + w, d[w..w + n])
    ensures all'[..if c0 < at + w + n then at + w + n else c0] == Overwrite(c, at, d[..w + n])
  {
    var size := if c0 < at + w then at + w else c0;
    var size' := if c0 < at + w + n then at + w + n else c0;
    OverwriteMore(c, at, d, w, n, all, size, size');
    assert all'[..size'] == all'[..|all|][..size'];
  }

  /** Where the new bytes are. */
  lemma OverwritePiece<T>(c: seq<T>, at: nat, d: seq<T>, all: seq<T>)
    requires at <= |c| <= |all| && at + |d| <= |all|
    requires all[..if |c| < at + |d| then at + |d| else |c|] == Overwrite(c, at, d)
    ensures all[at..at + |d|] == d
  {
    var size := if |c| < at + |d| then at + |d| else |c|;
    assert all[at..at + |d|] == all[..size][at..at + |d|];
  }

  /** Overwriting a whole overwrites a beginning of it. */
  lemma OverwritePrefix<T>(c: seq<T>, size: nat, at: nat, d: seq<T>, all: seq<T>)
    requires at <= size <= |c| <= |all| && at + |d| <= |all|
    requires all[..if |c| < at + |d| then at + |d| else |c|] == Overwrite(c, at, d)
    ensures all[..if size < at + |d| then at + |d| else size] == Overwrite(c[..size], at, d)
  {
    var long, short := if |c| < at + |d| then at + |d| else |c|, if size < at + |d| then at + |d| else size;
    assert all[..short] == all[..long][..short];
  }

  lemma SliceOfPrefix<T>(s: seq<T>, n: nat, a: nat, b: nat)
    requires a <= b <= n <= |s|
    ensures s[..n][a..b] == s[a..b]
  {
  }
}
