/** Directory entries and 8.3 names (src/hal/fat32.rs:301-326, 358-367, 475-492).

    An entry is 32 bytes: eleven name bytes padded with spaces, the attributes at 0x0B and the
    first cluster at 0x14 and 0x1A, as the section "FAT Directory Structure" of the Microsoft FAT32
    File System Specification lays down. */
module DirEntry {
  import opened Common

  const DIR_SIZE := 32
  const NAME_MAX := 13
  const SPACE: Byte := 0x20
  const DOT: Byte := 0x2E
  const DELETED: Byte := 0xE5
  const ATTR_OFFSET := 0x0B
  const ATTR_LFN: Byte := 0x0F
  const ATTR_ARCHIVE: Byte := 0x20

  type Entry = e: seq<Byte> | |e| == DIR_SIZE witness seq(DIR_SIZE, _ => 0)

  // Reading a name

  predicate Stops(b: Byte) { b == SPACE || b == 0 }

  /** At most `n` bytes from `from` on, up to the first space or zero. */
  function Letters(e: Entry, from: nat, n: nat): (s: seq<Byte>)
    requires from + n <= DIR_SIZE
    ensures |s| <= n
    ensures forall i :: 0 <= i < |s| ==> s[i] == e[from + i] && !Stops(s[i])
    ensures |s| < n ==> Stops(e[from + |s|])
    decreases n
  {
    if n > 0 && !Stops(e[from]) then [e[from]] + Letters(e, from + 1, n - 1) else []
  }

  /** The name of an entry: base, and the extension behind a dot if there is one. */
  function NameOf(e: Entry): (s: seq<Byte>)
    ensures |s| < NAME_MAX
    ensures forall i :: 0 <= i < |s| ==> !Stops(s[i])
  {
    Letters(e, 0, 8) + if Stops(e[8]) then [] else [DOT] + Letters(e, 8, 3)
  }

  function ByteAt(name: seq<Byte>, i: nat): Byte { if i < |name| then name[i] else 0 }

  function Padded(s: seq<Byte>): (r: seq<Byte>)
    requires |s| <= NAME_MAX
    ensures |r| == NAME_MAX && s <= r && forall i :: |s| <= i < NAME_MAX ==> r[i] == 0
  {
    s + Zeros(NAME_MAX - |s|)
  }

  function Zeros(n: nat): (z: seq<Byte>)
    ensures |z| == n && forall i :: 0 <= i < n ==> z[i] == 0
  {
    seq(n, _ => 0)
  }

  /** `read_dir_entry_name`: the name with zeros behind it, or nothing if it is empty. */
  method ReadDirEntryName(entry: Entry) returns (r: Option<seq<Byte>>)
    ensures r == if NameOf(entry) == [] then None else Some(Padded(NameOf(entry)))
  {
    hide Letters, Stops, Zeros;
    var name := new Byte[NAME_MAX](_ => 0);
    ghost var base, ext := Letters(entry, 0, 8), Letters(entry, 8, 3);
    var i := CopyLetters(entry, 0, 8, name, 0);
    assert name[..] == Padded(base);
    if !Stops(entry[8]) {
      name[i] := DOT;
      i := i + 1;
      assert name[..] == Padded(base + [DOT]);
      ghost var before := name[..];
      i := CopyLetters(entry, 8, 3, name, i);
      assert name[..] == before[..|base| + 1] + ext + before[i..];
      assert name[..] == Padded(base + [DOT] + ext);
      assert base + [DOT] + ext == base + ([DOT] + ext);
    } else {
      assert base + [] == base;
    }
    return if i == 0 then None else Some(name[..]);
  }

  method CopyLetters(entry: Entry, from: nat, n: nat, name: array<Byte>, start: nat) returns (i: nat)
    requires from + n <= DIR_SIZE && start + n <= name.Length
    modifies name
    ensures i == start + |Letters(entry, from, n)|
    ensures name[..] == old(name[..start]) + Letters(entry, from, n) + old(name[i..])
  {
    i := start;
    var j := from;
    while j < from + n && !Stops(entry[j])
      invariant from <= j <= from + n && i - start == j - from
      invariant forall k :: 0 <= k < name.Length ==>
                  name[k] == if start <= k < i then entry[from + (k - start)] else old(name[k])
      invariant forall k :: from <= k < j ==> !Stops(entry[k])
    {
      name[i] := entry[j];
      i := i + 1;
      j := j + 1;
    }
    LettersAre(entry, from, n, j - from);
    assert name[..] == old(name[..start]) + entry[from..j] + old(name[i..]);
  }

  lemma {:induction false} LettersAre(e: Entry, from: nat, n: nat, l: nat)
    requires l <= n && from + n <= DIR_SIZE
    requires (forall k :: from <= k < from + l ==> !Stops(e[k])) && (l < n ==> Stops(e[from + l]))
    ensures Letters(e, from, n) == e[from..from + l]
    decreases n
  {
    if l > 0 {
      LettersAre(e, from + 1, n - 1, l - 1);
    }
  }

  // Writing a name

  /** Position of the first dot, or the length. */
  function DotAt(name: seq<Byte>): (d: nat)
    ensures d <= |name| && (d < |name| ==> name[d] == DOT) && DOT !in name[..d]
  {
    if name == [] || name[0] == DOT then 0
    else
      var d := 1 + DotAt(name[1..]);
      assert name[..d] == [name[0]] + name[1..][..d - 1];
      d
  }

  function NameByte(name: seq<Byte>, j: nat): Byte {
    var d := DotAt(name);
    if j < 8 then (if j < d then name[j] else SPACE)
    else if d + 1 + (j - 8) < |name| then name[d + 1 + (j - 8)] else SPACE
  }

  /** The eleven name bytes of an entry. */
  function Encoded(name: seq<Byte>): (r: seq<Byte>)
    ensures |r| == 11
  {
    seq(11, j requires 0 <= j < 11 => NameByte(name, j))
  }

  /** The loops of `f_open` that write the name over eleven spaces. */
  method EncodeName(name: seq<Byte>) returns (r: seq<Byte>)
    ensures r == Encoded(name)
  {
    hide DotAt;
    var buf := new Byte[11](_ => SPACE);
    var dot := FindDot(name);
    var nameEnd := if dot < 8 then dot else 8;
    for j := 0 to nameEnd
      invariant forall i :: 0 <= i < 11 ==> buf[i] == if i < j then name[i] else SPACE
    {
      buf[j] := name[j];
    }
    if dot < |name| {
      var extEnd := if dot + 4 < |name| then dot + 4 else |name|;
      for j := 0 to extEnd - dot - 1
        invariant forall i :: 0 <= i < 8 ==> buf[i] == if i < nameEnd then name[i] else SPACE
        invariant forall i :: 8 <= i < 11 ==> buf[i] == if i - 8 < j then name[dot + 1 + (i - 8)] else SPACE
      {
        buf[8 + j] := name[dot + 1 + j];
      }
    }
    return buf[..];
  }

  method FindDot(name: seq<Byte>) returns (d: nat)
    ensures d == DotAt(name)
  {
    d := 0;
    while d < |name| && name[d] != DOT
      invariant d <= |name| && DOT !in name[..d]
    {
      d := d + 1;
    }
    DotIsFirst(name, d);
  }

  lemma DotIsFirst(name: seq<Byte>, d: nat)
    requires d <= |name| && DOT !in name[..d] && (d < |name| ==> name[d] == DOT)
    ensures DotAt(name) == d
  {
    hide DotAt;
    var e := DotAt(name);
    if e < d {
      NotBefore(name, d, DOT, e);
    }
  }

  lemma NotBefore(s: seq<Byte>, d: nat, b: Byte, i: nat)
    requires i < d <= |s| && b !in s[..d]
    ensures s[i] != b
  {
    assert s[..d][i] == s[i];
  }

  predicate Plain(s: seq<Byte>) { forall i :: 0 <= i < |s| ==> !Stops(s[i]) && s[i] != DOT }

  /** A valid 8.3 name, as its base and its extension. */
  predicate ShortName(base: seq<Byte>, ext: seq<Byte>) {
    Plain(base) && Plain(ext) && 1 <= |base| <= 8 && |ext| <= 3 && base[0] != DELETED
  }

  function Joined(base: seq<Byte>, ext: seq<Byte>): seq<Byte> { if ext == [] then base else base + [DOT] + ext }

  /** The name of any entry, from where its base and its extension end. */
  lemma NameIs(e: Entry, b: nat, x: nat)
    requires b <= 8 && (forall i :: 0 <= i < b ==> e[i] != 0x20 && e[i] != 0) && (b < 8 ==> e[b] == 0x20 || e[b] == 0)
    requires x <= 3 && (forall i :: 8 <= i < 8 + x ==> e[i] != 0x20 && e[i] != 0) && (x < 3 ==> e[8 + x] == 0x20 || e[8 + x] == 0)
    ensures NameOf(e) == if x == 0 then e[..b] else e[..b] + [0x2E] + e[8..8 + x]
  {
    hide Letters, Stops;
    LettersOf(e, 0, 8, b);
    LettersOf(e, 8, 3, x);
    DotJoins(e[0..b], e[8..8 + x]);
    assert Stops(e[8]) == (x == 0) by {
      StopsIs(e[8]);
    }
  }

  lemma StopsIs(b: Byte)
    ensures Stops(b) <==> b == 0x20 || b == 0
  {
  }

  lemma DotJoins(s: seq<Byte>, t: seq<Byte>)
    ensures s + [DOT] + t == s + ([DOT] + t)
  {
  }

  lemma LettersOf(e: Entry, from: nat, n: nat, l: nat)
    requires l <= n && from + n <= DIR_SIZE
    requires (forall k :: from <= k < from + l ==> e[k] != 0x20 && e[k] != 0) && (l < n ==> e[from + l] == 0x20 || e[from + l] == 0)
    ensures Letters(e, from, n) == e[from..from + l]
  {
    hide Letters;
    LettersAre(e, from, n, l);
  }

  function Cut(s: seq<Byte>, n: nat): (r: seq<Byte>)
    ensures r <= s && |r| == if |s| < n then |s| else n
  {
    if |s| < n then s else s[..n]
  }

  /** Encoding a name and reading the entry gives the name back, with the base cut to eight characters
      and the extension to three. */
  lemma LongNameIsCut(base: seq<Byte>, ext: seq<Byte>, e: Entry)
    requires Plain(base) && Plain(ext) && e[..11] == Encoded(Joined(base, ext))
    ensures NameOf(e) == Joined(Cut(base, 8), Cut(ext, 3))
  {
    hide NameOf, DotAt;
    var name, b, x := Joined(base, ext), Cut(base, 8), Cut(ext, 3);
    DotOfJoined(base, ext);
    forall j | 0 <= j < 11 ensures e[j] == JoinedByte(base, ext, j) {
      assert e[j] == e[..11][j] == NameByte(name, j);
    }
    NameIs(e, |b|, |x|);
    assert e[..|b|] == b && e[8..8 + |x|] == x;
  }

  /** For a valid name that is the name itself. */
  lemma NameRoundTrip(base: seq<Byte>, ext: seq<Byte>, e: Entry)
    requires ShortName(base, ext) && e[..11] == Encoded(Joined(base, ext))
    ensures NameOf(e) == Joined(base, ext)
    ensures e[0] != 0 && e[0] != DELETED
  {
    hide NameOf, DotAt;
    LongNameIsCut(base, ext, e);
    DotOfJoined(base, ext);
    assert Cut(base, 8) == base && Cut(ext, 3) == ext;
    assert e[0] == e[..11][0] == NameByte(Joined(base, ext), 0);
  }

  lemma DotOfJoined(base: seq<Byte>, ext: seq<Byte>)
    requires Plain(base)
    ensures DotAt(Joined(base, ext)) == |base|
  {
    hide DotAt;
    var name := Joined(base, ext);
    assert forall i :: 0 <= i < |base| ==> name[i] == base[i];
    assert ext != [] ==> name[|base|] == DOT;
    assert forall d :: |base| < d <= |name| ==> name[..d][|base|] == name[|base|];
  }

  function JoinedByte(base: seq<Byte>, ext: seq<Byte>, j: nat): Byte {
    if j < 8 then (if j < |base| then base[j] else SPACE)
    else if j - 8 < |ext| then ext[j - 8] else SPACE
  }
}
