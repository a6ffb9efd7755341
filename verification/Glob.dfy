/** The wildcard matcher of directory searches (src/hal/fat32.rs:1075-1139).

    A name is matched as thirteen bytes with zeros behind it. */
module Glob {
  import opened Common
  import opened DirEntry

  const STAR: Byte := 0x2A
  const MARK: Byte := 0x3F
  const SCAN_MAX := 11

  /** What a pattern means: `*` is any characters, `?` any one, and a zero the end of the name. */
  ghost predicate Matches(pat: seq<Byte>, s: seq<Byte>)
    decreases |pat|
  {
    if pat == [] then s == []
    else if pat[0] == STAR then exists k :: 0 <= k <= |s| && Matches(pat[1..], s[k..])
    else if pat[0] == 0 then s == [] && Matches(pat[1..], s)
    else s != [] && (pat[0] == MARK || pat[0] == s[0]) && Matches(pat[1..], s[1..])
  }

  predicate NameLike(name: seq<Byte>) { |name| < NAME_MAX && forall i :: 0 <= i < |name| ==> !Stops(name[i]) }

  /** What the code looks for from `i` on: as `Matches` on `name[i..]`, but a star passes over no
      character from index 11 on. */
  ghost predicate Scans(name: seq<Byte>, i: nat, pat: seq<Byte>)
    decreases |pat|, |name| - i
  {
    if pat == [] then i >= |name|
    else if pat[0] == STAR then
      Scans(name, i, pat[1..]) || (i < |name| && i < SCAN_MAX && Scans(name, i + 1, pat))
    else Steps(name, i, pat[0]) && Scans(name, i + 1, pat[1..])
  }

  /** The pattern byte `c` accepts the byte at `i`. */
  predicate Steps(name: seq<Byte>, i: nat, c: Byte) { if c == MARK then i < |name| else ByteAt(name, i) == c }

  /** The code gets behind the thirteenth byte, and its next access is out of bounds. */
  ghost predicate Overruns(name: seq<Byte>, i: nat, pat: seq<Byte>)
    decreases |pat|, |name| - i
  {
    if i >= NAME_MAX then true
    else if pat == [] then false
    else if pat[0] == STAR then
      Overruns(name, i, pat[1..]) || (i < |name| && i < SCAN_MAX && Overruns(name, i + 1, pat))
    else Steps(name, i, pat[0]) && Overruns(name, i + 1, pat[1..])
  }

  /** `None` where the original indexes out of bounds. */
  method MatchPatternInner(name: seq<Byte>, ni: nat, pat: seq<Byte>, pi: nat) returns (r: Option<bool>)
    requires NameLike(name) && pi <= |pat|
    ensures r == if Overruns(name, ni, pat[pi..]) then None else Some(Scans(name, ni, pat[pi..]))
    decreases |pat| - pi
  {
    var bytes := Padded(name);
    assert forall k :: 0 <= k < NAME_MAX ==> bytes[k] == ByteAt(name, k);
    var n: nat, p: nat := ni, pi;
    while p < |pat|
      invariant pi <= p <= |pat|
      invariant Scans(name, ni, pat[pi..]) <==> Scans(name, n, pat[p..])
      invariant Overruns(name, ni, pat[pi..]) <==> Overruns(name, n, pat[p..])
    {
      ghost var here := pat[p..];
      assert here[1..] == pat[p + 1..];
      if pat[p] == STAR {
        p := p + 1;
        while n < SCAN_MAX && bytes[n] != 0
          invariant Scans(name, ni, pat[pi..]) <==> Scans(name, n, here)
          invariant Overruns(name, ni, pat[pi..]) <==> Overruns(name, n, here)
        {
          NotBoth(name, n, here);
          NotBoth(name, n, here[1..]);
          var hit := MatchPatternInner(name, n, pat, p);
          if hit != Some(false) {
            return hit;
          }
          n := n + 1;
        }
        r := MatchPatternInner(name, n, pat, p);
        return;
      }
      if n >= NAME_MAX {
        return None;
      }
      if pat[p] == MARK {
        if bytes[n] == 0 || bytes[n] == SPACE {
          return Some(false);
        }
      } else if bytes[n] != pat[p] {
        return Some(false);
      }
      n := n + 1;
      p := p + 1;
    }
    return if n >= NAME_MAX then None else Some(bytes[n] == 0 || bytes[n] == SPACE);
  }

  /** `match_pattern`: an empty pattern accepts every name, and any other one exactly what its
      wildcards mean, except that trailing stars are lost on names of twelve characters, which no
      pattern with a zero accepts. */
  method MatchPattern(name: seq<Byte>, pat: seq<Byte>) returns (r: Option<bool>)
    requires NameLike(name)
    ensures r == if pat != [] && Overruns(name, 0, pat) then None else Some(Accepts(pat, name))
  {
    if |pat| == 0 {
      return Some(true);
    }
    assert pat[0..] == pat && name[0..] == name;
    r := MatchPatternInner(name, 0, pat, 0);
    if r.Some? {
      if |name| <= SCAN_MAX {
        ShortNamesExact(name, 0, pat);
      } else {
        ZeroIn(pat);
        NotBoth(name, 0, pat);
        if 0 !in pat {
          LongNames(name, 0, pat);
        }
      }
    }
  }

  ghost predicate Accepts(pat: seq<Byte>, name: seq<Byte>) {
    pat == [] || if |name| <= SCAN_MAX then Matches(pat, name) else 0 !in pat && Matches(Trimmed(pat), name)
  }

  // Running behind the thirteenth byte

  function Zeroes(pat: seq<Byte>): nat {
    if pat == [] then 0 else (if pat[0] == 0 then 1 else 0) + Zeroes(pat[1..])
  }

  /** Where a run over the whole pattern ends: behind the name, by one byte for each zero. */
  function Final(name: seq<Byte>, i: nat, pat: seq<Byte>): nat {
    (if i < |name| then |name| else i) + Zeroes(pat)
  }

  /** Too few zeros to leave the thirteen bytes: the condition a caller can check. */
  lemma {:induction false} NoOverrun(name: seq<Byte>, i: nat, pat: seq<Byte>)
    requires |name| < NAME_MAX && Final(name, i, pat) < NAME_MAX
    ensures !Overruns(name, i, pat)
    decreases |pat|, |name| - i
  {
    if pat != [] {
      if pat[0] == STAR {
        NoOverrun(name, i, pat[1..]);
        if i < |name| {
          NoOverrun(name, i + 1, pat);
        }
      } else if Steps(name, i, pat[0]) && (pat[0] == 0 || i < |name|) {
        NoOverrun(name, i + 1, pat[1..]);
      }
    }
  }

  /** With enough zeros, no run can end inside the thirteen bytes.  So an overrun and a match never
      compete, and the order in which the code tries positions does not show. */
  lemma {:induction false} NotBoth(name: seq<Byte>, i: nat, pat: seq<Byte>)
    requires NameLike(name)
    ensures Scans(name, i, pat) && Final(name, i, pat) >= NAME_MAX ==> Overruns(name, i, pat)
    ensures Overruns(name, i, pat) ==> Final(name, i, pat) >= NAME_MAX
    decreases |pat|, |name| - i
  {
    if Final(name, i, pat) < NAME_MAX {
      NoOverrun(name, i, pat);
    } else if i < NAME_MAX && pat != [] {
      if pat[0] == STAR {
        NotBoth(name, i, pat[1..]);
        if i < |name| {
          NotBoth(name, i + 1, pat);
        }
      } else {
        NotBoth(name, i + 1, pat[1..]);
      }
    }
  }

  /** The pattern up to its `m`-th zero. */
  function Cut(pat: seq<Byte>, m: nat): seq<Byte>
    requires m <= Zeroes(pat)
  {
    if m == 0 then [] else [pat[0]] + Cut(pat[1..], if pat[0] == 0 then m - 1 else m)
  }

  /** Exactly when the code leaves the thirteen bytes: the pattern has the zeros to do so, and its
      part up to the zero that crosses the boundary accepts the name. */
  lemma {:induction false} OverrunIff(name: seq<Byte>, i: nat, pat: seq<Byte>)
    requires NameLike(name) && i <= NAME_MAX
    ensures Overruns(name, i, pat) <==>
              Final(name, i, pat) >= NAME_MAX && Scans(name, i, Cut(pat, NAME_MAX - Final(name, i, [])))
    decreases |pat|, |name| - i
  {
    if Final(name, i, pat) < NAME_MAX {
      NoOverrun(name, i, pat);
    } else if i < NAME_MAX {
      var m := NAME_MAX - Final(name, i, []);
      var rest := Cut(pat[1..], if pat[0] == 0 then m - 1 else m);
      var cut := Cut(pat, m);
      assert cut == [pat[0]] + rest && cut[1..] == rest;
      if pat[0] == STAR {
        OverrunIff(name, i, pat[1..]);
        if i < |name| {
          OverrunIff(name, i + 1, pat);
        }
      } else if Steps(name, i, pat[0]) {
        OverrunIff(name, i + 1, pat[1..]);
      }
    }
  }

  /** The pattern `*BIN` with a zero behind it and a name of twelve characters. */
  lemma FullNameOverruns(name: seq<Byte>, pat: seq<Byte>)
    requires |name| == 12 && |pat| == 5 && pat[0] == STAR && pat[1..4] == name[9..] && pat[4] == 0
    requires forall i :: 1 <= i < 4 ==> pat[i] != STAR && pat[i] != MARK
    ensures Overruns(name, 0, pat)
  {
    var q := pat[1..];
    assert forall i :: 0 <= i < 3 ==> q[i] == pat[1..4][i] == name[9..][i];
    assert Overruns(name, 13, q[4..]);
    assert q[3..][1..] == q[4..] && q[2..][1..] == q[3..] && q[1..][1..] == q[2..];
    assert Overruns(name, 12, q[3..]);
    assert Overruns(name, 11, q[2..]);
    assert Overruns(name, 10, q[1..]);
    StarReaches(name, 0, 9, pat);
  }

  lemma {:induction false} StarReaches(name: seq<Byte>, i: nat, k: nat, pat: seq<Byte>)
    requires i <= k <= SCAN_MAX && k <= |name| && pat != [] && pat[0] == STAR && Overruns(name, k, pat[1..])
    ensures Overruns(name, i, pat)
    decreases k - i
  {
    if i < k {
      StarReaches(name, i + 1, k, pat);
    }
  }

  // The code against the meaning of the wildcards

  /** A star stands for nothing, or for one character and what a star stands for. */
  lemma StarStep(pat: seq<Byte>, s: seq<Byte>)
    requires pat != [] && pat[0] == STAR
    ensures Matches(pat, s) <==> Matches(pat[1..], s) || (s != [] && Matches(pat, s[1..]))
  {
    assert s[0..] == s;
    if Matches(pat, s) {
      var k :| 0 <= k <= |s| && Matches(pat[1..], s[k..]);
      if k > 0 {
        assert s[1..][k - 1..] == s[k..];
      }
    }
    if s != [] && Matches(pat, s[1..]) {
      var k :| 0 <= k <= |s[1..]| && Matches(pat[1..], s[1..][k..]);
      assert s[1..][k..] == s[k + 1..];
    }
  }

  function Tail(name: seq<Byte>, i: nat): seq<Byte> { if i <= |name| then name[i..] else [] }

  lemma TailStep(name: seq<Byte>, i: nat)
    ensures i < |name| ==> Tail(name, i) != [] && Tail(name, i)[0] == name[i] && Tail(name, i)[1..] == Tail(name, i + 1)
    ensures i >= |name| ==> Tail(name, i) == [] == Tail(name, i + 1)
  {
  }

  /** Names of up to eleven characters: the code is exact. */
  lemma {:induction false} ShortNamesExact(name: seq<Byte>, i: nat, pat: seq<Byte>)
    requires NameLike(name) && |name| <= SCAN_MAX
    ensures Scans(name, i, pat) <==> Matches(pat, Tail(name, i))
    decreases |pat|, |name| - i
  {
    hide Tail;
    TailStep(name, i);
    if pat != [] {
      if pat[0] == STAR {
        StarStep(pat, Tail(name, i));
        ShortNamesExact(name, i, pat[1..]);
        if i < |name| {
          ShortNamesExact(name, i + 1, pat);
        }
      } else {
        ShortNamesExact(name, i + 1, pat[1..]);
      }
    }
  }

  /** The pattern without its trailing stars. */
  function Trimmed(pat: seq<Byte>): (t: seq<Byte>)
    ensures t != [] ==> t[|t| - 1] != STAR
    ensures t <= pat
    ensures forall k :: |t| <= k < |pat| ==> pat[k] == STAR
  {
    if pat == [] || pat[|pat| - 1] != STAR then pat else Trimmed(pat[..|pat| - 1])
  }

  lemma {:induction false} TrimmedTail(pat: seq<Byte>)
    requires pat != []
    ensures Trimmed(pat) == if Trimmed(pat[1..]) == [] && pat[0] == STAR then [] else [pat[0]] + Trimmed(pat[1..])
  {
    if |pat| > 1 && pat[|pat| - 1] == STAR {
      assert pat[..|pat| - 1][1..] == pat[1..][..|pat| - 2];
      TrimmedTail(pat[..|pat| - 1]);
    }
  }

  /** A pattern that does not end in a star needs a character for its last part. */
  lemma {:induction false} NeedsMore(pat: seq<Byte>)
    requires pat != [] && pat[|pat| - 1] != STAR && 0 !in pat
    ensures !Matches(pat, [])
  {
    if pat[0] == STAR {
      NeedsMore(pat[1..]);
      StarStep(pat, []);
    }
  }

  /** Names of twelve characters, the longest there are: trailing stars of the pattern count for
      nothing, so that `*` alone misses them. */
  lemma {:induction false} LongNames(name: seq<Byte>, i: nat, pat: seq<Byte>)
    requires NameLike(name) && |name| == SCAN_MAX + 1 && 0 !in pat
    ensures Scans(name, i, pat) <==> Matches(Trimmed(pat), Tail(name, i))
    decreases |pat|, |name| - i
  {
    hide Tail, Trimmed;
    TailStep(name, i);
    if pat != [] {
      TrimmedTail(pat);
      if pat[0] == STAR {
        StarLong(name, i, pat);
      } else {
        LongNames(name, i + 1, pat[1..]);
      }
    }
  }

  lemma {:induction false} StarLong(name: seq<Byte>, i: nat, pat: seq<Byte>)
    requires NameLike(name) && |name| == SCAN_MAX + 1 && 0 !in pat && pat != [] && pat[0] == STAR
    ensures Scans(name, i, pat) <==> Matches(Trimmed(pat), Tail(name, i))
    decreases |pat|, |name| - i, 0
  {
    hide Tail, Trimmed;
    var rest := Trimmed(pat[1..]);
    TrimmedTail(pat);
    LongNames(name, i, pat[1..]);
    TailStep(name, i);
    TailStep(name, i + 1);
    if i < |name| {
      LongNames(name, i + 1, pat);
    }
    if rest != [] {
      var starred := [STAR] + rest;
      assert starred[1..] == rest;
      StarStep(starred, Tail(name, i));
      NeedsMore(rest);
      NeedsMore(starred);
    }
  }

  lemma {:induction false} ZeroIn(pat: seq<Byte>)
    ensures Zeroes(pat) == 0 <==> 0 !in pat
  {
    if pat != [] {
      assert pat == [pat[0]] + pat[1..];
      ZeroIn(pat[1..]);
    }
  }
}
