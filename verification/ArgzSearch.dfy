/**
  libc/argz/buf_findstr.c and libc/argz/argz_replace.c: the substring scan that
  moves a cursor over the flat buffer, and the two-pass replace-all built on it.
 */
module ArgzSearch {
  import opened Base
  import opened CStrings
  import opened CMemory

  /** `s[k]` of a C string, its terminator included. */
  function CharAt(s: string, k: nat): char
    requires k <= |s|
  {
    if k < |s| then s[k] else NUL
  }

  /**
    `_buf_findstr`: from a cursor with `len` bytes left, find the leftmost match
    and move just past it, or move to the end.  The empty string is found at the
    next terminator.
   */
  method FindStr(str: string, buf: string, pos: nat, len: nat)
    returns (found: bool, pos': nat, len': nat)
    requires WellFormed(buf) && Clean(str)
    requires pos + len == |buf|
    ensures pos' + len' == |buf| && (!found ==> len' == 0)
    ensures found ==> pos + |str| <= pos' && MatchAt(str, buf, pos' - |str|)
    ensures found && |str| > 0 ==> forall q :: pos <= q < pos' - |str| ==> !MatchAt(str, buf, q)
    ensures !found && |str| > 0 ==> forall q :: pos <= q ==> !MatchAt(str, buf, q)
    ensures |str| == 0 ==> (found <==> len > 0) && (found ==> pos' == StrEnd(buf, pos))
  {
    var i := 0;
    while i < len
      invariant 0 <= i <= len
      invariant |str| > 0 ==> forall q :: pos <= q < pos + i ==> !MatchAt(str, buf, q)
      invariant |str| == 0 ==> forall q :: pos <= q < pos + i ==> buf[q] != NUL
    {
      if CharAt(str, 0) == buf[pos + i] {
        var j := i;
        while j - i < |str| && str[j - i] == buf[pos + j]
          invariant i <= j <= i + |str| && pos + j <= |buf|
          invariant buf[pos + i..pos + j] == str[..j - i]
          invariant j - i < |str| ==> pos + j < |buf|
        {
          NoOverrun(str, buf, pos + j, j - i);
          PrefixGrows(str, buf, pos + i, j - i);
          j := j + 1;
        }
        if j - i == |str| {
          assert str[..j - i] == str;
          assert MatchAt(str, buf, pos + i);
          if |str| == 0 {
            EndUnique(buf, pos, pos + j);
          }
          return true, pos + j, len - j;
        }
        Mismatch(str, buf, pos + i, j - i);
      } else if |str| > 0 {
        Mismatch(str, buf, pos + i, 0);
      }
      i := i + 1;
    }
    return false, pos + len, 0;
  }

  /** A byte of a C string equal to a buffer byte is not the last buffer byte, which is a NUL. */
  lemma {:induction false} NoOverrun(str: string, buf: string, at: nat, k: nat)
    requires WellFormed(buf) && Clean(str) && k < |str| && at < |buf| && str[k] == buf[at]
    ensures at + 1 < |buf|
  {
  }

  lemma {:induction false} Mismatch(str: string, buf: string, p: nat, k: nat)
    requires k < |str| && p + k < |buf| && str[k] != buf[p + k]
    ensures !MatchAt(str, buf, p)
  {
    assert p + |str| <= |buf| ==> buf[p..p + |str|][k] == buf[p + k];
  }

  lemma {:induction false} PrefixGrows(str: string, buf: string, at: nat, k: nat)
    requires k < |str| && at + k < |buf|
    requires buf[at..at + k] == str[..k] && str[k] == buf[at + k]
    ensures buf[at..at + k + 1] == str[..k + 1]
  {
    assert buf[at..at + k + 1] == buf[at..at + k] + [buf[at + k]];
  }

  // ----- the specification: leftmost, non-overlapping replace-all on one string

  function ReplaceAll(s: string, str: string, with: string): string
    requires |str| > 0
    decreases |s|
  {
    if |s| == 0 then []
    else if MatchAt(str, s, 0) then with + ReplaceAll(s[|str|..], str, with)
    else [s[0]] + ReplaceAll(s[1..], str, with)
  }

  function Occurrences(s: string, str: string): nat
    requires |str| > 0
    decreases |s|
  {
    if |s| == 0 then 0
    else if MatchAt(str, s, 0) then 1 + Occurrences(s[|str|..], str)
    else Occurrences(s[1..], str)
  }

  function ReplaceEach(l: seq<string>, str: string, with: string): seq<string>
    requires |str| > 0
  {
    seq(|l|, k requires 0 <= k < |l| => ReplaceAll(l[k], str, with))
  }

  function TotalOccurrences(l: seq<string>, str: string): nat
    requires |str| > 0
  {
    if |l| == 0 then 0 else Occurrences(l[0], str) + TotalOccurrences(l[1..], str)
  }

  // ----- what one scan step does to the specification

  lemma {:induction false} MatchShift(str: string, s: string, d: nat, p: nat)
    requires d <= |s|
    ensures MatchAt(str, s[d..], p) == MatchAt(str, s, d + p)
  {
    if d + p + |str| <= |s| {
      assert s[d..][p..p + |str|] == s[d + p..d + p + |str|];
    }
  }

  lemma {:induction false} StepNoMatch(s: string, str: string, with: string)
    requires |str| > 0 && forall q: nat :: !MatchAt(str, s, q)
    ensures ReplaceAll(s, str, with) == s && Occurrences(s, str) == 0
    decreases |s|
  {
    if |s| > 0 {
      forall q: nat ensures !MatchAt(str, s[1..], q) {
        MatchShift(str, s, 1, q);
      }
      StepNoMatch(s[1..], str, with);
      assert s == [s[0]] + s[1..];
    }
  }

  /** The leftmost match starts at `i`. */
  ghost predicate FirstMatch(s: string, str: string, i: nat) {
    MatchAt(str, s, i) && forall q :: 0 <= q < i ==> !MatchAt(str, s, q)
  }

  lemma {:induction false} FirstMatchTail(s: string, str: string, i: nat)
    requires i > 0 && FirstMatch(s, str, i)
    ensures !MatchAt(str, s, 0) && FirstMatch(s[1..], str, i - 1)
    ensures s[1..][i - 1 + |str|..] == s[i + |str|..] && [s[0]] + s[1..][..i - 1] == s[..i]
  {
    forall q | 0 <= q <= i - 1 ensures MatchAt(str, s[1..], q) == MatchAt(str, s, 1 + q) {
      MatchShift(str, s, 1, q);
    }
  }

  lemma {:induction false} StepPast(s: string, str: string, with: string)
    requires |str| > 0 && |s| > 0 && !MatchAt(str, s, 0)
    ensures ReplaceAll(s, str, with) == [s[0]] + ReplaceAll(s[1..], str, with)
    ensures Occurrences(s, str) == Occurrences(s[1..], str)
  {
  }

  lemma {:induction false} StepHere(s: string, str: string, with: string)
    requires |str| > 0 && MatchAt(str, s, 0)
    ensures ReplaceAll(s, str, with) == s[..0] + with + ReplaceAll(s[|str|..], str, with)
    ensures Occurrences(s, str) == 1 + Occurrences(s[|str|..], str)
  {
    assert s[..0] + with == with;
  }

  lemma {:induction false} StepFirstMatch(s: string, str: string, with: string, i: nat)
    requires |str| > 0 && FirstMatch(s, str, i)
    ensures ReplaceAll(s, str, with) == s[..i] + with + ReplaceAll(s[i + |str|..], str, with)
    ensures Occurrences(s, str) == 1 + Occurrences(s[i + |str|..], str)
    decreases i
  {
    if i == 0 {
      StepHere(s, str, with);
    } else {
      FirstMatchTail(s, str, i);
      StepPast(s, str, with);
      StepFirstMatch(s[1..], str, with, i - 1);
      Assoc3([s[0]], s[1..][..i - 1], with, ReplaceAll(s[i + |str|..], str, with));
    }
  }

  // ----- replace-all without recursion on the string: the same pieces around another string

  /** The pieces with `str` between each two of them. */
  function Weave(pieces: seq<string>, str: string): string {
    if |pieces| == 0 then [] else if |pieces| == 1 then pieces[0]
    else pieces[0] + str + Weave(pieces[1..], str)
  }

  /** `str` does not start inside `piece` when it follows it: the match behind `piece` is the leftmost one. */
  ghost predicate Leftmost(piece: string, str: string) {
    forall q: nat :: q < |piece| ==> !MatchAt(str, piece + str, q)
  }

  ghost predicate NoMatch(piece: string, str: string) {
    forall q: nat :: !MatchAt(str, piece, q)
  }

  lemma {:induction false} WeaveCons(x: string, pieces: seq<string>, str: string)
    requires |pieces| > 0
    ensures Weave([x] + pieces, str) == x + str + Weave(pieces, str)
  {
    assert ([x] + pieces)[1..] == pieces;
  }

  lemma {:induction false} MatchInPrefix(s: string, str: string, i: nat, q: nat)
    requires MatchAt(str, s, i) && q < i
    ensures MatchAt(str, s[..i] + str, q) ==> MatchAt(str, s, q)
  {
    assert s[..i] + str == s[..i + |str|];
    if MatchAt(str, s[..i] + str, q) {
      forall k | 0 <= k < |str| ensures s[q + k] == str[k] {
        assert (s[..i] + str)[q + k] == str[k];
      }
    }
  }

  lemma {:induction false} FirstIsLeftmost(s: string, str: string, i: nat)
    requires FirstMatch(s, str, i)
    ensures Leftmost(s[..i], str) && s[..i] + str + s[i + |str|..] == s
  {
    forall q: nat | q < i ensures !MatchAt(str, s[..i] + str, q) {
      MatchInPrefix(s, str, i, q);
    }
  }

  /**
    Every string is cut by the leftmost non-overlapping occurrences of `str`, and
    replacing puts `with` between the same pieces.
   */
  lemma {:induction false} ReplaceKeepsPieces(s: string, str: string, with: string) returns (pieces: seq<string>)
    requires |str| > 0
    ensures |pieces| == Occurrences(s, str) + 1
    ensures Weave(pieces, str) == s && Weave(pieces, with) == ReplaceAll(s, str, with)
    ensures forall k :: 0 <= k < |pieces| - 1 ==> Leftmost(pieces[k], str)
    ensures NoMatch(pieces[|pieces| - 1], str)
    decreases |s|
  {
    if q: nat :| MatchAt(str, s, q) {
      var i := Least(s, str, q);
      var rest := ReplaceKeepsPieces(s[i + |str|..], str, with);
      StepFirstMatch(s, str, with, i);
      FirstIsLeftmost(s, str, i);
      WeaveCons(s[..i], rest, str);
      WeaveCons(s[..i], rest, with);
      pieces := [s[..i]] + rest;
    } else {
      StepNoMatch(s, str, with);
      pieces := [s];
    }
  }

  lemma {:induction false} Least(s: string, str: string, q: nat) returns (i: nat)
    requires MatchAt(str, s, q)
    ensures FirstMatch(s, str, i)
    decreases q
  {
    if p: nat :| p < q && MatchAt(str, s, p) {
      i := Least(s, str, p);
    } else {
      i := q;
    }
  }

  // ----- from the flat buffer to the entries: no match straddles a terminator

  lemma {:induction false} MatchInEntry(str: string, e: string, rest: string, p: nat)
    requires |str| > 0 && Clean(str) && p <= |e|
    ensures MatchAt(str, e + [NUL] + rest, p) == MatchAt(str, e, p)
  {
    var buf := e + [NUL] + rest;
    assert buf[|e|] == NUL;
    if MatchAt(str, e, p) {
      assert buf[p..p + |str|] == e[p..p + |str|];
    }
    if MatchAt(str, buf, p) {
      if p + |str| > |e| {
        Mismatch(str, buf, p, |e| - p);
      }
      assert buf[p..p + |str|] == e[p..p + |str|];
    }
  }

  lemma {:induction false} ReplaceEntry(e: string, rest: string, str: string, with: string)
    requires |str| > 0 && Clean(str)
    ensures ReplaceAll(e + [NUL] + rest, str, with)
         == ReplaceAll(e, str, with) + [NUL] + ReplaceAll(rest, str, with)
    ensures Occurrences(e + [NUL] + rest, str) == Occurrences(e, str) + Occurrences(rest, str)
    decreases |e|
  {
    var buf := e + [NUL] + rest;
    MatchInEntry(str, e, rest, 0);
    if |e| == 0 {
      assert buf[1..] == rest && buf[0] == NUL;
    } else if MatchAt(str, e, 0) {
      var d := |str|;
      assert buf[d..] == e[d..] + [NUL] + rest;
      ReplaceEntry(e[d..], rest, str, with);
      Assoc3(with, ReplaceAll(e[d..], str, with), [NUL], ReplaceAll(rest, str, with));
    } else {
      assert buf[1..] == e[1..] + [NUL] + rest && buf[0] == e[0];
      ReplaceEntry(e[1..], rest, str, with);
      Assoc3([e[0]], ReplaceAll(e[1..], str, with), [NUL], ReplaceAll(rest, str, with));
    }
  }

  lemma {:induction false} Regroup(w: string, x: string, y: string, z: string)
    ensures w + (x + y + z) == (w + x + y) + z
  {
  }

  lemma {:induction false} Assoc3(w: string, x: string, y: string, z: string)
    ensures w + (x + y + z) == (w + x) + y + z
  {
  }

  /** Replace-all on the bytes is replace-all on every entry. */
  lemma {:induction false} ReplaceEntries(l: seq<string>, str: string, with: string)
    requires |str| > 0 && Clean(str)
    ensures ReplaceAll(Encode(l), str, with) == Encode(ReplaceEach(l, str, with))
    ensures Occurrences(Encode(l), str) == TotalOccurrences(l, str)
  {
    if |l| > 0 {
      ReplaceEntries(l[1..], str, with);
      ReplaceEntry(l[0], Encode(l[1..]), str, with);
      var r := ReplaceEach(l, str, with);
      assert r[1..] == ReplaceEach(l[1..], str, with);
      assert r[0] == ReplaceAll(l[0], str, with);
    }
  }

  lemma {:induction false} ReplaceClean(s: string, str: string, with: string)
    requires |str| > 0 && Clean(s) && Clean(with)
    ensures Clean(ReplaceAll(s, str, with))
    decreases |s|
  {
    if |s| > 0 {
      if MatchAt(str, s, 0) {
        ReplaceClean(s[|str|..], str, with);
      } else {
        ReplaceClean(s[1..], str, with);
      }
    }
  }

  /** The decoded view of `ReplaceEntries`, for any well-formed buffer. */
  lemma {:induction false} ReplaceDecoded(buf: string, str: string, with: string)
    requires WellFormed(buf) && |str| > 0 && Clean(str) && Clean(with)
    ensures var r := ReplaceAll(buf, str, with);
            WellFormed(r) && Decode(r) == ReplaceEach(Decode(buf), str, with)
    ensures Occurrences(buf, str) == TotalOccurrences(Decode(buf), str)
  {
    var l := Decode(buf);
    EncodeDecode(buf);
    ReplaceEntries(l, str, with);
    forall k | 0 <= k < |l| ensures Clean(ReplaceAll(l[k], str, with)) {
      ReplaceClean(l[k], str, with);
    }
    DecodeEncode(ReplaceEach(l, str, with));
  }

  // ----- the two passes

  lemma {:induction false} WrapNext(n: nat)
    ensures (n % UINT32_RANGE + 1) % UINT32_RANGE == (n + 1) % UINT32_RANGE
  {
  }

  function OccurrencesFrom(buf: string, str: string, p: nat): nat
    requires |str| > 0 && p <= |buf|
  {
    Occurrences(buf[p..], str)
  }

  function LengthFrom(buf: string, str: string, with: string, p: nat): nat
    requires |str| > 0 && p <= |buf|
  {
    |ReplaceAll(buf[p..], str, with)|
  }

  /** One `_buf_findstr` call of the first pass, in numbers. */
  method CountNext(buf: string, str: string, ghost with: string, pos: nat, len: nat)
    returns (found: bool, pos': nat, len': nat)
    requires WellFormed(buf) && |str| > 0 && Clean(str) && pos + len == |buf| && len > 0
    ensures pos' + len' == |buf| && len' < len
    ensures OccurrencesFrom(buf, str, pos) == (if found then 1 else 0) + OccurrencesFrom(buf, str, pos')
    ensures LengthFrom(buf, str, with, pos) - len ==
            LengthFrom(buf, str, with, pos') - len' + (if found then |with| - |str| else 0)
  {
    found, pos', len' := FindStr(str, buf, pos, len);
    AdvanceScan(buf, str, with, pos, pos', found);
  }

  /** First pass: the number of matches (wrapping like `unsigned`) and the new length. */
  method CountPass(buf: string, str: string, with: string) returns (count: nat, newLen: nat)
    requires WellFormed(buf) && |str| > 0 && Clean(str)
    ensures count == Occurrences(buf, str) % UINT32_RANGE
    ensures newLen == |ReplaceAll(buf, str, with)|
  {
    var lenDiff: int := |with| - |str|;
    var pos: nat, len: nat := 0, |buf|;
    count := 0;
    var total: int := |buf|;
    ghost var seen: nat := 0;
    assert buf[0..] == buf;
    while len != 0
      invariant pos + len == |buf|
      invariant seen + OccurrencesFrom(buf, str, pos) == OccurrencesFrom(buf, str, 0)
      invariant count == seen % UINT32_RANGE
      invariant total + LengthFrom(buf, str, with, pos) == LengthFrom(buf, str, with, 0) + len
      decreases len
    {
      var found;
      found, pos, len := CountNext(buf, str, with, pos, len);
      if found {
        WrapNext(seen);
        count := (count + 1) % UINT32_RANGE;
        total := total + lenDiff;
        seen := seen + 1;
      }
    }
    newLen := total;
  }

  /** Second pass: fill a block of the counted length with the replaced bytes. */
  method CopyPass(buf: string, str: string, with: string, newLen: nat) returns (block: string)
    requires WellFormed(buf) && |str| > 0 && Clean(str)
    requires newLen == |ReplaceAll(buf, str, with)|
    ensures block == ReplaceAll(buf, str, with)
  {
    block := Malloc(newLen);
    var pos: nat, len: nat := 0, |buf|;
    var last: nat, iter: nat := 0, 0;
    assert buf[0..] == buf;
    while len != 0
      invariant pos + len == |buf| && last <= |buf| && iter <= |block| == newLen
      invariant last == pos || (len == 0 && ReplaceAll(buf[last..], str, with) == buf[last..])
      invariant block[..iter] + ReplaceAll(buf[last..], str, with) == ReplaceAll(buf, str, with)
      decreases len
    {
      ghost var done := block[..iter];
      var found;
      found, pos, len := FindStr(str, buf, pos, len);
      AdvanceScan(buf, str, with, last, pos, found);
      if found {
        ghost var tail := ReplaceAll(buf[pos..], str, with);
        var piece := buf[last..pos - |str|];
        Regroup(done, piece, with, tail);
        OverlayAppends(block, iter, piece);
        block := Overlay(block, iter, piece);
        iter := iter + |piece|;
        OverlayAppends(block, iter, with);
        block := Overlay(block, iter, with);
        iter := iter + |with|;
        last := pos;
      }
    }
    OverlayAppends(block, iter, buf[last..]);
    block := Overlay(block, iter, buf[last..]);
    assert block[..newLen] == block;
  }

  /** One scan step, in terms of the suffixes before and after it. */
  lemma {:induction false} AdvanceScan(buf: string, str: string, with: string, p0: nat, p1: nat, found: bool)
    requires |str| > 0 && p0 <= |buf| && p1 <= |buf|
    requires found ==> p0 + |str| <= p1 && MatchAt(str, buf, p1 - |str|)
    requires found ==> forall q :: p0 <= q < p1 - |str| ==> !MatchAt(str, buf, q)
    requires !found ==> p1 == |buf| && forall q :: p0 <= q ==> !MatchAt(str, buf, q)
    ensures Occurrences(buf[p0..], str) == (if found then 1 else 0) + Occurrences(buf[p1..], str)
    ensures ReplaceAll(buf[p0..], str, with) ==
            if found then buf[p0..p1 - |str|] + with + ReplaceAll(buf[p1..], str, with) else buf[p0..]
  {
    var s := buf[p0..];
    forall q: nat ensures MatchAt(str, s, q) == MatchAt(str, buf, p0 + q) {
      MatchShift(str, buf, p0, q);
    }
    if found {
      var i := p1 - |str| - p0;
      StepFirstMatch(s, str, with, i);
      assert s[i + |str|..] == buf[p1..];
      assert s[..i] == buf[p0..p1 - |str|];
    } else {
      StepNoMatch(s, str, with);
    }
  }
}
