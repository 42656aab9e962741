/**
  The envz operations of libc/argz, in their own form: scans of the flat buffer
  with `_buf_findstr`, a backward walk to the start of an entry, and edits of an
  argz vector.  Each is proved against the list functions of `EnvzSpec`.
 */
module Envz {
  import opened Base
  import opened CStrings
  import opened ArgzSearch
  import opened EnvzSpec
  import opened ArgzViews

  // ----- the flat scan and the entries

  lemma {:induction false} AfterEntryByte(buf: string, e: string, rest: string, end: nat)
    requires buf == e + [NUL] + rest && Clean(e) && end <= |e|
    ensures (buf[end] == '=' || buf[end] == NUL) == Flagged(e, end)
  {
  }

  /** Inside an entry the flat scan is the scan of the entry; after it, the scan goes on behind the terminator. */
  lemma {:induction false} HitInEntry(buf: string, e: string, rest: string, name: string, p: nat)
    requires |name| > 0 && Clean(name) && Clean(e) && p <= |e| && buf == e + [NUL] + rest && WellFormed(buf)
    ensures HitBuf(buf, name, p) ==
            if Hit(e, name, p).Some? then Hit(e, name, p) else HitBuf(buf, name, |e| + 1)
    decreases |e| - p
  {
    if p + |name| > |e| {
      NoHitAtTail(buf, name, p, |e|);
    } else {
      MatchInEntry(name, e, rest, p);
      AfterEntryByte(buf, e, rest, p + |name|);
      if !MatchAt(name, e, p) {
        HitInEntry(buf, e, rest, name, p + 1);
      } else if !Flagged(e, p + |name|) {
        HitInEntry(buf, e, rest, name, p + |name|);
      }
    }
  }

  /** No match starts where a terminator at `z` is too close. */
  lemma {:induction false} NoHitAtTail(buf: string, name: string, p: nat, z: nat)
    requires |name| > 0 && Clean(name) && p <= z < |buf| && buf[z] == NUL && p + |name| > z && WellFormed(buf)
    ensures HitBuf(buf, name, p) == HitBuf(buf, name, z + 1)
    decreases z - p
  {
    Mismatch(name, buf, p, z - p);
    if p < z {
      NoHitAtTail(buf, name, p + 1, z);
    }
  }

  lemma {:induction false} MatchInTail(name: string, a: string, t: string, p: nat)
    ensures MatchAt(name, a + t, |a| + p) == MatchAt(name, t, p)
  {
    assert forall j :: 0 <= j < |t| ==> (a + t)[|a| + j] == t[j];
  }

  /** The scan of a tail does not depend on what is in front of it. */
  lemma {:induction false} HitInTail(a: string, t: string, name: string, p: nat)
    requires |name| > 0 && WellFormed(t) && WellFormed(a + t)
    ensures HitBuf(a + t, name, |a| + p) == Shifted(HitBuf(t, name, p), |a|)
    decreases |t| - p
  {
    if p + |name| < |t| {
      MatchInTail(name, a, t, p);
      if MatchAt(name, t, p) {
        HitInTail(a, t, name, p + |name|);
      } else {
        HitInTail(a, t, name, p + 1);
      }
    }
  }

  /** The position the flat scan stops at, from the entry it stops in. */
  function HitPosition(l: seq<string>, name: string): Option<nat>
  {
    var k := FirstHit(l, name);
    if k.None? then None else Some(Offset(l, k.value) + Hit(l[k.value], name, 0).value)
  }

  lemma {:induction false} HitPositionCons(e: string, l: seq<string>, name: string)
    requires |name| > 0
    ensures HitPosition([e] + l, name) ==
            if IsHit(e, name) then Hit(e, name, 0) else Shifted(HitPosition(l, name), |e| + 1)
  {
    FirstHitCons(e, l, name);
    var k := FirstHit(l, name);
    if !IsHit(e, name) && k.Some? {
      OffsetCons(e, l, k.value + 1);
    }
  }

  lemma {:induction false} FlatScan(l: seq<string>, name: string)
    requires Clean(name) && AllClean(l)
    ensures WellFormed(Encode(l)) && HitBuf(Encode(l), name, 0) == HitPosition(l, name)
  {
    EncodeWellFormed(l);
    if |l| == 0 {
      assert HitPosition(l, name) == None;
    } else if |name| == 0 {
      EmptyNameFindsFirst(l);
      FirstEnd(l);
    } else {
      var e, rest := l[0], l[1..];
      var tail := Encode(rest);
      FlatScan(rest, name);
      HitInEntry(e + [NUL] + tail, e, tail, name, 0);
      HitInTail(e + [NUL], tail, name, 0);
      HitPositionCons(e, rest, name);
      assert l == [e] + rest;
    }
  }

  lemma {:induction false} FirstEnd(l: seq<string>)
    requires AllClean(l) && |l| > 0 && WellFormed(Encode(l))
    ensures StrEnd(Encode(l), 0) == |l[0]|
  {
    var buf := Encode(l);
    assert MatchAt(l[0], buf, 0) && buf[0 + |l[0]|] == NUL;
    EndAt(buf, 0, l[0]);
  }

  lemma {:induction false} FlatScanOf(envz: string, l: seq<string>, name: string)
    requires WellFormed(envz) && l == Decode(envz) && Clean(name)
    ensures HitBuf(envz, name, 0) == HitPosition(l, name)
  {
    EncodeDecode(envz);
    FlatScan(l, name);
  }

  lemma {:induction false} FirstHitCons(e: string, l: seq<string>, name: string)
    requires |name| > 0
    ensures FirstHit([e] + l, name) ==
            if IsHit(e, name) then Some(0) else Shifted(FirstHit(l, name), 1)
  {
    assert Hits([e] + l, name) == [IsHit(e, name)] + Hits(l, name);
    assert ([IsHit(e, name)] + Hits(l, name))[1..] == Hits(l, name);
  }

  // ----- envz_entry and envz_get

  lemma {:induction false} SkipTo(buf: string, name: string, p: nat, q: nat)
    requires |name| > 0 && p <= q <= |buf| && WellFormed(buf)
    requires forall i :: p <= i < q ==> !MatchAt(name, buf, i)
    ensures HitBuf(buf, name, p) == HitBuf(buf, name, q)
    decreases q - p
  {
    if p < q {
      SkipTo(buf, name, p + 1, q);
    }
  }

  lemma {:induction false} MatchEndsInside(buf: string, name: string, p: nat)
    requires WellFormed(buf) && |name| > 0 && Clean(name) && MatchAt(name, buf, p)
    ensures p + |name| < |buf|
  {
    assert buf[p + (|name| - 1)] == name[|name| - 1];
  }

  /** Where the scan of `envz_entry` ends, and the entry that is in. */
  lemma {:induction false} EntryGoal(envz: string, l: seq<string>, name: string) returns (goal: Option<nat>)
    requires WellFormed(envz) && Clean(name) && l == Decode(envz) && InBounds(l, name)
    ensures HitBuf(envz, name, 0) == goal
    ensures goal.None? <==> FirstHit(l, name).None?
    ensures goal.Some? ==>
              && 0 < goal.value <= |envz| && envz[goal.value - 1] != NUL
              && EntryOf(envz, goal.value - 1) == FirstHit(l, name).value
  {
    FlatScanOf(envz, l, name);
    goal := HitBuf(envz, name, 0);
    if goal.Some? {
      var k := FirstHit(l, name).value;
      HitBelongs(envz, l, name, k, goal.value - Offset(l, k));
    }
  }

  /** One `_buf_findstr` call of the loops below: the scan is over, or goes on from the new cursor. */
  method NextMatch(envz: string, name: string, pos: nat, len: nat) returns (found: bool, pos': nat, len': nat)
    requires WellFormed(envz) && Clean(name) && pos + len == |envz| && len > 0
    ensures pos' + len' == |envz| && (len' < len || (found && envz[pos'] == NUL))
    ensures !found ==> len' == 0 && HitBuf(envz, name, pos) == None
    ensures found ==> pos <= pos' < |envz|
    ensures found ==> HitBuf(envz, name, pos) ==
                      if envz[pos'] == '=' || envz[pos'] == NUL then Some(pos') else HitBuf(envz, name, pos')
  {
    found, pos', len' := FindStr(name, envz, pos, len);
    if |name| == 0 {
      return;
    }
    if found {
      MatchEndsInside(envz, name, pos' - |name|);
      SkipTo(envz, name, pos, pos' - |name|);
    } else {
      SkipTo(envz, name, pos, |envz|);
    }
  }

  /** `envz_entry`: the start of the first entry the scan stops in. */
  method Entry(envz: string, name: string) returns (r: Ptr)
    requires WellFormed(envz) && Clean(name) && InBounds(Decode(envz), name)
    ensures var l := Decode(envz);
            var k := FirstHit(l, name);
            r == if k.None? then Null else At(Offset(l, k.value))
  {
    ghost var goal := EntryGoal(envz, Decode(envz), name);
    var pos: nat, len: nat := 0, |envz|;
    while len != 0
      invariant pos + len == |envz|
      invariant goal == if len == 0 then None else HitBuf(envz, name, pos)
      decreases len
    {
      var found;
      found, pos, len := NextMatch(envz, name, pos, len);
      if found {
        if envz[pos] == '=' || envz[pos] == NUL {
          var b := WalkBack(envz, pos - 1);
          return At(b);
        }
      }
    }
    return Null;
  }

  /** The backward walk of `envz_entry` from a byte of an entry to its start. */
  method WalkBack(envz: string, from: nat) returns (b: nat)
    requires WellFormed(envz) && from < |envz| && envz[from] != NUL
    ensures b == Offset(Decode(envz), EntryOf(envz, from))
  {
    b := from;
    while envz[b] != NUL && b != 0
      invariant b <= from
      invariant forall i :: b < i <= from ==> envz[i] != NUL
      decreases b
    {
      b := b - 1;
    }
    if envz[b] == NUL {
      b := b + 1;
    }
    EntryStartUnique(envz, b, from);
  }

  lemma {:induction false} HitBelongs(envz: string, l: seq<string>, name: string, k: nat, h: nat)
    requires WellFormed(envz) && l == Decode(envz) && k < |l| && 0 < h <= |l[k]|
    ensures var pos := Offset(l, k) + h;
            pos <= |envz| && envz[pos - 1] != NUL && EntryOf(envz, pos - 1) == k
  {
    ValueAt(envz, l, k, h - 1);
    EntryOfIs(envz, l, k, Offset(l, k) + h - 1);
  }

  lemma {:induction false} EntryOfIs(envz: string, l: seq<string>, k: nat, p: nat)
    requires WellFormed(envz) && l == Decode(envz) && k < |l| && p < |envz|
    requires Offset(l, k) <= p <= Offset(l, k) + |l[k]|
    ensures EntryOf(envz, p) == k
  {
    EncodeDecode(envz);
    IndexAt(l, k, p);
  }

  lemma {:induction false} IndexAt(l: seq<string>, k: nat, p: nat)
    requires k < |l| && Offset(l, k) <= p <= Offset(l, k) + |l[k]| && p < |Encode(l)|
    ensures EntryIndex(l, p) == k
  {
    if k > 0 {
      IndexAt(l[1..], k - 1, p - |l[0]| - 1);
    }
  }

  /** `envz_get`: the value of the entry the scan stops in; null when it has none. */
  method Get(envz: string, name: string) returns (r: Ptr)
    requires WellFormed(envz) && Clean(name)
    ensures r.Null? <==> Lookup(Decode(envz), name).None?
    ensures r.At? ==> r.off < |envz| && Some(envz[r.off..StrEnd(envz, r.off)]) == Lookup(Decode(envz), name)
  {
    ghost var goal := ValueGoal(envz, Decode(envz), name);
    var pos: nat, len: nat := 0, |envz|;
    while len != 0
      invariant pos + len == |envz|
      invariant goal == if len == 0 then None else HitBuf(envz, name, pos)
      decreases len
    {
      var found;
      found, pos, len := NextMatch(envz, name, pos, len);
      if found {
        if envz[pos] == '=' {
          return At(pos + 1);
        } else if envz[pos] == NUL {
          return Null;
        }
      }
    }
    return Null;
  }

  /** Where the scan of `envz_get` ends, and the value that starts after it. */
  lemma {:induction false} ValueGoal(envz: string, l: seq<string>, name: string) returns (goal: Option<nat>)
    requires WellFormed(envz) && Clean(name) && l == Decode(envz)
    ensures HitBuf(envz, name, 0) == goal
    ensures goal.None? ==> Lookup(l, name) == None
    ensures goal.Some? && goal.value < |envz| && envz[goal.value] == NUL ==> Lookup(l, name) == None
    ensures goal.Some? && goal.value < |envz| && envz[goal.value] == '=' ==>
              && goal.value + 1 < |envz|
              && Lookup(l, name) == Some(envz[goal.value + 1..StrEnd(envz, goal.value + 1)])
  {
    FlatScanOf(envz, l, name);
    goal := HitBuf(envz, name, 0);
    if goal.Some? {
      ValueGoalAt(envz, l, name, FirstHit(l, name).value, goal.value);
    }
  }

  lemma {:induction false} ValueGoalAt(envz: string, l: seq<string>, name: string, k: nat, pos: nat)
    requires WellFormed(envz) && l == Decode(envz)
    requires FirstHit(l, name) == Some(k) && pos == Offset(l, k) + Hit(l[k], name, 0).value
    ensures pos < |envz|
    ensures envz[pos] == NUL ==> Lookup(l, name) == None
    ensures envz[pos] != NUL ==> pos + 1 < |envz| && Lookup(l, name) == Some(envz[pos + 1..StrEnd(envz, pos + 1)])
  {
    ValueAt(envz, l, k, Hit(l[k], name, 0).value);
  }

  lemma {:induction false} ValueAt(envz: string, l: seq<string>, k: nat, h: nat)
    requires WellFormed(envz) && l == Decode(envz) && k < |l| && h <= |l[k]|
    ensures var pos := Offset(l, k) + h;
            && pos < |envz|
            && (h == |l[k]| <==> envz[pos] == NUL)
            && (h < |l[k]| ==> pos + 1 < |envz| && l[k][h + 1..] == envz[pos + 1..StrEnd(envz, pos + 1)])
  {
    StringAtOffset(envz, l, k);
    TailAt(envz, l[k], Offset(l, k), h);
  }

  lemma {:induction false} TailAt(envz: string, e: string, o: nat, h: nat)
    requires WellFormed(envz) && o + |e| < |envz| && StrEnd(envz, o) == o + |e|
    requires MatchAt(e, envz, o) && h <= |e|
    ensures h == |e| <==> envz[o + h] == NUL
    ensures h < |e| ==> e[h + 1..] == envz[o + h + 1..StrEnd(envz, o + h + 1)]
  {
    if h < |e| {
      EndInside(envz, o, o + h + 1);
    }
  }
}
