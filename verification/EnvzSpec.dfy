/**
  What the envz functions compute on the decoded entries.  The C code looks for
  a name anywhere in the flat buffer, so "the entry of that name" is really the
  first entry the scan stops in (`FirstHit`); the lemmas say when that is the
  entry one means.
 */
module EnvzSpec {
  import opened Base
  import opened CStrings
  import Argz
  import ArgzSep

  // ----- names and values

  function NameOf(e: string): string {
    e[..ArgzSep.SepIndex(e, '=', 0)]
  }

  function ValueOf(e: string): Option<string> {
    var q := ArgzSep.SepIndex(e, '=', 0);
    if q == |e| then None else Some(e[q + 1..])
  }

  function MakeEntry(name: string, value: Option<string>): string {
    if value.None? then name else name + ['='] + value.value
  }

  lemma {:induction false} NameAndValueMakeEntry(e: string)
    ensures MakeEntry(NameOf(e), ValueOf(e)) == e
  {
    var q := ArgzSep.SepIndex(e, '=', 0);
    if q < |e| {
      SplitAround(e, q);
    } else {
      assert e[..q] == e;
    }
  }

  lemma {:induction false} NameOfMade(name: string, value: Option<string>)
    requires '=' !in name
    ensures NameOf(MakeEntry(name, value)) == name && ValueOf(MakeEntry(name, value)) == value
  {
    if value.None? {
      assert ArgzSep.SepIndex(name, '=', 0) == |name|;
      assert name[..|name|] == name;
    } else {
      ArgzSep.FirstSep(name, value.value, '=');
      var e := name + ['='] + value.value;
      assert e[..|name|] == name && e[|name| + 1..] == value.value;
    }
  }

  // ----- the scan, on one entry and on the flat buffer

  /** The byte after a match is '=' or the end: the scan takes it for the end of a name. */
  predicate Flagged(e: string, end: nat) {
    end == |e| || (end < |e| && e[end] == '=')
  }

  function Shifted(h: Option<nat>, d: nat): Option<nat> {
    if h.None? then None else Some(d + h.value)
  }

  /**
    Where the scan of one entry from `p` on stops, if it does: the end of the
    first flagged non-overlapping match.  The empty name is found at the end.
   */
  function Hit(e: string, name: string, p: nat): (h: Option<nat>)
    ensures h.Some? ==> p + |name| <= h.value <= |e|
    decreases |e| - p
  {
    if p + |name| > |e| then None
    else if |name| == 0 then Some(|e|)
    else if MatchAt(name, e, p) then
      if Flagged(e, p + |name|) then Some(p + |name|) else Hit(e, name, p + |name|)
    else Hit(e, name, p + 1)
  }

  /** The scan stops only after a match that is followed by '=' or the end. */
  lemma {:induction false} HitIsFlagged(e: string, name: string, p: nat)
    requires Hit(e, name, p).Some?
    ensures var h := Hit(e, name, p).value; MatchAt(name, e, h - |name|) && Flagged(e, h)
    decreases |e| - p
  {
    if |name| == 0 {
      return;
    }
    if !MatchAt(name, e, p) {
      HitIsFlagged(e, name, p + 1);
    } else if !Flagged(e, p + |name|) {
      HitIsFlagged(e, name, p + |name|);
    }
  }

  /** The same scan over the flat buffer. */
  function HitBuf(buf: string, name: string, p: nat): Option<nat>
    requires WellFormed(buf)
    decreases |buf| - p
  {
    if p + |name| >= |buf| then None
    else if |name| == 0 then Some(StrEnd(buf, p))
    else if MatchAt(name, buf, p) then
      if buf[p + |name|] == '=' || buf[p + |name|] == NUL then Some(p + |name|) else HitBuf(buf, name, p + |name|)
    else HitBuf(buf, name, p + 1)
  }

  predicate IsHit(e: string, name: string)
  {
    Hit(e, name, 0).Some?
  }

  /** Index of the first mark that is set. */
  function FirstTrue(m: seq<bool>): (r: Option<nat>)
    ensures r.Some? ==> r.value < |m| && m[r.value]
    ensures forall i :: 0 <= i < (if r.Some? then r.value else |m|) ==> !m[i]
  {
    if |m| == 0 then None
    else if m[0] then Some(0)
    else
      var r := FirstTrue(m[1..]);
      assert forall i :: 1 <= i < |m| ==> m[i] == m[1..][i - 1];
      if r.None? then None else Some(r.value + 1)
  }

  /** Marks the entries the scan stops in. */
  function Hits(l: seq<string>, name: string): (m: seq<bool>)
    ensures |m| == |l|
  {
    seq(|l|, k requires 0 <= k < |l| => IsHit(l[k], name))
  }

  /** Marks the entries of that name. */
  function Named(l: seq<string>, name: string): (m: seq<bool>)
    ensures |m| == |l|
  {
    seq(|l|, k requires 0 <= k < |l| => NameOf(l[k]) == name)
  }

  /** The first entry the scan stops in. */
  function FirstHit(l: seq<string>, name: string): (r: Option<nat>)
    ensures r.Some? ==> r.value < |l| && IsHit(l[r.value], name)
  {
    FirstTrue(Hits(l, name))
  }

  /** The first entry of that name, which is what one would expect to get. */
  function FirstNamed(l: seq<string>, name: string): (r: Option<nat>)
    ensures r.Some? ==> r.value < |l|
  {
    FirstTrue(Named(l, name))
  }

  // ----- the operations on lists

  function Lookup(l: seq<string>, name: string): Option<string>
  {
    var k := FirstHit(l, name);
    if k.None? then None else
      ValueAfterHit(l[k.value], name)
  }

  function Removed(l: seq<string>, name: string): seq<string>
  {
    var k := FirstHit(l, name);
    if k.None? then l else Argz.Without(l, k.value)
  }

  function Added(l: seq<string>, name: string, value: Option<string>): seq<string>
  {
    Removed(l, name) + [MakeEntry(name, value)]
  }

  function MergedOne(l: seq<string>, e: string, override: bool): seq<string>
  {
    if override then Added(l, NameOf(e), ValueOf(e))
    else if FirstHit(l, NameOf(e)).None? then l + [e] else l
  }

  predicate NamesNonempty(l: seq<string>) {
    forall k :: 0 <= k < |l| ==> |NameOf(l[k])| > 0
  }

  function Merged(l: seq<string>, l2: seq<string>, override: bool): seq<string>
    decreases |l2|
  {
    if |l2| == 0 then l else Merged(MergedOne(l, l2[0], override), l2[1..], override)
  }

  // ----- an entry of the name is always hit; when the hit is the named entry

  lemma {:induction false} NamedIsHit(e: string, name: string)
    requires |name| > 0 && NameOf(e) == name
    ensures Hit(e, name, 0) == Some(|name|)
  {
    assert MatchAt(name, e, 0);
    assert Flagged(e, |name|);
  }

  lemma {:induction false} HitAtStartIsNamed(e: string, name: string)
    requires |name| > 0 && '=' !in name && MatchAt(name, e, 0) && Flagged(e, |name|)
    ensures NameOf(e) == name
  {
    assert forall i :: 0 <= i < |name| ==> e[i] == name[i];
  }

  /** No entry is hit under this name unless it has the name. */
  predicate Honest(l: seq<string>, name: string)
  {
    forall k :: 0 <= k < |l| && IsHit(l[k], name) ==> NameOf(l[k]) == name
  }

  /** If the name is followed by '=' or the end only where an entry starts, no entry is an impostor. */
  lemma {:induction false} FlaggedOnlyAtStartsIsHonest(l: seq<string>, name: string)
    requires |name| > 0 && '=' !in name
    requires forall k, p: nat :: 0 <= k < |l| && p > 0 && MatchAt(name, l[k], p) ==> !Flagged(l[k], p + |name|)
    ensures Honest(l, name)
  {
    forall k | 0 <= k < |l| && IsHit(l[k], name) ensures NameOf(l[k]) == name {
      HitIsFlagged(l[k], name, 0);
      var p := Hit(l[k], name, 0).value - |name|;
      assert p == 0;
      HitAtStartIsNamed(l[k], name);
    }
  }

  /** Every impostor (an entry that is hit but has another name) comes after an entry of the name. */
  ghost predicate ImpostorsFollow(hit: seq<bool>, named: seq<bool>)
    requires |hit| == |named|
  {
    forall k :: 0 <= k < |hit| && hit[k] && !named[k] ==> exists j :: 0 <= j < k && named[j]
  }

  /**
    The scan agrees with linear search by name exactly when no impostor comes
    before the first entry of the name; and it never misses a named entry.
   */
  lemma {:induction false} ScanIsLinearSearch(l: seq<string>, name: string)
    ensures FirstHit(l, name) == FirstNamed(l, name) <==> ImpostorsFollow(Hits(l, name), Named(l, name))
    ensures FirstNamed(l, name).Some? ==>
              FirstHit(l, name).Some? && FirstHit(l, name).value <= FirstNamed(l, name).value
  {
    forall i | 0 <= i < |l| && Named(l, name)[i] ensures Hits(l, name)[i] {
      if |name| > 0 {
        NamedIsHit(l[i], name);
      }
    }
    CompareMarks(Hits(l, name), Named(l, name));
  }

  lemma {:induction false} CompareMarks(hit: seq<bool>, named: seq<bool>)
    requires |hit| == |named| && forall i :: 0 <= i < |hit| && named[i] ==> hit[i]
    ensures FirstTrue(hit) == FirstTrue(named) <==> ImpostorsFollow(hit, named)
    ensures FirstTrue(named).Some? ==> FirstTrue(hit).Some? && FirstTrue(hit).value <= FirstTrue(named).value
  {
    var h, f := FirstTrue(hit), FirstTrue(named);
    if h == f {
      forall k | 0 <= k < |hit| && hit[k] && !named[k] ensures exists j :: 0 <= j < k && named[j] {
        assert h.value <= k && named[h.value];
      }
    } else {
      assert h.Some? && hit[h.value] && !named[h.value];
    }
  }

  lemma {:induction false} HonestScan(l: seq<string>, name: string)
    requires |name| > 0 && Honest(l, name)
    ensures FirstHit(l, name) == FirstNamed(l, name)
  {
    forall k | 0 <= k < |l| ensures IsHit(l[k], name) == (NameOf(l[k]) == name) {
      if NameOf(l[k]) == name {
        NamedIsHit(l[k], name);
      }
    }
    assert Hits(l, name) == Named(l, name);
  }

  /** Looking up "A" stops in the entry of "BA". */
  lemma {:induction false} ImpostorFound()
    ensures FirstHit(["BA=1"], "A") == Some(0) && FirstNamed(["BA=1"], "A") == None
    ensures Merged(["BA=1"], ["A=2"], true) == ["A=2"]
  {
    var e := "BA=1";
    assert !MatchAt("A", e, 0) by {
      assert e[0 + 0] != "A"[0];
    }
    assert Hit(e, "A", 1) == Some(2);
    assert e == "BA" + ['='] + "1";
    ArgzSep.FirstSep("BA", "1", '=');
    assert NameOf(e) == "BA";
    var a := "A=2";
    assert a == "A" + ['='] + "2";
    ArgzSep.FirstSep("A", "2", '=');
    assert NameOf(a) == "A" && ValueOf(a) == Some("2");
    assert Argz.Without([e], 0) == [];
    assert Added([e], "A", Some("2")) == [a];
    assert [a][1..] == [];
  }

  // ----- empty names

  /**
    What the code demands of a lookup that ends in the start of an entry: with
    an empty name the walk back from the end of an empty first entry would leave
    the buffer.
   */
  predicate InBounds(l: seq<string>, name: string) {
    |name| > 0 || |l| == 0 || |l[0]| > 0
  }

  /** The same at every turn of a merge. */
  predicate MergeInBounds(l: seq<string>, l2: seq<string>, override: bool)
    decreases |l2|
  {
    |l2| == 0 || (InBounds(l, NameOf(l2[0])) && MergeInBounds(MergedOne(l, l2[0], override), l2[1..], override))
  }

  lemma {:induction false} NamedMergeInBounds(l: seq<string>, l2: seq<string>, override: bool)
    requires NamesNonempty(l2)
    ensures MergeInBounds(l, l2, override)
    decreases |l2|
  {
    if |l2| > 0 {
      NamedMergeInBounds(MergedOne(l, l2[0], override), l2[1..], override);
    }
  }

  /** No entry is the empty string. */
  predicate EntriesNonempty(l: seq<string>) {
    forall k :: 0 <= k < |l| ==> |l[k]| > 0
  }

  lemma {:induction false} NonemptyMergeInBounds(l: seq<string>, l2: seq<string>, override: bool)
    requires EntriesNonempty(l) && EntriesNonempty(l2)
    ensures MergeInBounds(l, l2, override)
    decreases |l2|
  {
    if |l2| > 0 {
      var l' := MergedOne(l, l2[0], override);
      NameAndValueMakeEntry(l2[0]);
      forall k | 0 <= k < |l'| ensures |l'[k]| > 0 {
        assert l'[k] in l || l'[k] == l2[0];
      }
      NonemptyMergeInBounds(l', l2[1..], override);
    }
  }

  /** The empty name stands for the first entry, whatever its name, and has no value. */
  lemma {:induction false} EmptyNameFindsFirst(l: seq<string>)
    ensures FirstHit(l, "") == (if |l| == 0 then None else Some(0)) && Lookup(l, "") == None
  {
    if |l| > 0 {
      assert Hits(l, "")[0];
    }
  }

  // ----- adding and then getting

  lemma {:induction false} FirstHitAppend(l: seq<string>, e: string, name: string)
    ensures FirstHit(l + [e], name) ==
            if FirstHit(l, name).Some? then FirstHit(l, name)
            else if IsHit(e, name) then Some(|l|) else None
  {
    FirstTrueAppend(Hits(l, name), IsHit(e, name));
    assert Hits(l + [e], name) == Hits(l, name) + [IsHit(e, name)];
  }

  lemma {:induction false} FirstTrueAppend(m: seq<bool>, b: bool)
    ensures FirstTrue(m + [b]) == if FirstTrue(m).Some? then FirstTrue(m) else if b then Some(|m|) else None
  {
    if |m| > 0 {
      FirstTrueAppend(m[1..], b);
      assert (m + [b])[1..] == m[1..] + [b];
    }
  }

  lemma {:induction false} MadeEntryHit(name: string, value: Option<string>)
    requires |name| > 0
    ensures Hit(MakeEntry(name, value), name, 0) == Some(|name|)
    ensures value.Some? ==> MakeEntry(name, value)[|name| + 1..] == value.value
  {
    var e := MakeEntry(name, value);
    assert e[..|name|] == name;
    assert MatchAt(name, e, 0);
  }

  /** What a scan that stops in entry `e` returns. */
  function ValueAfterHit(e: string, name: string): Option<string>
    requires IsHit(e, name)
  {
    var h := Hit(e, name, 0).value;
    if h == |e| then None else Some(e[h + 1..])
  }

  lemma {:induction false} LookupAppend(l: seq<string>, e: string, name: string)
    requires IsHit(e, name)
    ensures Lookup(l + [e], name) == if FirstHit(l, name).None? then ValueAfterHit(e, name) else Lookup(l, name)
  {
    FirstHitAppend(l, e, name);
  }

  /**
    What a get after an add returns: the added value, unless the scan stops in
    another entry that the add did not remove.
   */
  lemma {:induction false} GetAfterAdd(l: seq<string>, name: string, value: Option<string>)
    requires |name| > 0
    ensures Lookup(Added(l, name, value), name) ==
            if FirstHit(Removed(l, name), name).None? then value else Lookup(Removed(l, name), name)
  {
    MadeEntryHit(name, value);
    LookupAppend(Removed(l, name), MakeEntry(name, value), name);
  }

  /** With at most one entry the scan stops in, the added value comes back. */
  lemma {:induction false} GetAfterAddUnique(l: seq<string>, name: string, value: Option<string>)
    requires |name| > 0
    requires forall i, j :: 0 <= i < j < |l| ==> !(Hits(l, name)[i] && Hits(l, name)[j])
    ensures Lookup(Added(l, name, value), name) == value
  {
    GetAfterAdd(l, name, value);
    if FirstHit(l, name).Some? {
      SoleMark(Hits(l, name));
      HitsWithout(l, FirstHit(l, name).value, name);
    }
  }

  /** If no entry is taken for another name, at most one entry of the name is enough. */
  lemma {:induction false} GetAfterAddHonest(l: seq<string>, name: string, value: Option<string>)
    requires |name| > 0 && Honest(l, name)
    requires forall i, j :: 0 <= i < j < |l| ==> !(NameOf(l[i]) == name && NameOf(l[j]) == name)
    ensures Lookup(Added(l, name, value), name) == value
  {
    forall i | 0 <= i < |l| && Hits(l, name)[i] ensures NameOf(l[i]) == name {
      assert IsHit(l[i], name);
    }
    GetAfterAddUnique(l, name, value);
  }

  lemma {:induction false} HitsWithout(l: seq<string>, k: nat, name: string)
    requires k < |l|
    ensures Hits(Argz.Without(l, k), name) == Hits(l, name)[..k] + Hits(l, name)[k + 1..]
  {
  }

  lemma {:induction false} SoleMark(m: seq<bool>)
    requires FirstTrue(m).Some?
    requires forall i, j :: 0 <= i < j < |m| ==> !(m[i] && m[j])
    ensures var k := FirstTrue(m).value; FirstTrue(m[..k] + m[k + 1..]) == None
  {
    var k := FirstTrue(m).value;
    var r := m[..k] + m[k + 1..];
    forall i | 0 <= i < |r| ensures !r[i] {
      assert r[i] == if i < k then m[i] else m[i + 1];
    }
  }
}
