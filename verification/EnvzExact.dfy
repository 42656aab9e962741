/**
  Exactly when the envz edits are map operations: one add or remove, a merge
  that keeps what is there, and a merge that overrides it.  The conditions speak
  of impostors: entries the scan stops in although they have another name.
 */
module EnvzExact {
  import opened Base
  import opened CStrings
  import opened EnvzSpec
  import opened EnvzUnion

  // ----- exactly when one edit is a map operation

  /** The scan finds no entry that has another name. */
  predicate NoImpostorFirst(l: seq<string>, n: string)
    requires |n| > 0
  {
    var k := FirstHit(l, n); k.Some? ==> NameOf(l[k.value]) == n
  }

  lemma {:induction false} MissedIsAbsent(l: seq<string>, n: string)
    requires |n| > 0 && FirstHit(l, n).None?
    ensures n !in FirstWins(Pairs(l))
  {
    ScanIsLinearSearch(l, n);
    MarksAgree(l, n);
    MarkedIsKey(Pairs(l), n);
  }

  /** The entry the scan stops in is gone from the map, under whatever name it had. */
  lemma {:induction false} FoundIsDropped(l: seq<string>, n: string)
    requires |n| > 0 && Unique(Pairs(l)) && FirstHit(l, n).Some?
    ensures var m := FirstWins(Pairs(l));
            var x := NameOf(l[FirstHit(l, n).value]);
            x in m && FirstWins(Pairs(Removed(l, n))) == m - {x}
  {
    var k := FirstHit(l, n).value;
    PairsWithout(l, k);
    FirstWinsWithout(Pairs(l), k);
    KeyIsName(Pairs(l), NameOf(l[k]));
    assert Pairs(l)[k].name == NameOf(l[k]);
  }

  /** `envz_remove` takes the name out of the map if and only if the scan finds no impostor first. */
  lemma {:induction false} RemoveIsMapRemoval(l: seq<string>, n: string)
    requires |n| > 0 && Unique(Pairs(l))
    ensures FirstWins(Pairs(Removed(l, n))) == FirstWins(Pairs(l)) - {n} <==> NoImpostorFirst(l, n)
  {
    if FirstHit(l, n).None? {
      MissedIsAbsent(l, n);
    } else {
      FoundIsDropped(l, n);
    }
  }

  /** `envz_add` sets the name in the map if and only if the scan finds no impostor first. */
  lemma {:induction false} AddIsMapUpdate(l: seq<string>, n: string, v: Value)
    requires |n| > 0 && '=' !in n && Unique(Pairs(l))
    ensures FirstWins(Pairs(Added(l, n, v))) == FirstWins(Pairs(l))[n := v] <==> NoImpostorFirst(l, n)
  {
    var rest, m := Removed(l, n), FirstWins(Pairs(l));
    NameOfMade(n, v);
    PairsAppend(rest, MakeEntry(n, v));
    if FirstHit(l, n).None? {
      MissedIsAbsent(l, n);
      FirstWinsSnoc(Pairs(rest), Pair(n, v));
    } else {
      FoundIsDropped(l, n);
      var x := NameOf(l[FirstHit(l, n).value]);
      if x == n {
        FirstWinsSnoc(Pairs(rest), Pair(n, v));
      } else {
        StaysAbsent(Pairs(rest), Pair(n, v), x);
      }
    }
  }

  lemma {:induction false} StaysAbsent(ps: seq<Pair>, p: Pair, x: string)
    requires x !in FirstWins(ps) && x != p.name
    ensures x !in FirstWins(ps + [p])
  {
    KeyIsName(ps, x);
    KeyIsName(ps + [p], x);
  }

  /** If the name of `e` is found at all, some entry has it. */
  predicate KeepsOne(l: seq<string>, e: string)
    requires |NameOf(e)| > 0
  {
    FirstHit(l, NameOf(e)).Some? ==> FirstNamed(l, NameOf(e)).Some?
  }

  /** Without override, one entry is merged as in a left-biased union unless an impostor hides that its name is new. */
  lemma {:induction false} KeepIsUnion(l: seq<string>, e: string)
    requires |NameOf(e)| > 0
    ensures FirstWins(Pairs(MergedOne(l, e, false))) == map[NameOf(e) := ValueOf(e)] + FirstWins(Pairs(l)) <==>
            KeepsOne(l, e)
  {
    var n := NameOf(e);
    MarksAgree(l, n);
    MarkedIsKey(Pairs(l), n);
    PairsAppend(l, e);
    if FirstHit(l, n).None? {
      MissedIsAbsent(l, n);
      FirstWinsSnoc(Pairs(l), PairOf(e));
    }
  }

  // ----- exactly when a whole merge is a union, without override

  /** Entry `j` of the second store brings a name that neither store had before it. */
  predicate Fresh(l: seq<string>, l2: seq<string>, j: nat)
    requires j < |l2|
  {
    && (forall k :: 0 <= k < |l| ==> NameOf(l[k]) != NameOf(l2[j]))
    && (forall i :: 0 <= i < j ==> NameOf(l2[i]) != NameOf(l2[j]))
  }

  /** No entry of the first store, and no fresh entry before it, is hit under the name of entry `j`. */
  predicate Unhidden(l: seq<string>, l2: seq<string>, j: nat)
    requires j < |l2| && |NameOf(l2[j])| > 0
  {
    && (forall k :: 0 <= k < |l| ==> !IsHit(l[k], NameOf(l2[j])))
    && (forall i :: 0 <= i < j && Fresh(l, l2, i) ==> !IsHit(l2[i], NameOf(l2[j])))
  }

  /** So it is for every fresh entry. */
  predicate NothingHides(l: seq<string>, l2: seq<string>)
    requires NamesNonempty(l2)
  {
    forall j :: 0 <= j < |l2| && Fresh(l, l2, j) ==> Unhidden(l, l2, j)
  }

  /** `KeepsOne` at every turn of the merge. */
  predicate KeepsAll(l: seq<string>, l2: seq<string>)
    requires NamesNonempty(l2)
    decreases |l2|
  {
    |l2| == 0 || (KeepsOne(l, l2[0]) && KeepsAll(MergedOne(l, l2[0], false), l2[1..]))
  }

  lemma {:induction false} FirstNamedAppend(l: seq<string>, e: string, n: string)
    ensures FirstNamed(l + [e], n).Some? <==> FirstNamed(l, n).Some? || NameOf(e) == n
  {
    FirstTrueAppend(Named(l, n), NameOf(e) == n);
    assert Named(l + [e], n) == Named(l, n) + [NameOf(e) == n];
  }

  /** A name that an impostor hides stays hidden: the list only grows. */
  lemma {:induction false} HiddenStays(l: seq<string>, l2: seq<string>, n: string)
    requires NamesNonempty(l2) && |n| > 0 && FirstHit(l, n).Some? && FirstNamed(l, n).None?
    ensures FirstNamed(Merged(l, l2, false), n).None?
    decreases |l2|
  {
    if |l2| > 0 {
      FirstHitAppend(l, l2[0], n);
      FirstNamedAppend(l, l2[0], n);
      HiddenStays(MergedOne(l, l2[0], false), l2[1..], n);
    }
  }

  lemma {:induction false} NamedIsKey(l: seq<string>, n: string)
    ensures FirstNamed(l, n).Some? <==> n in FirstWins(Pairs(l))
  {
    MarksAgree(l, n);
    MarkedIsKey(Pairs(l), n);
  }

  lemma {:induction false} PairsCons(l: seq<string>)
    requires |l| > 0
    ensures FirstWins(Pairs(l)) == FirstWins(Pairs(l[1..]))[NameOf(l[0]) := ValueOf(l[0])]
    ensures LastWins(Pairs(l)) == map[NameOf(l[0]) := ValueOf(l[0])] + LastWins(Pairs(l[1..]))
  {
    assert Pairs(l)[1..] == Pairs(l[1..]);
  }

  lemma {:induction false} KeptTurnByTurn(l: seq<string>, l2: seq<string>)
    requires NamesNonempty(l2)
    ensures FirstWins(Pairs(Merged(l, l2, false))) == FirstWins(Pairs(l2)) + FirstWins(Pairs(l)) <==> KeepsAll(l, l2)
    decreases |l2|
  {
    if |l2| == 0 {
      assert Pairs(l2) == [];
    } else {
      var e, rest := l2[0], l2[1..];
      var n := NameOf(e);
      PairsCons(l2);
      KeepIsUnion(l, e);
      if KeepsOne(l, e) {
        KeptTurnByTurn(MergedOne(l, e, false), rest);
        SetThenUnion(FirstWins(Pairs(rest)), n, ValueOf(e), FirstWins(Pairs(l)));
      } else {
        HiddenStays(l, rest, n);
        NamedIsKey(Merged(l, rest, false), n);
        assert n in FirstWins(Pairs(l2));
      }
    }
  }

  lemma {:induction false} HitSomewhere(l: seq<string>, n: string)
    requires |n| > 0
    ensures FirstHit(l, n).None? <==> forall k :: 0 <= k < |l| ==> !IsHit(l[k], n)
    ensures FirstNamed(l, n).None? <==> forall k :: 0 <= k < |l| ==> NameOf(l[k]) != n
  {
    forall k | 0 <= k < |l|
      ensures Hits(l, n)[k] == IsHit(l[k], n) && Named(l, n)[k] == (NameOf(l[k]) == n)
    {
    }
  }

  /** Freshness in the rest of a merge is freshness in the whole. */
  lemma {:induction false} FreshInRest(l: seq<string>, l2: seq<string>, j: nat)
    requires |l2| > 0 && j < |l2| - 1 && |NameOf(l2[0])| > 0 && KeepsOne(l, l2[0])
    ensures Fresh(MergedOne(l, l2[0], false), l2[1..], j) <==> Fresh(l, l2, j + 1)
  {
    var e, rest, l' := l2[0], l2[1..], MergedOne(l, l2[0], false);
    HitSomewhere(l, NameOf(e));
    assert forall i :: 0 <= i < |rest| ==> rest[i] == l2[i + 1];
    if Fresh(l, l2, j + 1) {
      assert NameOf(e) != NameOf(l2[j + 1]);
    }
    if Fresh(l', rest, j) {
      forall i | 0 <= i < j + 1 ensures NameOf(l2[i]) != NameOf(l2[j + 1]) {
        assert i > 0 ==> l2[i] == rest[i - 1];
        assert i == 0 && l' != l ==> l'[|l|] == e;
      }
      forall k | 0 <= k < |l| ensures NameOf(l[k]) != NameOf(l2[j + 1]) {
        assert l'[k] == l[k];
      }
    }
  }

  lemma {:induction false} UnhiddenInRest(l: seq<string>, l2: seq<string>, j: nat)
    requires NamesNonempty(l2) && |l2| > 0 && j < |l2| - 1 && KeepsOne(l, l2[0])
    ensures |NameOf(l2[1..][j])| > 0
    ensures Unhidden(MergedOne(l, l2[0], false), l2[1..], j) <==> Unhidden(l, l2, j + 1)
  {
    var e, rest, l', n := l2[0], l2[1..], MergedOne(l, l2[0], false), NameOf(l2[j + 1]);
    assert forall i :: 0 <= i < |rest| ==> rest[i] == l2[i + 1];
    HitSomewhere(l, NameOf(e));
    assert l' == if Fresh(l, l2, 0) then l + [e] else l;
    forall i | 0 <= i < j ensures Fresh(l', rest, i) <==> Fresh(l, l2, i + 1) {
      FreshInRest(l, l2, i);
    }
    if Unhidden(l', rest, j) {
      forall i | 0 <= i < j + 1 && Fresh(l, l2, i) ensures !IsHit(l2[i], n) {
        assert i == 0 ==> l'[|l|] == e;
        assert i > 0 ==> rest[i - 1] == l2[i] && Fresh(l', rest, i - 1);
      }
      forall k | 0 <= k < |l| ensures !IsHit(l[k], n) {
        assert l'[k] == l[k];
      }
    }
  }

  lemma {:induction false} HiddenInRest(l: seq<string>, l2: seq<string>)
    requires NamesNonempty(l2) && |l2| > 0 && KeepsOne(l, l2[0])
    ensures NamesNonempty(l2[1..])
    ensures NothingHides(MergedOne(l, l2[0], false), l2[1..]) <==> NothingHides(l, l2)
  {
    var rest, l' := l2[1..], MergedOne(l, l2[0], false);
    HitSomewhere(l, NameOf(l2[0]));
    assert Fresh(l, l2, 0) ==> Unhidden(l, l2, 0);
    forall j | 0 <= j < |rest|
      ensures |NameOf(rest[j])| > 0
      ensures Fresh(l', rest, j) <==> Fresh(l, l2, j + 1)
      ensures Unhidden(l', rest, j) <==> Unhidden(l, l2, j + 1)
    {
      FreshInRest(l, l2, j);
      UnhiddenInRest(l, l2, j);
    }
    if NothingHides(l', rest) {
      forall j | 0 <= j < |l2| && Fresh(l, l2, j) ensures Unhidden(l, l2, j) {
        assert j > 0 ==> Fresh(l', rest, j - 1) && Unhidden(l', rest, j - 1);
      }
    }
  }

  lemma {:induction false} KeepsAllExactly(l: seq<string>, l2: seq<string>)
    requires NamesNonempty(l2)
    ensures KeepsAll(l, l2) <==> NothingHides(l, l2)
    decreases |l2|
  {
    if |l2| > 0 {
      if KeepsOne(l, l2[0]) {
        HiddenInRest(l, l2);
        KeepsAllExactly(MergedOne(l, l2[0], false), l2[1..]);
      } else {
        HitSomewhere(l, NameOf(l2[0]));
        assert Fresh(l, l2, 0) && !Unhidden(l, l2, 0);
      }
    }
  }

  /**
    Without override, `envz_merge` is a left-biased union exactly when no fresh
    name of the second store is hidden by an entry the merged store would hold.
   */
  lemma {:induction false} KeepMergeIsUnion(l: seq<string>, l2: seq<string>)
    requires NamesNonempty(l2)
    ensures FirstWins(Pairs(Merged(l, l2, false))) == FirstWins(Pairs(l2)) + FirstWins(Pairs(l)) <==>
            NothingHides(l, l2)
  {
    KeptTurnByTurn(l, l2);
    KeepsAllExactly(l, l2);
  }

  // ----- with override

  predicate Names(l: seq<string>, n: string) {
    exists k :: 0 <= k < |l| && NameOf(l[k]) == n
  }

  /** The name of the entry that adding `n` throws out. */
  function Displaced(l: seq<string>, n: string): string
    requires |n| > 0 && FirstHit(l, n).Some?
  {
    NameOf(l[FirstHit(l, n).value])
  }

  /** No turn of the merge throws out an impostor while the name itself stays behind and is doubled. */
  predicate Undoubled(l: seq<string>, l2: seq<string>)
    requires NamesNonempty(l2)
    decreases |l2|
  {
    |l2| == 0 ||
    (var n := NameOf(l2[0]);
     (NoImpostorFirst(l, n) || FirstNamed(l, n).None?) && Undoubled(MergedOne(l, l2[0], true), l2[1..]))
  }

  /** Every impostor thrown out comes back: its name occurs later in the second store. */
  predicate AllReturn(l: seq<string>, l2: seq<string>)
    requires NamesNonempty(l2)
    decreases |l2|
  {
    |l2| == 0 ||
    (var n := NameOf(l2[0]);
     (NoImpostorFirst(l, n) || Names(l2[1..], Displaced(l, n))) && AllReturn(MergedOne(l, l2[0], true), l2[1..]))
  }

  /** Adding a name that is not doubled: unique names stay unique, and the map loses what is thrown out. */
  lemma {:induction false} AddUndoubled(l: seq<string>, e: string)
    requires |NameOf(e)| > 0 && Unique(Pairs(l))
    requires NoImpostorFirst(l, NameOf(e)) || FirstNamed(l, NameOf(e)).None?
    ensures Unique(Pairs(MergedOne(l, e, true)))
    ensures var n, m := NameOf(e), FirstWins(Pairs(l));
            FirstWins(Pairs(MergedOne(l, e, true))) ==
            (if FirstHit(l, n).Some? then m - {Displaced(l, n)} else m)[n := ValueOf(e)]
  {
    var n := NameOf(e);
    NameAndValueMakeEntry(e);
    NamedIsKey(l, n);
    PairsAppend(Removed(l, n), e);
    if FirstHit(l, n).Some? {
      FoundIsDropped(l, n);
      PairsWithout(l, FirstHit(l, n).value);
      UniqueWithout(Pairs(l), FirstHit(l, n).value);
    } else {
      MissedIsAbsent(l, n);
    }
    FirstWinsSnoc(Pairs(Removed(l, n)), PairOf(e));
    UniqueSnoc(Pairs(Removed(l, n)), PairOf(e));
  }

  lemma {:induction false} RemovedNames(l: seq<string>, n: string, x: string)
    requires |n| > 0 && !Names(l, x)
    ensures !Names(Removed(l, n), x)
  {
    var r := Removed(l, n);
    forall k | 0 <= k < |r| ensures NameOf(r[k]) != x {
      assert r[k] in l;
    }
  }

  /** A name that is in neither store does not appear. */
  lemma {:induction false} GoneStays(l: seq<string>, l2: seq<string>, x: string)
    requires NamesNonempty(l2) && !Names(l, x) && !Names(l2, x)
    ensures !Names(Merged(l, l2, true), x)
    decreases |l2|
  {
    if |l2| > 0 {
      var e := l2[0];
      NameAndValueMakeEntry(e);
      RemovedNames(l, NameOf(e), x);
      assert !Names(l2[1..], x) by {
        assert forall k :: 0 <= k < |l2| - 1 ==> l2[1..][k] == l2[k + 1];
      }
      GoneStays(MergedOne(l, e, true), l2[1..], x);
    }
  }

  lemma {:induction false} NamesIsKey(l: seq<string>, n: string)
    ensures Names(l, n) <==> n in FirstWins(Pairs(l))
    ensures Names(l, n) <==> n in LastWins(Pairs(l))
  {
    KeyIsName(Pairs(l), n);
    SameKeys(Pairs(l));
    if Names(l, n) {
      var k :| 0 <= k < |l| && NameOf(l[k]) == n;
      assert Pairs(l)[k].name == n;
    }
  }

  lemma {:induction false} SameKeys(ps: seq<Pair>)
    ensures FirstWins(ps).Keys == LastWins(ps).Keys
  {
    if |ps| > 0 {
      SameKeys(ps[1..]);
    }
  }

  /** A binding that is set again later may be dropped first. */
  lemma {:induction false} DropThenSet(m: map<string, Value>, x: string, n: string, v: Value, later: map<string, Value>)
    requires x == n || x in later
    ensures (m - {x})[n := v] + later == m + (map[n := v] + later)
  {
  }

  /**
    With override, where no name is doubled, `envz_merge` is a right-biased
    union exactly when every impostor it throws out comes back later.
   */
  lemma {:induction false} OverrideMergeIsUnion(l: seq<string>, l2: seq<string>)
    requires NamesNonempty(l2) && Unique(Pairs(l)) && Undoubled(l, l2)
    ensures FirstWins(Pairs(Merged(l, l2, true))) == FirstWins(Pairs(l)) + LastWins(Pairs(l2)) <==> AllReturn(l, l2)
    decreases |l2|
  {
    if |l2| == 0 {
      assert Pairs(l2) == [];
    } else {
      var e, rest := l2[0], l2[1..];
      var n, m, l' := NameOf(e), FirstWins(Pairs(l)), MergedOne(l, e, true);
      PairsCons(l2);
      AddUndoubled(l, e);
      OverrideMergeIsUnion(l', rest);
      if FirstHit(l, n).None? {
        SetThenUnion(m, n, ValueOf(e), LastWins(Pairs(rest)));
      } else {
        var x := Displaced(l, n);
        NamesIsKey(rest, x);
        if x == n || Names(rest, x) {
          DropThenSet(m, x, n, ValueOf(e), LastWins(Pairs(rest)));
        } else {
          FoundIsDropped(l, n);
          NamesIsKey(l, x);
          NamesIsKey(l', x);
          LostForGood(l, l2, x);
        }
      }
    }
  }

  /** Every turn of the merge sets its own name and nothing else. */
  ghost predicate TurnsUpdate(l: seq<string>, l2: seq<string>)
    requires NamesNonempty(l2)
    decreases |l2|
  {
    |l2| == 0 ||
    (var l' := MergedOne(l, l2[0], true);
     FirstWins(Pairs(l')) == FirstWins(Pairs(l))[NameOf(l2[0]) := ValueOf(l2[0])] && TurnsUpdate(l', l2[1..]))
  }

  /** No turn of the merge finds an impostor first. */
  predicate NeverImpostor(l: seq<string>, l2: seq<string>)
    requires NamesNonempty(l2)
    decreases |l2|
  {
    |l2| == 0 || (NoImpostorFirst(l, NameOf(l2[0])) && NeverImpostor(MergedOne(l, l2[0], true), l2[1..]))
  }

  /** With override, whether or not names are doubled, the one is exactly the other. */
  lemma {:induction false} EveryTurnUpdates(l: seq<string>, l2: seq<string>)
    requires NamesNonempty(l2) && Unique(Pairs(l))
    ensures TurnsUpdate(l, l2) <==> NeverImpostor(l, l2)
    decreases |l2|
  {
    if |l2| > 0 {
      NameHasNoEquals(l2[0]);
      AddIsMapUpdate(l, NameOf(l2[0]), ValueOf(l2[0]));
      if NoImpostorFirst(l, NameOf(l2[0])) {
        AddUndoubled(l, l2[0]);
        EveryTurnUpdates(MergedOne(l, l2[0], true), l2[1..]);
      }
    }
  }

  lemma {:induction false} NameHasNoEquals(e: string)
    ensures '=' !in NameOf(e)
  {
  }

  lemma {:induction false} LostForGood(l: seq<string>, l2: seq<string>, x: string)
    requires NamesNonempty(l2) && |l2| > 0 && Names(l, x)
    requires !Names(MergedOne(l, l2[0], true), x) && !Names(l2[1..], x)
    ensures FirstWins(Pairs(Merged(l, l2, true))) != FirstWins(Pairs(l)) + LastWins(Pairs(l2))
  {
    GoneStays(MergedOne(l, l2[0], true), l2[1..], x);
    NamesIsKey(Merged(l, l2, true), x);
    NamesIsKey(l, x);
  }

  // ----- inputs on which a merge is not a union

  lemma {:induction false} Literal(name: string, value: string, e: string)
    requires '=' !in name && e == name + ['='] + value
    ensures NameOf(e) == name && ValueOf(e) == Some(value) && MakeEntry(name, Some(value)) == e
  {
    NameOfMade(name, Some(value));
  }

  lemma {:induction false} FirstEntryHit(l: seq<string>, n: string)
    requires |n| > 0 && |l| > 0 && IsHit(l[0], n)
    ensures FirstHit(l, n) == Some(0) && Removed(l, n) == l[1..]
  {
    assert Hits(l, n)[0];
  }

  lemma {:induction false} MergeIntoOne(l: seq<string>, e: string, override: bool)
    requires |NameOf(e)| > 0
    ensures Merged(l, [e], override) == MergedOne(l, e, override)
  {
    assert |[e][1..]| == 0;
  }

  /** Without override "BA=1" hides that "A" is new. */
  lemma {:induction false} NameHidden()
    ensures NameOf("A=2") == "A" && Merged(["BA=1"], ["A=2"], false) == ["BA=1"]
  {
    Literal("A", "2", "A=2");
    ImpostorFound();
    MergeIntoOne(["BA=1"], "A=2", false);
  }

  /** With override it is thrown out while "A" stays behind, and "A" is doubled. */
  lemma {:induction false} NameDoubled()
    ensures NameOf("A=3") == "A" && Merged(["BA=1", "A=2"], ["A=3"], true) == ["A=2", "A=3"]
  {
    Literal("A", "3", "A=3");
    ImpostorFound();
    assert ["BA=1"][0] == "BA=1";
    FirstEntryHit(["BA=1", "A=2"], "A");
    MergeIntoOne(["BA=1", "A=2"], "A=3", true);
  }

  lemma {:induction false} NotHit()
    ensures FirstHit(["A=2"], "BA") == None
  {
    var a := "A=2";
    assert !MatchAt("BA", a, 0) by { assert a[0 + 0] != "BA"[0]; }
    assert !MatchAt("BA", a, 1) by { assert a[1 + 0] != "BA"[0]; }
    assert Hit(a, "BA", 1) == None;
    assert !IsHit(a, "BA");
    HitSomewhere([a], "BA");
  }

  /** What was thrown out may come back, and then nothing is lost. */
  lemma {:induction false} DisplacedReturns()
    ensures !NoImpostorFirst(["BA=1"], "A") && NamesNonempty(["A=2", "BA=3"])
    ensures var l, l2 := ["BA=1"], ["A=2", "BA=3"];
            && Merged(l, l2, true) == l2
            && FirstWins(Pairs(Merged(l, l2, true))) == FirstWins(Pairs(l)) + LastWins(Pairs(l2))
  {
    ReturnedList();
    ReturnedMap();
    ImpostorFound();
    Literal("BA", "1", "BA=1");
  }

  lemma {:induction false} ReturnedMap()
    ensures FirstWins(Pairs(["A=2", "BA=3"])) == FirstWins(Pairs(["BA=1"])) + LastWins(Pairs(["A=2", "BA=3"]))
  {
    Literal("BA", "1", "BA=1");
    Literal("A", "2", "A=2");
    Literal("BA", "3", "BA=3");
    var one, three, both := Pair("BA", Some("1")), Pair("BA", Some("3")), Pairs(["A=2", "BA=3"]);
    assert Pairs(["BA=1"]) == [one] && both == [Pair("A", Some("2")), three];
    SingleWins(one);
    SingleWins(three);
    assert both[1..] == [three];
  }

  lemma {:induction false} SingleWins(p: Pair)
    ensures FirstWins([p]) == map[p.name := p.value] && LastWins([p]) == map[p.name := p.value]
  {
    assert |[p][1..]| == 0;
  }

  lemma {:induction false} ReturnedList()
    ensures NamesNonempty(["A=2", "BA=3"]) && Merged(["BA=1"], ["A=2", "BA=3"], true) == ["A=2", "BA=3"]
  {
    Literal("A", "2", "A=2");
    Literal("BA", "3", "BA=3");
    ThrowsOut();
    assert ["A=2", "BA=3"][1..] == ["BA=3"];
    MergeIntoOne(["A=2"], "BA=3", true);
    NotHit();
  }

  lemma {:induction false} ThrowsOut()
    ensures NameOf("A=2") == "A" && MergedOne(["BA=1"], "A=2", true) == ["A=2"]
  {
    Literal("A", "2", "A=2");
    ImpostorFound();
    assert ["BA=1"][0] == "BA=1";
    FirstEntryHit(["BA=1"], "A");
  }
}
