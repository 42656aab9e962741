/**
  A merge of two envz stores is a union of name/value maps: left-biased without
  the override flag, right-biased with it.
 */
module EnvzUnion {
  import opened Base
  import opened EnvzSpec
  import Argz

  type Value = Option<string>
  datatype Pair = Pair(name: string, value: Value)

  // ----- lists of pairs and the maps they stand for

  function NameMarks(ps: seq<Pair>, n: string): (m: seq<bool>)
    ensures |m| == |ps|
  {
    seq(|ps|, k requires 0 <= k < |ps| => ps[k].name == n)
  }

  /** The map in which the first pair of a name counts. */
  function FirstWins(ps: seq<Pair>): map<string, Value> {
    if |ps| == 0 then map[] else FirstWins(ps[1..])[ps[0].name := ps[0].value]
  }

  /** The map in which the last pair of a name counts. */
  function LastWins(ps: seq<Pair>): map<string, Value> {
    if |ps| == 0 then map[] else map[ps[0].name := ps[0].value] + LastWins(ps[1..])
  }

  predicate Unique(ps: seq<Pair>) {
    forall i, j :: 0 <= i < j < |ps| ==> ps[i].name != ps[j].name
  }

  function Drop(ps: seq<Pair>, n: string): seq<Pair> {
    var k := FirstTrue(NameMarks(ps, n));
    if k.None? then ps else ps[..k.value] + ps[k.value + 1..]
  }

  function MergePair(ps: seq<Pair>, p: Pair, override: bool): seq<Pair> {
    if override then Drop(ps, p.name) + [p]
    else if FirstTrue(NameMarks(ps, p.name)).None? then ps + [p] else ps
  }

  function MergePairs(ps: seq<Pair>, qs: seq<Pair>, override: bool): seq<Pair>
    decreases |qs|
  {
    if |qs| == 0 then ps else MergePairs(MergePair(ps, qs[0], override), qs[1..], override)
  }

  lemma {:induction false} KeyIsName(ps: seq<Pair>, n: string)
    ensures n in FirstWins(ps) <==> exists k :: 0 <= k < |ps| && ps[k].name == n
  {
    if |ps| > 0 {
      KeyIsName(ps[1..], n);
      if n in FirstWins(ps[1..]) {
        var k :| 0 <= k < |ps[1..]| && ps[1..][k].name == n;
        assert ps[k + 1].name == n;
      }
      if k :| 0 < k < |ps| && ps[k].name == n {
        assert ps[1..][k - 1].name == n;
      }
    }
  }

  lemma {:induction false} MarkedIsKey(ps: seq<Pair>, n: string)
    ensures FirstTrue(NameMarks(ps, n)).Some? <==> n in FirstWins(ps)
  {
    KeyIsName(ps, n);
    var m := NameMarks(ps, n);
    if k :| 0 <= k < |ps| && ps[k].name == n {
      assert m[k];
    }
    if FirstTrue(m).Some? {
      assert ps[FirstTrue(m).value].name == n;
    }
  }

  lemma {:induction false} FirstWinsSnoc(ps: seq<Pair>, p: Pair)
    requires p.name !in FirstWins(ps)
    ensures FirstWins(ps + [p]) == FirstWins(ps)[p.name := p.value]
  {
    if |ps| > 0 {
      FirstWinsSnoc(ps[1..], p);
      assert (ps + [p])[1..] == ps[1..] + [p];
    }
  }

  lemma {:induction false} FirstWinsCons(p: Pair, ps: seq<Pair>)
    ensures FirstWins([p] + ps) == FirstWins(ps)[p.name := p.value]
  {
    assert ([p] + ps)[1..] == ps;
  }

  lemma {:induction false} WithoutCons(ps: seq<Pair>, k: nat)
    requires 0 < k < |ps|
    ensures ps[..k] + ps[k + 1..] == [ps[0]] + (ps[1..][..k - 1] + ps[1..][k..])
  {
  }

  lemma {:induction false} DropOther(m: map<string, Value>, x: string, n: string, v: Value)
    requires x != n
    ensures (m - {x})[n := v] == m[n := v] - {x}
  {
  }

  lemma {:induction false} FirstWinsWithout(ps: seq<Pair>, k: nat)
    requires k < |ps| && Unique(ps)
    ensures FirstWins(ps[..k] + ps[k + 1..]) == FirstWins(ps) - {ps[k].name}
    ensures ps[k].name !in FirstWins(ps[..k] + ps[k + 1..])
  {
    if k == 0 {
      assert ps[..0] + ps[1..] == ps[1..];
      KeyIsName(ps[1..], ps[0].name);
    } else {
      var t := ps[1..];
      FirstWinsWithout(t, k - 1);
      WithoutCons(ps, k);
      FirstWinsCons(ps[0], t[..k - 1] + t[k..]);
      DropOther(FirstWins(t), ps[k].name, ps[0].name, ps[0].value);
    }
  }

  lemma {:induction false} UniqueSnoc(ps: seq<Pair>, p: Pair)
    requires Unique(ps) && p.name !in FirstWins(ps)
    ensures Unique(ps + [p])
  {
    KeyIsName(ps, p.name);
  }

  lemma {:induction false} UniqueWithout(ps: seq<Pair>, k: nat)
    requires k < |ps| && Unique(ps)
    ensures Unique(ps[..k] + ps[k + 1..])
  {
    var r := ps[..k] + ps[k + 1..];
    forall i, j | 0 <= i < j < |r| ensures r[i].name != r[j].name {
      assert r[i] == ps[if i < k then i else i + 1] && r[j] == ps[if j < k then j else j + 1];
    }
  }

  /** Merging one pair keeps names unique and updates (or keeps) one binding. */
  lemma {:induction false} MergePairIsUpdate(ps: seq<Pair>, p: Pair, override: bool)
    requires Unique(ps)
    ensures Unique(MergePair(ps, p, override))
    ensures FirstWins(MergePair(ps, p, override)) ==
            if override || p.name !in FirstWins(ps) then FirstWins(ps)[p.name := p.value] else FirstWins(ps)
  {
    MarkedIsKey(ps, p.name);
    var k := FirstTrue(NameMarks(ps, p.name));
    if override && k.Some? {
      var r := ps[..k.value] + ps[k.value + 1..];
      FirstWinsWithout(ps, k.value);
      UniqueWithout(ps, k.value);
      FirstWinsSnoc(r, p);
      UniqueSnoc(r, p);
    } else if k.None? {
      FirstWinsSnoc(ps, p);
      UniqueSnoc(ps, p);
    }
  }

  /** The two ways to group a union of three. */
  lemma {:induction false} SetThenUnion(m: map<string, Value>, n: string, v: Value, later: map<string, Value>)
    ensures m[n := v] + later == m + (map[n := v] + later)
  {
  }

  lemma {:induction false} KeepThenUnion(a: map<string, Value>, n: string, v: Value, m: map<string, Value>)
    ensures n in m ==> a + m == a[n := v] + m
    ensures n !in m ==> a + m[n := v] == a[n := v] + m
  {
  }

  /** Merging pairs is map union and keeps names unique. */
  lemma {:induction false} MergePairsIsUnion(ps: seq<Pair>, qs: seq<Pair>, override: bool)
    requires Unique(ps)
    ensures Unique(MergePairs(ps, qs, override))
    ensures FirstWins(MergePairs(ps, qs, override)) ==
            if override then FirstWins(ps) + LastWins(qs) else FirstWins(qs) + FirstWins(ps)
    decreases |qs|
  {
    if |qs| > 0 {
      var q, rest := qs[0], qs[1..];
      MergePairIsUpdate(ps, q, override);
      MergePairsIsUnion(MergePair(ps, q, override), rest, override);
      if override {
        SetThenUnion(FirstWins(ps), q.name, q.value, LastWins(rest));
      } else {
        KeepThenUnion(FirstWins(rest), q.name, q.value, FirstWins(ps));
      }
    }
  }

  // ----- from entries to pairs

  function PairOf(e: string): Pair {
    Pair(NameOf(e), ValueOf(e))
  }

  function Pairs(l: seq<string>): (ps: seq<Pair>)
    ensures |ps| == |l|
  {
    seq(|l|, k requires 0 <= k < |l| => PairOf(l[k]))
  }

  /** In neither store is an entry taken for another name of the second store. */
  predicate NoImpostors(l: seq<string>, l2: seq<string>)
    requires NamesNonempty(l2)
  {
    forall j :: 0 <= j < |l2| ==> Honest(l, NameOf(l2[j])) && Honest(l2, NameOf(l2[j]))
  }

  lemma {:induction false} MarksAgree(l: seq<string>, name: string)
    ensures NameMarks(Pairs(l), name) == Named(l, name)
  {
  }

  lemma {:induction false} PairsOfMergedOne(l: seq<string>, e: string, override: bool)
    requires |NameOf(e)| > 0 && Honest(l, NameOf(e))
    ensures Pairs(MergedOne(l, e, override)) == MergePair(Pairs(l), PairOf(e), override)
  {
    var n := NameOf(e);
    HonestScan(l, n);
    MarksAgree(l, n);
    NameAndValueMakeEntry(e);
    PairsAppend(l, e);
    PairsAppend(Removed(l, n), e);
    var k := FirstHit(l, n);
    if k.Some? {
      PairsWithout(l, k.value);
    }
  }

  lemma {:induction false} PairsAppend(l: seq<string>, e: string)
    ensures Pairs(l + [e]) == Pairs(l) + [PairOf(e)]
  {
  }

  lemma {:induction false} PairsWithout(l: seq<string>, k: nat)
    requires k < |l|
    ensures Pairs(Argz.Without(l, k)) == Pairs(l)[..k] + Pairs(l)[k + 1..]
  {
  }

  lemma {:induction false} HonestAfter(l: seq<string>, e: string, override: bool, name: string)
    requires |NameOf(e)| > 0 && |name| > 0
    requires Honest(l, name) && Honest([e], name)
    ensures Honest(MergedOne(l, e, override), name)
  {
    NameAndValueMakeEntry(e);
    var r := MergedOne(l, e, override);
    forall k | 0 <= k < |r| && IsHit(r[k], name) ensures NameOf(r[k]) == name {
      assert r[k] in l || r[k] == [e][0];
    }
  }

  lemma {:induction false} MergePairsStep(ps: seq<Pair>, l2: seq<string>, override: bool)
    requires |l2| > 0
    ensures MergePairs(ps, Pairs(l2), override)
         == MergePairs(MergePair(ps, PairOf(l2[0]), override), Pairs(l2[1..]), override)
  {
    assert Pairs(l2)[1..] == Pairs(l2[1..]);
  }

  lemma {:induction false} PairsOfMerged(l: seq<string>, l2: seq<string>, override: bool)
    requires NamesNonempty(l2) && NoImpostors(l, l2)
    ensures Pairs(Merged(l, l2, override)) == MergePairs(Pairs(l), Pairs(l2), override)
    decreases |l2|
  {
    if |l2| > 0 {
      var e, rest := l2[0], l2[1..];
      PairsOfMergedOne(l, e, override);
      NoImpostorsAfter(l, l2, override);
      PairsOfMerged(MergedOne(l, e, override), rest, override);
      MergePairsStep(Pairs(l), l2, override);
    }
  }

  lemma {:induction false} NoImpostorsAfter(l: seq<string>, l2: seq<string>, override: bool)
    requires |l2| > 0 && NamesNonempty(l2) && NoImpostors(l, l2)
    ensures NamesNonempty(l2[1..]) && NoImpostors(MergedOne(l, l2[0], override), l2[1..])
  {
    var e, rest := l2[0], l2[1..];
    forall j | 0 <= j < |rest|
      ensures |NameOf(rest[j])| > 0
      ensures Honest(MergedOne(l, e, override), NameOf(rest[j])) && Honest(rest, NameOf(rest[j]))
    {
      assert rest[j] == l2[j + 1];
      HonestPart(l2, NameOf(rest[j]));
      HonestAfter(l, e, override, NameOf(rest[j]));
    }
  }

  lemma {:induction false} HonestPart(l: seq<string>, name: string)
    requires |l| > 0 && |name| > 0 && Honest(l, name)
    ensures Honest([l[0]], name) && Honest(l[1..], name)
  {
    assert [l[0]][0] == l[0];
    assert forall k :: 0 <= k < |l[1..]| ==> l[1..][k] == l[k + 1];
  }

  /**
    `envz_merge` refines map union: with unique names in the target and no
    impostors, the merged store has unique names and is the left-biased union,
    or with the override flag the right-biased union in which the last
    duplicate of the second store wins.
   */
  lemma {:induction false} MergeIsUnion(l: seq<string>, l2: seq<string>, override: bool)
    requires Unique(Pairs(l)) && NamesNonempty(l2) && NoImpostors(l, l2)
    ensures Unique(Pairs(Merged(l, l2, override)))
    ensures FirstWins(Pairs(Merged(l, l2, override))) ==
            if override then FirstWins(Pairs(l)) + LastWins(Pairs(l2))
            else FirstWins(Pairs(l2)) + FirstWins(Pairs(l))
  {
    PairsOfMerged(l, l2, override);
    MergePairsIsUnion(Pairs(l), Pairs(l2), override);
  }

  lemma {:induction false} FirstWinsLookup(ps: seq<Pair>, n: string)
    ensures var k := FirstTrue(NameMarks(ps, n));
            if k.None? then n !in FirstWins(ps) else n in FirstWins(ps) && FirstWins(ps)[n] == ps[k.value].value
  {
    if |ps| > 0 {
      FirstWinsLookup(ps[1..], n);
      assert NameMarks(ps, n)[1..] == NameMarks(ps[1..], n);
    }
  }

  /** Without impostors `envz_get` reads the map: a name that is absent or has no value gives null. */
  lemma {:induction false} LookupReadsMap(l: seq<string>, n: string)
    requires |n| > 0 && Honest(l, n)
    ensures var m := FirstWins(Pairs(l));
            Lookup(l, n) == if n in m then m[n] else None
  {
    HonestScan(l, n);
    MarksAgree(l, n);
    FirstWinsLookup(Pairs(l), n);
    var k := FirstNamed(l, n);
    if k.Some? {
      assert NameOf(l[k.value]) == n by {
        assert Named(l, n)[k.value];
      }
      NamedIsHit(l[k.value], n);
    }
  }
}
