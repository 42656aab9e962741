/**
  libc/argz/argz_create_sep.c and libc/argz/argz_stringify.c: splitting a string
  on a separator into a vector and joining a vector back into a string, with the
  `strsep` of libc/string (the separator-keeping entry of strtok_r.c) that the
  split is written with.
 */
module ArgzSep {
  import opened Base
  import opened CStrings
  import opened CMemory

  // ----- specification: split and join on lists

  /** Index of the first separator at or after `p`, or the length. */
  function SepIndex(s: string, sep: char, p: nat): (q: nat)
    requires p <= |s|
    ensures p <= q <= |s| && (q < |s| ==> s[q] == sep)
    ensures forall i :: p <= i < q ==> s[i] != sep
    decreases |s| - p
  {
    if p == |s| || s[p] == sep then p else SepIndex(s, sep, p + 1)
  }

  /** The textbook split from `p` on: one field more than there are separators. */
  function SplitFrom(s: string, sep: char, p: nat): (l: seq<string>)
    requires p <= |s|
    ensures |l| > 0
    decreases |s| - p
  {
    var q := SepIndex(s, sep, p);
    if q == |s| then [s[p..q]] else [s[p..q]] + SplitFrom(s, sep, q + 1)
  }

  function Split(s: string, sep: char): (l: seq<string>)
    ensures |l| > 0
  {
    SplitFrom(s, sep, 0)
  }

  function Join(l: seq<string>, sep: char): string {
    if |l| == 0 then [] else if |l| == 1 then l[0] else l[0] + [sep] + Join(l[1..], sep)
  }

  /** What repeated `strsep` calls from `p` on yield: an empty remainder is no token. */
  function TokensFrom(s: string, sep: char, p: nat): seq<string>
    requires p <= |s|
    decreases |s| - p
  {
    if p == |s| then [] else
      var q := SepIndex(s, sep, p);
      if q == |s| then [s[p..q]] else [s[p..q]] + TokensFrom(s, sep, q + 1)
  }

  function Tokens(s: string, sep: char): seq<string> {
    TokensFrom(s, sep, 0)
  }

  predicate EndsWith(s: string, sep: char) {
    |s| > 0 && s[|s| - 1] == sep
  }

  predicate NoneContains(l: seq<string>, sep: char) {
    forall k :: 0 <= k < |l| ==> sep !in l[k]
  }

  lemma {:induction false} ConsSnoc(x: string, t: seq<string>, y: string)
    ensures [x] + (t + [y]) == ([x] + t) + [y]
  {
  }

  lemma {:induction false} NothingLeft(s: string, sep: char)
    ensures SplitFrom(s, sep, |s|) == TokensFrom(s, sep, |s|) + [""]
  {
    var none := TokensFrom(s, sep, |s|);
    assert s[|s|..|s|] == "" && SplitFrom(s, sep, |s|) == [""];
    assert none + [""] == [""];
  }

  lemma {:induction false} TokensAreFieldsFrom(s: string, sep: char, p: nat)
    requires p <= |s|
    ensures SplitFrom(s, sep, p) ==
            if p == |s| || EndsWith(s, sep) then TokensFrom(s, sep, p) + [""] else TokensFrom(s, sep, p)
    decreases |s| - p
  {
    var q := SepIndex(s, sep, p);
    if q < |s| {
      TokensAreFieldsFrom(s, sep, q + 1);
      ConsSnoc(s[p..q], TokensFrom(s, sep, q + 1), "");
    } else if p == |s| {
      NothingLeft(s, sep);
    } else {
      assert s[|s| - 1] != sep;
    }
  }

  /** The textbook fields are the tokens, with an empty one behind them if nothing or a separator ends the string. */
  lemma {:induction false} TokensAreFields(s: string, sep: char)
    ensures Split(s, sep) == if |s| == 0 || EndsWith(s, sep) then Tokens(s, sep) + [""] else Tokens(s, sep)
  {
    TokensAreFieldsFrom(s, sep, 0);
  }

  lemma {:induction false} JoinCons(x: string, l: seq<string>, sep: char)
    requires |l| > 0
    ensures Join([x] + l, sep) == x + [sep] + Join(l, sep)
  {
    assert ([x] + l)[1..] == l;
  }

  /** From `p` on, `s` is `t`. */
  predicate EndsIn(s: string, p: nat, t: string) {
    p + |t| == |s| && MatchAt(t, s, p)
  }

  lemma {:induction false} EndsInCons(s: string, p: nat, x: string, sep: char, rest: string)
    ensures EndsIn(s, p, x + [sep] + rest) <==>
            p + |x| < |s| && MatchAt(x, s, p) && s[p + |x|] == sep && EndsIn(s, p + |x| + 1, rest)
  {
    var t := x + [sep] + rest;
    if EndsIn(s, p, t) {
      assert t[|x|] == sep;
      forall i | 0 <= i < |x| ensures s[p + i] == x[i] {
        assert t[i] == x[i];
      }
      forall i | 0 <= i < |rest| ensures s[p + |x| + 1 + i] == rest[i] {
        assert t[|x| + 1 + i] == rest[i];
      }
    }
  }

  lemma {:induction false} SliceMatches(s: string, p: nat, q: nat)
    requires p <= q <= |s|
    ensures |s[p..q]| == q - p && MatchAt(s[p..q], s, p)
  {
  }

  lemma {:induction false} JoinSplitFrom(s: string, sep: char, p: nat)
    requires p <= |s|
    ensures EndsIn(s, p, Join(SplitFrom(s, sep, p), sep))
    decreases |s| - p
  {
    var q := SepIndex(s, sep, p);
    SliceMatches(s, p, q);
    if q < |s| {
      var f := SplitFrom(s, sep, q + 1);
      JoinSplitFrom(s, sep, q + 1);
      JoinCons(s[p..q], f, sep);
      EndsInCons(s, p, s[p..q], sep, Join(f, sep));
    }
  }

  /** Joining the fields of a string gives the string back. */
  lemma {:induction false} JoinSplit(s: string, sep: char)
    ensures Join(Split(s, sep), sep) == s
  {
    JoinSplitFrom(s, sep, 0);
    EndsInAll(s, Join(Split(s, sep), sep));
  }

  lemma {:induction false} EndsInAll(s: string, t: string)
    ensures EndsIn(s, 0, t) <==> t == s
  {
    if EndsIn(s, 0, t) {
      assert forall i :: 0 <= i < |t| ==> s[0 + i] == t[i];
    }
  }

  lemma {:induction false} JoinSnoc(l: seq<string>, e: string, sep: char)
    requires |l| > 0
    ensures Join(l + [e], sep) == Join(l, sep) + [sep] + e
  {
    var m := l + [e];
    if |l| == 1 {
      assert m[1..] == [e];
    } else {
      JoinSnoc(l[1..], e, sep);
      assert m[1..] == l[1..] + [e] && m[0] == l[0];
      var t := Join(l[1..], sep);
      assert l[0] + [sep] + (t + [sep] + e) == l[0] + [sep] + t + [sep] + e;
    }
  }

  lemma {:induction false} LastField(s: string, sep: char, p: nat)
    requires p <= |s|
    ensures var f := SplitFrom(s, sep, p); f[|f| - 1] == "" <==> p == |s| || EndsWith(s, sep)
    decreases |s| - p
  {
    var q := SepIndex(s, sep, p);
    if q < |s| {
      LastField(s, sep, q + 1);
    }
  }

  /**
    Joining the tokens gives the string back exactly when it does not end with
    the separator; otherwise that last separator is lost.
   */
  lemma {:induction false} JoinOfTokens(s: string, sep: char)
    ensures Join(Tokens(s, sep), sep) == if EndsWith(s, sep) then s[..|s| - 1] else s
    ensures Join(Tokens(s, sep), sep) == s <==> !EndsWith(s, sep)
  {
    TokensAreFields(s, sep);
    JoinSplit(s, sep);
    if EndsWith(s, sep) {
      assert |Tokens(s, sep)| > 0;
      JoinSnoc(Tokens(s, sep), "", sep);
    }
  }

  // ----- the other way round

  lemma {:induction false} FieldsLackSep(s: string, sep: char, p: nat)
    requires p <= |s|
    ensures NoneContains(SplitFrom(s, sep, p), sep)
    decreases |s| - p
  {
    var q := SepIndex(s, sep, p);
    if q < |s| {
      FieldsLackSep(s, sep, q + 1);
    }
  }

  lemma {:induction false} FirstSep(e: string, rest: string, sep: char)
    requires sep !in e
    ensures SepIndex(e + [sep] + rest, sep, 0) == |e|
  {
    var s := e + [sep] + rest;
    assert s[|e|] == sep;
    forall i | 0 <= i < |e| ensures s[i] != sep {
      assert s[i] == e[i];
    }
  }

  /** The first field of a string that goes on with `e` and a separator, or ends with `e`, is `e`. */
  lemma {:induction false} SepAfter(s: string, sep: char, p: nat, e: string)
    requires sep !in e && MatchAt(e, s, p) && (p + |e| < |s| ==> s[p + |e|] == sep)
    ensures SepIndex(s, sep, p) == p + |e|
  {
    forall i | p <= i < p + |e| ensures s[i] != sep {
      assert s[p + (i - p)] == e[i - p];
    }
  }

  lemma {:induction false} ConsTail(l: seq<string>)
    requires |l| > 0
    ensures l == [l[0]] + l[1..]
  {
  }

  lemma {:induction false} NoneInTail(l: seq<string>, sep: char)
    requires |l| > 0 && NoneContains(l, sep)
    ensures NoneContains(l[1..], sep)
  {
  }

  lemma {:induction false} SplitCons(s: string, sep: char, p: nat, e: string)
    requires sep !in e && p + |e| < |s| && MatchAt(e, s, p) && s[p + |e|] == sep
    ensures SplitFrom(s, sep, p) == [e] + SplitFrom(s, sep, p + |e| + 1)
  {
    SepAfter(s, sep, p, e);
    assert s[p..p + |e|] == e;
  }

  lemma {:induction false} SplitLast(s: string, sep: char, p: nat, e: string)
    requires sep !in e && EndsIn(s, p, e)
    ensures SplitFrom(s, sep, p) == [e]
  {
    SepAfter(s, sep, p, e);
    assert s[p..|s|] == e;
  }

  lemma {:induction false} SplitJoinFrom(s: string, p: nat, l: seq<string>, sep: char)
    requires p <= |s| && |l| > 0 && NoneContains(l, sep) && EndsIn(s, p, Join(l, sep))
    ensures SplitFrom(s, sep, p) == l
    decreases |l|
  {
    if |l| == 1 {
      SplitLast(s, sep, p, l[0]);
    } else {
      EndsInCons(s, p, l[0], sep, Join(l[1..], sep));
      SplitCons(s, sep, p, l[0]);
      NoneInTail(l, sep);
      SplitJoinFrom(s, p + |l[0]| + 1, l[1..], sep);
      ConsTail(l);
    }
  }

  /** Splitting the join of entries without the separator gives them back. */
  lemma {:induction false} SplitJoin(l: seq<string>, sep: char)
    requires |l| > 0 && NoneContains(l, sep)
    ensures Split(Join(l, sep), sep) == l
  {
    EndsInAll(Join(l, sep), Join(l, sep));
    SplitJoinFrom(Join(l, sep), 0, l, sep);
  }

  lemma {:induction false} TokensOfText(l: seq<string>, sep: char)
    requires |l| > 0
    ensures Tokens(Join(l, sep), sep) == l <==> NoneContains(l, sep) && l[|l| - 1] != []
  {
    var s := Join(l, sep);
    TokensAreFields(s, sep);
    if NoneContains(l, sep) {
      SplitJoin(l, sep);
      LastField(s, sep, 0);
    } else {
      TokensLackSep(s, sep);
    }
  }

  lemma {:induction false} TokensLackSep(s: string, sep: char)
    ensures NoneContains(Tokens(s, sep), sep)
  {
    TokensAreFields(s, sep);
    FieldsLackSep(s, sep, 0);
    var t, f := Tokens(s, sep), Split(s, sep);
    forall k | 0 <= k < |t| ensures sep !in t[k] {
      assert f[k] == t[k];
    }
  }

  /** The C string at the start of a nonempty block. */
  function CString(buf: string): (s: string)
    requires |buf| > 0 && WellFormed(buf)
    ensures Clean(s)
  {
    buf[..StrEnd(buf, 0)]
  }

  lemma {:induction false} CStringOf(s: string, rest: string)
    requires Clean(s) && WellFormed(s + [NUL] + rest)
    ensures CString(s + [NUL] + rest) == s
  {
    var buf := s + [NUL] + rest;
    assert MatchAt(s, buf, 0) && buf[0 + |s|] == NUL;
    EndAt(buf, 0, s);
  }

  lemma {:induction false} JoinClean(l: seq<string>, sep: char)
    requires AllClean(l) && sep != NUL
    ensures Clean(Join(l, sep))
  {
    if |l| > 1 {
      JoinClean(l[1..], sep);
    }
  }

  /** A joined block read as a C string: all of it, but only the first entry when the separator is NUL. */
  lemma {:induction false} TextOfJoin(l: seq<string>, sep: char)
    requires AllClean(l) && |l| > 0
    ensures CString(Join(l, sep) + [NUL]) == if sep == NUL then l[0] else Join(l, sep)
  {
    var block := Join(l, sep) + [NUL];
    if sep != NUL {
      JoinClean(l, sep);
      assert block == Join(l, sep) + [NUL] + [];
      CStringOf(Join(l, sep), []);
    } else if |l| == 1 {
      assert block == l[0] + [NUL] + [];
      CStringOf(l[0], []);
    } else {
      var rest := Join(l[1..], sep) + [NUL];
      assert block == l[0] + [NUL] + rest;
      CStringOf(l[0], rest);
    }
  }

  lemma {:induction false} TokensWithoutSep(s: string, sep: char)
    requires sep !in s
    ensures Tokens(s, sep) == if s == [] then [] else [s]
  {
    assert s[0..|s|] == s;
  }

  /** Splitting the join of the list gives it back. */
  predicate RoundTrips(l: seq<string>, sep: char) {
    |l| > 0 && (sep != NUL || |l| == 1) && NoneContains(l, sep) && l[|l| - 1] != []
  }

  /**
    Splitting the join, read as the C string it is, gives the list back exactly
    when the separator is not NUL (or there is just one entry), no entry
    contains it and the last entry is not empty.
   */
  lemma {:induction false} TokensOfJoin(l: seq<string>, sep: char)
    requires AllClean(l) && |l| > 0
    ensures Tokens(CString(Join(l, sep) + [NUL]), sep) == l <==> RoundTrips(l, sep)
  {
    TextOfJoin(l, sep);
    if sep == NUL {
      TokensWithoutSep(l[0], NUL);
    } else {
      TokensOfText(l, sep);
    }
  }

  /** With NUL for a separator "a", "b" comes back as "a" alone. */
  lemma {:induction false} NulKeepsFirstOnly()
    ensures Tokens(CString(Join(["a", "b"], NUL) + [NUL]), NUL) == ["a"]
    ensures NoneContains(["a", "b"], NUL) && ["a", "b"][1] != []
  {
    TextOfJoin(["a", "b"], NUL);
    TokensWithoutSep("a", NUL);
  }

  /** The last separator of "a:" does not survive, nor does an empty last entry. */
  lemma {:induction false} TrailingSeparatorIsLost()
    ensures Join(Tokens("a:", ':'), ':') == "a"
    ensures Tokens(Join(["a", ""], ':'), ':') == ["a"]
  {
    var l := ["a", ""];
    assert l[1..] == [""];
    assert Join(l, ':') == "a:";
    JoinOfTokens("a:", ':');
    assert "a:"[..1] == "a";
    SplitJoin(l, ':');
    TokensAreFields("a:", ':');
    assert l == ["a"] + [""];
  }

  lemma {:induction false} TokensClean(s: string, sep: char, p: nat)
    requires Clean(s) && p <= |s|
    ensures AllClean(TokensFrom(s, sep, p))
    decreases |s| - p
  {
    if p < |s| && SepIndex(s, sep, p) < |s| {
      TokensClean(s, sep, SepIndex(s, sep, p) + 1);
    }
  }

  /** The vector that `CreateSep` builds decodes to the tokens. */
  lemma {:induction false} VectorOfTokens(s: string, sep: char)
    requires Clean(s)
    ensures var argz := Encode(Tokens(s, sep));
            WellFormed(argz) && Decode(argz) == Tokens(s, sep)
  {
    TokensClean(s, sep, 0);
    DecodeEncode(Tokens(s, sep));
  }

  // ----- stringify, in place

  /** The bytes of a vector with every terminator but the last turned into the separator. */
  lemma {:induction false} JoinBytes(l: seq<string>, sep: char)
    requires AllClean(l) && |l| > 0
    ensures |Encode(l)| == |Join(l, sep)| + 1
    ensures forall i :: 0 <= i < |Join(l, sep)| ==>
              Join(l, sep)[i] == if Encode(l)[i] == NUL then sep else Encode(l)[i]
  {
    var e, n := l[0], |l[0]|;
    if |l| == 1 {
      assert Encode(l) == e + [NUL] + [];
    } else {
      var b, j := Encode(l[1..]), Join(l[1..], sep);
      JoinBytes(l[1..], sep);
      forall i | 0 <= i < |Join(l, sep)|
        ensures Join(l, sep)[i] == if Encode(l)[i] == NUL then sep else Encode(l)[i]
      {
        if i > n {
          assert Encode(l)[i] == b[i - n - 1] && Join(l, sep)[i] == j[i - n - 1];
        }
      }
    }
  }

  lemma {:induction false} Stringified(before: string, after: string, sep: char)
    requires WellFormed(before) && |before| == |after| > 0
    requires forall k :: 0 <= k < |before| - 1 ==> after[k] == if before[k] == NUL then sep else before[k]
    requires after[|after| - 1] == NUL
    ensures after == Join(Decode(before), sep) + [NUL]
  {
    EncodeDecode(before);
    JoinBytes(Decode(before), sep);
  }

  /** `argz_stringify`: afterwards the block holds the join as one C string. */
  method Stringify(argz: array<char>, len: nat, sep: char)
    requires len <= argz.Length && WellFormed(argz[..len])
    modifies argz
    ensures len > 0 ==> argz[..len] == Join(old(Decode(argz[..len])), sep) + [NUL]
    ensures forall k :: len <= k < argz.Length ==> argz[k] == old(argz[k])
  {
    ghost var bytes := argz[..len];
    if len > 1 {
      for i := 0 to len - 1
        invariant forall k :: 0 <= k < i ==> argz[k] == if bytes[k] == NUL then sep else bytes[k]
        invariant forall k :: i <= k < argz.Length ==> argz[k] == old(argz[k])
      {
        if argz[i] == NUL {
          argz[i] := sep;
        }
      }
    }
    if len > 0 {
      Stringified(bytes, argz[..len], sep);
    }
  }

  // ----- create_sep: two passes of strsep over a private copy

  method StrDup(s: string) returns (a: array<char>)
    ensures fresh(a) && a.Length == |s| + 1
    ensures forall i :: 0 <= i < |s| ==> a[i] == s[i]
    ensures a[|s|] == NUL
  {
    a := new char[|s| + 1](i requires 0 <= i <= |s| => if i < |s| then s[i] else NUL);
  }

  method StrLen(a: array<char>, p: nat, ghost e: nat) returns (n: nat)
    requires p <= e < a.Length && a[e] == NUL
    requires forall i :: p <= i < e ==> a[i] != NUL
    ensures p + n == e
  {
    n := 0;
    while a[p + n] != NUL
      invariant p + n <= e
      decreases e - n
    {
      n := n + 1;
    }
  }

  /**
    `strsep` with the one-character separator string of `argz_create_sep` (empty
    when `sep` is NUL).  `a` holds `s` and a terminator from `at` on.  The token
    found is closed in place and the cursor moves past it; an empty remainder
    is no token.
   */
  method StrSep(a: array<char>, at: Option<nat>, sep: char, ghost s: string)
    returns (token: Option<nat>, next: Option<nat>)
    requires Clean(s) && Holds(a, at, s)
    modifies a
    ensures at.None? || at.value == |s| ==> token == None && next == None && a[..] == old(a[..])
    ensures at.Some? && at.value < |s| ==>
              var q := SepIndex(s, sep, at.value);
              && token == at
              && next == (if q == |s| then None else Some(q + 1))
              && a[q] == NUL && a[|s|] == NUL
              && (forall i :: 0 <= i <= |s| && i != q ==> a[i] == old(a[i]))
  {
    if at.None? {
      return None, None;
    }
    var p := at.value;
    var c := a[p];
    if sep != NUL && c == sep {
      a[p] := NUL;
      return Some(p), Some(p + 1);
    }
    if c == NUL {
      return None, None;
    }
    var i := p + 1;
    while true
      invariant p < i <= |s|
      invariant forall k :: p <= k < i ==> s[k] != sep
      decreases |s| - i
    {
      c := a[i];
      if sep != NUL && c == sep {
        a[i] := NUL;
        return Some(p), Some(i + 1);
      }
      if c == NUL {
        assert i == |s|;
        return Some(p), None;
      }
      i := i + 1;
    }
  }

  /** The working copy from the cursor on is still the string and its terminator. */
  ghost predicate Holds(a: array<char>, at: Option<nat>, s: string)
    reads a
  {
    && a.Length == |s| + 1 && a[|s|] == NUL
    && (at.Some? ==> at.value <= |s| && forall i :: at.value <= i < |s| ==> a[i] == s[i])
  }

  /** One `strsep` and `strlen`: the bytes of the next token, terminator included, if there is one. */
  method TakeToken(a: array<char>, at: Option<nat>, sep: char, ghost s: string)
    returns (token: Option<string>, next: Option<nat>)
    requires Clean(s) && Holds(a, at, s)
    modifies a
    ensures Holds(a, next, s)
    ensures token.None? <==> |Rest(s, at, sep)| == 0
    ensures token.Some? ==> |Rest(s, at, sep)| == 1 + |Rest(s, next, sep)|
    ensures token.Some? ==> Encode(Rest(s, at, sep)) == token.value + Encode(Rest(s, next, sep))
  {
    var p;
    p, next := StrSep(a, at, sep, s);
    if p.None? {
      return None, next;
    }
    ghost var q := SepIndex(s, sep, p.value);
    var n := StrLen(a, p.value, q);
    var bytes := a[p.value..p.value + n + 1];
    assert bytes == s[p.value..q] + [NUL];
    NextToken(s, at, sep);
    EncodeCons(s[p.value..q], Rest(s, next, sep));
    return Some(bytes), next;
  }

  /** `argz_create_sep`: the tokens of the string, as a vector.  `None` is a null pointer. */
  method CreateSep(string': Option<string>, sep: char) returns (argz: string, len: nat)
    requires string'.Some? ==> Clean(string'.value)
    ensures len == |argz|
    ensures argz == Encode(if string'.None? then [] else Tokens(string'.value, sep))
  {
    if string'.None? || |string'.value| == 0 {
      return [], 0;
    }
    var n;
    len, n := MeasureTokens(string'.value, sep);
    argz := CopyTokens(string'.value, sep, len, n);
  }

  /** Second pass: copy each token and its terminator into a block of the measured length. */
  method CopyTokens(s: string, sep: char, len: nat, n: nat) returns (argz: string)
    requires Clean(s) && len == |Encode(Tokens(s, sep))| && n == |Tokens(s, sep)|
    ensures argz == Encode(Tokens(s, sep))
  {
    argz := Malloc(len);
    var running := StrDup(s);
    var at: Option<nat>, iter: nat := Some(0), 0;
    ghost var all := Encode(Tokens(s, sep));
    for i := 0 to n
      invariant fresh(running) && Holds(running, at, s)
      invariant |Rest(s, at, sep)| == n - i
      invariant iter <= |argz| == len
      invariant argz[..iter] + Encode(Rest(s, at, sep)) == all
    {
      ghost var done := argz[..iter];
      var token;
      token, at := TakeToken(running, at, sep, s);
      Assoc(done, token.value, Encode(Rest(s, at, sep)));
      OverlayAppends(argz, iter, token.value);
      argz := Overlay(argz, iter, token.value);
      iter := iter + |token.value|;
    }
    assert argz[..iter] == argz;
  }

  /** Tokens still to come when the cursor is at `at`. */
  ghost function Rest(s: string, at: Option<nat>, sep: char): seq<string>
    requires at.Some? ==> at.value <= |s|
  {
    if at.None? then [] else TokensFrom(s, sep, at.value)
  }

  /** One `strsep` call removes the first of the remaining tokens. */
  lemma {:induction false} NextToken(s: string, at: Option<nat>, sep: char)
    requires at.Some? && at.value < |s|
    ensures var q := SepIndex(s, sep, at.value);
            Rest(s, at, sep) == [s[at.value..q]] + Rest(s, if q == |s| then None else Some(q + 1), sep)
  {
  }

  /** First pass of `argz_create_sep`: total length and number of tokens. */
  method MeasureTokens(s: string, sep: char) returns (len: nat, n: nat)
    requires Clean(s)
    ensures len == |Encode(Tokens(s, sep))| && n == |Tokens(s, sep)|
  {
    var running := StrDup(s);
    len, n := 0, 0;
    var at: Option<nat> := Some(0);
    while true
      invariant fresh(running) && Holds(running, at, s)
      invariant n + |Rest(s, at, sep)| == |Tokens(s, sep)|
      invariant len + |Encode(Rest(s, at, sep))| == |Encode(Tokens(s, sep))|
      decreases |Rest(s, at, sep)|
    {
      var token;
      token, at := TakeToken(running, at, sep, s);
      if token.None? {
        break;
      }
      len := len + |token.value|;
      n := n + 1;
    }
  }

  // ----- the two operations one after the other

  /** The C string at the start of an array. */
  method ReadString(a: array<char>, ghost len: nat) returns (s: string)
    requires 0 < len <= a.Length && WellFormed(a[..len])
    ensures s == CString(a[..len])
  {
    var n := StrLen(a, 0, StrEnd(a[..len], 0));
    s := a[..n];
    assert s == a[..len][..n];
  }

  /** `argz_stringify` and then `argz_create_sep`: the bytes come back exactly when `RoundTrips` says so. */
  method JoinThenSplit(argz: array<char>, len: nat, sep: char) returns (again: string, len': nat)
    requires 0 < len <= argz.Length && WellFormed(argz[..len])
    modifies argz
    ensures len' == |again|
    ensures again == old(argz[..len]) <==> RoundTrips(old(Decode(argz[..len])), sep)
  {
    ghost var bytes := argz[..len];
    ghost var l := Decode(bytes);
    EncodeDecode(bytes);
    TokensOfJoin(l, sep);
    Stringify(argz, len, sep);
    var text := ReadString(argz, len);
    again, len' := CreateSep(Some(text), sep);
    SameBytes(bytes, text, sep);
  }

  /** Two vectors have the same bytes exactly when they have the same entries. */
  lemma {:induction false} SameBytes(bytes: string, text: string, sep: char)
    requires WellFormed(bytes) && Clean(text)
    ensures Encode(Tokens(text, sep)) == bytes <==> Tokens(text, sep) == Decode(bytes)
  {
    EncodeDecode(bytes);
    VectorOfTokens(text, sep);
  }

  /** `argz_create_sep` and then `argz_stringify`: the string comes back, less a separator at its end. */
  method SplitThenJoin(s: string, sep: char) returns (text: string)
    requires Clean(s) && |s| > 0
    ensures text == if EndsWith(s, sep) then s[..|s| - 1] else s
    ensures text == s <==> !EndsWith(s, sep)
  {
    var argz, len := CreateSep(Some(s), sep);
    VectorOfTokens(s, sep);
    JoinOfTokens(s, sep);
    var a := new char[len](i requires 0 <= i < len => argz[i]);
    assert a[..len] == argz;
    assert len > 0;
    Stringify(a, len, sep);
    TextOfJoin(Tokens(s, sep), sep);
    if sep == NUL {
      TokensWithoutSep(s, sep);
    }
    text := ReadString(a, len);
  }
}
