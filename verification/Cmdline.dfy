/**
  The in-place command-line splitter of picocrt/crt0.h: spaces in the buffer
  become terminators and argv is filled with pointers into the buffer.
 */
module Cmdline {
  import opened CStrings
  import opened ArgzSep

  const ARGV_LEN: nat := 64

  datatype Arg = Null | At(off: nat) | ProgramName

  // ----- the arguments of a command line

  /** A stretch of the command line, `from` included and `to` not. */
  datatype Span = Span(from: nat, to: nat)

  function SkipFrom(s: string, p: nat): (q: nat)
    ensures p <= q && (p <= |s| ==> q <= |s|)
    ensures q < |s| ==> s[q] != ' '
    decreases |s| - p
  {
    if p < |s| && s[p] == ' ' then SkipFrom(s, p + 1) else p
  }

  /** The arguments from position `p` on: up to a space, then on after the run of spaces. */
  function Arguments(s: string, p: nat): seq<Span>
    decreases |s| - p
  {
    if p >= |s| then [] else
      var q := SepIndex(s, ' ', p);
      if q == |s| then [Span(p, q)] else [Span(p, q)] + Arguments(s, SkipFrom(s, q + 1))
  }

  /** The textbook fields between single spaces, empty ones included. */
  function Fields(s: string, p: nat): seq<Span>
    requires p <= |s|
    decreases |s| - p
  {
    var q := SepIndex(s, ' ', p);
    if q == |s| then [Span(p, q)] else [Span(p, q)] + Fields(s, q + 1)
  }

  function NonEmpty(l: seq<Span>): seq<Span> {
    if |l| == 0 then [] else if l[0].from < l[0].to then [l[0]] + NonEmpty(l[1..]) else NonEmpty(l[1..])
  }

  lemma {:induction false} NonEmptyCons(x: Span, l: seq<Span>)
    ensures NonEmpty([x] + l) == if x.from < x.to then [x] + NonEmpty(l) else NonEmpty(l)
  {
    assert ([x] + l)[1..] == l;
  }

  lemma {:induction false} NonEmptySingle(x: Span)
    ensures NonEmpty([x]) == if x.from < x.to then [x] else []
  {
    assert |[x][1..]| == 0;
  }

  /** The nonempty fields, the empty ones left out on the way. */
  function NonEmptyFrom(s: string, p: nat): seq<Span>
    requires p <= |s|
    decreases |s| - p
  {
    var q := SepIndex(s, ' ', p);
    if q == |s| then (if p < q then [Span(p, q)] else [])
    else if p < q then [Span(p, q)] + NonEmptyFrom(s, q + 1)
    else NonEmptyFrom(s, q + 1)
  }

  lemma {:induction false} NonEmptyFields(s: string, p: nat)
    requires p <= |s|
    ensures NonEmptyFrom(s, p) == NonEmpty(Fields(s, p))
    decreases |s| - p
  {
    var q := SepIndex(s, ' ', p);
    if q < |s| {
      NonEmptyFields(s, q + 1);
      NonEmptyCons(Span(p, q), Fields(s, q + 1));
    } else {
      NonEmptySingle(Span(p, q));
    }
  }

  /** Leading spaces only add empty fields. */
  lemma {:induction false} SkipAddsNothing(s: string, p: nat)
    requires p <= |s|
    ensures NonEmptyFrom(s, p) == NonEmptyFrom(s, SkipFrom(s, p))
    decreases |s| - p
  {
    if p < |s| && s[p] == ' ' {
      SkipAddsNothing(s, p + 1);
      assert SepIndex(s, ' ', p) == p;
    }
  }

  /** The position at which the next argument starts, or the end. */
  function NextStart(s: string, p: nat): (r: nat)
    requires p < |s|
    ensures p < r <= |s| && (r < |s| ==> s[r] != ' ')
  {
    var q := SepIndex(s, ' ', p);
    if q == |s| then q else SkipFrom(s, q + 1)
  }

  lemma {:induction false} FirstArgument(s: string, p: nat)
    requires p < |s|
    ensures Arguments(s, p) == [Span(p, SepIndex(s, ' ', p))] + Arguments(s, NextStart(s, p))
  {
  }

  lemma {:induction false} FirstNonEmpty(s: string, p: nat)
    requires p < |s| && s[p] != ' '
    ensures NonEmptyFrom(s, p) == [Span(p, SepIndex(s, ' ', p))] + NonEmptyFrom(s, NextStart(s, p))
  {
    var q := SepIndex(s, ' ', p);
    if q < |s| {
      SkipAddsNothing(s, q + 1);
    }
  }

  lemma {:induction false} ArgumentsFrom(s: string, p: nat)
    requires p <= |s| && (p < |s| ==> s[p] != ' ')
    ensures Arguments(s, p) == NonEmptyFrom(s, p)
    decreases |s| - p
  {
    if p < |s| {
      FirstArgument(s, p);
      FirstNonEmpty(s, p);
      ArgumentsFrom(s, NextStart(s, p));
    }
  }

  /**
    The arguments are the nonempty fields between spaces; a leading space gives
    one empty argument in front, trailing spaces give none.
   */
  lemma {:induction false} ArgumentsAreFields(s: string)
    ensures Arguments(s, 0) ==
            if |s| > 0 && s[0] == ' ' then [Span(0, 0)] + NonEmpty(Fields(s, 0))
            else NonEmpty(Fields(s, 0))
  {
    NonEmptyFields(s, 0);
    if |s| > 0 && s[0] == ' ' {
      assert SepIndex(s, ' ', 0) == 0;
      SkipAddsNothing(s, 0);
      ArgumentsFrom(s, SkipFrom(s, 1));
    } else {
      ArgumentsFrom(s, 0);
    }
  }

  /** The stretches of text. */
  function Texts(s: string, l: seq<Span>): seq<string>
    requires forall k :: 0 <= k < |l| ==> l[k].from <= l[k].to <= |s|
  {
    seq(|l|, k requires 0 <= k < |l| => s[l[k].from..l[k].to])
  }

  lemma {:induction false} TextsCons(s: string, x: Span, l: seq<Span>)
    requires x.from <= x.to <= |s| && forall k :: 0 <= k < |l| ==> l[k].from <= l[k].to <= |s|
    ensures Texts(s, [x] + l) == [s[x.from..x.to]] + Texts(s, l)
  {
  }

  /** The fields are those of the textbook split on spaces. */
  lemma {:induction false} FieldsAreSplit(s: string, p: nat)
    requires p <= |s|
    ensures forall k :: 0 <= k < |Fields(s, p)| ==> Fields(s, p)[k].from <= Fields(s, p)[k].to <= |s|
    ensures Texts(s, Fields(s, p)) == SplitFrom(s, ' ', p)
    decreases |s| - p
  {
    var q := SepIndex(s, ' ', p);
    if q < |s| {
      FieldsAreSplit(s, q + 1);
      TextsCons(s, Span(p, q), Fields(s, q + 1));
    } else {
      assert Texts(s, [Span(p, q)]) == [s[p..q]];
    }
  }

  // ----- the loop

  /** From `c` on the buffer still is the command line. */
  ghost predicate Intact(buf: array<char>, s: string, c: nat)
    reads buf
  {
    && |s| < buf.Length && c <= |s| && buf[|s|] == NUL
    && forall i :: c <= i < |s| ==> buf[i] == s[i]
  }

  /** The buffer holds the stretch of the command line as a C string, in its old place. */
  ghost predicate Terminated(buf: array<char>, s: string, x: Span)
    reads buf
  {
    && x.from <= x.to <= |s| && x.to < buf.Length && buf[x.to] == NUL
    && forall i :: x.from <= i < x.to ==> buf[i] == s[i]
  }

  /** One argument: scan to its end, terminate it and skip the spaces after it. */
  method TakeWord(buf: array<char>, start: nat, ghost s: string) returns (c: nat, last: bool)
    requires Clean(s) && Intact(buf, s, start) && start < |s|
    modifies buf
    ensures var q := SepIndex(s, ' ', start);
            && last == (q == |s|) && c == (if last then q else SkipFrom(s, q + 1))
            && Terminated(buf, s, Span(start, q))
    ensures Intact(buf, s, c)
    ensures forall i :: 0 <= i < start ==> buf[i] == old(buf[i])
  {
    c := EndOfWord(buf, start, s);
    if buf[c] == NUL {
      return c, true;
    }
    buf[c] := NUL;
    c := SkipSpaces(buf, c + 1, s);
    last := false;
  }

  /** The scan to the next space or to the end. */
  method EndOfWord(buf: array<char>, start: nat, ghost s: string) returns (c: nat)
    requires Clean(s) && Intact(buf, s, start)
    ensures c == SepIndex(s, ' ', start)
  {
    c := start;
    while buf[c] != NUL && buf[c] != ' '
      invariant start <= c <= |s|
      invariant forall i :: start <= i < c ==> s[i] != ' '
      decreases |s| - c
    {
      c := c + 1;
    }
  }

  /** The scan over a run of spaces. */
  method SkipSpaces(buf: array<char>, from: nat, ghost s: string) returns (c: nat)
    requires Clean(s) && Intact(buf, s, from)
    ensures c == SkipFrom(s, from)
  {
    c := from;
    while buf[c] == ' '
      invariant from <= c <= |s| && SkipFrom(s, from) == SkipFrom(s, c)
      decreases |s| - c
    {
      c := c + 1;
    }
  }

  function Min(a: nat, b: nat): nat { if a < b then a else b }

  /** The first `n` arguments are terminated in the buffer, all of them before `limit`. */
  ghost predicate Laid(buf: array<char>, s: string, args: seq<Span>, n: nat, limit: nat)
    reads buf
  {
    n <= |args| && forall k :: 0 <= k < n ==> Terminated(buf, s, args[k]) && args[k].to < limit
  }

  /** The first `n` slots of argv point at the first `n` arguments. */
  ghost predicate PointsAt(argv: array<Arg>, args: seq<Span>, n: nat)
    reads argv
  {
    n <= |args| && n <= argv.Length && forall k :: 0 <= k < n ==> argv[k] == At(args[k].from)
  }

  lemma {:induction false} ArgumentsStep(s: string, args: seq<Span>, n: nat, c: nat)
    requires c < |s| && n <= |args| && args[n..] == Arguments(s, c)
    ensures n < |args| && args[n] == Span(c, SepIndex(s, ' ', c))
    ensures args[n + 1..] ==
            var q := SepIndex(s, ' ', c); if q == |s| then [] else Arguments(s, SkipFrom(s, q + 1))
  {
    assert args[n] == args[n..][0] && args[n + 1..] == args[n..][1..];
  }

  /** One word is cut off; the words before it are not disturbed. */
  method CutWord(buf: array<char>, start: nat, ghost s: string, ghost args: seq<Span>, ghost n: nat)
    returns (c: nat, last: bool)
    requires Clean(s) && Intact(buf, s, start) && start < |s|
    requires Laid(buf, s, args, n, start) && args[n..] == Arguments(s, start)
    modifies buf
    ensures start < c && Intact(buf, s, c) && n < |args| && args[n].from == start
    ensures Laid(buf, s, args, n + 1, if last then c + 1 else c) && (last ==> c == |s|)
    ensures args[n + 1..] == Arguments(s, c)
  {
    ArgumentsStep(s, args, n, start);
    c, last := TakeWord(buf, start, s);
    forall k | 0 <= k < n ensures Terminated(buf, s, args[k]) {
      assert old(Terminated(buf, s, args[k]));
    }
  }

  method FillArgv(buf: array<char>, argv: array<Arg>, ghost s: string, ghost args: seq<Span>) returns (argc: nat)
    requires Clean(s) && Intact(buf, s, 0) && argv.Length == ARGV_LEN && args == Arguments(s, 0)
    modifies buf, argv
    ensures argc == Min(ARGV_LEN - 1, |args|)
    ensures PointsAt(argv, args, argc) && Laid(buf, s, args, argc, |s| + 1)
  {
    var c: nat := 0;
    argc := 0;
    assert args[0..] == args;
    while buf[c] != NUL && argc < ARGV_LEN - 1
      invariant argc < ARGV_LEN && Intact(buf, s, c)
      invariant PointsAt(argv, args, argc) && Laid(buf, s, args, argc, c)
      invariant args[argc..] == Arguments(s, c)
      decreases |s| - c
    {
      argv[argc] := At(c);
      var last;
      c, last := CutWord(buf, c, s, args, argc);
      argc := argc + 1;
      if last {
        break;
      }
    }
    assert c == |s| ==> |args[argc..]| == 0;
  }

  /**
    The command line becomes `argv`: its arguments in order, each terminated in
    place, at most 63 of them, closed by a null.  Without a command line argv is
    the program name.
   */
  method SplitArguments(got: bool, buf: array<char>, argv: array<Arg>, ghost s: string) returns (argc: nat)
    requires Clean(s) && Intact(buf, s, 0) && argv.Length == ARGV_LEN
    modifies buf, argv
    ensures argc < ARGV_LEN && argv[argc] == Null
    ensures !got || s == [] ==> argc == 1 && argv[0] == ProgramName
    ensures got && s != [] ==>
              && argc == Min(ARGV_LEN - 1, |Arguments(s, 0)|)
              && PointsAt(argv, Arguments(s, 0), argc) && Laid(buf, s, Arguments(s, 0), argc, |s| + 1)
    ensures got && s != [] ==>
              forall k :: 0 <= k < argc ==>
                var x := Arguments(s, 0)[k];
                && x.from <= x.to <= |s| && x.to < buf.Length && argv[k] == At(x.from) && buf[x.to] == NUL
                && forall i :: x.from <= i < x.to ==> buf[i] == s[i]
  {
    if got && buf[0] != NUL {
      argc := FillArgv(buf, argv, s, Arguments(s, 0));
    } else {
      argv[0] := ProgramName;
      argc := 1;
    }
    argv[argc] := Null;
  }
}
