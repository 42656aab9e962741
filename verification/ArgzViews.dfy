/**
  Three ways to look at an argz vector: `argz_count` counts terminators,
  `argz_next` steps from entry to entry, and `argz_extract` fills an argv array
  scanning backwards.  All three are specified by the offsets of the entries.
 */
module ArgzViews {
  import opened CStrings

  datatype Ptr = Null | At(off: nat)

  function NulCount(s: string): nat {
    if |s| == 0 then 0 else NulCount(s[..|s| - 1]) + (if s[|s| - 1] == NUL then 1 else 0)
  }

  /** The start offsets of the entries, in order. */
  function Offsets(l: seq<string>): seq<nat> {
    seq(|l|, k requires 0 <= k < |l| => Offset(l, k))
  }

  // ----- terminators and entries

  lemma {:induction false} NulCountConcat(a: string, b: string)
    ensures NulCount(a + b) == NulCount(a) + NulCount(b)
  {
    if |b| == 0 {
      assert a + b == a;
    } else {
      NulCountConcat(a, b[..|b| - 1]);
      assert (a + b)[..|a + b| - 1] == a + b[..|b| - 1];
    }
  }

  lemma {:induction false} NulCountClean(s: string)
    requires Clean(s)
    ensures NulCount(s) == 0
  {
    if |s| > 0 {
      NulCountClean(s[..|s| - 1]);
    }
  }

  lemma {:induction false} NulCountEncode(l: seq<string>)
    requires AllClean(l)
    ensures NulCount(Encode(l)) == |l|
  {
    if |l| > 0 {
      NulCountEncode(l[1..]);
      NulCountClean(l[0]);
      assert (l[0] + [NUL])[..|l[0]|] == l[0];
      NulCountConcat(l[0] + [NUL], Encode(l[1..]));
    }
  }

  lemma {:induction false} NulCountDecode(buf: string)
    requires WellFormed(buf)
    ensures NulCount(buf) == |Decode(buf)|
  {
    EncodeDecode(buf);
    NulCountEncode(Decode(buf));
  }

  /** A NUL ends the entry it belongs to; the NULs before it number the entry. */
  lemma {:induction false} TerminatorOf(buf: string, l: seq<string>, p: nat)
    requires WellFormed(buf) && l == Decode(buf) && p < |buf| && buf[p] == NUL
    ensures EntryOf(buf, p) == NulCount(buf[..p])
    ensures Offset(l, NulCount(buf[..p]) + 1) == p + 1
  {
    var k := EntryOf(buf, p);
    EndOfEntry(buf, p, l, k);
    var a := Encode(l[..k]);
    OffsetNext(l, k);
    assert buf[..p] == a + l[k] by {
      Around(buf, l, k);
    }
    NulCountConcat(a, l[k]);
    NulCountEncode(l[..k]);
    NulCountClean(l[k]);
  }

  lemma {:induction false} NulCountNext(buf: string, i: nat)
    requires i < |buf|
    ensures NulCount(buf[..i + 1]) == NulCount(buf[..i]) + (if buf[i] == NUL then 1 else 0)
  {
    assert buf[..i + 1][..i] == buf[..i];
  }

  // ----- the operations

  method Count(argz: string) returns (count: nat)
    ensures count == NulCount(argz)
    ensures WellFormed(argz) ==> count == |Decode(argz)|
  {
    count := 0;
    for i := 0 to |argz|
      invariant count == NulCount(argz[..i])
    {
      NulCountNext(argz, i);
      if argz[i] == NUL {
        count := count + 1;
      }
    }
    assert argz[..|argz|] == argz;
    if WellFormed(argz) {
      NulCountDecode(argz);
    }
  }

  /** `argz_next`: from any byte of entry k to the start of entry k + 1, if there is one. */
  method Next(argz: string, entry: Ptr) returns (r: Ptr)
    requires WellFormed(argz) && (entry.At? ==> entry.off < |argz|)
    ensures entry.Null? ==> r == if |argz| > 0 then At(0) else Null
    ensures entry.At? ==>
              var l, k := Decode(argz), EntryOf(argz, entry.off);
              r == if k + 1 < |l| then At(Offset(l, k + 1)) else Null
  {
    if entry.At? {
      var p := entry.off;
      while argz[p] != NUL
        invariant entry.off <= p < |argz|
        invariant forall i :: entry.off <= i < p ==> argz[i] != NUL
        decreases |argz| - p
      {
        p := p + 1;
      }
      NextStart(argz, Decode(argz), entry.off, p);
      p := p + 1;
      if p >= |argz| {
        return Null;
      } else {
        return At(p);
      }
    } else {
      if |argz| > 0 {
        return At(0);
      } else {
        return Null;
      }
    }
  }

  /** The first NUL at or after a byte of entry k is followed by entry k + 1, or ends the vector. */
  lemma {:induction false} NextStart(argz: string, l: seq<string>, from: nat, p: nat)
    requires WellFormed(argz) && l == Decode(argz) && from <= p < |argz| && argz[p] == NUL
    requires forall i :: from <= i < p ==> argz[i] != NUL
    ensures Offset(l, EntryOf(argz, from) + 1) == p + 1
    ensures p + 1 < |argz| <==> EntryOf(argz, from) + 1 < |l|
  {
    var k := EntryOf(argz, from);
    EndOfEntry(argz, from, l, k);
    EndUnique(argz, from, p);
    OffsetNext(l, k);
    LastOffset(argz, l, k + 1);
  }

  lemma {:induction false} LastOffset(argz: string, l: seq<string>, k: nat)
    requires WellFormed(argz) && l == Decode(argz) && k <= |l|
    ensures Offset(l, k) < |argz| <==> k < |l|
  {
    EncodeDecode(argz);
    if k == |l| {
      OffsetIsLength(l, k);
      assert l[..k] == l;
    } else {
      StringAtOffset(argz, l, k);
    }
  }

  /** Iterating `argz_next` from a null pointer visits exactly the entry starts, in order. */
  method Walk(argz: string) returns (visited: seq<nat>)
    requires WellFormed(argz)
    ensures visited == Offsets(Decode(argz))
    ensures |visited| == NulCount(argz)
  {
    ghost var l := Decode(argz);
    NulCountDecode(argz);
    visited := [];
    var p := Next(argz, Null);
    while p.At?
      invariant |visited| <= |l|
      invariant p == if |visited| < |l| then At(Offset(l, |visited|)) else Null
      invariant forall i :: 0 <= i < |visited| ==> visited[i] == Offset(l, i)
      decreases |l| - |visited|
    {
      LastOffset(argz, l, |visited|);
      StartBelongs(argz, l, |visited|);
      visited := visited + [p.off];
      p := Next(argz, p);
    }
  }

  lemma {:induction false} StartBelongs(argz: string, l: seq<string>, k: nat)
    requires WellFormed(argz) && l == Decode(argz) && k < |l|
    ensures Offset(l, k) < |argz| && EntryOf(argz, Offset(l, k)) == k
  {
    StringAtOffset(argz, l, k);
    EncodeDecode(argz);
    IndexOfOffset(l, k);
  }

  /**
    `argz_extract`.  The backward scan stops before byte 0, so when the first
    of two or more entries is empty the slot of the second entry is never
    written; in every other case argv holds the entry starts and a null.
   */
  method Extract(argz: string, argv: array<Ptr>)
    requires WellFormed(argz) && |Decode(argz)| < argv.Length
    modifies argv
    ensures var l := Decode(argz);
            && argv[|l|] == Null
            && (forall k :: 0 <= k < |l| && !(k == 1 && l[0] == []) ==> argv[k] == At(Offset(l, k)))
            && (|l| >= 2 && l[0] == [] ==> argv[1] == old(argv[1]))
            && (forall k :: |l| < k < argv.Length ==> argv[k] == old(argv[k]))
  {
    ghost var l := Decode(argz);
    var count := Count(argz);
    if |argz| > 1 {
      ScanBack(argz, argv, count, l, Offsets(l));
      FirstByte(argz, l);
    }
    argv[0] := At(0);
    argv[count] := Null;
  }

  /** The backward scan: every entry start behind a terminator, except one behind byte 0. */
  method ScanBack(argz: string, argv: array<Ptr>, count: nat, ghost l: seq<string>, ghost starts: seq<nat>)
    requires WellFormed(argz) && |argz| > 1 && l == Decode(argz) && starts == Offsets(l)
    requires count == |l| < argv.Length
    modifies argv
    ensures NulCount(argz[..1]) < count
    ensures forall k :: NulCount(argz[..1]) < k < count ==> argv[k] == At(starts[k])
    ensures forall k :: 0 <= k <= NulCount(argz[..1]) || count <= k < argv.Length ==> argv[k] == old(argv[k])
  {
    var j, i := 0, |argz| - 2;
    ghost var n: nat := NulCount(argz[..i + 1]);  // terminators not yet scanned
    AllButLast(argz, l);
    while i > 0
      invariant 0 <= i <= |argz| - 2
      invariant n == NulCount(argz[..i + 1]) && j + 1 + n == count
      invariant forall k :: n < k < count ==> argv[k] == At(starts[k])
      invariant forall k :: 0 <= k <= n || count <= k < argv.Length ==> argv[k] == old(argv[k])
    {
      ScanStep(argz, l, i);
      if argz[i] == NUL {
        j := j + 1;
        argv[count - j] := At(i + 1);
        n := n - 1;
      }
      i := i - 1;
    }
  }

  lemma {:induction false} AllButLast(argz: string, l: seq<string>)
    requires WellFormed(argz) && |argz| > 0 && l == Decode(argz)
    ensures NulCount(argz[..|argz| - 1]) + 1 == |l|
  {
    NulCountDecode(argz);
    NulCountNext(argz, |argz| - 1);
    assert argz[..|argz|] == argz;
  }

  /** Scanning back over byte `i`: a terminator is followed by the entry its number tells. */
  lemma {:induction false} ScanStep(argz: string, l: seq<string>, i: nat)
    requires WellFormed(argz) && l == Decode(argz) && i + 1 < |argz|
    ensures argz[i] != NUL ==> NulCount(argz[..i]) == NulCount(argz[..i + 1])
    ensures argz[i] == NUL ==>
              var n := NulCount(argz[..i + 1]);
              0 < n < |l| && NulCount(argz[..i]) == n - 1 && Offsets(l)[n] == i + 1
  {
    NulCountNext(argz, i);
    if argz[i] == NUL {
      TerminatorOf(argz, l, i);
      LastOffset(argz, l, NulCount(argz[..i + 1]));
    }
  }

  lemma {:induction false} FirstByte(argz: string, l: seq<string>)
    requires WellFormed(argz) && |argz| > 1 && l == Decode(argz)
    ensures |l| > 0 && NulCount(argz[..1]) == if l[0] == [] then 1 else 0
    ensures l[0] == [] ==> |l| >= 2
  {
    assert argz[..1][..0] == [];
    var e := StrEnd(argz, 0);
    assert l[0] == argz[..e];
    if e == 0 {
      assert |Decode(argz[1..])| > 0;
    }
  }

  /** The vector of "" and "a". */
  lemma {:induction false} EmptyFirst() returns (argz: string)
    ensures argz == [NUL, 'a', NUL] && WellFormed(argz) && Decode(argz) == ["", "a"]
    ensures Offset(["", "a"], 1) == 1
  {
    var l := ["", "a"];
    argz := [NUL, 'a', NUL];
    assert argz == Encode(l) by {
      assert l[1..] == ["a"];
      EncodeSingle("a");
      assert "" + [NUL] + ("a" + [NUL]) == argz;
    }
    DecodeEncode(l);
  }

  /** On it the slot of "a", which starts at byte 1, keeps what was in it. */
  method SecondSlotUnwritten(argv: array<Ptr>)
    requires argv.Length >= 3
    modifies argv
    ensures argv[0] == At(0) && argv[1] == old(argv[1]) && argv[2] == Null
  {
    ghost var argz := EmptyFirst();
    Extract([NUL, 'a', NUL], argv);
  }
}
