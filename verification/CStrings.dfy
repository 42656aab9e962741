/**
  C strings and the flat "argz" layout: a list of NUL-free strings stored back
  to back, each closed by a NUL.  `Encode` and `Decode` are the two directions
  between the list and the bytes; the argz and envz modules are specified
  against them.
 */
module CStrings {

  const NUL: char := '\0'

  /** A C string's contents: no terminator inside. */
  predicate Clean(s: string) {
    forall i :: 0 <= i < |s| ==> s[i] != NUL
  }

  predicate AllClean(l: seq<string>) {
    forall k :: 0 <= k < |l| ==> Clean(l[k])
  }

  /** `str` stands at position `p` of `buf`. */
  predicate MatchAt(str: string, buf: string, p: nat) {
    p + |str| <= |buf| && forall i :: 0 <= i < |str| ==> buf[p + i] == str[i]
  }

  /** A buffer is well formed when it is empty or its last byte is a NUL. */
  predicate WellFormed(buf: string) {
    |buf| == 0 || buf[|buf| - 1] == NUL
  }

  /** Index of the terminator of the string that starts at `p` (strlen plus `p`). */
  function StrEnd(buf: string, p: nat): (e: nat)
    requires p < |buf| && WellFormed(buf)
    ensures p <= e < |buf| && buf[e] == NUL
    ensures forall i :: p <= i < e ==> buf[i] != NUL
    decreases |buf| - p
  {
    if buf[p] == NUL then p else StrEnd(buf, p + 1)
  }

  function Encode(l: seq<string>): string {
    if |l| == 0 then [] else l[0] + [NUL] + Encode(l[1..])
  }

  function Decode(buf: string): (l: seq<string>)
    requires WellFormed(buf)
    ensures AllClean(l)
    decreases |buf|
  {
    if |buf| == 0 then [] else
      var e := StrEnd(buf, 0);
      [buf[..e]] + Decode(buf[e + 1..])
  }

  /** Offset in the encoding at which entry `k` starts. */
  function Offset(l: seq<string>, k: nat): nat
    requires k <= |l|
  {
    if k == 0 then 0 else |l[0]| + 1 + Offset(l[1..], k - 1)
  }

  lemma {:induction false} Assoc(x: string, y: string, z: string)
    ensures (x + y) + z == x + (y + z)
  {
  }

  // ----- the two directions undo each other

  lemma {:induction false} EncodeWellFormed(l: seq<string>)
    ensures WellFormed(Encode(l))
  {
    if |l| > 0 {
      EncodeWellFormed(l[1..]);
    }
  }

  lemma {:induction false} EncodeCons(e: string, l: seq<string>)
    ensures Encode([e] + l) == e + [NUL] + Encode(l)
  {
    assert ([e] + l)[1..] == l;
  }

  lemma {:induction false} SplitAround(s: string, e: nat)
    requires e < |s|
    ensures s == s[..e] + [s[e]] + s[e + 1..]
  {
  }

  lemma {:induction false} EncodeDecode(buf: string)
    requires WellFormed(buf)
    ensures Encode(Decode(buf)) == buf
    decreases |buf|
  {
    if |buf| > 0 {
      var e := StrEnd(buf, 0);
      EncodeDecode(buf[e + 1..]);
      EncodeCons(buf[..e], Decode(buf[e + 1..]));
      SplitAround(buf, e);
    }
  }

  /** The first entry of `e NUL rest` is `e`. */
  lemma {:induction false} DecodeCons(e: string, rest: string)
    requires Clean(e) && WellFormed(rest)
    ensures WellFormed(e + [NUL] + rest)
    ensures Decode(e + [NUL] + rest) == [e] + Decode(rest)
  {
    var buf := e + [NUL] + rest;
    assert buf[|e|] == NUL;
    assert StrEnd(buf, 0) == |e|;
    assert buf[..|e|] == e && buf[|e| + 1..] == rest;
  }

  lemma {:induction false} DecodeEncode(l: seq<string>)
    requires AllClean(l)
    ensures WellFormed(Encode(l)) && Decode(Encode(l)) == l
  {
    if |l| > 0 {
      DecodeEncode(l[1..]);
      DecodeCons(l[0], Encode(l[1..]));
      assert l == [l[0]] + l[1..];
    }
  }

  lemma {:induction false} EncodeConcat(a: seq<string>, b: seq<string>)
    ensures Encode(a + b) == Encode(a) + Encode(b)
  {
    if |a| == 0 {
      assert a + b == b;
    } else {
      assert (a + b)[1..] == a[1..] + b;
      calc {
        Encode(a + b);
        a[0] + [NUL] + Encode(a[1..] + b);
        { EncodeConcat(a[1..], b); }
        a[0] + [NUL] + (Encode(a[1..]) + Encode(b));
        { Assoc(a[0] + [NUL], Encode(a[1..]), Encode(b)); }
        Encode(a) + Encode(b);
      }
    }
  }

  lemma {:induction false} DecodeConcat(a: string, b: string)
    requires WellFormed(a) && WellFormed(b)
    ensures WellFormed(a + b) && Decode(a + b) == Decode(a) + Decode(b)
  {
    var l := Decode(a) + Decode(b);
    EncodeDecode(a);
    EncodeDecode(b);
    EncodeConcat(Decode(a), Decode(b));
    DecodeEncode(l);
  }

  lemma {:induction false} EncodeSingle(e: string)
    ensures Encode([e]) == e + [NUL]
  {
    assert [e][1..] == [];
  }

  lemma {:induction false} OffsetIsLength(l: seq<string>, k: nat)
    requires k <= |l|
    ensures Offset(l, k) == |Encode(l[..k])|
  {
    if k > 0 {
      OffsetIsLength(l[1..], k - 1);
      assert l[..k][1..] == l[1..][..k - 1];
    }
  }

  lemma {:induction false} OffsetCons(e: string, l: seq<string>, k: nat)
    requires 0 < k <= |l| + 1
    ensures Offset([e] + l, k) == |e| + 1 + Offset(l, k - 1)
  {
    assert ([e] + l)[1..] == l;
  }

  lemma {:induction false} OffsetNext(l: seq<string>, k: nat)
    requires k < |l|
    ensures Offset(l, k + 1) == Offset(l, k) + |l[k]| + 1
  {
    if k > 0 {
      OffsetNext(l[1..], k - 1);
    }
  }

  /** Cutting the list at entry `k` cuts the bytes at `Offset(l, k)`. */
  lemma {:induction false} CutAt(l: seq<string>, k: nat)
    requires k <= |l|
    ensures Encode(l) == Encode(l[..k]) + Encode(l[k..])
    ensures Offset(l, k) == |Encode(l[..k])| <= |Encode(l)|
  {
    assert l == l[..k] + l[k..];
    EncodeConcat(l[..k], l[k..]);
    OffsetIsLength(l, k);
  }

  lemma {:induction false} EncodeFrom(l: seq<string>, k: nat)
    requires k < |l|
    ensures Encode(l[k..]) == l[k] + [NUL] + Encode(l[k + 1..])
  {
    assert l[k..][1..] == l[k + 1..];
  }

  // ----- locating a position

  /** Index of the entry a byte position belongs to (its terminator included). */
  function EntryIndex(l: seq<string>, p: nat): (k: nat)
    requires p < |Encode(l)|
    ensures k < |l|
  {
    if p <= |l[0]| then 0 else 1 + EntryIndex(l[1..], p - |l[0]| - 1)
  }

  /** `EntryIndex` names the entry whose bytes, terminator included, hold `p`. */
  lemma {:induction false} EntryIndexHolds(l: seq<string>, p: nat)
    requires p < |Encode(l)|
    ensures Offset(l, EntryIndex(l, p)) <= p <= Offset(l, EntryIndex(l, p)) + |l[EntryIndex(l, p)]|
  {
    if p > |l[0]| {
      EntryIndexHolds(l[1..], p - |l[0]| - 1);
    }
  }

  /** The start of entry `k` belongs to entry `k`. */
  lemma {:induction false} IndexOfOffset(l: seq<string>, k: nat)
    requires k < |l| && Offset(l, k) < |Encode(l)|
    ensures EntryIndex(l, Offset(l, k)) == k
  {
    if k > 0 {
      IndexOfOffset(l[1..], k - 1);
    }
  }

  lemma {:induction false} EndUnique(buf: string, p: nat, e: nat)
    requires WellFormed(buf) && p <= e < |buf| && buf[e] == NUL
    requires forall i :: p <= i < e ==> buf[i] != NUL
    ensures StrEnd(buf, p) == e
  {
  }

  /** The string at a later byte of a string ends where that string ends. */
  lemma {:induction false} EndInside(buf: string, p: nat, q: nat)
    requires WellFormed(buf) && p < |buf| && p <= q <= StrEnd(buf, p)
    ensures StrEnd(buf, q) == StrEnd(buf, p)
  {
    EndUnique(buf, q, StrEnd(buf, p));
  }

  lemma {:induction false} EndAt(buf: string, p: nat, x: string)
    requires WellFormed(buf) && Clean(x)
    requires p + |x| < |buf| && MatchAt(x, buf, p) && buf[p + |x|] == NUL
    ensures StrEnd(buf, p) == p + |x|
  {
    forall i | p <= i < p + |x| ensures buf[i] != NUL {
      assert buf[p + (i - p)] == x[i - p];
    }
  }

  lemma {:induction false} PieceAt(buf: string, a: string, x: string, b: string)
    requires WellFormed(a) && buf == a + (x + [NUL] + b)
    ensures |a| + |x| < |buf| && MatchAt(x, buf, |a|) && buf[|a| + |x|] == NUL
    ensures |a| == 0 || buf[|a| - 1] == NUL
  {
  }

  lemma {:induction false} StringInside(buf: string, a: string, x: string, b: string)
    requires WellFormed(buf) && WellFormed(a) && Clean(x) && buf == a + (x + [NUL] + b)
    ensures |a| + |x| < |buf| && StrEnd(buf, |a|) == |a| + |x|
    ensures MatchAt(x, buf, |a|)
    ensures |a| == 0 || buf[|a| - 1] == NUL
  {
    PieceAt(buf, a, x, b);
    EndAt(buf, |a|, x);
  }

  /** The bytes are those of the entries before `k`, entry `k`, and those after. */
  lemma {:induction false} Around(buf: string, l: seq<string>, k: nat)
    requires WellFormed(buf) && l == Decode(buf) && k < |l|
    ensures buf == Encode(l[..k]) + (l[k] + [NUL] + Encode(l[k + 1..]))
    ensures Offset(l, k) == |Encode(l[..k])|
  {
    EncodeDecode(buf);
    CutAt(l, k);
    EncodeFrom(l, k);
  }

  /**
    The string found at the offset of entry `k` is entry `k`, and the byte
    before it, if any, is the terminator of the entry before.
   */
  lemma {:induction false} StringAtOffset(buf: string, l: seq<string>, k: nat)
    requires WellFormed(buf) && l == Decode(buf) && k < |l|
    ensures Offset(l, k) + |l[k]| < |buf|
    ensures StrEnd(buf, Offset(l, k)) == Offset(l, k) + |l[k]|
    ensures MatchAt(l[k], buf, Offset(l, k))
    ensures Offset(l, k) == 0 || buf[Offset(l, k) - 1] == NUL
  {
    Around(buf, l, k);
    EncodeWellFormed(l[..k]);
    StringInside(buf, Encode(l[..k]), l[k], Encode(l[k + 1..]));
  }

  /** The entry that byte `p` of a buffer belongs to. */
  function EntryOf(buf: string, p: nat): (k: nat)
    requires WellFormed(buf) && p < |buf|
    ensures k < |Decode(buf)|
  {
    EncodeDecode(buf);
    EntryIndex(Decode(buf), p)
  }

  lemma {:induction false} EntryOfHolds(buf: string, p: nat, l: seq<string>, k: nat)
    requires WellFormed(buf) && p < |buf| && l == Decode(buf) && k == EntryOf(buf, p)
    ensures k < |l| && Offset(l, k) <= p <= Offset(l, k) + |l[k]|
  {
    EncodeDecode(buf);
    EntryIndexHolds(l, p);
  }

  /** The string at any byte of an entry ends where the entry ends. */
  lemma {:induction false} EndOfEntry(buf: string, p: nat, l: seq<string>, k: nat)
    requires WellFormed(buf) && p < |buf| && l == Decode(buf) && k == EntryOf(buf, p)
    ensures k < |l| && StrEnd(buf, p) == Offset(l, k) + |l[k]|
  {
    EntryOfHolds(buf, p, l, k);
    StringAtOffset(buf, l, k);
    EndUnique(buf, p, StrEnd(buf, Offset(l, k)));
  }

  /** Walking left from `p` to the byte after a NUL (or to 0) stops at the start of `p`'s entry. */
  lemma {:induction false} EntryStartUnique(buf: string, b: nat, p: nat)
    requires WellFormed(buf) && b <= p < |buf|
    requires b == 0 || buf[b - 1] == NUL
    requires forall i :: b <= i < p ==> buf[i] != NUL
    ensures b == Offset(Decode(buf), EntryOf(buf, p))
  {
    var l, k := Decode(buf), EntryOf(buf, p);
    EntryOfHolds(buf, p, l, k);
    StringAtOffset(buf, l, k);
  }
}
