/**
  The argz vector of libc/argz: a heap block and its length, edited through
  realloc, memmove and memcpy.  Every operation is specified on the decoded
  list of entries.
 */
module Argz {
  import opened Base
  import opened CStrings
  import opened CMemory
  import opened ArgzSearch

  datatype Error = OK | EINVAL

  /** The `char **argz, size_t *argz_len` pair that the operations update. */
  class Vector {
    var mem: string
    var len: nat

    ghost predicate Valid()
      reads this
    {
      len == |mem| && WellFormed(mem)
    }

    ghost function Entries(): seq<string>
      requires Valid()
      reads this
    {
      Decode(mem)
    }

    constructor ()
      ensures Valid() && Entries() == []
    {
      mem := [];
      len := 0;
    }

    /** `argz_add`; a null string adds nothing. */
    method Add(str: Option<string>)
      requires Valid() && (str.Some? ==> Clean(str.value))
      modifies this
      ensures Valid()
      ensures str.None? ==> mem == old(mem)
      ensures str.Some? ==> Entries() == old(Entries()) + [str.value]
    {
      if str.None? {
        return;
      }
      var last := len;
      var bytes := str.value + [NUL];
      len := len + |bytes|;
      mem := Realloc(mem, len);
      OverlayAppends(mem, last, bytes);
      mem := Overlay(mem, last, bytes);
      assert mem == old(mem) + bytes;
      AppendEntry(old(mem), str.value);
    }

    /**
      `argz_insert` before the byte at offset `before`.  `None` is a null
      pointer; an offset outside the vector is refused.  Only an actual
      insertion reads the string.
     */
    method Insert(before: Option<int>, str: Option<string>) returns (r: Error)
      requires Valid() && (str.Some? ==> Clean(str.value))
      requires before.Some? && 0 <= before.value < len ==> str.Some?
      modifies this
      ensures Valid()
      ensures before.None? ==> r == OK && (str.None? ==> mem == old(mem))
      ensures before.None? && str.Some? ==> Entries() == old(Entries()) + [str.value]
      ensures before.Some? && !(0 <= before.value < old(len)) ==> r == EINVAL && mem == old(mem)
      ensures before.Some? && 0 <= before.value < old(len) ==>
                r == OK && InsertedBefore(old(mem), before.value, str.value, mem)
      ensures before.Some? && 0 <= before.value < old(len) ==>
                var l, k := old(Entries()), EntryOf(old(mem), before.value);
                k < |l| && Entries() == l[..k] + [str.value] + l[k..]
    {
      if before.None? {
        Add(str);
        return OK;
      }
      if before.value < 0 || before.value >= len {
        return EINVAL;
      }
      mem := InsertInto(mem, len, before.value, str.value);
      len := |mem|;
      return OK;
    }

    /**
      `argz_delete` at offset `entry`; `None` is a null pointer.  At the start of
      an entry it removes the entry.  From inside an entry it removes the rest of
      it with its terminator, so that the next entry joins on; without a next
      entry the vector loses its last terminator.
     */
    method Delete(entry: Option<nat>)
      requires Valid() && (entry.Some? ==> entry.value < len)
      modifies this
      ensures len == |mem|
      ensures entry.None? ==> mem == old(mem)
      ensures entry.Some? ==> mem == DeleteBytes(old(mem), entry.value)
      ensures entry.Some? ==>
                (Valid() <==> IsEntryStart(old(mem), entry.value) || !InLastEntry(old(mem), entry.value))
      ensures entry.Some? && Valid() ==> Entries() == Deleted(old(mem), entry.value)
      ensures entry.Some? && IsEntryStart(old(mem), entry.value) ==>
                var l, k := old(Entries()), EntryOf(old(mem), entry.value);
                k < |l| && Valid() && Entries() == l[..k] + l[k + 1..]
    {
      if entry.None? {
        return;
      }
      DeleteAt(mem, entry.value);
      mem := DeleteFrom(mem, len, entry.value);
      len := |mem|;
    }

    /**
      `argz_replace`: leftmost non-overlapping replacement in every entry.  The
      only surprise is the counter: it wraps, and a total that wraps to zero
      leaves the vector alone.
     */
    method Replace(str: string, with: string) returns (count: nat)
      requires Valid() && |str| > 0 && Clean(str) && Clean(with)
      modifies this
      ensures Valid()
      ensures count == TotalOccurrences(old(Entries()), str) % UINT32_RANGE
      ensures Entries() == if CountWraps(TotalOccurrences(old(Entries()), str)) then old(Entries())
                           else ReplaceEach(old(Entries()), str, with)
      ensures TotalOccurrences(old(Entries()), str) < 0x1_0000_0000 ==>
                && count == TotalOccurrences(old(Entries()), str)
                && Entries() == ReplaceEach(old(Entries()), str, with)
    {
      CountFits(TotalOccurrences(Entries(), str));
      mem, count := ReplaceIn(mem, str, with);
      len := |mem|;
    }
  }

  /** The block after `argz_replace`; its size is the new length. */
  method ReplaceIn(mem: string, str: string, with: string) returns (r: string, count: nat)
    requires WellFormed(mem) && |str| > 0 && Clean(str) && Clean(with)
    ensures WellFormed(r) && count == TotalOccurrences(Decode(mem), str) % UINT32_RANGE
    ensures Decode(r) == if CountWraps(TotalOccurrences(Decode(mem), str)) then Decode(mem)
                         else ReplaceEach(Decode(mem), str, with)
  {
    var newLen;
    count, newLen := CountPass(mem, str, with);
    ReplaceDecoded(mem, str, with);
    r := mem;
    if count != 0 {
      var block := CopyPass(mem, str, with, newLen);
      r := Realloc(r, newLen);
      r := Overlay(r, 0, block);
      assert r == block;
    } else if TotalOccurrences(Decode(mem), str) == 0 {
      NothingToReplace(mem, str, with);
    }
  }

  lemma {:induction false} CountFits(total: nat)
    ensures total < 0x1_0000_0000 ==> total % UINT32_RANGE == total && !CountWraps(total)
  {
  }

  /** The block after `argz_insert` before byte `before`; its size is the new length. */
  method InsertInto(mem: string, len: nat, before: nat, entry: string) returns (r: string)
    requires len == |mem| && WellFormed(mem) && before < len && Clean(entry)
    ensures InsertedBefore(mem, before, entry, r)
  {
    var delta := StartOfEntry(mem, before);
    var bytes := entry + [NUL];
    InsertEntry(mem, EntryOf(mem, before), entry);
    r := Realloc(mem, len + |bytes|);
    ShiftUp(mem, r, delta, bytes);
    r := Moved(r, delta + |bytes|, delta, len - delta);
    r := Overlay(r, delta, bytes);
  }

  /** The block after `argz_delete` at `entry`; its size is the new length. */
  method DeleteFrom(mem: string, len: nat, entry: nat) returns (r: string)
    requires len == |mem| && WellFormed(mem) && entry < len
    ensures r == DeleteBytes(mem, entry)
  {
    DeleteIsShift(mem, entry);
    var n := StrEnd(mem, entry) + 1 - entry;
    r := Moved(mem, entry, entry + n, len - (entry + n));
    r := Realloc(r, len - n);
  }

  /** The backward walk of `argz_insert` from a byte of an entry to the entry's start. */
  method StartOfEntry(buf: string, p: nat) returns (b: nat)
    requires WellFormed(buf) && p < |buf|
    ensures b <= p && b == Offset(Decode(buf), EntryOf(buf, p))
  {
    b := p;
    while b != 0 && buf[b - 1] != NUL
      invariant b <= p
      invariant forall i :: b <= i < p ==> buf[i] != NUL
    {
      b := b - 1;
    }
    EntryStartUnique(buf, b, p);
  }

  // ----- bytes of insert and delete, and what they do to the entries

  function InsertBytes(buf: string, at: nat, entry: string): string
    requires at <= |buf|
  {
    buf[..at] + (entry + [NUL]) + buf[at..]
  }

  function DeleteBytes(buf: string, at: nat): string
    requires at < |buf| && WellFormed(buf)
  {
    buf[..at] + buf[StrEnd(buf, at) + 1..]
  }

  predicate IsEntryStart(buf: string, p: nat) {
    p < |buf| && (p == 0 || buf[p - 1] == NUL)
  }

  lemma {:induction false} AppendEntry(buf: string, e: string)
    requires WellFormed(buf) && Clean(e)
    ensures WellFormed(buf + (e + [NUL])) && Decode(buf + (e + [NUL])) == Decode(buf) + [e]
  {
    EncodeSingle(e);
    DecodeEncode([e]);
    DecodeConcat(buf, e + [NUL]);
  }

  function Inserted(l: seq<string>, k: nat, e: string): seq<string>
    requires k <= |l|
  {
    l[..k] + [e] + l[k..]
  }

  function Without(l: seq<string>, k: nat): seq<string>
    requires k < |l|
  {
    l[..k] + l[k + 1..]
  }

  /** `after` is `buf` with `e` inserted in front of the entry that byte `p` lies in. */
  ghost predicate InsertedBefore(buf: string, p: nat, e: string, after: string)
    requires WellFormed(buf) && p < |buf|
  {
    && WellFormed(after)
    && Decode(after) == Inserted(Decode(buf), EntryOf(buf, p), e)
    && Offset(Decode(buf), EntryOf(buf, p)) <= |buf|
    && after == InsertBytes(buf, Offset(Decode(buf), EntryOf(buf, p)), e)
  }

  lemma {:induction false} InsertParts(buf: string, a: string, b: string, e: string)
    requires buf == a + b
    ensures InsertBytes(buf, |a|, e) == a + (e + [NUL]) + b
  {
    assert buf[..|a|] == a && buf[|a|..] == b;
  }

  lemma {:induction false} DecodeInserted(l: seq<string>, k: nat, e: string)
    requires AllClean(l) && Clean(e) && k <= |l|
    ensures var bytes := Encode(l[..k]) + (e + [NUL]) + Encode(l[k..]);
            WellFormed(bytes) && Decode(bytes) == Inserted(l, k, e)
  {
    EncodeSingle(e);
    EncodeConcat(l[..k], [e]);
    EncodeConcat(l[..k] + [e], l[k..]);
    DecodeEncode(Inserted(l, k, e));
  }

  lemma {:induction false} InsertEntry(buf: string, k: nat, e: string)
    requires WellFormed(buf) && k <= |Decode(buf)| && Clean(e)
    ensures Offset(Decode(buf), k) <= |buf|
    ensures WellFormed(InsertBytes(buf, Offset(Decode(buf), k), e))
    ensures Decode(InsertBytes(buf, Offset(Decode(buf), k), e)) == Inserted(Decode(buf), k, e)
  {
    var l := Decode(buf);
    assert buf == Encode(l[..k]) + Encode(l[k..]) && Offset(l, k) == |Encode(l[..k])| by {
      EncodeDecode(buf);
      CutAt(l, k);
    }
    InsertParts(buf, Encode(l[..k]), Encode(l[k..]), e);
    DecodeInserted(l, k, e);
  }

  lemma {:induction false} DeleteEntry(buf: string, k: nat)
    requires WellFormed(buf) && k < |Decode(buf)|
    ensures Offset(Decode(buf), k) < |buf|
    ensures WellFormed(DeleteBytes(buf, Offset(Decode(buf), k)))
    ensures Decode(DeleteBytes(buf, Offset(Decode(buf), k))) == Without(Decode(buf), k)
  {
    var l := Decode(buf);
    assert buf == Encode(l[..k]) + (l[k] + [NUL] + Encode(l[k + 1..])) && Offset(l, k) == |Encode(l[..k])| by {
      Around(buf, l, k);
    }
    EncodeWellFormed(l[..k]);
    DeleteParts(buf, Encode(l[..k]), l[k], Encode(l[k + 1..]));
    DecodeWithout(l, k);
  }

  lemma {:induction false} DeleteIsShift(mem: string, at: nat)
    requires WellFormed(mem) && at < |mem|
    ensures var n := StrEnd(mem, at) + 1 - at;
            DeleteBytes(mem, at) == Moved(mem, at, at + n, |mem| - at - n)[..|mem| - n]
  {
    ShiftDown(mem, at, StrEnd(mem, at) + 1 - at);
  }

  predicate InLastEntry(buf: string, at: nat)
    requires WellFormed(buf) && at < |buf|
  {
    EntryOf(buf, at) + 1 == |Decode(buf)|
  }

  /** Entry `k` cut off at `d` and joined with the next. */
  function Fused(l: seq<string>, k: nat, d: nat): seq<string>
    requires k + 1 < |l| && d <= |l[k]|
  {
    l[..k] + [l[k][..d] + l[k + 1]] + l[k + 2..]
  }

  /** The entries after a deletion at any byte. */
  ghost function Deleted(buf: string, at: nat): seq<string>
    requires WellFormed(buf) && at < |buf|
    requires IsEntryStart(buf, at) || !InLastEntry(buf, at)
  {
    var l, k := Decode(buf), EntryOf(buf, at);
    EntryOfHolds(buf, at, l, k);
    if IsEntryStart(buf, at) then Without(l, k) else Fused(l, k, at - Offset(l, k))
  }

  lemma {:induction false} DeleteAt(buf: string, at: nat)
    requires WellFormed(buf) && at < |buf|
    ensures WellFormed(DeleteBytes(buf, at)) <==> IsEntryStart(buf, at) || !InLastEntry(buf, at)
    ensures WellFormed(DeleteBytes(buf, at)) ==> Decode(DeleteBytes(buf, at)) == Deleted(buf, at)
  {
    if IsEntryStart(buf, at) {
      EntryStartUnique(buf, at, at);
      DeleteEntry(buf, EntryOf(buf, at));
    } else {
      var d := StartBefore(buf, at, Decode(buf), EntryOf(buf, at));
      DeleteInside(buf, at, Decode(buf), EntryOf(buf, at), d);
    }
  }

  /** Deleting at the second byte of the only entry "ab" leaves "a" without a terminator. */
  lemma {:induction false} Unterminated() returns (buf: string)
    ensures buf == "ab" + [NUL] && WellFormed(buf) && Decode(buf) == ["ab"]
    ensures DeleteBytes(buf, 1) == "a" && !WellFormed("a")
  {
    buf := "ab" + [NUL];
    EncodeSingle("ab");
    DecodeEncode(["ab"]);
    EndUnique(buf, 1, 2);
    assert buf[..1] + buf[3..] == "a";
  }

  /** A byte that does not start an entry lies behind the start of its entry. */
  lemma {:induction false} StartBefore(buf: string, at: nat, l: seq<string>, k: nat) returns (d: nat)
    requires WellFormed(buf) && at < |buf| && !IsEntryStart(buf, at) && l == Decode(buf) && k == EntryOf(buf, at)
    ensures k < |l| && at == Offset(l, k) + d && 0 < d <= |l[k]|
  {
    EntryOfHolds(buf, at, l, k);
    StringAtOffset(buf, l, k);
    d := at - Offset(l, k);
  }

  lemma {:induction false} DeleteInside(buf: string, at: nat, l: seq<string>, k: nat, d: nat)
    requires WellFormed(buf) && at < |buf| && l == Decode(buf)
    requires k < |l| && at == Offset(l, k) + d && 0 < d <= |l[k]|
    ensures k + 1 == |l| ==> !WellFormed(DeleteBytes(buf, at))
    ensures k + 1 < |l| ==> WellFormed(DeleteBytes(buf, at)) && Decode(DeleteBytes(buf, at)) == Fused(l, k, d)
  {
    EncodeDecode(buf);
    InsideBytes(buf, l, k, d);
    if k + 1 < |l| {
      FuseParts(l, k, d);
    } else {
      LastByte(Encode(l[..k]), l[k][..d]);
      NothingAfter(Encode(l[..k]) + l[k][..d], Encode(l[k + 1..]));
    }
  }

  lemma {:induction false} NothingAfter(a: string, b: string)
    requires |b| == 0
    ensures a + b == a
  {
  }

  /** The bytes around a deletion inside entry `k`. */
  lemma {:induction false} InsideBytes(buf: string, l: seq<string>, k: nat, d: nat)
    requires WellFormed(buf) && buf == Encode(l) && AllClean(l) && k < |l| && d <= |l[k]|
    ensures Offset(l, k) + d < |buf|
    ensures DeleteBytes(buf, Offset(l, k) + d) == Encode(l[..k]) + l[k][..d] + Encode(l[k + 1..])
  {
    EncodeWellFormed(l[..k]);
    CutAt(l, k);
    EncodeFrom(l, k);
    PartBytes(buf, Encode(l[..k]), l[k], Encode(l[k + 1..]), d);
  }

  lemma {:induction false} PartBytes(buf: string, a: string, x: string, b: string, d: nat)
    requires WellFormed(buf) && WellFormed(a) && Clean(x) && buf == a + (x + [NUL] + b) && d <= |x|
    ensures |a| + d < |buf| && DeleteBytes(buf, |a| + d) == a + x[..d] + b
  {
    StringInside(buf, a, x, b);
    EndInside(buf, |a|, |a| + d);
    CutInside(buf, a, x, b, d);
  }

  lemma {:induction false} CutInside(buf: string, a: string, x: string, b: string, d: nat)
    requires buf == a + (x + [NUL] + b) && d <= |x|
    ensures buf[..|a| + d] + buf[|a| + |x| + 1..] == a + x[..d] + b
  {
  }

  lemma {:induction false} LastByte(a: string, x: string)
    requires |x| > 0 && Clean(x)
    ensures !WellFormed(a + x)
  {
  }

  lemma {:induction false} FuseParts(l: seq<string>, k: nat, d: nat)
    requires AllClean(l) && k + 1 < |l| && d <= |l[k]|
    ensures var r := Encode(l[..k]) + l[k][..d] + Encode(l[k + 1..]);
            WellFormed(r) && Decode(r) == Fused(l, k, d)
  {
    var e, rest := l[k][..d] + l[k + 1], l[k + 2..];
    EncodeFrom(l, k + 1);
    EncodeSingle(e);
    EncodeConcat(l[..k], [e]);
    EncodeConcat(l[..k] + [e], rest);
    JoinOn(Encode(l[..k]), l[k][..d], l[k + 1], Encode(rest));
    DecodeEncode(Fused(l, k, d));
  }

  lemma {:induction false} JoinOn(a: string, x: string, y: string, z: string)
    ensures a + x + (y + [NUL] + z) == (a + (x + y + [NUL])) + z
  {
  }

  lemma {:induction false} DecodeWithout(l: seq<string>, k: nat)
    requires AllClean(l) && k < |l|
    ensures var bytes := Encode(l[..k]) + Encode(l[k + 1..]);
            WellFormed(bytes) && Decode(bytes) == Without(l, k)
  {
    EncodeConcat(l[..k], l[k + 1..]);
    DecodeEncode(Without(l, k));
  }

  lemma {:induction false} DeleteParts(buf: string, a: string, x: string, b: string)
    requires WellFormed(buf) && WellFormed(a) && Clean(x) && buf == a + (x + [NUL] + b)
    ensures IsEntryStart(buf, |a|) && DeleteBytes(buf, |a|) == a + b
  {
    StringInside(buf, a, x, b);
    DropMiddle(buf, a, x, b);
  }

  lemma {:induction false} DropMiddle(buf: string, a: string, x: string, b: string)
    requires buf == a + (x + [NUL] + b)
    ensures |a| + |x| + 1 <= |buf| && buf[..|a|] + buf[|a| + |x| + 1..] == a + b
  {
  }

  lemma {:induction false} NothingToReplace(buf: string, str: string, with: string)
    requires WellFormed(buf) && |str| > 0 && Clean(str) && Clean(with)
    requires TotalOccurrences(Decode(buf), str) == 0
    ensures ReplaceEach(Decode(buf), str, with) == Decode(buf)
  {
    ReplaceDecoded(buf, str, with);
    NoOccurrence(buf, str, with);
  }

  lemma {:induction false} NoOccurrence(s: string, str: string, with: string)
    requires |str| > 0 && Occurrences(s, str) == 0
    ensures ReplaceAll(s, str, with) == s
    decreases |s|
  {
    if |s| > 0 {
      NoOccurrence(s[1..], str, with);
      assert s == [s[0]] + s[1..];
    }
  }

  /** A number of matches that the counter of `argz_replace` takes for none. */
  predicate CountWraps(total: nat) {
    total != 0 && total % UINT32_RANGE == 0
  }

  function Repeated(n: nat): string {
    if n == 0 then [] else "a" + Repeated(n - 1)
  }

  lemma {:induction false} RepeatedOccurs(n: nat)
    ensures |Repeated(n)| == n && Clean(Repeated(n)) && Occurrences(Repeated(n), "a") == n
  {
    if n > 0 {
      RepeatedOccurs(n - 1);
      var s := Repeated(n);
      assert MatchAt("a", s, 0) && s[1..] == Repeated(n - 1);
    }
  }

  /** 2^32 matches in one entry are replaced by nothing at all. */
  lemma {:induction false} WrappedCount() returns (buf: string)
    ensures WellFormed(buf) && CountWraps(TotalOccurrences(Decode(buf), "a"))
    ensures ReplaceEach(Decode(buf), "a", "b") != Decode(buf)
  {
    var s := Repeated(UINT32_RANGE);
    RepeatedOccurs(UINT32_RANGE);
    EncodeSingle(s);
    DecodeEncode([s]);
    buf := Encode([s]);
    var l := [s];
    assert |l[1..]| == 0;
    assert s[0] == 'a' && MatchAt("a", s, 0);
    assert ReplaceEach([s], "a", "b")[0] == ReplaceAll(s, "a", "b");
    assert ReplaceAll(s, "a", "b")[0] == 'b';
  }

  lemma {:induction false} InsertDeleteParts(buf: string, a: string, b: string, e: string)
    requires buf == a + b && WellFormed(a) && WellFormed(InsertBytes(buf, |a|, e)) && Clean(e)
    ensures var ins := InsertBytes(buf, |a|, e); IsEntryStart(ins, |a|) && DeleteBytes(ins, |a|) == buf
  {
    InsertParts(buf, a, b, e);
    assert a + (e + [NUL]) + b == a + (e + [NUL] + b);
    DeleteParts(InsertBytes(buf, |a|, e), a, e, b);
  }

  /** Deleting at the place of insertion restores the buffer byte for byte. */
  lemma {:induction false} InsertDelete(buf: string, k: nat, e: string)
    requires WellFormed(buf) && Clean(e) && k <= |Decode(buf)|
    ensures var at := Offset(Decode(buf), k);
            && at <= |buf|
            && var ins := InsertBytes(buf, at, e);
               WellFormed(ins) && IsEntryStart(ins, at) && DeleteBytes(ins, at) == buf
  {
    var l := Decode(buf);
    InsertEntry(buf, k, e);
    var a, b := Encode(l[..k]), Encode(l[k..]);
    assert buf == a + b && Offset(l, k) == |a| by {
      EncodeDecode(buf);
      CutAt(l, k);
    }
    EncodeWellFormed(l[..k]);
    InsertDeleteParts(buf, a, b, e);
  }
}
