/**
  The envz operations that edit a store: `envz_remove`, `envz_add` and
  `envz_merge`, on an argz vector.
 */
module EnvzStore {
  import opened Base
  import opened CStrings
  import opened CMemory
  import opened EnvzSpec
  import opened ArgzViews
  import Argz
  import ArgzSep
  import Envz

  /** `envz_remove`: drop the entry the scan stops in. */
  method Remove(v: Argz.Vector, name: string)
    requires v.Valid() && Clean(name) && InBounds(v.Entries(), name)
    modifies v
    ensures v.Valid() && v.Entries() == Removed(old(v.Entries()), name)
  {
    v.mem := RemoveFrom(v.mem, v.len, name);
    v.len := |v.mem|;
  }

  /** The block after `envz_remove`; its size is the new length. */
  method RemoveFrom(mem: string, len: nat, name: string) returns (r: string)
    requires len == |mem| && WellFormed(mem) && Clean(name) && InBounds(Decode(mem), name)
    ensures WellFormed(r) && Decode(r) == Removed(Decode(mem), name)
  {
    var entry := Envz.Entry(mem, name);
    if entry.Null? {
      return mem;
    }
    Argz.DeleteEntry(mem, FirstHit(Decode(mem), name).value);
    r := CutOut(mem, len, entry.off);
  }

  /** The bytes moved down over the entry.  The test always holds; behind the last entry nothing is left to move. */
  method CutOut(mem: string, len: nat, at: nat) returns (r: string)
    requires len == |mem| && WellFormed(mem) && at < len
    ensures r == Argz.DeleteBytes(mem, at)
  {
    Argz.DeleteIsShift(mem, at);
    var n := StrEnd(mem, at) + 1 - at;
    r := mem;
    if len != at + n - 1 {
      r := Moved(r, at, at + n, len - at - n);
    }
    r := Realloc(r, len - n);
  }

  /** `envz_add`: remove, then append `name=value`, or just `name` for a null value. */
  method Add(v: Argz.Vector, name: string, value: Option<string>)
    requires v.Valid() && Clean(name) && InBounds(v.Entries(), name) && (value.Some? ==> Clean(value.value))
    modifies v
    ensures v.Valid() && v.Entries() == Added(old(v.Entries()), name, value)
  {
    Remove(v, name);
    if value.Some? {
      var concat := Malloc(|name| + |value.value| + 1);
      OverlayAppends(concat, 0, name);
      concat := Overlay(concat, 0, name);
      concat := concat[|name| := '='];
      concat := Overlay(concat, |name| + 1, value.value);
      assert concat == name + ['='] + value.value;
      v.Add(Some(concat));
    } else {
      v.Add(Some(name));
    }
  }

  /** `envz_merge`: each entry of the second store in turn, kept or overridden. */
  method Merge(v: Argz.Vector, envz2: string, override: bool)
    requires v.Valid() && WellFormed(envz2) && MergeInBounds(v.Entries(), Decode(envz2), override)
    modifies v
    ensures v.Valid() && v.Entries() == Merged(old(v.Entries()), Decode(envz2), override)
  {
    ghost var l2 := Decode(envz2);
    ghost var goal := Merged(v.Entries(), l2, override);
    ghost var i: nat := 0;
    MergeStart(v.Entries(), l2, override);
    var entry := Next(envz2, Null);
    while entry.At?
      invariant v.Valid() && i <= |l2| && l2 == Decode(envz2)
      invariant entry == if i < |l2| then At(Offset(l2, i)) else Null
      invariant Pending(v.Entries(), l2, i, override, goal)
      decreases |l2| - i
    {
      var str;
      str, entry := TakeEntry(envz2, entry.off, l2, i);
      MergeNext(v, str, override, l2, i, goal);
      i := i + 1;
    }
    MergeEnd(v.Entries(), l2, override, goal);
  }

  /** One turn of the loop, on its way to `goal`. */
  method MergeNext(v: Argz.Vector, str: string, override: bool,
                   ghost l2: seq<string>, ghost i: nat, ghost goal: seq<string>)
    requires v.Valid() && Clean(str) && i < |l2| && str == l2[i] && Pending(v.Entries(), l2, i, override, goal)
    modifies v
    ensures v.Valid() && Pending(v.Entries(), l2, i + 1, override, goal)
  {
    MergeTurn(v.Entries(), l2, i, override, goal);
    MergeOne(v, str, override);
  }

  /** From entry `i` of the second store on, the merge is still to be done, stays in bounds and leads to `goal`. */
  ghost predicate Pending(l: seq<string>, l2: seq<string>, i: nat, override: bool, goal: seq<string>)
    requires i <= |l2|
  {
    MergeInBounds(l, l2[i..], override) && Merged(l, l2[i..], override) == goal
  }

  lemma {:induction false} MergeStart(l: seq<string>, l2: seq<string>, override: bool)
    requires MergeInBounds(l, l2, override)
    ensures Pending(l, l2, 0, override, Merged(l, l2, override))
  {
    assert l2[0..] == l2;
  }

  lemma {:induction false} MergeTurn(l: seq<string>, l2: seq<string>, i: nat, override: bool, goal: seq<string>)
    requires i < |l2| && Pending(l, l2, i, override, goal)
    ensures InBounds(l, NameOf(l2[i])) && Pending(MergedOne(l, l2[i], override), l2, i + 1, override, goal)
  {
    assert l2[i..][1..] == l2[i + 1..];
  }

  lemma {:induction false} MergeEnd(l: seq<string>, l2: seq<string>, override: bool, goal: seq<string>)
    requires Pending(l, l2, |l2|, override, goal)
    ensures l == goal
  {
  }

  /** The entry string at the cursor, and the next entry. */
  method TakeEntry(envz2: string, at: nat, ghost l2: seq<string>, ghost i: nat) returns (str: string, next: Ptr)
    requires WellFormed(envz2) && l2 == Decode(envz2) && i < |l2| && at == Offset(l2, i)
    ensures str == l2[i] && next == if i + 1 < |l2| then At(Offset(l2, i + 1)) else Null
  {
    EntryAt(envz2, l2, i);
    str := envz2[at..StrEnd(envz2, at)];
    next := Next(envz2, At(at));
  }

  lemma {:induction false} EntryAt(envz: string, l: seq<string>, k: nat)
    requires WellFormed(envz) && l == Decode(envz) && k < |l|
    ensures Offset(l, k) < |envz| && EntryOf(envz, Offset(l, k)) == k
    ensures envz[Offset(l, k)..StrEnd(envz, Offset(l, k))] == l[k]
  {
    StringAtOffset(envz, l, k);
    StartBelongs(envz, l, k);
    SliceAt(envz, Offset(l, k), l[k]);
  }

  lemma {:induction false} SliceAt(buf: string, p: nat, x: string)
    requires MatchAt(x, buf, p)
    ensures buf[p..p + |x|] == x
  {
  }

  /** One turn of the merge loop, for the entry string `str`. */
  method MergeOne(v: Argz.Vector, str: string, override: bool)
    requires v.Valid() && Clean(str) && InBounds(v.Entries(), NameOf(str))
    modifies v
    ensures v.Valid() && v.Entries() == MergedOne(old(v.Entries()), str, override)
  {
    var q := ArgzSep.SepIndex(str, '=', 0);
    var name := str[..q];
    if !override {
      var found := Envz.Entry(v.mem, name);
      if found.Null? {
        v.Add(Some(str));
      }
    } else {
      Add(v, name, if q < |str| then Some(str[q + 1..]) else None);
    }
  }
}
