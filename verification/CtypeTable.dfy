/**
  The Unicode class table: the generator of libc/ctype/mkctype.py, which
  compresses a classification into runs, and the binary search of
  libc/ctype/ctype_table.c, which expands it again.
 */
module CtypeTable {
  import opened Base
  import opened Bits

  /** The class names `classes` yields, with the bits of libc/ctype/local.h. */
  datatype Class = Alnum | Alpha | Blank | Cntrl | Digit | Graph | Lower | Print | Punct | Space | Upper | Xdigit | Case

  type Mask = bv16

  const CLASS_alnum: Mask := 0x1
  const CLASS_alpha: Mask := 0x2
  const CLASS_blank: Mask := 0x4
  const CLASS_cntrl: Mask := 0x8
  const CLASS_digit: Mask := 0x10
  const CLASS_graph: Mask := 0x20
  const CLASS_lower: Mask := 0x40
  const CLASS_print: Mask := 0x80
  const CLASS_punct: Mask := 0x100
  const CLASS_space: Mask := 0x200
  const CLASS_upper: Mask := 0x400
  const CLASS_xdigit: Mask := 0x800
  const CLASS_case: Mask := 0x1000

  function Bit(c: Class): Mask {
    match c
    case Alnum => CLASS_alnum
    case Alpha => CLASS_alpha
    case Blank => CLASS_blank
    case Cntrl => CLASS_cntrl
    case Digit => CLASS_digit
    case Graph => CLASS_graph
    case Lower => CLASS_lower
    case Print => CLASS_print
    case Punct => CLASS_punct
    case Space => CLASS_space
    case Upper => CLASS_upper
    case Xdigit => CLASS_xdigit
    case Case => CLASS_case
  }

  /** The value of the expression `classes_name` prints. */
  function MaskOf(cs: seq<Class>): Mask {
    if |cs| == 0 then 0 else Bit(cs[0]) | MaskOf(cs[1..])
  }

  lemma {:induction false} OrMeets(a: Mask, b: Mask, m: Mask)
    ensures (a | b) & m != 0 <==> a & m != 0 || b & m != 0
  {
  }

  lemma {:induction false} BitsApart(c: Class, d: Class)
    ensures Bit(c) & Bit(d) != 0 <==> c == d
  {
  }

  /** A mask has the bit of a class exactly when the class is listed. */
  lemma {:induction false} MaskHas(cs: seq<Class>, d: Class)
    ensures MaskOf(cs) & Bit(d) != 0 <==> d in cs
  {
    if |cs| > 0 {
      MaskHas(cs[1..], d);
      BitsApart(cs[0], d);
      OrMeets(Bit(cs[0]), MaskOf(cs[1..]), Bit(d));
      assert d in cs <==> d == cs[0] || d in cs[1..];
    } else {
      NoBits(Bit(d));
    }
  }

  lemma {:induction false} NoBits(m: Mask)
    ensures 0 & m == 0
  {
  }

  lemma {:induction false} MaskNonzero(cs: seq<Class>)
    requires |cs| > 0
    ensures MaskOf(cs) != 0
  {
    OrNonzero(Bit(cs[0]), MaskOf(cs[1..]));
  }

  lemma {:induction false} OrNonzero(a: Mask, b: Mask)
    requires a != 0
    ensures a | b != 0
  {
  }

  // ----- the table

  datatype Entry = Entry(code: nat, category: Mask)

  predicate Ascending(t: seq<Entry>) {
    forall i, j :: 0 <= i < j < |t| ==> t[i].code < t[j].code
  }

  /** Entry `i` is the one whose run holds `c`. */
  predicate Covers(t: seq<Entry>, i: nat, c: int) {
    i < |t| && t[i].code <= c && (i + 1 < |t| ==> c < t[i + 1].code)
  }

  /** Linear search: the last entry whose code is at most `c`. */
  function LastAtMost(t: seq<Entry>, c: int): (r: Option<nat>)
    ensures r.Some? ==> r.value < |t| && t[r.value].code <= c
    ensures forall i :: (if r.Some? then r.value else -1) < i < |t| ==> c < t[i].code
  {
    if |t| == 0 then None
    else if t[|t| - 1].code <= c then Some(|t| - 1)
    else LastAtMost(t[..|t| - 1], c)
  }

  lemma {:induction false} CoversUnique(t: seq<Entry>, c: int, i: nat)
    requires Ascending(t) && Covers(t, i, c)
    ensures LastAtMost(t, c) == Some(i)
  {
    var r := LastAtMost(t, c);
    assert r.Some? && i <= r.value;
  }

  /**
    For a code below the first entry the upper bound goes from h to h / 2 - 1
    until it is 0 (entry 0 is taken) or wraps below zero (the next read is far
    outside the table).
   */
  predicate Underflows(h: nat) {
    h == 1 || (h > 1 && Underflows(h / 2 - 1))
  }

  /** What the binary search yields, found by linear search; `None` is a read outside the table. */
  function Category(t: seq<Entry>, c: int): Option<Mask>
    requires |t| > 0
  {
    var i := LastAtMost(t, c);
    if i.Some? then Some(t[i.value].category)
    else if Underflows(|t| - 1) then None else Some(t[0].category)
  }

  /** The search loop of `__ctype_table_lookup`, with the wrap of `high` as `None`. */
  method Search(t: seq<Entry>, c: int) returns (r: Option<nat>)
    requires |t| > 0 && Ascending(t)
    ensures t[0].code <= c ==> r.Some? && Covers(t, r.value, c)
    ensures c < t[0].code ==> r == if Underflows(|t| - 1) then None else Some(0)
  {
    var low, high := 0, |t| - 1;
    while low < high
      invariant 0 <= low <= high < |t|
      invariant t[0].code <= c ==> t[low].code <= c && (high + 1 < |t| ==> c < t[high + 1].code)
      invariant c < t[0].code ==> low == 0 && Underflows(high) == Underflows(|t| - 1)
      decreases high - low
    {
      var mid := (low + high) / 2;
      if c < t[mid].code {
        if mid == 0 {
          return None;
        }
        high := mid - 1;
      } else if mid >= |t| || c >= t[mid + 1].code {
        low := mid + 1;
      } else {
        high := mid;
        break;
      }
    }
    return Some(high);
  }

  // ----- the generator

  const NARROW_END: nat := 0x10000
  const WIDE_END: nat := 0xe01f0

  /** Every code below the limit gets its class mask, every other code none. */
  ghost predicate Faithful(t: seq<Entry>, classes: nat -> seq<Class>, limit: nat)
    requires |t| > 0
  {
    forall c: nat :: Category(t, c) == Some(if c < limit then MaskOf(classes(c)) else 0)
  }

  ghost predicate AllEmpty(classes: nat -> seq<Class>, lo: nat, hi: nat) {
    forall x :: lo <= x < hi ==> |classes(x)| == 0
  }

  /** The entries written so far describe the codes below `above`, and the last one a nonempty class. */
  ghost predicate Describes(t: seq<Entry>, classes: nat -> seq<Class>, above: nat) {
    && |t| > 0 && Ascending(t) && t[|t| - 1].code < above
    && Maps(t, classes, above)
    && |classes(above - 1)| > 0
    && t[0].code == (if |classes(0)| == 0 then 1 else 0)
    && (|classes(0)| == 0 ==> (t[0].category == 0 <==> |classes(1)| == 0))
  }

  /** The entries describe the codes below `above`. */
  ghost predicate Maps(t: seq<Entry>, classes: nat -> seq<Class>, above: nat) {
    forall i: nat, x: nat {:trigger Covers(t, i, x)} ::
      Covers(t, i, x) && x < above ==> t[i].category == MaskOf(classes(x))
  }

  /** One more entry, for a run on which the class is constant. */
  lemma {:induction false} AppendRun(t: seq<Entry>, classes: nat -> seq<Class>, from: nat, above: nat, cs: seq<Class>)
    requires Ascending(t) && (|t| > 0 ==> t[|t| - 1].code < from) && Maps(t, classes, from)
    requires forall x :: from <= x < above ==> classes(x) == cs
    ensures Ascending(t + [Entry(from, MaskOf(cs))]) && Maps(t + [Entry(from, MaskOf(cs))], classes, above)
  {
    var r := t + [Entry(from, MaskOf(cs))];
    forall i: nat, x: nat | Covers(r, i, x) && x < above ensures r[i].category == MaskOf(classes(x)) {
      if i < |t| {
        assert r[i] == t[i];
        assert i + 1 < |r| && x < r[i + 1].code;
        if i + 1 < |t| {
          assert r[i + 1] == t[i + 1] && t[i + 1].code <= t[|t| - 1].code;
        }
        assert x < from && Covers(t, i, x);
      }
    }
  }

  lemma {:induction false} AppendGap(t: seq<Entry>, classes: nat -> seq<Class>, from: nat, above: nat)
    requires Ascending(t) && (|t| > 0 ==> t[|t| - 1].code < from) && Maps(t, classes, from)
    requires AllEmpty(classes, from, above)
    ensures Ascending(t + [Entry(from, 0)]) && Maps(t + [Entry(from, 0)], classes, above)
  {
    forall x | from <= x < above ensures classes(x) == [] {
      assert |classes(x)| == 0;
    }
    AppendRun(t, classes, from, above, []);
  }

  /** Reading a table that starts at or below `c`. */
  lemma {:induction false} ReadAt(t: seq<Entry>, c: int) returns (i: nat)
    requires |t| > 0 && Ascending(t) && t[0].code <= c
    ensures Covers(t, i, c) && Category(t, c) == Some(t[i].category)
  {
    i := LastAtMost(t, c).value;
  }

  /** The exact conditions under which described entries, closed by a "none" entry, are faithful. */
  lemma {:induction false} ClosedTable(t: seq<Entry>, classes: nat -> seq<Class>, limit: nat)
    requires Describes(t, classes, limit)
    ensures var r := t + [Entry(limit, 0)];
            Ascending(r) && (Faithful(r, classes, limit) <==>
              |classes(0)| > 0 || (|classes(1)| == 0 && !Underflows(|r| - 1)))
  {
    var r := t + [Entry(limit, 0)];
    AppendGap(t, classes, limit, limit);
    assert Maps(r, classes, limit);
    forall c: nat | r[0].code <= c ensures Category(r, c) == Some(if c < limit then MaskOf(classes(c)) else 0) {
      var i := ReadAt(r, c);
      assert c >= limit ==> i == |t|;
    }
    if |classes(0)| == 0 {
      assert LastAtMost(r, 0) == None;
      assert Category(r, 0) == if Underflows(|r| - 1) then None else Some(t[0].category);
      assert MaskOf(classes(0)) == 0;
    }
  }

  lemma {:induction false} SameBeyond(t: seq<Entry>, classes: nat -> seq<Class>, lo: nat, hi: nat)
    requires |t| > 0 && lo <= hi && AllEmpty(classes, lo, hi)
    ensures Faithful(t, classes, lo) <==> Faithful(t, classes, hi)
  {
    forall c: nat ensures (if c < lo then MaskOf(classes(c)) else 0) == (if c < hi then MaskOf(classes(c)) else 0) {
      assert lo <= c < hi ==> |classes(c)| == 0;
    }
  }

  /** A table of one "none" entry gives none for every code. */
  lemma {:induction false} EmptyTable(classes: nat -> seq<Class>, code: nat, limit: nat)
    requires AllEmpty(classes, 0, limit)
    ensures Faithful([Entry(code, 0)], classes, limit)
  {
    forall c: nat ensures Category([Entry(code, 0)], c) == Some(if c < limit then MaskOf(classes(c)) else 0) {
      assert c < limit ==> |classes(c)| == 0;
    }
  }

  /** If the code `at` has a class exactly when the table gives it none, the table is not faithful. */
  lemma {:induction false} WrongAt(t: seq<Entry>, classes: nat -> seq<Class>, limit: nat, at: nat, i: nat)
    requires |t| > 0 && Ascending(t) && Covers(t, i, at) && at < limit
    requires |classes(at)| > 0 <==> t[i].category == 0
    ensures !Faithful(t, classes, limit)
  {
    CoversUnique(t, at, i);
    if |classes(at)| > 0 {
      MaskNonzero(classes(at));
    }
    assert Category(t, at) != Some(MaskOf(classes(at)));
  }

  /** State of `dump_table` and of the global that `dump_result` keeps. */
  class Generator {
    const classes: nat -> seq<Class>
    var table: seq<Entry>
    var prevAbove: nat
    var prev: Option<seq<Class>>
    var first: nat

    constructor (f: nat -> seq<Class>)
      ensures classes == f && Inv(0)
    {
      classes := f;
      table, prevAbove, prev, first := [], 1, None, 0;
    }

    /** After the codes below `n`: written entries, codes known to be empty, and the pending run. */
    ghost predicate Inv(n: nat)
      reads this
    {
      && (n == 0 ==> table == [] && prevAbove == 1 && prev == None && first == 0)
      && (n > 0 ==> prev.Some? && first < n && forall x :: first <= x < n ==> classes(x) == prev.value)
      && (|table| == 0 ==> prevAbove == 1 && AllEmpty(classes, 0, first))
      && (|table| > 0 ==>
            prevAbove <= first && Describes(table, classes, prevAbove) && AllEmpty(classes, prevAbove, first))
    }

    /** `dump_result` of the run `first .. above`. */
    method DumpResult(above: nat, cs: seq<Class>)
      requires Inv(above) && above > 0 && prev == Some(cs)
      modifies this`table, this`prevAbove
      ensures |cs| == 0 ==> table == old(table) && prevAbove == old(prevAbove)
      ensures |cs| > 0 ==> prevAbove == above && Describes(table, classes, above)
    {
      if |cs| > 0 {
        MaskNonzero(cs);
        if prevAbove < first {
          AppendGap(table, classes, prevAbove, first);
          table := table + [Entry(prevAbove, 0)];
        }
        AppendRun(table, classes, first, above, cs);
        table := table + [Entry(first, MaskOf(cs))];
        prevAbove := above;
      }
    }

    /** One turn of either loop of `dump_table`. */
    method Visit(code: nat)
      requires Inv(code)
      modifies this
      ensures Inv(code + 1)
    {
      var c := classes(code);
      if prev != Some(c) {
        if prev.Some? && |prev.value| > 0 {
          DumpResult(code, prev.value);
        }
        first := code;
        prev := Some(c);
      }
    }

    /** The end of `dump_table`: the run still pending, and the closing entry. */
    method Finish() returns (wide: seq<Entry>)
      requires Inv(WIDE_END)
      modifies this
      ensures |wide| > 0 && Ascending(wide) && FaithfulExactly(wide, classes, WIDE_END, |classes(WIDE_END - 1)| > 0)
      ensures |classes(0)| > 0 && |classes(WIDE_END - 1)| > 0 ==> wide[0].code == 0
    {
      var c := classes(WIDE_END - 1);
      ghost var before := table;
      DumpResult(WIDE_END, c);
      wide := table + [Entry(WIDE_END, 0)];
      if |c| > 0 {
        ClosedTable(table, classes, WIDE_END);
        assert |classes(WIDE_END - 1)| > 0;
      } else if |before| == 0 {
        EmptyTable(classes, WIDE_END, WIDE_END);
      } else {
        LastRunLost(before, classes, prevAbove, WIDE_END);
      }
    }

    /**
      `dump_table`.  The two-byte table and the full table; each is faithful
      under exactly the stated condition.  The last run of the first loop never
      reaches the two-byte table, the last run of the second loop must not be
      empty for the full one.
     */
    method DumpTable() returns (narrow: seq<Entry>, wide: seq<Entry>)
      requires Inv(0)
      modifies this
      ensures |narrow| > 0 && Ascending(narrow) && |wide| > 0 && Ascending(wide)
      ensures FaithfulExactly(wide, classes, WIDE_END, |classes(WIDE_END - 1)| > 0)
      ensures FaithfulExactly(narrow, classes, NARROW_END, |classes(NARROW_END - 1)| == 0)
      ensures |classes(0)| > 0 && |classes(WIDE_END - 1)| > 0 ==> wide[0].code == 0
    {
      for code := 0 to NARROW_END
        invariant Inv(code)
      {
        Visit(code);
      }
      narrow := table;
      NarrowExact(prev.value);
      if prevAbove < NARROW_END {
        narrow := narrow + [Entry(prevAbove, 0)];
      }

      for code := NARROW_END to WIDE_END
        invariant Inv(code)
      {
        Visit(code);
      }
      wide := Finish();
    }

    /** The two-byte table, from the state after the first loop. */
    lemma {:induction false} NarrowExact(cs: seq<Class>)
      requires Inv(NARROW_END) && prev == Some(cs)
      ensures prevAbove < NARROW_END
      ensures var r := table + [Entry(prevAbove, 0)];
              Ascending(r) && FaithfulExactly(r, classes, NARROW_END, |classes(NARROW_END - 1)| == 0)
    {
      assert classes(NARROW_END - 1) == cs;
      if |cs| > 0 {
        PendingRunLost(table, classes, prevAbove, NARROW_END);
      } else if |table| == 0 {
        EmptyTable(classes, prevAbove, NARROW_END);
      } else {
        assert AllEmpty(classes, prevAbove, NARROW_END);
        ClosedEarly(table, classes, prevAbove, NARROW_END);
      }
    }
  }

  /**
    The exact condition for a generated table: all codes empty, or the stated
    condition on the last code together with a class at code 0.  Without a class
    at code 0 the table starts at 1; code 0 is then still read as "none" if code
    1 has no class either and the search does not wrap.
   */
  ghost predicate FaithfulExactly(t: seq<Entry>, classes: nat -> seq<Class>, limit: nat, lastOk: bool)
    requires |t| > 0
  {
    Faithful(t, classes, limit) <==>
      || AllEmpty(classes, 0, limit)
      || (lastOk && (|classes(0)| > 0 || (|classes(1)| == 0 && !Underflows(|t| - 1))))
  }

  /** A table closed where only codes without a class are left. */
  lemma {:induction false} ClosedEarly(t: seq<Entry>, classes: nat -> seq<Class>, above: nat, limit: nat)
    requires Describes(t, classes, above) && above < limit && AllEmpty(classes, above, limit)
    ensures var r := t + [Entry(above, 0)]; Ascending(r) && FaithfulExactly(r, classes, limit, true)
  {
    ClosedTable(t, classes, above);
    SameBeyond(t + [Entry(above, 0)], classes, above, limit);
    assert |classes(above - 1)| > 0;
  }

  /** A run that is still pending when the table is closed reads as "none". */
  lemma {:induction false} PendingRunLost(t: seq<Entry>, classes: nat -> seq<Class>, above: nat, limit: nat)
    requires |t| > 0 ==> Ascending(t) && t[|t| - 1].code < above
    requires above < limit && |classes(limit - 1)| > 0
    ensures var r := t + [Entry(above, 0)];
            Ascending(r) && !Faithful(r, classes, limit) && !AllEmpty(classes, 0, limit)
  {
    var r := t + [Entry(above, 0)];
    assert Covers(r, |t|, limit - 1);
    WrongAt(r, classes, limit, limit - 1, |t|);
  }

  /** Without a final run to write, the codes after the last written run keep that run's class. */
  lemma {:induction false} LastRunLost(t: seq<Entry>, classes: nat -> seq<Class>, above: nat, limit: nat)
    requires Describes(t, classes, above) && above < limit && |classes(limit - 1)| == 0
    ensures var r := t + [Entry(limit, 0)];
            Ascending(r) && !Faithful(r, classes, limit) && !AllEmpty(classes, 0, limit)
  {
    var r := t + [Entry(limit, 0)];
    var n := |t| - 1;
    assert Covers(t, n, above - 1);
    MaskNonzero(classes(above - 1));
    assert Covers(r, n, limit - 1);
    WrongAt(r, classes, limit, limit - 1, n);
  }

  // ----- classifications the generator does not reproduce

  function AllButZero(c: nat): seq<Class> { if c == 0 then [] else [Alpha] }

  function AllButLast(c: nat): seq<Class> { if c == WIDE_END - 1 then [] else [Alpha] }

  function AllCodes(c: nat): seq<Class> { [Alpha] }

  /** Any table that is exact for these classifications, as the generated ones are, gets them wrong. */
  lemma {:induction false} EndsMatter(t: seq<Entry>)
    requires |t| > 0
    ensures |AllButZero(0)| == 0 && |AllButZero(1)| > 0 && |AllButZero(WIDE_END - 1)| > 0
    ensures FaithfulExactly(t, AllButZero, WIDE_END, true) ==> !Faithful(t, AllButZero, WIDE_END)
    ensures |AllButLast(0)| > 0 && |AllButLast(WIDE_END - 1)| == 0
    ensures FaithfulExactly(t, AllButLast, WIDE_END, false) ==> !Faithful(t, AllButLast, WIDE_END)
    ensures FaithfulExactly(t, AllCodes, NARROW_END, false) ==> !Faithful(t, AllCodes, NARROW_END)
    ensures FaithfulExactly(t, AllCodes, WIDE_END, true) ==> Faithful(t, AllCodes, WIDE_END)
  {
    assert |AllButZero(1)| == 1 && |AllButLast(0)| == 1 && |AllCodes(0)| == 1;
  }

  /** No class at code 0 but one at code 1: the generated table does not give code 0 "none". */
  method NothingAtZero(g: Generator) returns (wide: seq<Entry>)
    requires g.Inv(0) && g.classes == AllButZero
    modifies g
    ensures |wide| > 0 && FaithfulExactly(wide, AllButZero, WIDE_END, true)
    ensures !Faithful(wide, AllButZero, WIDE_END)
  {
    var narrow;
    narrow, wide := g.DumpTable();
    EndsMatter(wide);
  }

  /** No class at the last code: the generated table gives it the class of the run before it. */
  method NothingAtTheEnd(g: Generator) returns (wide: seq<Entry>)
    requires g.Inv(0) && g.classes == AllButLast
    modifies g
    ensures |wide| > 0 && FaithfulExactly(wide, AllButLast, WIDE_END, false)
    ensures !Faithful(wide, AllButLast, WIDE_END)
  {
    var narrow;
    narrow, wide := g.DumpTable();
    EndsMatter(wide);
  }

  /** One class throughout: the full table has it, the two-byte table never gets it. */
  method OneLongRun(g: Generator) returns (narrow: seq<Entry>, wide: seq<Entry>)
    requires g.Inv(0) && g.classes == AllCodes
    modifies g
    ensures |narrow| > 0 && FaithfulExactly(narrow, AllCodes, NARROW_END, false)
    ensures |wide| > 0 && FaithfulExactly(wide, AllCodes, WIDE_END, true)
    ensures !Faithful(narrow, AllCodes, NARROW_END) && Faithful(wide, AllCodes, WIDE_END)
  {
    narrow, wide := g.DumpTable();
    EndsMatter(narrow);
    EndsMatter(wide);
  }

  // ----- the table sizes for which the search wraps

  predicate InBand(h: nat, k: nat) {
    3 * Pow2(k) - 2 <= h <= 4 * Pow2(k) - 3
  }

  lemma {:induction false} BandStep(h: nat, k: nat)
    requires h > 1
    ensures InBand(h / 2 - 1, k) <==> InBand(h, k + 1)
  {
  }

  /** The upper bound wraps from h exactly when h lies between 3 * 2^k - 2 and 4 * 2^k - 3 for some k. */
  lemma {:induction false} UnderflowsInBands(h: nat)
    ensures Underflows(h) <==> exists k: nat :: InBand(h, k)
  {
    if h <= 1 {
      assert InBand(1, 0);
      forall k: nat ensures !InBand(0, k) {
      }
    } else {
      var g: nat := h / 2 - 1;
      UnderflowsInBands(g);
      if k: nat :| InBand(g, k) {
        BandStep(h, k);
      }
      if k: nat :| InBand(h, k) {
        assert k > 0;
        BandStep(h, k - 1);
      }
    }
  }
}
