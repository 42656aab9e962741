/**
  Case conversion by ranges (libc/ctype/caseconv.c, towlower_l.c, towupper_l.c)
  and the class lookup that must agree with it (libc/ctype/ctype_table.c), for
  arbitrary well-formed tables.
 */
module CaseConv {
  import opened Base
  import opened CtypeTable

  // ----- the range table

  datatype CaseMode = TO1 | TOLO | TOUP | TOBOTH

  const EVENCAP: int := 0
  const ODDCAP: int := 1

  /** `struct caseconv_entry`: the range first .. first + diff. */
  datatype Range = Range(first: nat, diff: nat, mode: CaseMode, delta: int) {
    function Last(): nat { first + diff }

    predicate Holds(c: int) { first <= c <= Last() }

    /** The field widths, and a conversion that converts. */
    predicate Valid() {
      && first < 0x20_0000 && diff < 0x100 && -0x1_0000 <= delta < 0x1_0000
      && (mode == TOLO || mode == TOUP ==> delta != 0)
    }
  }

  predicate Ordered(t: seq<Range>) {
    forall i, j :: 0 <= i < j < |t| ==> t[i].Last() < t[j].first
  }

  predicate WellFormedRanges(t: seq<Range>) {
    |t| > 0 && Ordered(t) && forall i :: 0 <= i < |t| ==> t[i].Valid()
  }

  /** Linear search for the range that holds a code. */
  function RangeOf(t: seq<Range>, c: int): (r: Option<Range>)
    ensures r.Some? ==> r.value in t && r.value.Holds(c)
    ensures r.None? ==> forall i :: 0 <= i < |t| ==> !t[i].Holds(c)
  {
    if |t| == 0 then None
    else if t[|t| - 1].Holds(c) then Some(t[|t| - 1])
    else RangeOf(t[..|t| - 1], c)
  }

  lemma {:induction false} RangeUnique(t: seq<Range>, c: int, k: nat)
    requires Ordered(t) && k < |t| && t[k].Holds(c)
    ensures RangeOf(t, c) == Some(t[k])
  {
    var r := RangeOf(t, c).value;
    var j :| 0 <= j < |t| && t[j] == r;
  }

  /** `__caseconv_lookup` in value form: nothing outside ASCII in the C locale. */
  function CaseOf(t: seq<Range>, c: nat, isC: bool): Option<Range> {
    if c >= 0x80 && isC then None else RangeOf(t, c)
  }

  /** It is the one range that holds the code, whichever it is. */
  lemma {:induction false} RangesByIndex(t: seq<Range>, c: nat, isC: bool)
    requires Ordered(t)
    ensures c >= 0x80 && isC ==> CaseOf(t, c, isC) == None
    ensures !(c >= 0x80 && isC) ==> forall k :: 0 <= k < |t| && t[k].Holds(c) ==> CaseOf(t, c, isC) == Some(t[k])
    ensures (forall k :: 0 <= k < |t| ==> !t[k].Holds(c)) ==> CaseOf(t, c, isC) == None
  {
    forall k | 0 <= k < |t| && t[k].Holds(c) ensures RangeOf(t, c) == Some(t[k]) {
      RangeUnique(t, c, k);
    }
    var r := RangeOf(t, c);
    if r.Some? {
      var j :| 0 <= j < |t| && t[j] == r.value;
      assert t[j].Holds(c);
    }
  }

  /** `__caseconv_lookup`: the bounds are unsigned and never wrap. */
  method CaseLookup(t: seq<Range>, c: nat, isC: bool) returns (r: Option<Range>)
    requires WellFormedRanges(t)
    ensures r == CaseOf(t, c, isC)
    ensures c >= 0x80 && isC ==> r == None
    ensures !(c >= 0x80 && isC) ==> forall k :: 0 <= k < |t| && t[k].Holds(c) ==> r == Some(t[k])
    ensures (forall k :: 0 <= k < |t| ==> !t[k].Holds(c)) ==> r == None
  {
    RangesByIndex(t, c, isC);
    var min: nat, max: nat := 0, |t| - 1;
    if c >= 0x80 && isC {
      return None;
    }
    if c < t[0].first || c > t[max].Last() {
      OutsideAll(t, c);
      return None;
    }
    while max >= min
      invariant max < |t| && min <= max + 1
      invariant t[0].first <= c
      invariant forall i :: 0 <= i < |t| && t[i].Holds(c) ==> min <= i <= max
      decreases max + 1 - min
    {
      var mid := (min + max) / 2;
      if c > t[mid].Last() {
        min := mid + 1;
      } else if c < t[mid].first {
        max := mid - 1;
      } else {
        RangeUnique(t, c, mid);
        return Some(t[mid]);
      }
    }
    return None;
  }

  lemma {:induction false} OutsideAll(t: seq<Range>, c: nat)
    requires |t| > 0 && Ordered(t) && (c < t[0].first || c > t[|t| - 1].Last())
    ensures RangeOf(t, c) == None
  {
    forall i | 0 <= i < |t| ensures !t[i].Holds(c) {
      assert t[0].first <= t[i].first && t[i].Last() <= t[|t| - 1].Last();
    }
  }

  // ----- towlower_l and towupper_l

  const WEOF: nat := 0xffff_ffff

  /** `wint_t` arithmetic. */
  function Wrap(x: int): nat { x % UINT32_RANGE }

  /** In a TO1 range: the capital of its pair. */
  predicate IsCapital(r: Range, c: int) {
    (r.delta == EVENCAP && c % 2 == 0) || (r.delta == ODDCAP && c % 2 == 1)
  }

  predicate IsSmall(r: Range, c: int) {
    (r.delta == EVENCAP && c % 2 == 1) || (r.delta == ODDCAP && c % 2 == 0)
  }

  function ToLower(t: seq<Range>, c: nat, isC: bool): nat {
    match CaseOf(t, c, isC)
    case None => c
    case Some(r) =>
      match r.mode
      case TOLO => Wrap(c + r.delta)
      case TOBOTH => Wrap(c + 1)
      case TO1 => if IsCapital(r, c) then Wrap(c + 1) else c
      case TOUP => c
  }

  function ToUpper(t: seq<Range>, c: nat, isC: bool): nat {
    match CaseOf(t, c, isC)
    case None => c
    case Some(r) =>
      match r.mode
      case TOUP => Wrap(c + r.delta)
      case TOBOTH => Wrap(c - 1)
      case TO1 => if IsSmall(r, c) then Wrap(c - 1) else c
      case TOLO => c
  }

  /**
    The rule of the range table, by index: where a code of range `k` goes in each
    mode, in every locale in which the range counts.
   */
  lemma {:induction false} ConversionRule(t: seq<Range>, k: nat, c: nat, isC: bool)
    requires WellFormedRanges(t) && k < |t| && t[k].Holds(c) && !(c >= 0x80 && isC)
    ensures t[k].mode == TOLO ==>
              ToLower(t, c, isC) == (c + t[k].delta) % 0x1_0000_0000 && ToUpper(t, c, isC) == c
    ensures t[k].mode == TOUP ==>
              ToUpper(t, c, isC) == (c + t[k].delta) % 0x1_0000_0000 && ToLower(t, c, isC) == c
    ensures t[k].mode == TOBOTH ==>
              ToLower(t, c, isC) == c + 1 && ToUpper(t, c, isC) == (if c == 0 then 0xffff_ffff else c - 1)
    ensures t[k].mode == TO1 ==>
              ToLower(t, c, isC) == if t[k].delta in {0, 1} && c % 2 == t[k].delta then c + 1 else c
    ensures t[k].mode == TO1 ==>
              ToUpper(t, c, isC) == if !(t[k].delta in {0, 1}) || c % 2 == t[k].delta then c
                                    else if c == 0 then 0xffff_ffff else c - 1
  {
    assert t[k].Valid();
    RangeUnique(t, c, k);
    SmallWrap(c);
  }

  /** A code in no range, or outside ASCII in the C locale, stays. */
  lemma {:induction false} NoConversion(t: seq<Range>, c: nat, isC: bool)
    requires Ordered(t) && ((c >= 0x80 && isC) || forall k :: 0 <= k < |t| ==> !t[k].Holds(c))
    ensures ToLower(t, c, isC) == c && ToUpper(t, c, isC) == c
  {
    RangesByIndex(t, c, isC);
  }

  /** A range of capitals and the range of their small letters map onto each other. */
  lemma {:induction false} PairedRanges(t: seq<Range>, j: nat, k: nat, c: nat, e: nat, isC: bool)
    requires WellFormedRanges(t) && j < |t| && k < |t| && t[j].mode == TOLO && t[k].mode == TOUP
    requires t[k].first == t[j].first + t[j].delta && t[k].diff == t[j].diff && t[k].delta == -t[j].delta
    requires (t[j].Holds(c) || t[k].Holds(e)) && e == c + t[j].delta && (isC ==> c < 0x80 && e < 0x80)
    ensures ToLower(t, c, isC) == e && ToUpper(t, e, isC) == c
    ensures ToUpper(t, c, isC) == c && ToLower(t, e, isC) == e
  {
    InPair(t[j], t[k], c, e);
    assert t[j].Valid() && t[k].Valid();
    Lands(t, j, c, e, isC);
    Lands(t, k, e, c, isC);
  }

  lemma {:induction false} InPair(r: Range, q: Range, c: nat, e: nat)
    requires q.first == r.first + r.delta && q.diff == r.diff && e == c + r.delta
    ensures r.Holds(c) <==> q.Holds(e)
  {
  }

  lemma {:induction false} Lands(t: seq<Range>, k: nat, c: nat, e: nat, isC: bool)
    requires WellFormedRanges(t) && k < |t| && t[k].Holds(c) && !(c >= 0x80 && isC)
    requires e < 0x20_0100 && e == c + t[k].delta
    ensures t[k].mode == TOLO ==> ToLower(t, c, isC) == e && ToUpper(t, c, isC) == c
    ensures t[k].mode == TOUP ==> ToUpper(t, c, isC) == e && ToLower(t, c, isC) == c
  {
    NoWrap(e);
    ConversionRule(t, k, c, isC);
  }

  lemma {:induction false} NoWrap(x: nat)
    requires x < 0x20_0100
    ensures x % 0x1_0000_0000 == x
  {
  }

  /** Adding a nonzero offset within the field width changes a `wint_t`. */
  lemma {:induction false} WrapMoves(c: nat, d: int)
    requires c < UINT32_RANGE && d != 0 && -0x1_0000 <= d < 0x1_0000
    ensures Wrap(c + d) != c
  {
  }

  /**
    In a range of alternating letters that starts on a capital and ends on a
    small letter, each capital and the small letter after it are mapped onto
    each other, and both conversions are idempotent.
   */
  lemma {:induction false} AlternatingPairs(t: seq<Range>, k: nat, c: nat)
    requires WellFormedRanges(t) && k < |t| && t[k].mode == TO1 && t[k].Holds(c)
    requires IsCapital(t[k], t[k].first) && IsSmall(t[k], t[k].Last())
    ensures IsCapital(t[k], c) ==>
              ToLower(t, c, false) == c + 1 && ToUpper(t, c + 1, false) == c && t[k].Holds(c + 1)
    ensures !IsCapital(t[k], c) ==>
              c > 0 && ToUpper(t, c, false) == c - 1 && ToLower(t, c - 1, false) == c && t[k].Holds(c - 1)
    ensures ToLower(t, ToLower(t, c, false), false) == ToLower(t, c, false)
    ensures ToUpper(t, ToUpper(t, c, false), false) == ToUpper(t, c, false)
  {
    var r := t[k];
    Alternate(r, c);
    ConvertIn(t, k, c);
    ConvertIn(t, k, if IsCapital(r, c) then c + 1 else c - 1);
  }

  lemma {:induction false} Alternate(r: Range, c: nat)
    requires r.Holds(c) && IsCapital(r, r.first) && IsSmall(r, r.Last())
    ensures IsCapital(r, c) != IsSmall(r, c)
    ensures IsCapital(r, c) ==> r.Holds(c + 1) && IsSmall(r, c + 1) && !IsCapital(r, c + 1)
    ensures IsSmall(r, c) ==> c > 0 && r.Holds(c - 1) && IsCapital(r, c - 1) && !IsSmall(r, c - 1)
  {
  }

  /** Both conversions inside one TO1 range. */
  lemma {:induction false} ConvertIn(t: seq<Range>, k: nat, c: nat)
    requires WellFormedRanges(t) && k < |t| && t[k].mode == TO1 && t[k].Holds(c)
    requires c > 0 || !IsSmall(t[k], c)
    ensures ToLower(t, c, false) == if IsCapital(t[k], c) then c + 1 else c
    ensures ToUpper(t, c, false) == if IsSmall(t[k], c) then c - 1 else c
  {
    assert t[k].Valid();
    RangeUnique(t, c, k);
    SmallWrap(c);
  }

  lemma {:induction false} SmallWrap(c: nat)
    requires c < 0x20_0100
    ensures Wrap(c + 1) == c + 1 && Wrap(c - 1) == if c == 0 then 0xffff_ffff else c - 1
  {
  }

  // ----- the class lookup

  /** `(wchar_t)ic` on a target with a signed or an unsigned 32-bit `wchar_t`. */
  function ToWchar(ic: nat, signed: bool): int {
    if signed && ic >= 0x8000_0000 then ic - UINT32_RANGE else ic
  }

  /** The bits a range adds to a class that has CLASS_case. */
  function CaseBits(r: Option<Range>, c: int): Mask {
    match r
    case None => 0
    case Some(r) =>
      match r.mode
      case TOLO => CLASS_upper
      case TOUP => CLASS_lower
      case TOBOTH => CLASS_upper | CLASS_lower
      case TO1 =>
        if IsCapital(r, c) then CLASS_upper else if IsSmall(r, c) then CLASS_lower else 0
  }

  /** A table class with CLASS_case resolved, cut to `mask`. */
  function Resolved(cat: Mask, ranges: seq<Range>, ic: nat, c: int, isC: bool, mask: Mask): Mask {
    Mix(cat, CaseBits(CaseOf(ranges, ic, isC), c), mask)
  }

  /** A table class with the case bits added where they count, cut to `mask`. */
  function Mix(cat: Mask, bits: Mask, mask: Mask): Mask {
    var added := if mask & (CLASS_lower | CLASS_upper) != 0 && cat & CLASS_case != 0 then bits else 0;
    (cat | added) & mask
  }

  /** The classes of a code, from its table class.  `None`: a read outside the table. */
  function Classify(t: seq<Entry>, ranges: seq<Range>, ic: nat, isC: bool, signed: bool, mask: Mask): Option<Mask>
    requires |t| > 0
  {
    var c := ToWchar(ic, signed);
    if ic == WEOF || (c >= 0x80 && isC) then Some(0)
    else match Category(t, c)
      case None => None
      case Some(cat) => Some(Resolved(cat, ranges, ic, c, isC, mask))
  }

  /** The bits the switch on the case mode adds; at most one of its branches adds any. */
  method Resolve(cce: Option<Range>, c: int) returns (bits: Mask)
    ensures bits == CaseBits(cce, c)
  {
    bits := 0;
    if cce.Some? {
      match cce.value.mode {
        case TO1 =>
          if cce.value.delta == EVENCAP {
            bits := if c % 2 == 0 then CLASS_upper else CLASS_lower;
          } else if cce.value.delta == ODDCAP {
            bits := if c % 2 == 1 then CLASS_upper else CLASS_lower;
          }
        case TOLO =>
          bits := CLASS_upper;
        case TOUP =>
          bits := CLASS_lower;
        case TOBOTH =>
          bits := CLASS_upper | CLASS_lower;
      }
    }
  }

  /** Binary search agrees with linear search. */
  method FindCategory(t: seq<Entry>, c: int) returns (r: Option<Mask>)
    requires |t| > 0 && Ascending(t)
    ensures r == Category(t, c)
  {
    var high := Search(t, c);
    if t[0].code <= c {
      CoversUnique(t, c, high.value);
    }
    return if high.None? then None else Some(t[high.value].category);
  }

  /**
    A class is reported exactly when it is asked for and the code has it: from the
    table, or, for upper and lower, because the code has case and is changed by
    the conversion to the other one (`up`: to lower, `low`: to upper).
   */
  predicate Reported(m: Mask, mask: Mask, cat: Mask, up: bool, low: bool, d: Class) {
    m & Bit(d) != 0 <==>
      && mask & Bit(d) != 0
      && (cat & Bit(d) != 0 || (cat & Bit(Case) != 0 && ((d == Upper && up) || (d == Lower && low))))
  }

  predicate ReportsClass(m: Mask, mask: Mask, cat: Mask, ranges: seq<Range>, ic: nat, isC: bool, d: Class) {
    Reported(m, mask, cat, ToLower(ranges, ic, isC) != ic, ToUpper(ranges, ic, isC) != ic, d)
  }

  ghost predicate ReportsClasses(m: Mask, mask: Mask, cat: Mask, ranges: seq<Range>, ic: nat, isC: bool) {
    forall d: Class :: ReportsClass(m, mask, cat, ranges, ic, isC, d)
  }

  /** Cutting to a mask, seen at one class bit. */
  lemma {:induction false} CutAtBit(x: Mask, mask: Mask, d: Class)
    ensures (x & mask) & Bit(d) != 0 <==> x & Bit(d) != 0 && mask & Bit(d) != 0
  {
    match d
    case Alnum =>
    case Alpha =>
    case Blank =>
    case Cntrl =>
    case Digit =>
    case Graph =>
    case Lower =>
    case Print =>
    case Punct =>
    case Space =>
    case Upper =>
    case Xdigit =>
    case Case =>
  }

  lemma {:induction false} NeitherCase(mask: Mask)
    requires mask & (CLASS_lower | CLASS_upper) == 0
    ensures mask & CLASS_lower == 0 && mask & CLASS_upper == 0
  {
  }

  lemma {:induction false} TwoBits(d: Class)
    ensures (CLASS_upper | CLASS_lower) & Bit(d) != 0 <==> d == Upper || d == Lower
  {
    OrMeets(CLASS_upper, CLASS_lower, Bit(d));
    BitsApart(Upper, d);
    BitsApart(Lower, d);
  }

  /** The bits a range adds are those of the conversions that change the code. */
  lemma {:induction false} CaseBitsMean(ranges: seq<Range>, ic: nat, c: int, isC: bool, d: Class)
    requires WellFormedRanges(ranges) && ic < UINT32_RANGE && c % 2 == ic % 2
    ensures CaseBits(CaseOf(ranges, ic, isC), c) & Bit(d) != 0 <==>
            || (d == Upper && ToLower(ranges, ic, isC) != ic)
            || (d == Lower && ToUpper(ranges, ic, isC) != ic)
  {
    var cce := CaseOf(ranges, ic, isC);
    NoBits(Bit(d));
    BitsApart(Upper, d);
    BitsApart(Lower, d);
    TwoBits(d);
    if cce.Some? {
      assert cce.value.Valid();
      WrapMoves(ic, 1);
      WrapMoves(ic, -1);
      if cce.value.mode == TOLO || cce.value.mode == TOUP {
        WrapMoves(ic, cce.value.delta);
      }
    }
  }

  lemma {:induction false} AddedReport(m: Mask, cat: Mask, bits: Mask, mask: Mask, up: bool, low: bool, d: Class)
    requires m == (cat | bits) & mask && cat & CLASS_case != 0
    requires bits & Bit(d) != 0 <==> (d == Upper && up) || (d == Lower && low)
    ensures Reported(m, mask, cat, up, low, d)
  {
    CutOr(cat, bits, mask, d);
  }

  lemma {:induction false} PlainReport(m: Mask, cat: Mask, mask: Mask, up: bool, low: bool, d: Class)
    requires m == (cat | 0) & mask && (mask & (CLASS_lower | CLASS_upper) == 0 || cat & CLASS_case == 0)
    ensures Reported(m, mask, cat, up, low, d)
  {
    CutOr(cat, 0, mask, d);
    NoBits(Bit(d));
    if mask & (CLASS_lower | CLASS_upper) == 0 {
      NeitherCase(mask);
    }
  }

  lemma {:induction false} MixReports(cat: Mask, bits: Mask, mask: Mask, up: bool, low: bool, d: Class)
    requires bits & Bit(d) != 0 <==> (d == Upper && up) || (d == Lower && low)
    ensures Reported(Mix(cat, bits, mask), mask, cat, up, low, d)
  {
    if mask & (CLASS_lower | CLASS_upper) != 0 && cat & CLASS_case != 0 {
      AddedReport(Mix(cat, bits, mask), cat, bits, mask, up, low, d);
    } else {
      PlainReport(Mix(cat, bits, mask), cat, mask, up, low, d);
    }
  }

  lemma {:induction false} ResolvedReports(
      cat: Mask, ranges: seq<Range>, ic: nat, c: int, isC: bool, mask: Mask, d: Class)
    requires WellFormedRanges(ranges) && ic < UINT32_RANGE && c % 2 == ic % 2
    ensures ReportsClass(Resolved(cat, ranges, ic, c, isC, mask), mask, cat, ranges, ic, isC, d)
  {
    CaseBitsMean(ranges, ic, c, isC, d);
    MixReports(cat, CaseBits(CaseOf(ranges, ic, isC), c), mask,
               ToLower(ranges, ic, isC) != ic, ToUpper(ranges, ic, isC) != ic, d);
  }

  lemma {:induction false} CutOr(cat: Mask, bits: Mask, mask: Mask, d: Class)
    ensures ((cat | bits) & mask) & Bit(d) != 0 <==>
            mask & Bit(d) != 0 && (cat & Bit(d) != 0 || bits & Bit(d) != 0)
  {
    CutAtBit(cat | bits, mask, d);
    OrMeets(cat, bits, Bit(d));
  }

  lemma {:induction false} WcharParity(ic: nat, signed: bool)
    ensures ToWchar(ic, signed) % 2 == ic % 2
  {
  }

  lemma {:induction false} LookupReports(
      t: seq<Entry>, ranges: seq<Range>, ic: nat, isC: bool, signed: bool, mask: Mask)
    requires |t| > 0 && Ascending(t) && WellFormedRanges(ranges) && ic < UINT32_RANGE
    ensures ic != WEOF && !(isC && ToWchar(ic, signed) >= 0x80) ==>
              forall i: nat :: Covers(t, i, ToWchar(ic, signed)) ==>
                && Classify(t, ranges, ic, isC, signed, mask).Some?
                && ReportsClasses(
                     Classify(t, ranges, ic, isC, signed, mask).value, mask, t[i].category, ranges, ic, isC)
  {
    var c := ToWchar(ic, signed);
    if ic != WEOF && !(isC && c >= 0x80) {
      WcharParity(ic, signed);
      forall i: nat | Covers(t, i, c)
        ensures Classify(t, ranges, ic, isC, signed, mask)
             == Some(Resolved(t[i].category, ranges, ic, c, isC, mask))
        ensures ReportsClasses(
                  Resolved(t[i].category, ranges, ic, c, isC, mask), mask, t[i].category, ranges, ic, isC)
      {
        CoversUnique(t, c, i);
        forall d: Class
          ensures ReportsClass(
                    Resolved(t[i].category, ranges, ic, c, isC, mask), mask, t[i].category, ranges, ic, isC, d)
        {
          ResolvedReports(t[i].category, ranges, ic, c, isC, mask, d);
        }
      }
    }
  }

  /** From the table class to the result. */
  method ResolveCase(cat: Mask, ranges: seq<Range>, ic: nat, c: int, isC: bool, mask: Mask) returns (r: Mask)
    requires WellFormedRanges(ranges)
    ensures r == Resolved(cat, ranges, ic, c, isC, mask)
  {
    var bits: Mask := 0;
    if mask & (CLASS_lower | CLASS_upper) != 0 && cat & CLASS_case != 0 {
      var cce := CaseLookup(ranges, ic, isC);
      bits := Resolve(cce, c);
    }
    r := (cat | bits) & mask;
  }

  /** `__ctype_table_lookup`. */
  method TableLookup(t: seq<Entry>, ranges: seq<Range>, ic: word, isC: bool, signed: bool, mask: Mask)
    returns (r: Option<Mask>)
    requires |t| > 0 && Ascending(t) && WellFormedRanges(ranges)
    ensures r == Classify(t, ranges, ic, isC, signed, mask)
    ensures ic == 0xffff_ffff || (isC && ToWchar(ic, signed) >= 0x80) ==> r == Some(0)
    ensures ic != 0xffff_ffff && !(isC && ToWchar(ic, signed) >= 0x80) ==>
              forall i: nat :: Covers(t, i, ToWchar(ic, signed)) ==>
                r.Some? && ReportsClasses(r.value, mask, t[i].category, ranges, ic, isC)
  {
    LookupReports(t, ranges, ic, isC, signed, mask);
    if ic == WEOF {
      return Some(0);
    }
    var c := ToWchar(ic, signed);
    if c >= 0x80 && isC {
      return Some(0);
    }
    var found := FindCategory(t, c);
    if found.None? {
      return None;
    }
    var ret := ResolveCase(found.value, ranges, ic, c, isC, mask);
    return Some(ret);
  }

  /**
    Classification agrees with conversion: where the table says only that a code
    has case, the code is reported upper exactly when `towlower_l` changes it and
    lower exactly when `towupper_l` does, in every locale.
   */
  lemma {:induction false} ClassAgreesWithConversion(
      t: seq<Entry>, ranges: seq<Range>, ic: nat, isC: bool, signed: bool)
    requires |t| > 0 && Ascending(t) && WellFormedRanges(ranges) && ic < WEOF
    requires var cat := Category(t, ToWchar(ic, signed));
             cat.Some? && cat.value & CLASS_case != 0 && cat.value & (CLASS_upper | CLASS_lower) == 0
    ensures var r := Classify(t, ranges, ic, isC, signed, CLASS_upper | CLASS_lower);
            && r.Some?
            && (r.value & CLASS_upper != 0 <==> ToLower(ranges, ic, isC) != ic)
            && (r.value & CLASS_lower != 0 <==> ToUpper(ranges, ic, isC) != ic)
  {
    var cat := Category(t, ToWchar(ic, signed)).value;
    var cce := CaseOf(ranges, ic, isC);
    if cce.Some? {
      assert cce.value.Valid();
      WrapMoves(ic, 1);
      WrapMoves(ic, -1);
      if cce.value.mode == TOLO || cce.value.mode == TOUP {
        WrapMoves(ic, cce.value.delta);
      }
    }
    ResolveBits(cat, CaseBits(cce, ic));
  }

  lemma {:induction false} ResolveBits(cat: Mask, bits: Mask)
    requires cat & (CLASS_upper | CLASS_lower) == 0
    ensures ((cat | bits) & (CLASS_upper | CLASS_lower)) & CLASS_upper == bits & CLASS_upper
    ensures ((cat | bits) & (CLASS_upper | CLASS_lower)) & CLASS_lower == bits & CLASS_lower
    ensures (CLASS_upper | CLASS_lower) & (CLASS_lower | CLASS_upper) != 0
  {
  }

  /**
    Where `wchar_t` is signed, a `wint_t` of 2^31 or more (other than WEOF)
    becomes a negative code, which is below every entry: such a code is not
    reported as "none" but read from outside the table, or given the class of
    the first entry, depending only on the size of the table.
   */
  lemma {:induction false} SignedHighCodes(t: seq<Entry>, ranges: seq<Range>, ic: nat, isC: bool, mask: Mask)
    requires |t| > 0 && Ascending(t) && WellFormedRanges(ranges) && 0x8000_0000 <= ic < WEOF
    ensures Classify(t, ranges, ic, isC, true, mask) ==
            if Underflows(|t| - 1) then None else Some(t[0].category & mask)
  {
    assert ranges[|ranges| - 1].Valid();
    OutsideAll(ranges, ic);
    assert LastAtMost(t, ToWchar(ic, true)) == None;
  }

  // ----- generator and lookup together

  /** The class mask of a code as the classification says it, with the case resolved by the ranges. */
  function ClassesOf(classes: nat -> seq<Class>, ranges: seq<Range>, ic: nat, isC: bool, mask: Mask): Mask {
    if ic >= WIDE_END || (ic >= 0x80 && isC) then 0
    else Resolved(MaskOf(classes(ic)), ranges, ic, ic, isC, mask)
  }

  lemma {:induction false} NoClassNoCase(ranges: seq<Range>, ic: nat, c: int, isC: bool, mask: Mask)
    ensures Resolved(0, ranges, ic, c, isC, mask) == 0
  {
  }

  /** Looking up a faithful table gives the classes of every code that `wchar_t` can hold as it is. */
  lemma {:induction false} FaithfulLookup(
      t: seq<Entry>, classes: nat -> seq<Class>, ranges: seq<Range>, ic: nat, isC: bool, signed: bool, mask: Mask)
    requires |t| > 0 && Faithful(t, classes, WIDE_END) && ToWchar(ic, signed) == ic <= WEOF
    ensures Classify(t, ranges, ic, isC, signed, mask) == Some(ClassesOf(classes, ranges, ic, isC, mask))
  {
    assert Category(t, ic) == Some(if ic < WIDE_END then MaskOf(classes(ic)) else 0);
    if ic >= WIDE_END {
      NoClassNoCase(ranges, ic, ic, isC, mask);
    }
  }

  /**
    `__ctype_table_lookup` on the table that `dump_table` writes: with classes at
    both ends, every code gets the classes it was generated from.
   */
  method GenerateAndLookup(
      classes: nat -> seq<Class>, ranges: seq<Range>, ic: word, isC: bool, signed: bool, mask: Mask)
    returns (r: Option<Mask>)
    requires |classes(0)| > 0 && |classes(WIDE_END - 1)| > 0
    requires WellFormedRanges(ranges) && ToWchar(ic, signed) == ic
    ensures r == Some(ClassesOf(classes, ranges, ic, isC, mask))
    ensures ic >= 0xe01f0 || (isC && ic >= 0x80) ==> r == Some(0)
    ensures ic < 0xe01f0 && !(isC && ic >= 0x80) ==>
              r.Some? && forall d: Class :: ReportsListed(r.value, mask, classes(ic), ranges, ic, isC, d)
  {
    var g := new Generator(classes);
    var narrow, wide := g.DumpTable();
    FaithfulLookup(wide, classes, ranges, ic, isC, signed, mask);
    r := TableLookup(wide, ranges, ic, isC, signed, mask);
    if ic < WIDE_END && !(isC && ic >= 0x80) {
      ListedReports(classes(ic), ranges, ic, isC, mask);
    }
  }

  /** The same in terms of the listed classes. */
  predicate ReportsListed(m: Mask, mask: Mask, cs: seq<Class>, ranges: seq<Range>, ic: nat, isC: bool, d: Class) {
    ListedReported(m, mask, cs, ToLower(ranges, ic, isC) != ic, ToUpper(ranges, ic, isC) != ic, d)
  }

  predicate ListedReported(m: Mask, mask: Mask, cs: seq<Class>, up: bool, low: bool, d: Class) {
    m & Bit(d) != 0 <==>
      mask & Bit(d) != 0 && (d in cs || (Case in cs && ((d == Upper && up) || (d == Lower && low))))
  }

  lemma {:induction false} FromMask(m: Mask, mask: Mask, cs: seq<Class>, up: bool, low: bool, d: Class)
    requires Reported(m, mask, MaskOf(cs), up, low, d)
    ensures ListedReported(m, mask, cs, up, low, d)
  {
    MaskHas(cs, d);
    MaskHas(cs, Case);
  }

  lemma {:induction false} ListedReports(cs: seq<Class>, ranges: seq<Range>, ic: nat, isC: bool, mask: Mask)
    requires WellFormedRanges(ranges) && ic < UINT32_RANGE
    ensures forall d: Class ::
              ReportsListed(Resolved(MaskOf(cs), ranges, ic, ic, isC, mask), mask, cs, ranges, ic, isC, d)
  {
    forall d: Class
      ensures ReportsListed(Resolved(MaskOf(cs), ranges, ic, ic, isC, mask), mask, cs, ranges, ic, isC, d)
    {
      ResolvedReports(MaskOf(cs), ranges, ic, ic, isC, mask, d);
      FromMask(Resolved(MaskOf(cs), ranges, ic, ic, isC, mask), mask, cs,
               ToLower(ranges, ic, isC) != ic, ToUpper(ranges, ic, isC) != ic, d);
    }
  }
}
