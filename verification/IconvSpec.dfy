/**
  The conversion that libc/iconv/iconv.c performs, without its loop.

  `Reference` converts a whole input with no limit on the output and no staging
  buffer.  `Call` is what one `iconv` call does with a bounded output: it hands
  out whole encodings while they fit and keeps the first that does not.  The
  lemmas relate the two over single calls, over arbitrary runs of calls and over
  a caller that drains its input in pieces.

  The character sets are parameters: any decoder and encoder with a shift state
  that consume and produce the numbers of bytes the C prototypes allow.
 */
module IconvSpec {
  import opened Base

  const MB_LEN_MAX: nat := 8
  const QUESTION_MARK: nat := 63

  datatype Mode = Default | Translit

  /** Results -2, -1, 0 and n > 0 of `in_mbtowc`. */
  datatype Decoded = Incomplete | Invalid | Nul | Char(wc: nat, n: nat)

  /** Results -1 and n >= 0 of `out_wctomb`, with the bytes written. */
  datatype Encoded = Unencodable | Bytes(bytes: seq<byte>)

  datatype Codec<!S(!new)> = Codec(
    decode: (S, seq<byte>) -> (Decoded, S),
    encode: (S, nat) -> (Encoded, S))
  {
    ghost predicate WellBehaved() {
      && (forall s, inp :: |inp| > 0 && decode(s, inp).0.Char? ==> 1 <= decode(s, inp).0.n <= |inp|)
      && (forall s, wc :: encode(s, wc).0.Bytes? ==> |encode(s, wc).0.bytes| <= MB_LEN_MAX)
    }
  }

  // ----- one character

  /** Both shift states and the input not yet consumed. */
  datatype Conv<S(!new)> = Conv(inState: S, outState: S, rest: seq<byte>)

  /** A character that was decoded and encoded. */
  datatype Emission = Emission(wc: nat, bytes: seq<byte>, inexact: bool)

  datatype Step<S(!new)> =
    | Emit(e: Emission, next: Conv<S>)
    | Partial(next: Conv<S>)
    | Illegal(next: Conv<S>)

  /** Encode `wc`, falling back to '?' when transliterating. */
  function Put<S(!new)>(c: Codec<S>, mode: Mode, s: Conv<S>, wc: nat): Step<S> {
    var (e, o) := c.encode(s.outState, wc);
    if e.Bytes? then Emit(Emission(wc, e.bytes, false), s.(outState := o))
    else if mode == Default then Illegal(s.(outState := o))
    else
      var (q, p) := c.encode(o, QUESTION_MARK);
      if q.Bytes? then Emit(Emission(wc, q.bytes, true), s.(outState := p)) else Illegal(s.(outState := p))
  }

  /** Decode one character and encode it.  A decoded NUL swallows the rest of the input. */
  function OneChar<S(!new)>(c: Codec<S>, mode: Mode, s: Conv<S>): (r: Step<S>)
    requires c.WellBehaved() && |s.rest| > 0
    ensures r.Emit? ==> |r.next.rest| < |s.rest| && |r.e.bytes| <= MB_LEN_MAX
  {
    var (d, i) := c.decode(s.inState, s.rest);
    match d
    case Incomplete => Partial(Conv(i, s.outState, []))
    case Invalid => Illegal(s.(inState := i))
    case Nul => Put(c, mode, Conv(i, s.outState, []), 0)
    case Char(wc, n) => Put(c, mode, Conv(i, s.outState, s.rest[n..]), wc)
  }

  function Flatten(es: seq<Emission>): seq<byte> {
    if |es| == 0 then [] else es[0].bytes + Flatten(es[1..])
  }

  function InexactCount(es: seq<Emission>): nat {
    if |es| == 0 then 0 else (if es[0].inexact then 1 else 0) + InexactCount(es[1..])
  }

  lemma {:induction false} InexactSnoc(es: seq<Emission>, e: Emission)
    ensures InexactCount(es + [e]) == InexactCount(es) + (if e.inexact then 1 else 0)
  {
    if |es| > 0 {
      InexactSnoc(es[1..], e);
      assert (es + [e])[1..] == es[1..] + [e];
    }
  }

  /** The emissions that were not exact. */
  function InexactAt(es: seq<Emission>): set<nat> {
    set k | 0 <= k < |es| && es[k].inexact
  }

  lemma {:induction false} CountsInexact(es: seq<Emission>)
    ensures InexactCount(es) == |InexactAt(es)|
  {
    if |es| > 0 {
      var n := |es| - 1;
      var front, e := es[..n], es[n];
      assert es == front + [e];
      CountsInexact(front);
      InexactSnoc(front, e);
      assert InexactAt(es) == InexactAt(front) + (if e.inexact then {n} else {});
    }
  }

  // ----- the whole input, unbounded output

  datatype Converted<S(!new)> = Converted(emitted: seq<Emission>, final: Conv<S>, illegal: bool)

  function Reference<S(!new)>(c: Codec<S>, mode: Mode, s: Conv<S>): Converted<S>
    requires c.WellBehaved()
    decreases |s.rest|
  {
    if |s.rest| == 0 then Converted([], s, false) else
      match OneChar(c, mode, s)
      case Partial(n) => Converted([], n, false)
      case Illegal(n) => Converted([], n, true)
      case Emit(e, n) =>
        var r := Reference(c, mode, n);
        Converted([e] + r.emitted, r.final, r.illegal)
  }

  // ----- one call, bounded output

  /** What the descriptor keeps between calls. */
  datatype Desc<S(!new)> = Desc(inState: S, outState: S, staged: seq<byte>)

  /** Why the call returned: with room or input used up, for lack of room, or on an illegal sequence. */
  datatype Exit = Done | TooBig | IllSeq

  datatype CallResult<S(!new)> =
    CallResult(desc: Desc<S>, rest: seq<byte>, written: seq<byte>, emitted: seq<Emission>, exit: Exit)
  {
    function After(w: seq<byte>, es: seq<Emission>): CallResult<S> {
      this.(written := w + written, emitted := es + emitted)
    }
  }

  function Greedy<S(!new)>(c: Codec<S>, mode: Mode, s: Conv<S>, space: nat): CallResult<S>
    requires c.WellBehaved()
    decreases |s.rest|
  {
    if space == 0 || |s.rest| == 0 then CallResult(Desc(s.inState, s.outState, []), s.rest, [], [], Done) else
      match OneChar(c, mode, s)
      case Partial(n) => CallResult(Desc(n.inState, n.outState, []), n.rest, [], [], Done)
      case Illegal(n) => CallResult(Desc(n.inState, n.outState, []), n.rest, [], [], IllSeq)
      case Emit(e, n) =>
        if |e.bytes| <= space then Greedy(c, mode, n, space - |e.bytes|).After(e.bytes, [e])
        else CallResult(Desc(n.inState, n.outState, e.bytes), n.rest, [], [e], TooBig)
  }

  function Call<S(!new)>(c: Codec<S>, mode: Mode, d: Desc<S>, input: seq<byte>, space: nat): CallResult<S>
    requires c.WellBehaved()
  {
    var s := Conv(d.inState, d.outState, input);
    if |d.staged| == 0 then Greedy(c, mode, s, space)
    else if space == 0 then CallResult(d, input, [], [], Done)
    else if |d.staged| > space then CallResult(d, input, [], [], TooBig)
    else Greedy(c, mode, s, space - |d.staged|).After(d.staged, [])
  }

  // ----- what a bounded call has in common with the reference

  lemma {:induction false} Assoc(x: seq<byte>, y: seq<byte>, z: seq<byte>)
    ensures (x + y) + z == x + (y + z)
  {
  }

  lemma {:induction false} FlattenConcat(a: seq<Emission>, b: seq<Emission>)
    ensures Flatten(a + b) == Flatten(a) + Flatten(b)
  {
    if |a| == 0 {
      assert a + b == b;
    } else {
      FlattenConcat(a[1..], b);
      assert (a + b)[1..] == a[1..] + b;
      Assoc(a[0].bytes, Flatten(a[1..]), Flatten(b));
    }
  }

  lemma {:induction false} FlattenCons(e: Emission, es: seq<Emission>)
    ensures Flatten([e] + es) == e.bytes + Flatten(es)
  {
    assert ([e] + es)[1..] == es;
  }

  /**
    A bounded call hands out a prefix of what the reference emits, as whole
    encodings, and the reference continued from where it stopped emits the rest.
   */
  ghost predicate Follows<S(!new)>(c: Codec<S>, mode: Mode, s: Conv<S>, r: CallResult<S>)
    requires c.WellBehaved()
  {
    var ref := Reference(c, mode, s);
    var s' := Conv(r.desc.inState, r.desc.outState, r.rest);
    && r.emitted <= ref.emitted
    && (r.exit == IllSeq ==> r.emitted == ref.emitted && ref.illegal && s' == ref.final)
    && (r.exit != IllSeq ==>
          Reference(c, mode, s') == Converted(ref.emitted[|r.emitted|..], ref.final, ref.illegal))
  }

  lemma {:induction false} GreedyFollows<S(!new)>(c: Codec<S>, mode: Mode, s: Conv<S>, space: nat)
    requires c.WellBehaved()
    ensures Follows(c, mode, s, Greedy(c, mode, s, space))
    decreases |s.rest|
  {
    if space == 0 || |s.rest| == 0 {
      var es := Reference(c, mode, s).emitted;
      assert es[0..] == es;
    } else {
      var step := OneChar(c, mode, s);
      if step.Emit? {
        if |step.e.bytes| <= space {
          GreedyFollows(c, mode, step.next, space - |step.e.bytes|);
          FollowsEmit(c, mode, s, Greedy(c, mode, step.next, space - |step.e.bytes|));
        } else {
          var es := Reference(c, mode, step.next).emitted;
          assert ([step.e] + es)[1..] == es;
        }
      }
    }
  }

  lemma {:induction false} FollowsEmit<S(!new)>(c: Codec<S>, mode: Mode, s: Conv<S>, r: CallResult<S>)
    requires c.WellBehaved() && |s.rest| > 0 && OneChar(c, mode, s).Emit?
    requires Follows(c, mode, OneChar(c, mode, s).next, r)
    ensures Follows(c, mode, s, r.After(OneChar(c, mode, s).e.bytes, [OneChar(c, mode, s).e]))
  {
    var e := OneChar(c, mode, s).e;
    var es := Reference(c, mode, OneChar(c, mode, s).next).emitted;
    PrefixCons(e, r.emitted, es);
  }

  lemma {:induction false} PrefixCons(e: Emission, a: seq<Emission>, b: seq<Emission>)
    requires a <= b
    ensures [e] + a <= [e] + b && ([e] + b)[1 + |a|..] == b[|a|..]
  {
  }

  lemma {:induction false} CallFollows<S(!new)>(c: Codec<S>, mode: Mode, d: Desc<S>, input: seq<byte>, space: nat)
    requires c.WellBehaved()
    ensures Follows(c, mode, Conv(d.inState, d.outState, input), Call(c, mode, d, input, space))
  {
    var s := Conv(d.inState, d.outState, input);
    if |d.staged| == 0 {
      GreedyFollows(c, mode, s, space);
    } else if space >= |d.staged| {
      GreedyFollows(c, mode, s, space - |d.staged|);
      AfterFlush(Greedy(c, mode, s, space - |d.staged|), d.staged);
    } else {
      var es := Reference(c, mode, s).emitted;
      assert es[0..] == es;
    }
  }

  /** Bytes out and bytes staged are the bytes staged before and the encodings made, within the space. */
  predicate Accounts<S(!new)>(r: CallResult<S>, before: seq<byte>, space: nat) {
    && |r.written| <= space
    && r.written + r.desc.staged == before + Flatten(r.emitted)
    && |r.desc.staged| <= MB_LEN_MAX
  }

  /** Bytes stay staged exactly for lack of room, and then they are one whole encoding. */
  predicate StagesWhole<S(!new)>(r: CallResult<S>) {
    && (r.exit == TooBig <==> r.desc.staged != [])
    && (r.exit == TooBig ==> |r.emitted| > 0 && r.desc.staged == r.emitted[|r.emitted| - 1].bytes)
  }

  lemma {:induction false} AccountsEmit<S(!new)>(r: CallResult<S>, e: Emission, space: nat)
    requires |e.bytes| <= space && Accounts(r, [], space - |e.bytes|) && StagesWhole(r)
    ensures Accounts(r.After(e.bytes, [e]), [], space) && StagesWhole(r.After(e.bytes, [e]))
  {
    FlattenCons(e, r.emitted);
    Assoc(e.bytes, r.written, r.desc.staged);
    Assoc([], e.bytes, Flatten(r.emitted));
    LastOfCons(e, r.emitted);
  }

  lemma {:induction false} LastOfCons(e: Emission, es: seq<Emission>)
    ensures |es| > 0 ==> ([e] + es)[|es|] == es[|es| - 1]
  {
  }

  lemma {:induction false} AccountsStage<S(!new)>(desc: Desc<S>, rest: seq<byte>, e: Emission, space: nat)
    requires desc.staged == e.bytes && |e.bytes| <= MB_LEN_MAX && space < |e.bytes|
    ensures var r := CallResult(desc, rest, [], [e], TooBig); Accounts(r, [], space) && StagesWhole(r)
  {
    FlattenCons(e, []);
    assert [e] + [] == [e] && e.bytes + [] == e.bytes;
  }

  /** How a call with room goes on after a character that fits. */
  lemma {:induction false} GreedyEmits<S(!new)>(c: Codec<S>, mode: Mode, s: Conv<S>, space: nat)
    requires c.WellBehaved() && 0 < space && |s.rest| > 0 && OneChar(c, mode, s).Emit?
    requires |OneChar(c, mode, s).e.bytes| <= space
    ensures var step := OneChar(c, mode, s);
            Greedy(c, mode, s, space)
            == Greedy(c, mode, step.next, space - |step.e.bytes|).After(step.e.bytes, [step.e])
  {
  }

  /** Where it stops otherwise. */
  lemma {:induction false} GreedyStops<S(!new)>(c: Codec<S>, mode: Mode, s: Conv<S>, space: nat)
    requires c.WellBehaved()
    requires space == 0 || |s.rest| == 0 || !OneChar(c, mode, s).Emit? || |OneChar(c, mode, s).e.bytes| > space
    ensures Accounts(Greedy(c, mode, s, space), [], space) && StagesWhole(Greedy(c, mode, s, space))
  {
    if space > 0 && |s.rest| > 0 && OneChar(c, mode, s).Emit? {
      var e, n := OneChar(c, mode, s).e, OneChar(c, mode, s).next;
      AccountsStage(Desc(n.inState, n.outState, e.bytes), n.rest, e, space);
    }
  }

  lemma {:induction false} GreedyAccounts<S(!new)>(c: Codec<S>, mode: Mode, s: Conv<S>, space: nat)
    requires c.WellBehaved()
    ensures Accounts(Greedy(c, mode, s, space), [], space) && StagesWhole(Greedy(c, mode, s, space))
    decreases |s.rest|
  {
    if space > 0 && |s.rest| > 0 && OneChar(c, mode, s).Emit? && |OneChar(c, mode, s).e.bytes| <= space {
      var e, n := OneChar(c, mode, s).e, OneChar(c, mode, s).next;
      GreedyAccounts(c, mode, n, space - |e.bytes|);
      AccountsEmit(Greedy(c, mode, n, space - |e.bytes|), e, space);
      GreedyEmits(c, mode, s, space);
    } else {
      GreedyStops(c, mode, s, space);
    }
  }

  lemma {:induction false} AfterFlush<S(!new)>(g: CallResult<S>, staged: seq<byte>)
    ensures var r := g.After(staged, []);
            && r.emitted == g.emitted
            && r.written + r.desc.staged == staged + (g.written + g.desc.staged)
  {
    Assoc(staged, g.written, g.desc.staged);
  }

  lemma {:induction false} AccountsFlush<S(!new)>(g: CallResult<S>, staged: seq<byte>, space: nat)
    requires |staged| <= space && Accounts(g, [], space - |staged|) && StagesWhole(g)
    ensures Accounts(g.After(staged, []), staged, space) && StagesWhole(g.After(staged, []))
  {
    AfterFlush(g, staged);
    assert [] + Flatten(g.emitted) == Flatten(g.emitted);
  }

  lemma {:induction false} AccountsNothing<S(!new)>(d: Desc<S>, input: seq<byte>, space: nat, exit: Exit)
    requires |d.staged| <= MB_LEN_MAX
    ensures Accounts(CallResult(d, input, [], [], exit), d.staged, space)
  {
    assert [] + d.staged == d.staged + [];
  }

  /**
    One call from any descriptor: nothing is lost, the space is respected, and
    with any space at all the call reports E2BIG exactly when bytes stay staged.
    What stays staged is untouched, or is one whole new encoding.
   */
  lemma {:induction false} CallConserves<S(!new)>(c: Codec<S>, mode: Mode, d: Desc<S>, input: seq<byte>, space: nat)
    requires c.WellBehaved() && |d.staged| <= MB_LEN_MAX
    ensures Accounts(Call(c, mode, d, input, space), d.staged, space)
    ensures space > 0 ==>
              (Call(c, mode, d, input, space).exit == TooBig <==> Call(c, mode, d, input, space).desc.staged != [])
    ensures StagesWhole(Call(c, mode, d, input, space)) ||
            (var r := Call(c, mode, d, input, space);
             r.written == [] && r.emitted == [] && r.desc == d && r.rest == input)
  {
    var s := Conv(d.inState, d.outState, input);
    if |d.staged| == 0 {
      ConservesDirect(c, mode, s, d, space);
    } else if space >= |d.staged| {
      ConservesFlush(c, mode, s, d, space);
    } else {
      AccountsNothing(d, input, space, if space == 0 then Done else TooBig);
    }
  }

  lemma {:induction false} ConservesDirect<S(!new)>(c: Codec<S>, mode: Mode, s: Conv<S>, d: Desc<S>, space: nat)
    requires c.WellBehaved() && d.staged == []
    ensures var r := Greedy(c, mode, s, space); Accounts(r, d.staged, space) && StagesWhole(r)
  {
    GreedyAccounts(c, mode, s, space);
  }

  lemma {:induction false} ConservesFlush<S(!new)>(c: Codec<S>, mode: Mode, s: Conv<S>, d: Desc<S>, space: nat)
    requires c.WellBehaved() && |d.staged| <= space
    ensures var r := Greedy(c, mode, s, space - |d.staged|).After(d.staged, []);
            Accounts(r, d.staged, space) && StagesWhole(r)
  {
    GreedyAccounts(c, mode, s, space - |d.staged|);
    AccountsFlush(Greedy(c, mode, s, space - |d.staged|), d.staged, space);
  }

  // ----- every run of calls

  datatype CallInput = CallInput(input: seq<byte>, space: nat)

  datatype RunResult<S(!new)> = RunResult(desc: Desc<S>, out: seq<byte>, emitted: seq<Emission>)

  /** Any number of calls on one descriptor, with arbitrary inputs and output sizes. */
  function Run<S(!new)>(c: Codec<S>, mode: Mode, d: Desc<S>, calls: seq<CallInput>): RunResult<S>
    requires c.WellBehaved()
  {
    if |calls| == 0 then RunResult(d, [], []) else
      var n := |calls| - 1;
      var r := Run(c, mode, d, calls[..n]);
      var x := Call(c, mode, r.desc, calls[n].input, calls[n].space);
      RunResult(x.desc, r.out + x.written, r.emitted + x.emitted)
  }

  /** Over every run, output so far and staged bytes are the encodings of all characters converted so far. */
  lemma {:induction false} RunConserves<S(!new)>(c: Codec<S>, mode: Mode, d: Desc<S>, calls: seq<CallInput>)
    requires c.WellBehaved() && |d.staged| <= MB_LEN_MAX
    ensures var r := Run(c, mode, d, calls);
            && r.out + r.desc.staged == d.staged + Flatten(r.emitted)
            && |r.desc.staged| <= MB_LEN_MAX
  {
    if |calls| == 0 {
      assert [] + d.staged == d.staged + [];
    } else {
      var n := |calls| - 1;
      var r := Run(c, mode, d, calls[..n]);
      RunConserves(c, mode, d, calls[..n]);
      CallConserves(c, mode, r.desc, calls[n].input, calls[n].space);
      var x := Call(c, mode, r.desc, calls[n].input, calls[n].space);
      FlattenConcat(r.emitted, x.emitted);
      ChainBytes(r.out, x.written, x.desc.staged, r.desc.staged, Flatten(x.emitted), d.staged, Flatten(r.emitted));
    }
  }

  // ----- what the emissions are

  /**
    The shift state after the emissions, if from `o` on each is the encoding of
    its character, or in translit mode that of '?' for one that has none.
   */
  function OutStateAfter<S(!new)>(c: Codec<S>, mode: Mode, o: S, es: seq<Emission>): Option<S>
    decreases |es|
  {
    if |es| == 0 then Some(o) else
      var e := es[0];
      var (x, p) := c.encode(o, e.wc);
      if !e.inexact then
        if x == Bytes(e.bytes) then OutStateAfter(c, mode, p, es[1..]) else None
      else if mode == Translit && x == Unencodable then
        var (y, q) := c.encode(p, QUESTION_MARK);
        if y == Bytes(e.bytes) then OutStateAfter(c, mode, q, es[1..]) else None
      else None
  }

  /** The state an illegal sequence leaves: bad input does not touch it, a character without encoding may. */
  ghost predicate Rejects<S(!new)>(c: Codec<S>, mode: Mode, o: S, o': S) {
    o' == o ||
    exists wc :: c.encode(o, wc).0 == Unencodable &&
      var p := c.encode(o, wc).1;
      if mode == Default then o' == p
      else c.encode(p, QUESTION_MARK).0 == Unencodable && o' == c.encode(p, QUESTION_MARK).1
  }

  /** The emissions of a call start from the state it found and lead to the state it left. */
  ghost predicate Threads<S(!new)>(c: Codec<S>, mode: Mode, o: S, r: CallResult<S>) {
    var t := OutStateAfter(c, mode, o, r.emitted);
    && t.Some?
    && (r.exit != IllSeq ==> r.desc.outState == t.value)
    && (r.exit == IllSeq ==> Rejects(c, mode, t.value, r.desc.outState))
  }

  lemma {:induction false} OneThreads<S(!new)>(c: Codec<S>, mode: Mode, s: Conv<S>)
    requires c.WellBehaved() && |s.rest| > 0
    ensures var step := OneChar(c, mode, s);
            && (step.Partial? ==> step.next.outState == s.outState)
            && (step.Illegal? ==> Rejects(c, mode, s.outState, step.next.outState))
  {
    var step := OneChar(c, mode, s);
    var d := c.decode(s.inState, s.rest).0;
    if step.Illegal? && !d.Invalid? {
      var wc := if d.Char? then d.wc else 0;
      assert c.encode(s.outState, wc).0 == Unencodable;
    }
  }

  lemma {:induction false} EmitThreads<S(!new)>(c: Codec<S>, mode: Mode, s: Conv<S>, es: seq<Emission>)
    requires c.WellBehaved() && |s.rest| > 0 && OneChar(c, mode, s).Emit?
    ensures var step := OneChar(c, mode, s);
            OutStateAfter(c, mode, s.outState, [step.e] + es) == OutStateAfter(c, mode, step.next.outState, es)
  {
    assert ([OneChar(c, mode, s).e] + es)[1..] == es;
  }

  lemma {:induction false} GreedyThreads<S(!new)>(c: Codec<S>, mode: Mode, s: Conv<S>, space: nat)
    requires c.WellBehaved()
    ensures Threads(c, mode, s.outState, Greedy(c, mode, s, space))
    decreases |s.rest|
  {
    if space > 0 && |s.rest| > 0 {
      OneThreads(c, mode, s);
      var step := OneChar(c, mode, s);
      if step.Emit? {
        if |step.e.bytes| <= space {
          var g := Greedy(c, mode, step.next, space - |step.e.bytes|);
          GreedyThreads(c, mode, step.next, space - |step.e.bytes|);
          EmitThreads(c, mode, s, g.emitted);
        } else {
          EmitThreads(c, mode, s, []);
          assert [step.e] == [step.e] + [];
        }
      }
    }
  }

  lemma {:induction false} CallThreads<S(!new)>(c: Codec<S>, mode: Mode, d: Desc<S>, input: seq<byte>, space: nat)
    requires c.WellBehaved()
    ensures Threads(c, mode, d.outState, Call(c, mode, d, input, space))
  {
    var s := Conv(d.inState, d.outState, input);
    if |d.staged| == 0 {
      GreedyThreads(c, mode, s, space);
    } else if |d.staged| <= space {
      GreedyThreads(c, mode, s, space - |d.staged|);
      AfterFlush(Greedy(c, mode, s, space - |d.staged|), d.staged);
    }
  }

  lemma {:induction false} ThreadConcat<S(!new)>(c: Codec<S>, mode: Mode, o: S, a: seq<Emission>, b: seq<Emission>)
    requires OutStateAfter(c, mode, o, a).Some?
    ensures OutStateAfter(c, mode, o, a + b) == OutStateAfter(c, mode, OutStateAfter(c, mode, o, a).value, b)
    decreases |a|
  {
    if |a| == 0 {
      assert a + b == b;
    } else {
      assert (a + b)[1..] == a[1..] + b && (a + b)[0] == a[0];
      var (x, p) := c.encode(o, a[0].wc);
      ThreadConcat(c, mode, if a[0].inexact then c.encode(p, QUESTION_MARK).1 else p, a[1..], b);
    }
  }

  /** Call `n` of a run. */
  function CallAt<S(!new)>(c: Codec<S>, mode: Mode, d: Desc<S>, calls: seq<CallInput>, n: nat): CallResult<S>
    requires c.WellBehaved() && n < |calls|
  {
    Call(c, mode, Run(c, mode, d, calls[..n]).desc, calls[n].input, calls[n].space)
  }

  /**
    Over every run, each call's emissions are encodings made from the shift state
    the call found; and if no call met an illegal sequence, all emissions of the
    run are encodings made one after the other from the first state.
   */
  lemma {:induction false} RunEncodes<S(!new)>(c: Codec<S>, mode: Mode, d: Desc<S>, calls: seq<CallInput>)
    requires c.WellBehaved()
    ensures forall n :: 0 <= n < |calls| ==>
              Threads(c, mode, Run(c, mode, d, calls[..n]).desc.outState, CallAt(c, mode, d, calls, n))
    ensures (forall n :: 0 <= n < |calls| ==> CallAt(c, mode, d, calls, n).exit != IllSeq) ==>
              var r := Run(c, mode, d, calls);
              OutStateAfter(c, mode, d.outState, r.emitted) == Some(r.desc.outState)
  {
    forall n | 0 <= n < |calls|
      ensures Threads(c, mode, Run(c, mode, d, calls[..n]).desc.outState, CallAt(c, mode, d, calls, n))
    {
      CallThreads(c, mode, Run(c, mode, d, calls[..n]).desc, calls[n].input, calls[n].space);
    }
    if forall n :: 0 <= n < |calls| ==> CallAt(c, mode, d, calls, n).exit != IllSeq {
      RunThreads(c, mode, d, calls);
    }
  }

  lemma {:induction false} RunThreads<S(!new)>(c: Codec<S>, mode: Mode, d: Desc<S>, calls: seq<CallInput>)
    requires c.WellBehaved()
    requires forall n :: 0 <= n < |calls| ==> CallAt(c, mode, d, calls, n).exit != IllSeq
    ensures var r := Run(c, mode, d, calls);
            OutStateAfter(c, mode, d.outState, r.emitted) == Some(r.desc.outState)
  {
    if |calls| > 0 {
      var n := |calls| - 1;
      var before := calls[..n];
      forall i | 0 <= i < n ensures CallAt(c, mode, d, before, i).exit != IllSeq {
        assert before[..i] == calls[..i];
        assert CallAt(c, mode, d, before, i) == CallAt(c, mode, d, calls, i);
      }
      RunThreads(c, mode, d, before);
      var r, x := Run(c, mode, d, before), CallAt(c, mode, d, calls, n);
      CallThreads(c, mode, r.desc, calls[n].input, calls[n].space);
      ThreadConcat(c, mode, d.outState, r.emitted, x.emitted);
    }
  }

  lemma {:induction false} ChainBytes(
      o: seq<byte>, w: seq<byte>, t': seq<byte>, t: seq<byte>, e: seq<byte>, d: seq<byte>, f: seq<byte>)
    requires o + t == d + f && w + t' == t + e
    ensures (o + w) + t' == d + (f + e)
  {
    assert (o + w) + t' == o + (w + t');
    assert o + (t + e) == (o + t) + e;
    assert (d + f) + e == d + (f + e);
  }
}
