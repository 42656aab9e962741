/**
  What a call of `iconv` reads: from the shift state and the input it was given,
  the characters it emits are decoded one after the other, and it stops where
  the input, the room or the character sets make it stop.  Nothing here mentions
  the functions that define a call; only `decode` and `encode` of the codec.
 */
module IconvReads {
  import opened Base
  import opened IconvSpec
  import opened IconvDrain

  /** A shift state of the decoder and the input still to be read. */
  datatype Input<S(!new)> = Input(state: S, rest: seq<byte>)

  /**
    Where the decoder is after the emissions, if from `at` on each is a decoded
    character.  A NUL takes all that is left.
   */
  function InAfter<S(!new)>(c: Codec<S>, at: Input<S>, es: seq<Emission>): Option<Input<S>>
    decreases |es|
  {
    if |es| == 0 then Some(at)
    else if |at.rest| == 0 then None
    else
      var (d, i) := c.decode(at.state, at.rest);
      if d.Char? && d.wc == es[0].wc && d.n <= |at.rest| then InAfter(c, Input(i, at.rest[d.n..]), es[1..])
      else if d.Nul? && es[0].wc == 0 then InAfter(c, Input(i, []), es[1..])
      else None
  }

  /** `wc` has no encoding in state `o`, and in translit mode '?' has none either; `o'` is the state that leaves. */
  ghost predicate Unencodes<S(!new)>(c: Codec<S>, mode: Mode, o: S, wc: nat, o': S) {
    var (x, p) := c.encode(o, wc);
    && x == Unencodable
    && (mode == Default ==> o' == p)
    && (mode == Translit ==> c.encode(p, QUESTION_MARK).0 == Unencodable && o' == c.encode(p, QUESTION_MARK).1)
  }

  /** The input ends inside a character, which is swallowed. */
  ghost predicate Incomplete'<S(!new)>(c: Codec<S>, at: Input<S>, r: CallResult<S>) {
    && |at.rest| > 0 && c.decode(at.state, at.rest) == (Incomplete, r.desc.inState)
    && r.rest == [] && r.desc.staged == []
  }

  /** The next character is not valid and stays, or is valid, is taken and has no encoding. */
  ghost predicate Illegal'<S(!new)>(c: Codec<S>, mode: Mode, at: Input<S>, o: S, r: CallResult<S>) {
    && |at.rest| > 0
    && var (d, i) := c.decode(at.state, at.rest);
    && r.desc.inState == i
    && match d
       case Invalid => r.rest == at.rest && r.desc.outState == o
       case Incomplete => false
       case Nul => r.rest == [] && Unencodes(c, mode, o, 0, r.desc.outState)
       case Char(wc, n) => n <= |at.rest| && r.rest == at.rest[n..] && Unencodes(c, mode, o, wc, r.desc.outState)
  }

  /** The call stops with the decoder at `at` and the encoder in state `o`. */
  ghost predicate Stays<S(!new)>(at: Input<S>, o: S, r: CallResult<S>) {
    r.desc.inState == at.state && r.desc.outState == o && r.rest == at.rest
  }

  /** Why a call stops once it has made its emissions. */
  ghost predicate Stops<S(!new)>(c: Codec<S>, mode: Mode, at: Input<S>, o: S, r: CallResult<S>) {
    match r.exit
    case TooBig => Stays(at, o, r)
    case IllSeq => Illegal'(c, mode, at, o, r)
    case Done => Stays(at, o, r) || (r.desc.outState == o && Incomplete'(c, at, r))
  }

  /** The emissions of a call are decoded from its input and encoded, and then it stops for a reason. */
  ghost predicate Reads<S(!new)>(c: Codec<S>, mode: Mode, s: Conv<S>, r: CallResult<S>) {
    var at := InAfter(c, Input(s.inState, s.rest), r.emitted);
    var o := OutStateAfter(c, mode, s.outState, r.emitted);
    at.Some? && o.Some? && Stops(c, mode, at.value, o.value, r)
  }

  // ----- every call reads

  lemma {:induction false} OneReads<S(!new)>(c: Codec<S>, mode: Mode, s: Conv<S>, r: CallResult<S>)
    requires c.WellBehaved() && |s.rest| > 0 && r.emitted == []
    requires var step := OneChar(c, mode, s);
             && (step.Partial? || step.Illegal?)
             && r.desc.inState == step.next.inState && r.desc.outState == step.next.outState && r.rest == step.next.rest
             && r.exit == (if step.Partial? then Done else IllSeq) && r.desc.staged == []
    ensures Reads(c, mode, s, r)
  {
  }

  lemma {:induction false} EmitReads<S(!new)>(c: Codec<S>, mode: Mode, s: Conv<S>, es: seq<Emission>)
    requires c.WellBehaved() && |s.rest| > 0 && OneChar(c, mode, s).Emit?
    ensures var step := OneChar(c, mode, s);
            InAfter(c, Input(s.inState, s.rest), [step.e] + es)
            == InAfter(c, Input(step.next.inState, step.next.rest), es)
  {
    assert ([OneChar(c, mode, s).e] + es)[1..] == es;
  }

  lemma {:induction false} ReadsOn<S(!new)>(c: Codec<S>, mode: Mode, s: Conv<S>, r: CallResult<S>, w: seq<byte>)
    requires c.WellBehaved() && |s.rest| > 0 && OneChar(c, mode, s).Emit?
    requires Reads(c, mode, OneChar(c, mode, s).next, r)
    ensures Reads(c, mode, s, r.After(w, [OneChar(c, mode, s).e]))
  {
    EmitReads(c, mode, s, r.emitted);
    EmitThreads(c, mode, s, r.emitted);
  }

  lemma {:induction false} GreedyReads<S(!new)>(c: Codec<S>, mode: Mode, s: Conv<S>, space: nat)
    requires c.WellBehaved()
    ensures Reads(c, mode, s, Greedy(c, mode, s, space))
    decreases |s.rest|
  {
    if space > 0 && |s.rest| > 0 {
      var step := OneChar(c, mode, s);
      if step.Emit? {
        if |step.e.bytes| <= space {
          GreedyReads(c, mode, step.next, space - |step.e.bytes|);
          ReadsOn(c, mode, s, Greedy(c, mode, step.next, space - |step.e.bytes|), step.e.bytes);
        } else {
          var n := step.next;
          ReadsOn(c, mode, s, CallResult(Desc(n.inState, n.outState, step.e.bytes), n.rest, [], [], TooBig), []);
          assert [step.e] + [] == [step.e];
        }
      } else {
        OneReads(c, mode, s, Greedy(c, mode, s, space));
      }
    }
  }

  lemma {:induction false} CallReads<S(!new)>(c: Codec<S>, mode: Mode, d: Desc<S>, input: seq<byte>, space: nat)
    requires c.WellBehaved()
    ensures Reads(c, mode, Conv(d.inState, d.outState, input), Call(c, mode, d, input, space))
  {
    var s := Conv(d.inState, d.outState, input);
    if |d.staged| == 0 {
      GreedyReads(c, mode, s, space);
    } else if |d.staged| <= space {
      var g := Greedy(c, mode, s, space - |d.staged|);
      GreedyReads(c, mode, s, space - |d.staged|);
      AfterFlush(g, d.staged);
    }
  }

  /** So does every call of a run. */
  lemma {:induction false} RunReads<S(!new)>(c: Codec<S>, mode: Mode, d: Desc<S>, calls: seq<CallInput>, n: nat)
    requires c.WellBehaved() && n < |calls|
    ensures var before := Run(c, mode, d, calls[..n]).desc;
            Reads(c, mode, Conv(before.inState, before.outState, calls[n].input), CallAt(c, mode, d, calls, n))
  {
    CallReads(c, mode, Run(c, mode, d, calls[..n]).desc, calls[n].input, calls[n].space);
  }

  // ----- over calls that resume with what was left

  lemma {:induction false} InConcat<S(!new)>(c: Codec<S>, at: Input<S>, a: seq<Emission>, b: seq<Emission>)
    requires InAfter(c, at, a).Some?
    ensures InAfter(c, at, a + b) == InAfter(c, InAfter(c, at, a).value, b)
    decreases |a|
  {
    if |a| == 0 {
      assert a + b == b;
    } else {
      assert (a + b)[1..] == a[1..] + b && (a + b)[0] == a[0];
      var (d, i) := c.decode(at.state, at.rest);
      InConcat(c, if d.Char? then Input(i, at.rest[d.n..]) else Input(i, []), a[1..], b);
    }
  }

  /** A call that is given no input reads nothing. */
  lemma {:induction false} NothingToRead<S(!new)>(c: Codec<S>, mode: Mode, d: Desc<S>, space: nat)
    requires c.WellBehaved()
    ensures var r := Call(c, mode, d, [], space);
            && r.emitted == [] && r.rest == [] && r.exit != IllSeq
            && r.desc.inState == d.inState && r.desc.outState == d.outState
            && (d.staged == [] ==> r.exit == Done && r.desc.staged == [])
  {
  }

  lemma {:induction false} ReadsChain<S(!new)>(
      c: Codec<S>, mode: Mode, s: Conv<S>, f: CallResult<S>, input: seq<byte>, space: nat)
    requires c.WellBehaved() && Reads(c, mode, s, f) && f.exit != IllSeq && input == f.rest
    ensures Reads(c, mode, s, Call(c, mode, f.desc, input, space).After(f.written, f.emitted))
  {
    var r := Call(c, mode, f.desc, input, space);
    CallReads(c, mode, f.desc, input, space);
    InConcat(c, Input(s.inState, s.rest), f.emitted, r.emitted);
    ThreadConcat(c, mode, s.outState, f.emitted, r.emitted);
    if |input| == 0 {
      NothingToRead(c, mode, f.desc, space);
      assert input == [] && f.emitted + r.emitted == f.emitted;
    }
  }

  /** Calls with any output sizes, each resuming with the input left over, read like one call. */
  lemma {:induction false} FeedReads<S(!new)>(c: Codec<S>, mode: Mode, d: Desc<S>, input: seq<byte>, sizes: seq<nat>)
    requires c.WellBehaved()
    ensures Reads(c, mode, Conv(d.inState, d.outState, input), Feed(c, mode, d, input, sizes))
  {
    if |sizes| > 0 {
      var n := |sizes| - 1;
      var f := Feed(c, mode, d, input, sizes[..n]);
      FeedReads(c, mode, d, input, sizes[..n]);
      if f.exit != IllSeq {
        ReadsChain(c, mode, Conv(d.inState, d.outState, input), f, f.rest, sizes[n]);
      }
    }
  }

  // ----- the same by index

  /** From state `i` at position `p`, `wc` is decoded; the decoder is then in state `i'` at position `q`. */
  ghost predicate Between<S(!new)>(c: Codec<S>, input: seq<byte>, i: S, p: nat, wc: nat, i': S, q: nat) {
    && p < q <= |input|
    && (|| c.decode(i, input[p..]) == (Char(wc, q - p), i')
        || (c.decode(i, input[p..]) == (Nul, i') && wc == 0 && q == |input|))
  }

  /** Emission `k` is what stands between two cuts of the input, decoded from one state to the next. */
  ghost predicate Cut<S(!new)>(
      c: Codec<S>, input: seq<byte>, es: seq<Emission>, cuts: seq<nat>, states: seq<S>, k: nat)
    requires k < |es| && |cuts| == |states| == |es| + 1
  {
    Between(c, input, states[k], cuts[k], es[k].wc, states[k + 1], cuts[k + 1])
  }

  lemma {:induction false} FirstCut<S(!new)>(c: Codec<S>, i: S, input: seq<byte>, p: nat, es: seq<Emission>)
    returns (i': S, q: nat)
    requires c.WellBehaved() && p <= |input| && |es| > 0 && InAfter(c, Input(i, input[p..]), es).Some?
    ensures Between(c, input, i, p, es[0].wc, i', q)
    ensures InAfter(c, Input(i, input[p..]), es) == InAfter(c, Input(i', input[q..]), es[1..])
  {
    var d := c.decode(i, input[p..]).0;
    i' := c.decode(i, input[p..]).1;
    q := if d.Char? then p + d.n else |input|;
    assert input[p..][q - p..] == input[q..];
  }

  lemma {:induction false} CutsCons<S(!new)>(
      c: Codec<S>, input: seq<byte>, es: seq<Emission>, p: nat, i: S, cuts: seq<nat>, states: seq<S>, k: nat)
    requires |cuts| == |states| == |es| && k < |es| && Between(c, input, i, p, es[0].wc, states[0], cuts[0])
    requires k > 0 ==> Cut(c, input, es[1..], cuts, states, k - 1)
    ensures Cut(c, input, es, [p] + cuts, [i] + states, k)
  {
  }

  /** The cuts and states that `InAfter` passes through, from position `p` of the input on. */
  lemma {:induction false} CutsFrom<S(!new)>(c: Codec<S>, i: S, input: seq<byte>, p: nat, es: seq<Emission>)
    returns (cuts: seq<nat>, states: seq<S>)
    requires c.WellBehaved() && p <= |input| && InAfter(c, Input(i, input[p..]), es).Some?
    ensures |cuts| == |states| == |es| + 1 && cuts[0] == p && states[0] == i && cuts[|es|] <= |input|
    ensures forall k :: 0 <= k < |es| ==> Cut(c, input, es, cuts, states, k)
    ensures InAfter(c, Input(i, input[p..]), es).value == Input(states[|es|], input[cuts[|es|]..])
    decreases |es|
  {
    cuts, states := [p], [i];
    if |es| > 0 {
      var i', q := FirstCut(c, i, input, p, es);
      var cuts', states' := CutsFrom(c, i', input, q, es[1..]);
      cuts, states := [p] + cuts', [i] + states';
      forall k | 0 <= k < |es| ensures Cut(c, input, es, cuts, states, k) {
        CutsCons(c, input, es, p, i, cuts', states', k);
      }
    }
  }

  /**
    Every call cuts its input: there are positions and decoder states, from the
    start and the descriptor's state on, between which the emissions are decoded.
   */
  lemma {:induction false} CallCuts<S(!new)>(c: Codec<S>, mode: Mode, d: Desc<S>, input: seq<byte>, space: nat)
    returns (cuts: seq<nat>, states: seq<S>, o: S)
    requires c.WellBehaved()
    ensures var r := Call(c, mode, d, input, space);
            var n := |r.emitted|;
            && |cuts| == |states| == n + 1 && cuts[0] == 0 && states[0] == d.inState && cuts[n] <= |input|
            && (forall k :: 0 <= k < n ==> Cut(c, input, r.emitted, cuts, states, k))
            && OutStateAfter(c, mode, d.outState, r.emitted) == Some(o)
            && Stops(c, mode, Input(states[n], input[cuts[n]..]), o, r)
  {
    var r := Call(c, mode, d, input, space);
    CallReads(c, mode, d, input, space);
    assert input[0..] == input;
    cuts, states := CutsFrom(c, d.inState, input, 0, r.emitted);
    o := OutStateAfter(c, mode, d.outState, r.emitted).value;
  }

  // ----- room

  /**
    A call decodes a character only while there is room, keeps an encoding back
    only if it does not fit, and otherwise goes on until the input or the room is
    used up.
   */
  ghost predicate FillsRoom<S(!new)>(r: CallResult<S>, before: seq<byte>, space: nat) {
    && (forall k :: 0 <= k < |r.emitted| ==> |before| + |Flatten(r.emitted[..k])| < space)
    && (r.exit == TooBig ==> |r.written| + |r.desc.staged| > space)
    && (r.exit == Done ==> r.rest == [] || |r.written| == space)
  }

  lemma {:induction false} FillsOn<S(!new)>(r: CallResult<S>, e: Emission, space: nat)
    requires 0 < space && |e.bytes| <= space && FillsRoom(r, [], space - |e.bytes|)
    ensures FillsRoom(r.After(e.bytes, [e]), [], space)
  {
    var all := [e] + r.emitted;
    forall k | 0 <= k < |all| ensures |Flatten(all[..k])| < space {
      if k > 0 {
        assert all[..k] == [e] + r.emitted[..k - 1];
        FlattenCons(e, r.emitted[..k - 1]);
      } else {
        assert |all[..0]| == 0;
      }
    }
  }

  lemma {:induction false} GreedyFills<S(!new)>(c: Codec<S>, mode: Mode, s: Conv<S>, space: nat)
    requires c.WellBehaved()
    ensures FillsRoom(Greedy(c, mode, s, space), [], space)
    decreases |s.rest|
  {
    if space > 0 && |s.rest| > 0 {
      var step := OneChar(c, mode, s);
      if step.Emit? && |step.e.bytes| <= space {
        GreedyFills(c, mode, step.next, space - |step.e.bytes|);
        FillsOn(Greedy(c, mode, step.next, space - |step.e.bytes|), step.e, space);
      }
    }
  }

  lemma {:induction false} CallFills<S(!new)>(c: Codec<S>, mode: Mode, d: Desc<S>, input: seq<byte>, space: nat)
    requires c.WellBehaved()
    ensures FillsRoom(Call(c, mode, d, input, space), d.staged, space)
  {
    var s := Conv(d.inState, d.outState, input);
    if |d.staged| == 0 {
      GreedyFills(c, mode, s, space);
    } else if |d.staged| <= space {
      var g := Greedy(c, mode, s, space - |d.staged|);
      GreedyFills(c, mode, s, space - |d.staged|);
      AfterFlush(g, d.staged);
    }
  }

  // ----- all that is known of a call

  /** What a call does, without the functions that compute it. */
  ghost predicate Explains<S(!new)>(
      c: Codec<S>, mode: Mode, d: Desc<S>, input: seq<byte>, space: nat, r: CallResult<S>)
  {
    && Reads(c, mode, Conv(d.inState, d.outState, input), r)
    && Accounts(r, d.staged, space) && FillsRoom(r, d.staged, space)
    && (space > 0 ==> (r.exit == TooBig <==> r.desc.staged != []))
  }

  lemma {:induction false} CallExplained<S(!new)>(c: Codec<S>, mode: Mode, d: Desc<S>, input: seq<byte>, space: nat)
    requires c.WellBehaved() && |d.staged| <= MB_LEN_MAX
    ensures Explains(c, mode, d, input, space, Call(c, mode, d, input, space))
  {
    CallReads(c, mode, d, input, space);
    CallConserves(c, mode, d, input, space);
    CallFills(c, mode, d, input, space);
  }
}
