/**
  `iconv` itself: the loop of libc/iconv/iconv.c over the descriptor of
  libc/iconv/iconv_private.h, writing straight into the caller's buffer when a
  longest encoding fits and through the descriptor's buffer otherwise.
 */
module Iconv {
  import opened Base
  import opened IconvSpec
  import opened IconvReads

  /** `(size_t)-1` with errno E2BIG or EILSEQ, or the number of inexact conversions. */
  datatype Return = E2BIG | EILSEQ | Count(n: nat)

  function ReturnOf<S(!new)>(r: CallResult<S>): Return {
    match r.exit
    case TooBig => E2BIG
    case IllSeq => EILSEQ
    case Done => Count(InexactCount(r.emitted))
  }

  // ----- what each turn of the loop does to `Call`

  lemma {:induction false} AfterAfter<S(!new)>(
      r: CallResult<S>, w1: seq<byte>, e1: seq<Emission>, w2: seq<byte>, e2: seq<Emission>)
    ensures r.After(w2, e2).After(w1, e1) == r.After(w1 + w2, e1 + e2)
  {
    Assoc(w1, w2, r.written);
    assert e1 + (e2 + r.emitted) == (e1 + e2) + r.emitted;
  }

  lemma {:induction false} AfterNothing<S(!new)>(r: CallResult<S>)
    ensures r.After([], []) == r
  {
    assert [] + r.written == r.written && [] + r.emitted == r.emitted;
  }

  lemma {:induction false} TurnFlush<S(!new)>(c: Codec<S>, mode: Mode, d: Desc<S>, input: seq<byte>, space: nat)
    requires c.WellBehaved() && 0 < |d.staged| <= space
    ensures Call(c, mode, d, input, space)
         == Call(c, mode, d.(staged := []), input, space - |d.staged|).After(d.staged, [])
  {
  }

  lemma {:induction false} TurnDirect<S(!new)>(
      c: Codec<S>, mode: Mode, d: Desc<S>, input: seq<byte>, space: nat, e: Emission, n: Conv<S>)
    requires c.WellBehaved() && |d.staged| == 0 && |input| > 0 && space >= MB_LEN_MAX
    requires OneChar(c, mode, Conv(d.inState, d.outState, input)) == Emit(e, n)
    ensures |e.bytes| <= MB_LEN_MAX
    ensures Call(c, mode, d, input, space)
         == Call(c, mode, Desc(n.inState, n.outState, []), n.rest, space - |e.bytes|).After(e.bytes, [e])
  {
  }

  lemma {:induction false} TurnStaged<S(!new)>(
      c: Codec<S>, mode: Mode, d: Desc<S>, input: seq<byte>, space: nat, e: Emission, n: Conv<S>)
    requires c.WellBehaved() && |d.staged| == 0 && |input| > 0 && space > 0
    requires OneChar(c, mode, Conv(d.inState, d.outState, input)) == Emit(e, n)
    ensures |e.bytes| <= MB_LEN_MAX
    ensures Call(c, mode, d, input, space)
         == Call(c, mode, Desc(n.inState, n.outState, e.bytes), n.rest, space).After([], [e])
  {
    if |e.bytes| == 0 {
      assert e.bytes == [];
    } else if |e.bytes| <= space {
      AfterAfter(Greedy(c, mode, n, space - |e.bytes|), [], [e], e.bytes, []);
      assert [e] + [] == [e] && [] + e.bytes == e.bytes;
    } else {
      assert [e] + [] == [e];
    }
  }

  lemma {:induction false} TurnStop<S(!new)>(
      c: Codec<S>, mode: Mode, d: Desc<S>, input: seq<byte>, space: nat, n: Conv<S>)
    requires c.WellBehaved() && |d.staged| == 0 && |input| > 0 && space > 0
    requires var step := OneChar(c, mode, Conv(d.inState, d.outState, input)); step == Partial(n) || step == Illegal(n)
    ensures Call(c, mode, d, input, space) ==
            CallResult(Desc(n.inState, n.outState, []), n.rest, [], [],
                       if OneChar(c, mode, Conv(d.inState, d.outState, input)).Partial? then Done else IllSeq)
  {
  }

  lemma {:induction false} TurnNoRoom<S(!new)>(c: Codec<S>, mode: Mode, d: Desc<S>, input: seq<byte>, space: nat)
    requires c.WellBehaved() && 0 < space < |d.staged|
    ensures Call(c, mode, d, input, space) == CallResult(d, input, [], [], TooBig)
  {
  }

  lemma {:induction false} TurnIdle<S(!new)>(c: Codec<S>, mode: Mode, d: Desc<S>, input: seq<byte>, space: nat)
    requires c.WellBehaved() && (space == 0 || (|input| == 0 && |d.staged| == 0))
    ensures Call(c, mode, d, input, space) == CallResult(d, input, [], [], Done)
  {
  }

  lemma {:induction false} AfterAll<S(!new)>(d: Desc<S>, rest: seq<byte>, exit: Exit, w: seq<byte>, es: seq<Emission>)
    ensures CallResult(d, rest, [], [], exit).After(w, es) == CallResult(d, rest, w, es, exit)
  {
    assert w + [] == w && es + [] == es;
  }

  /** The caller's buffer holds `w` at `at`. */
  predicate Has(out: array<byte>, at: nat, w: seq<byte>)
    reads out
  {
    at + |w| <= out.Length && forall i :: 0 <= i < |w| ==> out[at + i] == w[i]
  }

  /** Outside the `n` bytes from `at` on, nothing changed. */
  twostate predicate Untouched(out: array<byte>, at: nat, n: nat)
    reads out
  {
    forall i :: 0 <= i < out.Length && !(at <= i < at + n) ==> out[i] == old(out[i])
  }

  /** What decoding and encoding one character came to. */
  datatype Turn = Got(e: Emission) | Short | Bad

  class Descriptor<S(!new)> {
    const codec: Codec<S>
    const mode: Mode
    var inState: S
    var outState: S
    const buf: array<byte>
    var bufLen: nat
    var bufOff: nat

    ghost predicate Valid()
      reads this, buf
    {
      && codec.WellBehaved()
      && buf.Length == MB_LEN_MAX
      && bufOff == 0 && bufLen <= MB_LEN_MAX
    }

    ghost function View(): Desc<S>
      requires Valid()
      reads this, buf
    {
      Desc(inState, outState, buf[bufOff..bufLen])
    }

    /** `iconv_open`: both shift states start as given, nothing is staged. */
    constructor (c: Codec<S>, m: Mode, initial: S)
      requires c.WellBehaved()
      ensures Valid() && codec == c && mode == m && fresh(buf)
      ensures View() == Desc(initial, initial, [])
    {
      codec, mode := c, m;
      inState, outState := initial, initial;
      buf := new byte[MB_LEN_MAX];
      bufLen, bufOff := 0, 0;
    }

    /** `out_wctomb`, and in translit mode once more for '?' when that failed. */
    method EncodeChar(wc: nat, ghost s: Conv<S>) returns (bytes: Option<seq<byte>>, inexact: bool)
      requires Valid() && s.outState == outState
      modifies this`outState
      ensures Put(codec, mode, s, wc) ==
              if bytes.Some? then Emit(Emission(wc, bytes.value, inexact), s.(outState := outState))
              else Illegal(s.(outState := outState))
    {
      var r := codec.encode(outState, wc);
      outState := r.1;
      if r.0.Bytes? {
        return Some(r.0.bytes), false;
      }
      if mode == Default {
        return None, false;
      }
      r := codec.encode(outState, QUESTION_MARK);
      outState := r.1;
      if r.0.Bytes? {
        return Some(r.0.bytes), true;
      }
      return None, true;
    }

    /** Copy `bytes` to the caller's buffer at `at`. */
    method CopyOut(bytes: seq<byte>, out: array<byte>, at: nat)
      requires at + |bytes| <= out.Length
      modifies out
      ensures Has(out, at, bytes) && Untouched(out, at, |bytes|)
    {
      forall i | 0 <= i < |bytes| {
        out[at + i] := bytes[i];
      }
    }

    /** Copy `bytes` to the start of the descriptor's own buffer. */
    method Stage(bytes: seq<byte>)
      requires Valid() && |bytes| <= MB_LEN_MAX
      modifies this`bufLen, buf
      ensures Valid() && View() == Desc(inState, outState, bytes)
    {
      forall i | 0 <= i < |bytes| {
        buf[i] := bytes[i];
      }
      bufLen := |bytes|;
    }

    /** Copy the staged bytes out and clear the staging buffer. */
    method Flush(out: array<byte>, at: nat)
      requires Valid() && bufLen > 0 && at + bufLen <= out.Length && out != buf
      modifies this`bufLen, this`bufOff, out
      ensures Valid() && View() == old(View()).(staged := [])
      ensures Has(out, at, old(View()).staged) && Untouched(out, at, old(bufLen))
    {
      var toCopy := bufLen - bufOff;
      CopyOut(buf[bufOff..bufOff + toCopy], out, at);
      bufOff := bufOff + toCopy;
      if bufOff == bufLen {
        bufOff, bufLen := 0, 0;
      }
    }

    /** Decode the next character at `inp[from..]` and encode it. */
    method NextChar(inp: seq<byte>, from: nat) returns (to: nat, turn: Turn)
      requires Valid() && from < |inp|
      modifies this`inState, this`outState
      ensures from <= to <= |inp|
      ensures var n := Conv(inState, outState, inp[to..]);
              OneChar(codec, mode, Conv(old(inState), old(outState), inp[from..])) ==
              match turn case Got(e) => Emit(e, n) case Short => Partial(n) case Bad => Illegal(n)
    {
      var r := codec.decode(inState, inp[from..]);
      inState := r.1;
      to := from;
      var wc: nat := 0;
      match r.0 {
        case Nul =>
          to := |inp|;
        case Invalid =>
          return to, Bad;
        case Incomplete =>
          to := |inp|;
          return to, Short;
        case Char(c, n) =>
          wc := c;
          to := to + n;
          assert inp[from..][n..] == inp[to..];
      }
      var bytes, inexact := EncodeChar(wc, Conv(inState, outState, inp[to..]));
      return to, if bytes.None? then Bad else Got(Emission(wc, bytes.value, inexact));
    }

    /** The call that is to reach `goal` has put out `w` and made `emitted`; the rest is still to be done. */
    ghost predicate Underway(goal: CallResult<S>, input: seq<byte>, space: nat, w: seq<byte>, emitted: seq<Emission>)
      reads this, buf
    {
      Valid() && goal == Call(codec, mode, View(), input, space).After(w, emitted)
    }

    /** The call has reached `goal`. */
    ghost predicate Reached(goal: CallResult<S>, rest: seq<byte>, w: seq<byte>, emitted: seq<Emission>, exit: Exit)
      reads this, buf
    {
      Valid() && goal == CallResult(View(), rest, w, emitted, exit)
    }

    /** The loop's first branch: staged bytes go out before anything else, or the room is too small. */
    method FlushTurn(out: array<byte>, at: nat, space: nat,
                     ghost goal: CallResult<S>, ghost input: seq<byte>,
                     ghost w: seq<byte>, ghost emitted: seq<Emission>)
      returns (ok: bool, n: nat, ghost piece: seq<byte>)
      requires at + space <= out.Length && out != buf && 0 < space && bufLen > 0
      requires Underway(goal, input, space, w, emitted)
      modifies this`bufLen, this`bufOff, out
      ensures n == |piece| <= space && Has(out, at, piece) && Untouched(out, at, n)
      ensures ok ==> bufLen == 0 && Underway(goal, input, space - n, w + piece, emitted)
      ensures !ok ==> n == 0 && Reached(goal, input, w, emitted, TooBig)
    {
      ghost var d := View();
      n, piece := bufLen - bufOff, d.staged;
      if n > space {
        TurnNoRoom(codec, mode, d, input, space);
        AfterAll(d, input, TooBig, w, emitted);
        return false, 0, [];
      }
      TurnFlush(codec, mode, d, input, space);
      Flush(out, at);
      AfterAfter(Call(codec, mode, View(), input, space - n), w, emitted, piece, []);
      assert emitted + [] == emitted;
      ok := true;
    }

    /** The loop's second branch: one character, put out directly when a longest encoding fits. */
    method CharTurn(inp: seq<byte>, from: nat, out: array<byte>, at: nat, space: nat,
                    ghost goal: CallResult<S>, ghost w: seq<byte>, ghost emitted: seq<Emission>)
      returns (to: nat, turn: Turn, n: nat, ghost piece: seq<byte>)
      requires at + space <= out.Length && out != buf && 0 < space && bufLen == 0 && from < |inp|
      requires Underway(goal, inp[from..], space, w, emitted)
      modifies this`inState, this`outState, this`bufLen, buf, out
      ensures from <= to <= |inp| && (turn.Got? ==> from < to)
      ensures n == |piece| <= space && Has(out, at, piece) && Untouched(out, at, n)
      ensures turn.Got? ==> Underway(goal, inp[to..], space - n, w + piece, emitted + [turn.e])
      ensures !turn.Got? ==> n == 0 && Reached(goal, inp[to..], w, emitted, if turn.Short? then Done else IllSeq)
    {
      ghost var d := View();
      assert d.staged == [];
      to, turn := NextChar(inp, from);
      n, piece := 0, [];
      ghost var next := Conv(inState, outState, inp[to..]);
      if !turn.Got? {
        TurnStop(codec, mode, d, inp[from..], space, next);
        AfterAll(View(), inp[to..], if turn.Short? then Done else IllSeq, w, emitted);
      } else {
        ghost var e := turn.e;
        assert |next.rest| < |inp[from..]|;
        if space >= MB_LEN_MAX {
          TurnDirect(codec, mode, d, inp[from..], space, e, next);
          CopyOut(turn.e.bytes, out, at);
          n, piece := |turn.e.bytes|, e.bytes;
          AfterAfter(Call(codec, mode, View(), next.rest, space - n), w, emitted, piece, [e]);
        } else {
          TurnStaged(codec, mode, d, inp[from..], space, e, next);
          Stage(turn.e.bytes);
          AfterAfter(Call(codec, mode, View(), next.rest, space), w, emitted, [], [e]);
        }
      }
    }

    lemma {:induction false} Begin(goal: CallResult<S>, input: seq<byte>, space: nat)
      requires Valid() && goal == Call(codec, mode, View(), input, space)
      ensures Underway(goal, input, space, [], [])
    {
      AfterNothing(goal);
    }

    lemma {:induction false} End(
        goal: CallResult<S>, input: seq<byte>, space: nat, w: seq<byte>, emitted: seq<Emission>)
      requires Underway(goal, input, space, w, emitted) && (space == 0 || (|input| == 0 && bufLen == 0))
      ensures Reached(goal, input, w, emitted, Done)
    {
      TurnIdle(codec, mode, View(), input, space);
      AfterAll(View(), input, Done, w, emitted);
    }

    /** The second branch, with what the turn adds to the output and to the count. */
    method CharStep(inp: seq<byte>, from: nat, out: array<byte>, outPos: nat, done: nat, space: nat,
                    ghost goal: CallResult<S>, ghost w: seq<byte>, ghost emitted: seq<Emission>)
      returns (to: nat, n: nat, inexact: nat, exit: Option<Exit>, ghost w': seq<byte>, ghost emitted': seq<Emission>)
      requires from < |inp| && bufLen == 0 && outPos + done + space <= out.Length && out != buf && 0 < space
      requires done == |w| && Has(out, outPos, w)
      requires Underway(goal, inp[from..], space, w, emitted)
      modifies this`inState, this`outState, this`bufLen, buf, out
      ensures from <= to <= |inp| && n <= space
      ensures done + n == |w'| && Has(out, outPos, w') && Untouched(out, outPos + done, n)
      ensures InexactCount(emitted') == InexactCount(emitted) + inexact
      ensures exit.None? ==> from < to
      ensures exit.None? ==> Underway(goal, inp[to..], space - n, w', emitted')
      ensures exit.Some? ==> Reached(goal, inp[to..], w', emitted', exit.value)
    {
      inexact, exit, w', emitted' := 0, None, w, emitted;
      var turn;
      ghost var piece;
      to, turn, n, piece := CharTurn(inp, from, out, outPos + done, space, goal, w, emitted);
      if turn.Got? {
        InexactSnoc(emitted, turn.e);
        w', emitted' := w + piece, emitted + [turn.e];
        inexact := if turn.e.inexact then 1 else 0;
      } else {
        exit := Some(if turn.Short? then Done else IllSeq);
      }
    }

    /** One turn of the loop: flush, or convert one character, or find nothing left to do. */
    method LoopTurn(inp: seq<byte>, from: nat, out: array<byte>, outPos: nat, done: nat, space: nat,
                    ghost goal: CallResult<S>, ghost w: seq<byte>, ghost emitted: seq<Emission>)
      returns (to: nat, n: nat, inexact: nat, exit: Option<Exit>, ghost w': seq<byte>, ghost emitted': seq<Emission>)
      requires from <= |inp| && outPos + done + space <= out.Length && out != buf && 0 < space
      requires done == |w| && Has(out, outPos, w)
      requires Underway(goal, inp[from..], space, w, emitted)
      modifies this`inState, this`outState, this`bufLen, this`bufOff, buf, out
      ensures from <= to <= |inp| && n <= space
      ensures done + n == |w'| && Has(out, outPos, w') && Untouched(out, outPos + done, n)
      ensures InexactCount(emitted') == InexactCount(emitted) + inexact
      ensures exit.None? ==> from < to || (from == to && bufLen < old(bufLen))
      ensures exit.None? ==> Underway(goal, inp[to..], space - n, w', emitted')
      ensures exit.Some? ==> Reached(goal, inp[to..], w', emitted', exit.value)
    {
      to, n, inexact, exit, w', emitted' := from, 0, 0, None, w, emitted;
      if bufLen != 0 {
        var ok;
        ghost var piece;
        ok, n, piece := FlushTurn(out, outPos + done, space, goal, inp[from..], w, emitted);
        exit := if ok then None else Some(TooBig);
        w' := if ok then w + piece else w;
      } else if from < |inp| {
        to, n, inexact, exit, w', emitted' := CharStep(inp, from, out, outPos, done, space, goal, w, emitted);
      } else {
        End(goal, inp[from..], space, w, emitted);
        exit := Some(Done);
      }
    }

    /** The loop of `iconv`, on its way to `goal`. */
    method Loop(inp: seq<byte>, out: array<byte>, outPos: nat, outBytes: nat, ghost goal: CallResult<S>)
      returns (consumed: nat, produced: nat, count: nat, exit: Exit, ghost w: seq<byte>, ghost emitted: seq<Emission>)
      requires outPos + outBytes <= out.Length && out != buf
      requires Underway(goal, inp, outBytes, [], [])
      modifies this`inState, this`outState, this`bufLen, this`bufOff, buf, out
      ensures consumed <= |inp| && Reached(goal, inp[consumed..], w, emitted, exit)
      ensures produced == |w| <= outBytes && Has(out, outPos, w) && Untouched(out, outPos, produced)
      ensures count == InexactCount(emitted)
    {
      consumed, produced, count, emitted, w := 0, 0, 0, [], [];
      assert inp[0..] == inp;
      while outBytes - produced != 0
        invariant consumed <= |inp| && produced == |w| <= outBytes && count == InexactCount(emitted)
        invariant Underway(goal, inp[consumed..], outBytes - produced, w, emitted)
        invariant Has(out, outPos, w) && Untouched(out, outPos, produced)
        decreases |inp| - consumed, bufLen
      {
        var n, inexact, stop;
        consumed, n, inexact, stop, w, emitted :=
          LoopTurn(inp, consumed, out, outPos, produced, outBytes - produced, goal, w, emitted);
        produced := produced + n;
        count := count + inexact;
        if stop.Some? {
          exit := stop.value;
          return;
        }
      }
      End(goal, inp[consumed..], outBytes - produced, w, emitted);
      exit := Done;
    }

    /**
      `iconv` with `outBytes` bytes of room at `out[outPos..]`.  The call does
      what `Call` says, touches nothing outside its room, and a null input does
      nothing at all.
     */
    method Convert(input: Option<seq<byte>>, out: array<byte>, outPos: nat, outBytes: nat)
      returns (consumed: nat, produced: nat, ret: Return)
      requires Valid() && out != buf && outPos + outBytes <= out.Length
      modifies this`inState, this`outState, this`bufLen, this`bufOff, buf, out
      ensures Valid() && produced <= outBytes
      ensures input.None? ==>
                consumed == 0 && produced == 0 && ret == Count(0) && View() == old(View())
      ensures input.Some? ==>
                var r := Call(codec, mode, old(View()), input.value, outBytes);
                && View() == r.desc
                && consumed <= |input.value| && input.value[consumed..] == r.rest
                && produced == |r.written| && Has(out, outPos, r.written)
                && ret == ReturnOf(r)
                && Explains(codec, mode, old(View()), input.value, outBytes, r)
                && (ret == EILSEQ <==> r.exit == IllSeq)
                && (ret.Count? ==> ret.n == |InexactAt(r.emitted)|)
      ensures input.Some? ==> (ret == E2BIG <==> outBytes > 0 && bufLen > 0)
      ensures Untouched(out, outPos, produced)
    {
      if input.None? {
        return 0, 0, Count(0);
      }
      ghost var goal := Call(codec, mode, View(), input.value, outBytes);
      Begin(goal, input.value, outBytes);
      var count, exit;
      ghost var w, emitted;
      consumed, produced, count, exit, w, emitted := Loop(input.value, out, outPos, outBytes, goal);
      CallExplained(codec, mode, old(View()), input.value, outBytes);
      CountsInexact(emitted);
      ret := match exit case TooBig => E2BIG case IllSeq => EILSEQ case Done => Count(count);
    }
  }
}
