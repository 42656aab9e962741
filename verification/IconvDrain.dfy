/**
  Output chunking does not matter: a caller that keeps offering at least
  MB_LEN_MAX bytes gets, in finitely many calls, the bytes that one call with
  enough room would have produced.
 */
module IconvDrain {
  import opened Base
  import opened IconvSpec

  /** A call is the last one needed when it failed or left neither input nor staged bytes. */
  predicate Finished<S(!new)>(r: CallResult<S>) {
    r.exit == IllSeq || (|r.rest| == 0 && |r.desc.staged| == 0)
  }

  lemma {:induction false} GreedyProgress<S(!new)>(c: Codec<S>, mode: Mode, s: Conv<S>, space: nat)
    requires c.WellBehaved()
    ensures var r := Greedy(c, mode, s, space);
            && |r.rest| <= |s.rest|
            && (space > 0 && |s.rest| > 0 && r.exit != IllSeq ==> |r.rest| < |s.rest|)
    decreases |s.rest|
  {
    if space > 0 && |s.rest| > 0 {
      var step := OneChar(c, mode, s);
      if step.Emit? && |step.e.bytes| <= space {
        GreedyProgress(c, mode, step.next, space - |step.e.bytes|);
      }
    }
  }

  /** With MB_LEN_MAX bytes of room a call finishes, consumes input, or clears the staged bytes. */
  lemma {:induction false} CallProgress<S(!new)>(c: Codec<S>, mode: Mode, d: Desc<S>, input: seq<byte>, space: nat)
    requires c.WellBehaved() && |d.staged| <= MB_LEN_MAX <= space
    ensures var r := Call(c, mode, d, input, space);
            && |r.desc.staged| <= MB_LEN_MAX
            && (Finished(r) || |r.rest| < |input| || (|r.rest| == |input| && |r.desc.staged| < |d.staged|))
  {
    CallConserves(c, mode, d, input, space);
    var s := Conv(d.inState, d.outState, input);
    GreedyProgress(c, mode, s, space - |d.staged|);
    if |d.staged| > 0 && (space == |d.staged| || |input| == 0) {
      assert Greedy(c, mode, s, space - |d.staged|).desc.staged == [];
    }
  }

  /** All bytes a caller collects that offers `size(i)`, `size(i + 1)`, ... bytes until finished. */
  function Drain<S(!new)>(c: Codec<S>, mode: Mode, d: Desc<S>, input: seq<byte>, size: nat -> nat, i: nat): seq<byte>
    requires c.WellBehaved() && |d.staged| <= MB_LEN_MAX
    requires forall j: nat :: size(j) >= MB_LEN_MAX
    decreases |input|, |d.staged|
  {
    var r := Call(c, mode, d, input, size(i));
    CallProgress(c, mode, d, input, size(i));
    if Finished(r) then r.written else r.written + Drain(c, mode, r.desc, r.rest, size, i + 1)
  }

  /** What one call wrote and what comes later are together what was staged and all that is emitted. */
  lemma {:induction false} Collected(
      w: seq<byte>, t: seq<byte>, before: seq<byte>, es: seq<Emission>, all: seq<Emission>)
    requires es <= all && w + t == before + Flatten(es)
    ensures w + (t + Flatten(all[|es|..])) == before + Flatten(all)
  {
    var later := all[|es|..];
    assert all == es + later;
    FlattenConcat(es, later);
    Assoc(w, t, Flatten(later));
    Assoc(before, Flatten(es), Flatten(later));
  }

  /** Whatever the sizes, the caller collects the staged bytes and the whole reference conversion. */
  lemma {:induction false} DrainGetsAll<S(!new)>(
      c: Codec<S>, mode: Mode, d: Desc<S>, input: seq<byte>, size: nat -> nat, i: nat)
    requires c.WellBehaved() && |d.staged| <= MB_LEN_MAX
    requires forall j: nat :: size(j) >= MB_LEN_MAX
    ensures Drain(c, mode, d, input, size, i)
         == d.staged + Flatten(Reference(c, mode, Conv(d.inState, d.outState, input)).emitted)
    decreases |input|, |d.staged|
  {
    var r := Call(c, mode, d, input, size(i));
    CallProgress(c, mode, d, input, size(i));
    if Finished(r) {
      LastCall(c, mode, d, input, size(i));
    } else {
      DrainGetsAll(c, mode, r.desc, r.rest, size, i + 1);
      OneMoreCall(c, mode, d, input, size(i));
    }
  }

  /** The last call has handed out everything. */
  lemma {:induction false} LastCall<S(!new)>(c: Codec<S>, mode: Mode, d: Desc<S>, input: seq<byte>, space: nat)
    requires c.WellBehaved() && |d.staged| <= MB_LEN_MAX <= space && Finished(Call(c, mode, d, input, space))
    ensures Call(c, mode, d, input, space).written
         == d.staged + Flatten(Reference(c, mode, Conv(d.inState, d.outState, input)).emitted)
  {
    var r := Call(c, mode, d, input, space);
    CallFollows(c, mode, d, input, space);
    CallConserves(c, mode, d, input, space);
    assert r.emitted == Reference(c, mode, Conv(d.inState, d.outState, input)).emitted;
    assert r.desc.staged == [] && r.written + [] == r.written;
  }

  /** What another call wrote, and what the conversion from where it stopped emits, make up the whole. */
  lemma {:induction false} OneMoreCall<S(!new)>(c: Codec<S>, mode: Mode, d: Desc<S>, input: seq<byte>, space: nat)
    requires c.WellBehaved() && |d.staged| <= MB_LEN_MAX && Call(c, mode, d, input, space).exit != IllSeq
    ensures var r := Call(c, mode, d, input, space);
            var later := Reference(c, mode, Conv(r.desc.inState, r.desc.outState, r.rest)).emitted;
            r.written + (r.desc.staged + Flatten(later))
            == d.staged + Flatten(Reference(c, mode, Conv(d.inState, d.outState, input)).emitted)
  {
    var r := Call(c, mode, d, input, space);
    CallFollows(c, mode, d, input, space);
    CallConserves(c, mode, d, input, space);
    Collected(r.written, r.desc.staged, d.staged, r.emitted,
              Reference(c, mode, Conv(d.inState, d.outState, input)).emitted);
  }

  lemma {:induction false} GreedyUnbounded<S(!new)>(c: Codec<S>, mode: Mode, s: Conv<S>, space: nat)
    requires c.WellBehaved() && space > |Flatten(Reference(c, mode, s).emitted)|
    ensures var r, ref := Greedy(c, mode, s, space), Reference(c, mode, s);
            && r.emitted == ref.emitted && r.written == Flatten(ref.emitted)
            && r.desc == Desc(ref.final.inState, ref.final.outState, []) && r.rest == ref.final.rest
            && (r.exit == if ref.illegal then IllSeq else Done)
    decreases |s.rest|
  {
    if |s.rest| > 0 {
      var step := OneChar(c, mode, s);
      if step.Emit? {
        FlattenCons(step.e, Reference(c, mode, step.next).emitted);
        GreedyUnbounded(c, mode, step.next, space - |step.e.bytes|);
      }
    }
  }

  lemma {:induction false} ReferenceConsumes<S(!new)>(c: Codec<S>, mode: Mode, s: Conv<S>)
    requires c.WellBehaved()
    ensures var ref := Reference(c, mode, s); ref.illegal || |ref.final.rest| == 0
    decreases |s.rest|
  {
    if |s.rest| > 0 && OneChar(c, mode, s).Emit? {
      ReferenceConsumes(c, mode, OneChar(c, mode, s).next);
    }
  }

  lemma {:induction false} CallUnbounded<S(!new)>(c: Codec<S>, mode: Mode, d: Desc<S>, input: seq<byte>, space: nat)
    requires c.WellBehaved()
    requires space > |d.staged| + |Flatten(Reference(c, mode, Conv(d.inState, d.outState, input)).emitted)|
    ensures Call(c, mode, d, input, space).written
         == d.staged + Flatten(Reference(c, mode, Conv(d.inState, d.outState, input)).emitted)
    ensures Finished(Call(c, mode, d, input, space))
  {
    var s := Conv(d.inState, d.outState, input);
    GreedyUnbounded(c, mode, s, space - |d.staged|);
    ReferenceConsumes(c, mode, s);
    if |d.staged| == 0 {
      assert d.staged + Flatten(Reference(c, mode, s).emitted) == Flatten(Reference(c, mode, s).emitted);
    }
  }

  /** One call with room to spare produces the same bytes as draining in pieces. */
  lemma {:induction false} ChunkingIrrelevant<S(!new)>(
      c: Codec<S>, mode: Mode, d: Desc<S>, input: seq<byte>, size: nat -> nat, i: nat, space: nat)
    requires c.WellBehaved() && |d.staged| <= MB_LEN_MAX
    requires forall j: nat :: size(j) >= MB_LEN_MAX
    requires space > |d.staged| + |Flatten(Reference(c, mode, Conv(d.inState, d.outState, input)).emitted)|
    ensures Drain(c, mode, d, input, size, i) == Call(c, mode, d, input, space).written
    ensures Finished(Call(c, mode, d, input, space))
  {
    DrainGetsAll(c, mode, d, input, size, i);
    CallUnbounded(c, mode, d, input, space);
  }

  // ----- any output sizes at all

  function Sum(sizes: seq<nat>): nat {
    if |sizes| == 0 then 0 else Sum(sizes[..|sizes| - 1]) + sizes[|sizes| - 1]
  }

  /**
    A caller that offers the given sizes one after the other, each time with the
    input the call before left over, and gives up on an illegal sequence.
   */
  function Feed<S(!new)>(c: Codec<S>, mode: Mode, d: Desc<S>, input: seq<byte>, sizes: seq<nat>): CallResult<S>
    requires c.WellBehaved()
  {
    if |sizes| == 0 then CallResult(d, input, [], [], Done) else
      var n := |sizes| - 1;
      var f := Feed(c, mode, d, input, sizes[..n]);
      if f.exit == IllSeq then f else Call(c, mode, f.desc, f.rest, sizes[n]).After(f.written, f.emitted)
  }

  lemma {:induction false} FollowsChain<S(!new)>(
      c: Codec<S>, mode: Mode, s: Conv<S>, f: CallResult<S>, r: CallResult<S>)
    requires c.WellBehaved() && f.exit != IllSeq && Follows(c, mode, s, f)
    requires Follows(c, mode, Conv(f.desc.inState, f.desc.outState, f.rest), r)
    ensures Follows(c, mode, s, r.After(f.written, f.emitted))
  {
    PrefixChain(f.emitted, r.emitted, Reference(c, mode, s).emitted);
  }

  lemma {:induction false} PrefixChain(a: seq<Emission>, b: seq<Emission>, all: seq<Emission>)
    requires a <= all && b <= all[|a|..]
    ensures a + b <= all && all[|a|..][|b|..] == all[|a + b|..]
    ensures b == all[|a|..] ==> a + b == all
  {
  }

  /** Whatever the sizes, zero included, the calls together do what one call could have done. */
  lemma {:induction false} FeedFollows<S(!new)>(c: Codec<S>, mode: Mode, d: Desc<S>, input: seq<byte>, sizes: seq<nat>)
    requires c.WellBehaved() && |d.staged| <= MB_LEN_MAX
    ensures Follows(c, mode, Conv(d.inState, d.outState, input), Feed(c, mode, d, input, sizes))
    ensures Accounts(Feed(c, mode, d, input, sizes), d.staged, Sum(sizes))
  {
    var s := Conv(d.inState, d.outState, input);
    if |sizes| == 0 {
      AccountsNothing(d, input, 0, Done);
      assert Reference(c, mode, s).emitted[0..] == Reference(c, mode, s).emitted;
    } else {
      var n := |sizes| - 1;
      var f := Feed(c, mode, d, input, sizes[..n]);
      FeedFollows(c, mode, d, input, sizes[..n]);
      if f.exit != IllSeq {
        var r := Call(c, mode, f.desc, f.rest, sizes[n]);
        CallFollows(c, mode, f.desc, f.rest, sizes[n]);
        CallConserves(c, mode, f.desc, f.rest, sizes[n]);
        FollowsChain(c, mode, s, f, r);
        FlattenConcat(f.emitted, r.emitted);
        ChainBytes(f.written, r.written, r.desc.staged, f.desc.staged,
                   Flatten(r.emitted), d.staged, Flatten(f.emitted));
      }
    }
  }

  /** So the output is at every moment a prefix of the one the unbounded conversion produces. */
  lemma {:induction false} FeedIsPrefix<S(!new)>(c: Codec<S>, mode: Mode, d: Desc<S>, input: seq<byte>, sizes: seq<nat>)
    requires c.WellBehaved() && |d.staged| <= MB_LEN_MAX
    ensures Feed(c, mode, d, input, sizes).written
         <= d.staged + Flatten(Reference(c, mode, Conv(d.inState, d.outState, input)).emitted)
  {
    FeedFollows(c, mode, d, input, sizes);
    var f, all := Feed(c, mode, d, input, sizes), Reference(c, mode, Conv(d.inState, d.outState, input)).emitted;
    var later := all[|f.emitted|..];
    assert all == f.emitted + later;
    FlattenConcat(f.emitted, later);
    Assoc(d.staged, Flatten(f.emitted), Flatten(later));
    PrefixOfParts(f.written, f.desc.staged, Flatten(later));
  }

  lemma {:induction false} PrefixOfParts(x: seq<byte>, y: seq<byte>, z: seq<byte>)
    ensures x <= (x + y) + z
  {
  }
}
