/**
  The thread pointer over runs of `dlopen` and `dlclose`: every call either
  leaves it, sets it to a new block, or puts back what it was when the closed
  library was opened.  `Origin` follows these moves back, on the calls alone.
 */
module DlThread {
  import opened Base
  import opened DlWorld

  /** The last of the first `n` calls that opened handle `h`. */
  function LastOpen(calls: seq<Call>, n: nat, h: Addr): (o: Option<nat>)
    requires n <= |calls|
    ensures o.Some? ==> o.value < n && calls[o.value].Open? && calls[o.value].h == h
  {
    if n == 0 then None
    else if calls[n - 1].Open? && calls[n - 1].h == h then Some(n - 1)
    else LastOpen(calls, n - 1, h)
  }

  /** The same, if the library opened then has thread-local storage. */
  function TlsOpen(calls: seq<Call>, n: nat, h: Addr): (o: Option<nat>)
    requires n <= |calls|
  {
    var o := LastOpen(calls, n, h);
    if o.Some? && calls[o.value].lib.hasTls then o else None
  }

  /** Call `i` changes the thread pointer: it opens or closes a library with thread-local storage. */
  predicate MovesPointer(calls: seq<Call>, i: nat)
    requires i < |calls|
  {
    match calls[i]
    case Failed => false
    case Open(_, lib) => lib.hasTls
    case Close(h) => TlsOpen(calls, i, h).Some?
  }

  /**
    Where the thread pointer after `n` calls comes from: 0 is the start of the
    run, r > 0 the library opened by call r - 1.
   */
  function Origin(calls: seq<Call>, n: nat): (r: nat)
    requires n <= |calls|
    ensures r <= n && (r > 0 ==> calls[r - 1].Open? && calls[r - 1].lib.hasTls)
    decreases n
  {
    if n == 0 then 0
    else if !MovesPointer(calls, n - 1) then Origin(calls, n - 1)
    else if calls[n - 1].Open? then n
    else Origin(calls, TlsOpen(calls, n - 1, calls[n - 1].h).value)
  }

  // ----- what the handles remember

  /** A handle of the run knows the thread pointer from before its opening. */
  predicate Remembers(trace: seq<World>, calls: seq<Call>, n: nat, h: Addr)
    requires |trace| == |calls| + 1 && n < |trace| && h in trace[n].open
  {
    var o := LastOpen(calls, n, h);
    && o.Some?
    && trace[n].open[h].tls.Some? == calls[o.value].lib.hasTls
    && trace[n].open[h].fini == calls[o.value].lib.fini
    && (trace[n].open[h].tls.Some? ==> trace[n].open[h].savedTp == trace[o.value].tp)
  }

  lemma {:induction false} HandlesRemember(trace: seq<World>, calls: seq<Call>, n: nat, h: Addr)
    requires IsRun(trace, calls) && trace[0].open == map[] && n < |trace| && h in trace[n].open
    ensures Remembers(trace, calls, n, h)
  {
    assert Step(trace[n - 1], trace[n], calls[n - 1]);
    if !(calls[n - 1].Open? && calls[n - 1].h == h) {
      assert h in trace[n - 1].open && trace[n].open[h] == trace[n - 1].open[h];
      HandlesRemember(trace, calls, n - 1, h);
    }
  }

  /** A close runs the destructors of the library its handle was last opened for, from the last to the first. */
  lemma {:induction false} CloseRunsFini(trace: seq<World>, calls: seq<Call>, n: nat) returns (o: nat, at: seq<nat>)
    requires IsRun(trace, calls) && trace[0].open == map[] && n < |calls| && calls[n].Close?
    ensures LastOpen(calls, n, calls[n].h) == Some(o) && NonNullAt(calls[o].lib.fini, at)
    ensures |trace[n + 1].log| == |trace[n].log| + |at| && trace[n + 1].log[..|trace[n].log|] == trace[n].log
    ensures forall k :: 0 <= k < |at| ==>
              trace[n + 1].log[|trace[n].log| + (|at| - 1 - k)] == Destructed(calls[n].h, calls[o].lib.fini[at[k]])
  {
    assert Step(trace[n], trace[n + 1], calls[n]);
    HandlesRemember(trace, calls, n, calls[n].h);
    o := LastOpen(calls, n, calls[n].h).value;
    at := CloseRunsDestructors(trace[n], trace[n + 1], calls[n].h);
  }

  /** One call: the pointer stays, becomes the new block, or goes back to what it was. */
  lemma {:induction false} PointerMoves(trace: seq<World>, calls: seq<Call>, i: nat)
    requires IsRun(trace, calls) && trace[0].open == map[] && i < |calls|
    ensures !MovesPointer(calls, i) ==> trace[i + 1].tp == trace[i].tp
    ensures MovesPointer(calls, i) && calls[i].Open? ==>
              calls[i].h in trace[i + 1].open && trace[i + 1].open[calls[i].h].tls == Some(trace[i + 1].tp)
    ensures MovesPointer(calls, i) && calls[i].Close? ==>
              trace[i + 1].tp == trace[TlsOpen(calls, i, calls[i].h).value].tp
  {
    assert Step(trace[i], trace[i + 1], calls[i]);
    if calls[i].Close? {
      HandlesRemember(trace, calls, i, calls[i].h);
    }
  }

  /** The thread pointers of a trace. */
  function Pointers(trace: seq<World>): seq<Addr> {
    seq(|trace|, i requires 0 <= i < |trace| => trace[i].tp)
  }

  /** Each call that does not set the pointer leaves it or puts an earlier one back. */
  predicate Moved(tps: seq<Addr>, calls: seq<Call>, i: nat)
    requires |tps| == |calls| + 1 && i < |calls|
  {
    if !MovesPointer(calls, i) then tps[i + 1] == tps[i]
    else calls[i].Close? ==> tps[i + 1] == tps[TlsOpen(calls, i, calls[i].h).value]
  }

  lemma {:induction false} RunMoves(trace: seq<World>, calls: seq<Call>)
    requires IsRun(trace, calls) && trace[0].open == map[]
    ensures forall i :: 0 <= i < |calls| ==> Moved(Pointers(trace), calls, i)
  {
    forall i | 0 <= i < |calls| ensures Moved(Pointers(trace), calls, i) {
      PointerMoves(trace, calls, i);
    }
  }

  lemma {:induction false} TracedBack(tps: seq<Addr>, calls: seq<Call>, n: nat)
    requires |tps| == |calls| + 1 && n < |tps| && forall i :: 0 <= i < |calls| ==> Moved(tps, calls, i)
    ensures tps[n] == tps[Origin(calls, n)]
    decreases n
  {
    if n > 0 {
      assert Moved(tps, calls, n - 1);
      if !MovesPointer(calls, n - 1) {
        TracedBack(tps, calls, n - 1);
      } else if calls[n - 1].Close? {
        TracedBack(tps, calls, TlsOpen(calls, n - 1, calls[n - 1].h).value);
      }
    }
  }

  /** Over every run, the thread pointer is the one at its origin. */
  lemma {:induction false} PointerAtOrigin(trace: seq<World>, calls: seq<Call>, n: nat)
    requires IsRun(trace, calls) && trace[0].open == map[] && n < |trace|
    ensures trace[n].tp == trace[Origin(calls, n)].tp
  {
    RunMoves(trace, calls);
    TracedBack(Pointers(trace), calls, n);
  }

  lemma {:induction false} StaysPut(tps: seq<Addr>, calls: seq<Call>, c: nat, n: nat)
    requires |tps| == |calls| + 1 && c < n < |tps| && forall i :: 0 <= i < |calls| ==> Moved(tps, calls, i)
    requires forall i :: c < i < n ==> !MovesPointer(calls, i)
    ensures tps[n] == tps[c + 1]
    decreases n
  {
    if c + 1 < n {
      assert Moved(tps, calls, n - 1) && !MovesPointer(calls, n - 1);
      StaysPut(tps, calls, c, n - 1);
    }
  }

  /**
    If call `c` is the last that moved the pointer and closed a library, the
    pointer is now what it was when that library was opened.
   */
  lemma {:induction false} LastCloseDecides(trace: seq<World>, calls: seq<Call>, c: nat, n: nat)
    requires IsRun(trace, calls) && trace[0].open == map[] && c < n < |trace|
    requires calls[c].Close? && MovesPointer(calls, c) && forall i :: c < i < n ==> !MovesPointer(calls, i)
    ensures trace[n].tp == trace[TlsOpen(calls, c, calls[c].h).value].tp
  {
    RunMoves(trace, calls);
    assert Moved(Pointers(trace), calls, c);
    StaysPut(Pointers(trace), calls, c, n);
  }

  /** The initial thread pointer does not point at a block that a library of the run gets. */
  predicate Apart(trace: seq<World>) {
    |trace| > 0 && forall i :: 0 <= i < |trace| ==> trace[0].tp !in Owned(trace[i].open)
  }

  /** So it is when it points at memory in use, or nowhere. */
  lemma {:induction false} LiveIsApart(trace: seq<World>, calls: seq<Call>)
    requires IsRun(trace, calls) && trace[0].open == map[] && 0 !in trace[0].live
    requires trace[0].tp == 0 || trace[0].tp in trace[0].live
    ensures Apart(trace)
  {
    forall i | 0 <= i < |trace| ensures trace[0].tp !in Owned(trace[i].open) {
      RunKeepsTidy(trace, calls, i);
    }
  }

  /** The thread pointer is the initial one exactly when its origin is the start of the run. */
  lemma {:induction false} RestoredExactly(trace: seq<World>, calls: seq<Call>, n: nat)
    requires IsRun(trace, calls) && trace[0].open == map[] && Apart(trace) && n < |trace|
    ensures trace[n].tp == trace[0].tp <==> Origin(calls, n) == 0
  {
    PointerAtOrigin(trace, calls, n);
    var r := Origin(calls, n);
    if r > 0 {
      PointerMoves(trace, calls, r - 1);
      var h := calls[r - 1].h;
      assert trace[r].tp in Blocks(h, trace[r].open[h]);
    }
  }

  // ----- nested runs

  /**
    Libraries with thread-local storage are closed in the reverse order of their
    opening; `stack` holds the calls that opened those still open.  Others may
    come and go in any order, and calls may fail.
   */
  predicate Nested(calls: seq<Call>, n: nat, stack: seq<nat>)
    requires n <= |calls|
    decreases n
  {
    if n == 0 then stack == []
    else if !MovesPointer(calls, n - 1) then Nested(calls, n - 1, stack)
    else if calls[n - 1].Open? then
      |stack| > 0 && stack[|stack| - 1] == n - 1 && Nested(calls, n - 1, stack[..|stack| - 1])
    else Nested(calls, n - 1, stack + [TlsOpen(calls, n - 1, calls[n - 1].h).value])
  }

  /** The origin of the pointer under entry `k` of a stack: the entry below, or the start. */
  function Under(stack: seq<nat>, k: nat): nat
    requires k <= |stack|
  {
    if k == 0 then 0 else stack[k - 1] + 1
  }

  /** Stacked library `k` was opened when the pointer was that of the one below. */
  predicate LinkedAt(calls: seq<Call>, stack: seq<nat>, k: nat)
    requires k < |stack|
  {
    stack[k] < |calls| && Origin(calls, stack[k]) == Under(stack, k)
  }

  predicate Linked(calls: seq<Call>, stack: seq<nat>) {
    forall k :: 0 <= k < |stack| ==> LinkedAt(calls, stack, k)
  }

  lemma {:induction false} Push(calls: seq<Call>, n: nat, stack: seq<nat>)
    requires n < |calls| && |stack| > 0 && stack[|stack| - 1] == n
    requires Linked(calls, stack[..|stack| - 1])
    requires Origin(calls, n) == Under(stack[..|stack| - 1], |stack| - 1)
    ensures Linked(calls, stack)
  {
    var below := stack[..|stack| - 1];
    forall k | 0 <= k < |stack| ensures LinkedAt(calls, stack, k) {
      assert Under(below, k) == Under(stack, k);
      if k < |below| {
        assert LinkedAt(calls, below, k) && below[k] == stack[k];
      }
    }
  }

  lemma {:induction false} Pop(calls: seq<Call>, stack: seq<nat>, o: nat)
    requires o < |calls| && Linked(calls, stack + [o])
    ensures Linked(calls, stack) && Origin(calls, o) == Under(stack, |stack|)
  {
    var before := stack + [o];
    assert LinkedAt(calls, before, |stack|) && before[|stack|] == o;
    assert Under(before, |stack|) == Under(stack, |stack|);
    forall k | 0 <= k < |stack| ensures LinkedAt(calls, stack, k) {
      assert LinkedAt(calls, before, k) && before[k] == stack[k] && Under(before, k) == Under(stack, k);
    }
  }

  /** In a nested run the pointer comes from the top of the stack, and so did the one each stacked library saved. */
  lemma {:induction false} NestedOrigin(calls: seq<Call>, n: nat, stack: seq<nat>)
    requires n <= |calls| && Nested(calls, n, stack)
    ensures Origin(calls, n) == Under(stack, |stack|) && Linked(calls, stack)
    decreases n
  {
    if n > 0 {
      if !MovesPointer(calls, n - 1) {
        NestedOrigin(calls, n - 1, stack);
      } else if calls[n - 1].Open? {
        NestedOrigin(calls, n - 1, stack[..|stack| - 1]);
        Push(calls, n - 1, stack);
      } else {
        var o := TlsOpen(calls, n - 1, calls[n - 1].h).value;
        NestedOrigin(calls, n - 1, stack + [o]);
        Pop(calls, stack, o);
      }
    }
  }

  /** Once every nested library is closed, the thread pointer is the initial one. */
  lemma {:induction false} NestedRestoresThreadPointer(trace: seq<World>, calls: seq<Call>)
    requires IsRun(trace, calls) && trace[0].open == map[] && Nested(calls, |calls|, [])
    ensures trace[|calls|].tp == trace[0].tp
  {
    NestedOrigin(calls, |calls|, []);
    PointerAtOrigin(trace, calls, |calls|);
  }

  /** Nesting is not needed: three libraries closed in the order second, third, first restore it too. */
  lemma {:induction false} NotOnlyNested() returns (trace: seq<World>, calls: seq<Call>)
    ensures calls == [Open(1, TLS), Open(4, TLS), Open(7, TLS), Close(4), Close(7), Close(1)]
    ensures IsRun(trace, calls) && trace[0].open == map[]
    ensures trace[|calls|].open == map[] && trace[|calls|].tp == trace[0].tp
    ensures Origin(calls, |calls|) == 0 && !Nested(calls, |calls|, [])
  {
    calls := OutOfOrder();
    trace := [World({}, {}, 9, [], map[]), World({1, 2, 3}, {}, 3, [], map[1 := FIRST]), BOTH_OPEN, THREE_OPEN,
              World({1, 2, 3, 7, 8, 10}, {}, 3, [], map[1 := FIRST, 7 := THIRD]),
              World({1, 2, 3}, {}, 6, [], map[1 := FIRST]), World({}, {}, 9, [], map[])];
    OpensBoth();
    OpensThird();
    ClosesMiddle(trace[4]);
    ClosesThird(trace[4], trace[5]);
    ClosesLast(trace[5], trace[6]);
    forall i | 0 <= i < |calls| ensures Step(trace[i], trace[i + 1], calls[i]) {
      assert i == 0 || i == 1 || i == 2 || i == 3 || i == 4 || i == 5;
    }
  }

  lemma {:induction false} OutOfOrder() returns (calls: seq<Call>)
    ensures Origin(calls, |calls|) == 0 && !Nested(calls, |calls|, [])
    ensures calls == [Open(1, TLS), Open(4, TLS), Open(7, TLS), Close(4), Close(7), Close(1)]
  {
    calls := [Open(1, TLS), Open(4, TLS), Open(7, TLS), Close(4), Close(7), Close(1)];
    assert LastOpen(calls, 2, 4) == Some(1) && LastOpen(calls, 3, 7) == Some(2);
    assert LastOpen(calls, 1, 1) == LastOpen(calls, 3, 1) == LastOpen(calls, 5, 1) == Some(0) by {
      assert LastOpen(calls, 2, 1) == Some(0) && LastOpen(calls, 4, 1) == Some(0);
    }
    assert !Nested(calls, 3, [0, 2, 1]);
    assert [0, 2] + [1] == [0, 2, 1] && [0] + [2] == [0, 2] && [] + [0] == [0];
    assert !Nested(calls, 4, [0, 2]) && !Nested(calls, 5, [0]);
  }

  const THIRD: Handle := Handle(8, Some(10), 6, [], [])

  const THREE_OPEN: World :=
    World({1, 2, 3, 4, 5, 6, 7, 8, 10}, {}, 10, [], map[1 := FIRST, 4 := SECOND, 7 := THIRD])

  lemma {:induction false} OpensThird()
    ensures Opened(BOTH_OPEN, THREE_OPEN, 7, TLS)
  {
  }

  lemma {:induction false} ClosesMiddle(w: World)
    requires w == World({1, 2, 3, 7, 8, 10}, {}, 3, [], map[1 := FIRST, 7 := THIRD])
    ensures Closed(THREE_OPEN, w, 4)
  {
    assert THREE_OPEN.open - {4} == w.open && THREE_OPEN.live - Blocks(4, SECOND) == w.live;
  }

  lemma {:induction false} ClosesThird(w: World, w': World)
    requires w == World({1, 2, 3, 7, 8, 10}, {}, 3, [], map[1 := FIRST, 7 := THIRD])
    requires w' == World({1, 2, 3}, {}, 6, [], map[1 := FIRST])
    ensures Closed(w, w', 7)
  {
    assert w.open - {7} == w'.open && w.live - Blocks(7, THIRD) == w'.live;
  }

  lemma {:induction false} ClosesLast(w: World, w': World)
    requires w == World({1, 2, 3}, {}, 6, [], map[1 := FIRST]) && w' == World({}, {}, 9, [], map[])
    ensures Closed(w, w', 1)
  {
    assert w.open - {1} == w'.open && w.live - Blocks(1, FIRST) == w'.live;
  }

  const TLS: Library := Library(true, [], [])

  // ----- two libraries closed in the order of their opening

  const FIRST: Handle := Handle(2, Some(3), 9, [], [])
  const SECOND: Handle := Handle(5, Some(6), 3, [], [])

  const NONE_OPEN: World := World({}, {}, 9, [], map[])
  const FIRST_OPEN: World := World({1, 2, 3}, {}, 3, [], map[1 := FIRST])
  const BOTH_OPEN: World := World({1, 2, 3, 4, 5, 6}, {}, 6, [], map[1 := FIRST, 4 := SECOND])
  const SECOND_OPEN: World := World({4, 5, 6}, {}, 9, [], map[4 := SECOND])
  const ALL_CLOSED: World := World({}, {}, 3, [], map[])

  lemma {:induction false} OpensBoth()
    ensures Opened(NONE_OPEN, FIRST_OPEN, 1, TLS) && Opened(FIRST_OPEN, BOTH_OPEN, 4, TLS)
  {
  }

  lemma {:induction false} ClosesFirst()
    ensures Closed(BOTH_OPEN, SECOND_OPEN, 1)
  {
    assert BOTH_OPEN.open - {1} == map[4 := SECOND] && BOTH_OPEN.live - Blocks(1, FIRST) == {4, 5, 6};
  }

  lemma {:induction false} ClosesSecond()
    ensures Closed(SECOND_OPEN, ALL_CLOSED, 4)
  {
    assert SECOND_OPEN.open - {4} == map[] && SECOND_OPEN.live - Blocks(4, SECOND) == {};
  }

  /** In that order the thread pointer is left in a freed block. */
  lemma {:induction false} FirstInFirstOut() returns (trace: seq<World>, calls: seq<Call>)
    ensures IsRun(trace, calls) && trace[0].open == map[] && trace[|calls|].open == map[]
    ensures trace[|calls|].tp != trace[0].tp && trace[|calls|].tp !in trace[|calls|].live
  {
    trace := [NONE_OPEN, FIRST_OPEN, BOTH_OPEN, SECOND_OPEN, ALL_CLOSED];
    calls := [Open(1, TLS), Open(4, TLS), Close(1), Close(4)];
    OpensBoth();
    ClosesFirst();
    ClosesSecond();
    forall i | 0 <= i < |calls| ensures Step(trace[i], trace[i + 1], calls[i]) {
      assert i == 0 || i == 1 || i == 2 || i == 3;
    }
  }
}
