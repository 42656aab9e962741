/**
  The life cycle of loaded libraries in libdl/dl.c as a state machine: the heap
  blocks, file descriptors and thread pointer of the process, and what `dlopen`
  and `dlclose` do to them.  The lemmas are about every run of such steps.
 */
module DlWorld {
  import opened Base

  /** Heap addresses; 0 is the null pointer. */
  type Addr = nat

  /** The fields of `dl_handle_t` that outlive `dlopen`. */
  datatype Handle = Handle(loadBuf: Addr, tls: Option<Addr>, savedTp: Addr, init: seq<Addr>, fini: seq<Addr>)

  datatype Event = Constructed(handle: Addr, fn: Addr) | Destructed(handle: Addr, fn: Addr)

  /** What a library file holds: whether it has a PT_TLS segment, and its two function arrays. */
  datatype Library = Library(hasTls: bool, init: seq<Addr>, fini: seq<Addr>)

  datatype World = World(
    live: set<Addr>,
    fds: set<nat>,
    tp: Addr,
    log: seq<Event>,
    open: map<Addr, Handle>)

  /** The two or three heap blocks of an open handle. */
  function Blocks(h: Addr, hd: Handle): set<Addr> {
    {h, hd.loadBuf} + (if hd.tls.Some? then {hd.tls.value} else {})
  }

  predicate DistinctBlocks(h: Addr, hd: Handle) {
    h != hd.loadBuf && (hd.tls.Some? ==> hd.tls.value != h && hd.tls.value != hd.loadBuf)
  }

  function Owned(open: map<Addr, Handle>): set<Addr> {
    set h, a | h in open && a in Blocks(h, open[h]) :: a
  }

  /** Open handles own live blocks, each block once. */
  predicate Consistent(w: World) {
    && (forall h :: h in w.open ==> DistinctBlocks(h, w.open[h]) && Blocks(h, w.open[h]) <= w.live)
    && (forall h, g :: h in w.open && g in w.open && h != g ==> Blocks(h, w.open[h]) !! Blocks(g, w.open[g]))
    && 0 !in w.live
  }

  // ----- constructors and destructors

  function NonNull(fns: seq<Addr>): seq<Addr> {
    if |fns| == 0 then []
    else if fns[|fns| - 1] != 0 then NonNull(fns[..|fns| - 1]) + [fns[|fns| - 1]]
    else NonNull(fns[..|fns| - 1])
  }

  function Reversed(fns: seq<Addr>): seq<Addr> {
    if |fns| == 0 then [] else [fns[|fns| - 1]] + Reversed(fns[..|fns| - 1])
  }

  function Constructions(h: Addr, fns: seq<Addr>): seq<Event> {
    seq(|fns|, i requires 0 <= i < |fns| => Constructed(h, fns[i]))
  }

  function Destructions(h: Addr, fns: seq<Addr>): seq<Event> {
    seq(|fns|, i requires 0 <= i < |fns| => Destructed(h, fns[i]))
  }

  /** `at` lists, in increasing order, the indices of the entries that are not null. */
  predicate NonNullAt(fns: seq<Addr>, at: seq<nat>) {
    && (forall k :: 0 <= k < |at| ==> at[k] < |fns| && fns[at[k]] != 0)
    && (forall j, k :: 0 <= j < k < |at| ==> at[j] < at[k])
    && (forall i :: 0 <= i < |fns| && fns[i] != 0 ==> i in at)
  }

  lemma {:induction false} NullSnoc(fns: seq<Addr>, at: seq<nat>)
    requires NonNullAt(fns, at)
    ensures NonNullAt(fns + [0], at)
  {
  }

  lemma {:induction false} NonNullSnoc(fns: seq<Addr>, f: Addr, at: seq<nat>)
    requires NonNullAt(fns, at) && f != 0
    ensures NonNullAt(fns + [f], at + [|fns|])
  {
    var all, n := at + [|fns|], |fns|;
    forall i | 0 <= i <= n && (fns + [f])[i] != 0 ensures i in all {
      assert i == n ==> all[|at|] == i;
      assert i < n ==> fns[i] != 0 && i in at;
    }
  }

  /** The functions left are those at these indices, and in this order. */
  lemma {:induction false} NonNullSelects(fns: seq<Addr>) returns (at: seq<nat>)
    ensures NonNullAt(fns, at) && |NonNull(fns)| == |at|
    ensures forall k :: 0 <= k < |at| ==> NonNull(fns)[k] == fns[at[k]]
  {
    at := [];
    if |fns| > 0 {
      var front, f := fns[..|fns| - 1], fns[|fns| - 1];
      var before := NonNullSelects(front);
      assert fns == front + [f];
      if f == 0 {
        NullSnoc(front, before);
        at := before;
      } else {
        NonNullSnoc(front, f, before);
        at := before + [|front|];
      }
      forall k | 0 <= k < |at| ensures NonNull(fns)[k] == fns[at[k]] {
        if k < |before| {
          assert at[k] == before[k] && NonNull(fns)[k] == NonNull(front)[k];
        }
      }
    }
  }

  lemma {:induction false} ReversedAt(fns: seq<Addr>, k: nat)
    requires k < |fns|
    ensures |Reversed(fns)| == |fns| && Reversed(fns)[k] == fns[|fns| - 1 - k]
  {
    var front := fns[..|fns| - 1];
    if |fns| > 1 {
      ReversedAt(front, if k == 0 then 0 else k - 1);
      assert k > 0 ==> Reversed(fns)[k] == Reversed(front)[k - 1];
    } else {
      assert |front| == 0;
    }
  }

  lemma {:induction false} ReversedLength(fns: seq<Addr>)
    ensures |Reversed(fns)| == |fns|
  {
    if |fns| > 0 {
      ReversedAt(fns, 0);
    }
  }

  // ----- the steps

  /** A successful `dlopen`: fresh blocks, one more handle, the thread pointer saved and set, constructors in order. */
  predicate Opened(w: World, w': World, h: Addr, lib: Library) {
    && h !in w.open && h in w'.open
    && var hd := w'.open[h];
    && DistinctBlocks(h, hd) && Blocks(h, hd) !! w.live && 0 !in Blocks(h, hd)
    && hd.tls.Some? == lib.hasTls && hd.init == lib.init && hd.fini == lib.fini
    && (hd.tls.Some? ==> hd.savedTp == w.tp)
    && w' == World(w.live + Blocks(h, hd), w.fds, if hd.tls.Some? then hd.tls.value else w.tp,
                   w.log + Constructions(h, NonNull(hd.init)), w.open[h := hd])
  }

  /** `dlclose` of an open handle: its blocks freed, its thread pointer restored, destructors in reverse order. */
  predicate Closed(w: World, w': World, h: Addr) {
    && h in w.open
    && var hd := w.open[h];
    && w' == World(w.live - Blocks(h, hd), w.fds, if hd.tls.Some? then hd.savedTp else w.tp,
                   w.log + Destructions(h, Reversed(NonNull(hd.fini))), w.open - {h})
  }

  /** One call: a `dlopen` that failed and changed nothing, one that succeeded, or a `dlclose`. */
  datatype Call = Failed | Open(h: Addr, lib: Library) | Close(h: Addr)

  predicate Step(w: World, w': World, c: Call) {
    match c
    case Failed => w' == w
    case Open(h, lib) => Opened(w, w', h, lib)
    case Close(h) => Closed(w, w', h)
  }

  /** A successful `dlopen` runs the non-null constructors of the library in array order, and nothing else. */
  lemma {:induction false} OpenRunsConstructors(w: World, w': World, h: Addr, lib: Library) returns (at: seq<nat>)
    requires Opened(w, w', h, lib)
    ensures NonNullAt(lib.init, at) && |w'.log| == |w.log| + |at| && w'.log[..|w.log|] == w.log
    ensures forall k :: 0 <= k < |at| ==> w'.log[|w.log| + k] == Constructed(h, lib.init[at[k]])
  {
    at := NonNullSelects(lib.init);
    forall k | 0 <= k < |at| ensures w'.log[|w.log| + k] == Constructed(h, lib.init[at[k]]) {
      assert w'.log[|w.log| + k] == Constructions(h, NonNull(lib.init))[k];
    }
  }

  /** `dlclose` runs the handle's non-null destructors from the last to the first, and nothing else. */
  lemma {:induction false} CloseRunsDestructors(w: World, w': World, h: Addr) returns (at: seq<nat>)
    requires Closed(w, w', h)
    ensures h in w.open && NonNullAt(w.open[h].fini, at)
    ensures |w'.log| == |w.log| + |at| && w'.log[..|w.log|] == w.log
    ensures forall k :: 0 <= k < |at| ==>
              w'.log[|w.log| + (|at| - 1 - k)] == Destructed(h, w.open[h].fini[at[k]])
  {
    var fini := w.open[h].fini;
    at := NonNullSelects(fini);
    ReversedLength(NonNull(fini));
    forall k | 0 <= k < |at| ensures w'.log[|w.log| + (|at| - 1 - k)] == Destructed(h, fini[at[k]]) {
      var j := |at| - 1 - k;
      ReversedAt(NonNull(fini), j);
      assert w'.log[|w.log| + j] == Destructions(h, Reversed(NonNull(fini)))[j];
    }
  }

  // ----- ownership over every run

  lemma {:induction false} OwnedAfterOpen(open: map<Addr, Handle>, h: Addr, hd: Handle)
    requires h !in open
    ensures Owned(open[h := hd]) == Owned(open) + Blocks(h, hd)
  {
    var after := open[h := hd];
    forall a | a in Owned(open) + Blocks(h, hd) ensures a in Owned(after) {
      if a in Owned(open) {
        var g :| g in open && a in Blocks(g, open[g]);
        assert g in after && a in Blocks(g, after[g]);
      } else {
        assert h in after && a in Blocks(h, after[h]);
      }
    }
  }

  lemma {:induction false} OwnedAfterClose(w: World, h: Addr)
    requires Consistent(w) && h in w.open
    ensures Owned(w.open - {h}) == Owned(w.open) - Blocks(h, w.open[h])
  {
    var after := w.open - {h};
    forall a | a in Owned(w.open) - Blocks(h, w.open[h]) ensures a in Owned(after) {
      var g :| g in w.open && a in Blocks(g, w.open[g]);
      assert g in after && a in Blocks(g, after[g]);
    }
    forall a | a in Owned(after) ensures a in Owned(w.open) - Blocks(h, w.open[h]) {
      var g :| g in after && a in Blocks(g, after[g]);
      assert g in w.open && a in Blocks(g, w.open[g]);
    }
  }

  /** Apart from the blocks of open handles, the heap is what it was; no descriptor leaks. */
  predicate Tidy(w0: World, w: World) {
    Consistent(w) && Owned(w.open) !! w0.live && w.live == w0.live + Owned(w.open) && w.fds == w0.fds
  }

  lemma {:induction false} OpenKeepsConsistent(w: World, w': World, h: Addr, lib: Library)
    requires Consistent(w) && Opened(w, w', h, lib)
    ensures Consistent(w')
  {
    var b := Blocks(h, w'.open[h]);
    forall g | g in w'.open ensures DistinctBlocks(g, w'.open[g]) && Blocks(g, w'.open[g]) <= w'.live {
      assert g != h ==> g in w.open && w'.open[g] == w.open[g];
    }
    forall f, g | f in w'.open && g in w'.open && f != g ensures Blocks(f, w'.open[f]) !! Blocks(g, w'.open[g]) {
      var o := if f == h then g else f;
      assert o != h ==> o in w.open && w'.open[o] == w.open[o] && Blocks(o, w.open[o]) <= w.live;
      if f != h && g != h {
        assert g in w.open && w'.open[g] == w.open[g];
      }
    }
  }

  lemma {:induction false} CloseKeepsConsistent(w: World, w': World, h: Addr)
    requires Consistent(w) && Closed(w, w', h)
    ensures Consistent(w')
  {
    var b := Blocks(h, w.open[h]);
    forall g | g in w'.open ensures DistinctBlocks(g, w'.open[g]) && Blocks(g, w'.open[g]) <= w'.live {
      assert g in w.open && g != h && w'.open[g] == w.open[g];
      assert Blocks(g, w.open[g]) !! b;
    }
    forall f, g | f in w'.open && g in w'.open && f != g ensures Blocks(f, w'.open[f]) !! Blocks(g, w'.open[g]) {
      assert f in w.open && g in w.open && w'.open[f] == w.open[f] && w'.open[g] == w.open[g];
    }
  }

  lemma {:induction false} StepKeepsTidy(w0: World, w: World, w': World, c: Call)
    requires Tidy(w0, w) && Step(w, w', c)
    ensures Tidy(w0, w')
  {
    match c {
      case Failed =>
      case Open(h, lib) =>
        OpenKeepsConsistent(w, w', h, lib);
        OwnedAfterOpen(w.open, h, w'.open[h]);
        AddToHeap(w0.live, Owned(w.open), Blocks(h, w'.open[h]));
      case Close(h) =>
        CloseKeepsConsistent(w, w', h);
        OwnedAfterClose(w, h);
        forall a | a in Blocks(h, w.open[h]) ensures a in Owned(w.open) {
        }
        TakeFromHeap(w0.live, Owned(w.open), Blocks(h, w.open[h]));
    }
  }

  lemma {:induction false} AddToHeap(base: set<Addr>, owned: set<Addr>, b: set<Addr>)
    requires owned !! base && b !! base + owned
    ensures owned + b !! base && (base + owned) + b == base + (owned + b)
  {
  }

  lemma {:induction false} TakeFromHeap(base: set<Addr>, owned: set<Addr>, b: set<Addr>)
    requires owned !! base && b <= owned
    ensures owned - b !! base && (base + owned) - b == base + (owned - b)
  {
  }

  /** A run: the worlds before, between and after the calls. */
  predicate IsRun(trace: seq<World>, calls: seq<Call>) {
    |trace| == |calls| + 1 && forall i :: 0 <= i < |calls| ==> Step(trace[i], trace[i + 1], calls[i])
  }

  /** Over every run from a world without open handles, nothing leaks and nothing else is freed. */
  lemma {:induction false} RunKeepsTidy(trace: seq<World>, calls: seq<Call>, n: nat)
    requires IsRun(trace, calls) && n < |trace|
    requires trace[0].open == map[] && 0 !in trace[0].live
    ensures Tidy(trace[0], trace[n])
  {
    if n == 0 {
      assert Owned(trace[0].open) == {};
    } else {
      RunKeepsTidy(trace, calls, n - 1);
      StepKeepsTidy(trace[0], trace[n - 1], trace[n], calls[n - 1]);
    }
  }

  /** When every handle is closed again, the heap is the initial heap. */
  lemma {:induction false} AllClosedNothingLeft(trace: seq<World>, calls: seq<Call>, n: nat)
    requires IsRun(trace, calls) && n < |trace|
    requires trace[0].open == map[] && 0 !in trace[0].live && trace[n].open == map[]
    ensures trace[n].live == trace[0].live && trace[n].fds == trace[0].fds
  {
    RunKeepsTidy(trace, calls, n);
    assert Owned(trace[n].open) == {};
  }

  /** Each open handle accounts for two blocks, or three with thread-local storage. */
  lemma {:induction false} BlockCount(h: Addr, hd: Handle)
    requires DistinctBlocks(h, hd)
    ensures |Blocks(h, hd)| == if hd.tls.Some? then 3 else 2
  {
    assert |{h, hd.loadBuf}| == 2;
  }
}
