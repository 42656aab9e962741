/**
  `dlopen` and `dlclose` of libdl/dl.c with every exit they have: which of the
  steps that can fail do fail is an input, and the frees and closes on each path
  are checked as they happen.  A block can be freed only while it is live, so a
  verified path frees nothing twice.
 */
module DlLoader {
  import opened Base
  import opened DlWorld
  import DlThread

  /** The steps of one `dlopen` that fail. */
  datatype Faults = Faults(
    open: bool, size: bool, seek: bool, fileMemory: bool, read: bool, header: bool,
    segments: bool, imageMemory: bool, handleMemory: bool, tlsMemory: bool, relocation: bool)
  {
    /** Reading the file fails. */
    predicate InFile() { open || size || seek || fileMemory || read || header }

    /** Building the image and the handle fails; memory for thread-local storage counts only where it is asked for. */
    predicate InBuild(hasTls: bool) {
      segments || imageMemory || handleMemory || (hasTls && tlsMemory) || relocation
    }

    predicate Any(hasTls: bool) { InFile() || InBuild(hasTls) }
  }

  class Process {
    var live: set<Addr>
    var fds: set<nat>
    var tp: Addr
    var log: seq<Event>
    var open: map<Addr, Handle>

    ghost function View(): World
      reads this
    {
      World(live, fds, tp, log, open)
    }

    // ----- the system underneath

    method OpenFile(fails: bool) returns (fd: Option<nat>)
      modifies this`fds
      ensures fd.None? <==> fails
      ensures fd.None? ==> fds == old(fds)
      ensures fd.Some? ==> fd.value !in old(fds) && fds == old(fds) + {fd.value}
    {
      if fails {
        return None;
      }
      Unused(fds);
      var n: nat :| n !in fds;
      fds := fds + {n};
      return Some(n);
    }

    method CloseFile(fd: nat)
      requires fd in fds
      modifies this`fds
      ensures fds == old(fds) - {fd}
    {
      fds := fds - {fd};
    }

    /** A null result, or a block that was not live. */
    method Malloc(fails: bool) returns (p: Addr)
      modifies this`live
      ensures p == 0 <==> fails
      ensures p == 0 ==> live == old(live)
      ensures p != 0 ==> p !in old(live) && live == old(live) + {p}
    {
      if fails {
        return 0;
      }
      Unused(live + {0});
      p :| p !in live + {0};
      live := live + {p};
    }

    /** Freeing null does nothing; anything else must be live. */
    method Free(p: Addr)
      requires p == 0 || p in live
      modifies this`live
      ensures live == if p == 0 then old(live) else old(live) - {p}
    {
      if p != 0 {
        live := live - {p};
      }
    }

    /** `dl_arch_set_tls`: set the thread pointer and return the old one. */
    method SetTls(p: Addr) returns (previous: Addr)
      modifies this`tp
      ensures tp == p && previous == old(tp)
    {
      previous := tp;
      tp := p;
    }

    // ----- dlopen

    /** Steps 1 and 2: read the file into a block; no descriptor stays open whatever happens. */
    method ReadFile(faults: Faults) returns (file: Addr)
      requires 0 !in live
      modifies this`live, this`fds
      ensures file == 0 <==> faults.InFile()
      ensures fds == old(fds)
      ensures file == 0 ==> live == old(live)
      ensures file != 0 ==> file !in old(live) && live == old(live) + {file}
    {
      var fd := OpenFile(faults.open);
      if fd.None? {
        return 0;
      }
      if faults.size {
        CloseFile(fd.value);
        return 0;
      }
      if faults.seek {
        CloseFile(fd.value);
        return 0;
      }
      file := Malloc(faults.fileMemory);
      if file == 0 {
        CloseFile(fd.value);
        return 0;
      }
      CloseFile(fd.value);
      if faults.read {
        Free(file);
        return 0;
      }
      if faults.header {
        Free(file);
        return 0;
      }
    }

    /** Steps 3 to 6: allocate image, handle and thread-local block, and relocate; give everything back on failure. */
    method Build(file: Addr, lib: Library, faults: Faults) returns (h: Addr, hd: Handle)
      requires file in live && 0 !in live
      modifies this`live
      ensures h == 0 <==> faults.InBuild(lib.hasTls)
      ensures h == 0 ==> live == old(live) - {file}
      ensures h != 0 ==>
                && DistinctBlocks(h, hd) && Blocks(h, hd) !! old(live) && 0 !in Blocks(h, hd)
                && live == old(live) + Blocks(h, hd)
                && hd.tls.Some? == lib.hasTls && hd.init == lib.init && hd.fini == lib.fini
    {
      h, hd := 0, Handle(0, None, 0, lib.init, lib.fini);
      if faults.segments {
        Free(file);
        return;
      }
      var raw := Malloc(faults.imageMemory);
      if raw == 0 {
        Free(file);
        return;
      }
      var block := Malloc(faults.handleMemory);
      if block == 0 {
        Free(raw);
        Free(file);
        return;
      }
      hd := hd.(loadBuf := raw);
      var tls: Addr := 0;
      if lib.hasTls {
        tls := Malloc(faults.tlsMemory);
        if tls == 0 {
          Free(raw);
          Free(file);
          Free(block);
          return;
        }
        hd := hd.(tls := Some(tls));
      }
      if faults.relocation {
        Free(tls);
        Free(file);
        Free(raw);
        Free(block);
        return;
      }
      h := block;
    }

    /** Step 7: the non-null constructors, in array order. */
    method RunInit(h: Addr, fns: seq<Addr>)
      modifies this`log
      ensures log == old(log) + Constructions(h, NonNull(fns))
    {
      assert old(log) + Constructions(h, NonNull(fns[..0])) == log;
      for i := 0 to |fns|
        invariant log == old(log) + Constructions(h, NonNull(fns[..i]))
      {
        assert fns[..i + 1][..i] == fns[..i];
        if fns[i] != 0 {
          ConstructionsSnoc(h, NonNull(fns[..i]), fns[i]);
          log := log + [Constructed(h, fns[i])];
        }
      }
      assert fns[..|fns|] == fns;
    }

    /** `dlopen`: a handle exactly when no step fails. */
    method Dlopen(lib: Library, faults: Faults) returns (h: Addr)
      requires Consistent(View())
      modifies this
      ensures Consistent(View())
      ensures h != 0 <==> !faults.Any(lib.hasTls)
      ensures h == 0 ==> View() == old(View())
      ensures h != 0 ==> Opened(old(View()), View(), h, lib)
    {
      var file := ReadFile(faults);
      if file == 0 {
        return 0;
      }
      var hd;
      h, hd := Build(file, lib, faults);
      if h == 0 {
        assert live == old(live);
        return 0;
      }
      if hd.tls.Some? {
        var previous := SetTls(hd.tls.value);
        hd := hd.(savedTp := previous);
      }
      open := open[h := hd];
      RunInit(h, lib.init);
      Free(file);
      assert live == old(live) + Blocks(h, hd);
      OpenKeepsConsistent(old(View()), View(), h, lib);
    }

    // ----- dlclose

    /** The non-null destructors, in reverse array order. */
    method RunFini(h: Addr, fns: seq<Addr>)
      modifies this`log
      ensures log == old(log) + Destructions(h, Reversed(NonNull(fns)))
    {
      var i := |fns|;
      assert fns[..|fns|] == fns;
      assert log + Destructions(h, Reversed(NonNull(fns[..i]))) == old(log) + Destructions(h, Reversed(NonNull(fns)));
      while i > 0
        invariant 0 <= i <= |fns|
        invariant log + Destructions(h, Reversed(NonNull(fns[..i])))
               == old(log) + Destructions(h, Reversed(NonNull(fns)))
      {
        assert fns[..i][..i - 1] == fns[..i - 1];
        if fns[i - 1] != 0 {
          ReversedSnoc(NonNull(fns[..i - 1]), fns[i - 1]);
          DestructionsCons(h, fns[i - 1], Reversed(NonNull(fns[..i - 1])), log);
          log := log + [Destructed(h, fns[i - 1])];
        }
        i := i - 1;
      }
      assert log + Destructions(h, Reversed(NonNull(fns[..0]))) == log;
    }

    method Dlclose(h: Addr)
      requires Consistent(View()) && (h == 0 || h in open)
      modifies this
      ensures Consistent(View())
      ensures h == 0 ==> View() == old(View())
      ensures h != 0 ==> Closed(old(View()), View(), h)
    {
      if h == 0 {
        return;
      }
      var hd := open[h];
      assert Blocks(h, hd) <= live && DistinctBlocks(h, hd);
      RunFini(h, hd.fini);
      Free(hd.loadBuf);
      if hd.tls.Some? {
        var previous := SetTls(hd.savedTp);
        Free(hd.tls.value);
      }
      Free(h);
      open := open - {h};
      assert live == old(live) - Blocks(h, hd);
      CloseKeepsConsistent(old(View()), View(), h);
    }

    /** One request of the program, as a step of the state machine. */
    method ServeOne(r: Request) returns (ghost c: Call)
      requires Consistent(View())
      modifies this
      ensures Consistent(View()) && Step(old(View()), View(), c) && Answers(r, old(open), c)
    {
      c := Failed;
      match r {
        case ToOpen(lib, faults) =>
          var h := Dlopen(lib, faults);
          c := if h == 0 then Failed else Open(h, lib);
        case ToClose(h) =>
          if h in open {
            Dlclose(h);
            c := Close(h);
          }
      }
    }

    /**
      Any sequence of calls a program may make, whatever fails on the way, is a
      run of answers to its requests: it leaves the process tidy, and the thread
      pointer is the initial one exactly when its origin is the start.
     */
    method Serve(requests: seq<Request>) returns (ghost trace: seq<World>, ghost calls: seq<Call>)
      requires open == map[] && 0 !in live
      modifies this
      ensures IsRun(trace, calls) && trace[0] == old(View()) && trace[|calls|] == View()
      ensures |calls| == |requests|
      ensures forall i :: 0 <= i < |requests| ==> Answers(requests[i], trace[i].open, calls[i])
      ensures Tidy(old(View()), View())
      ensures open == map[] ==> live == old(live) && fds == old(fds)
      ensures old(tp) == 0 || old(tp) in old(live) ==>
                (tp == old(tp) <==> DlThread.Origin(calls, |calls|) == 0)
    {
      trace, calls := [View()], [];
      for i := 0 to |requests|
        invariant IsRun(trace, calls) && trace[0] == old(View()) && trace[|calls|] == View()
        invariant |calls| == i && forall k :: 0 <= k < i ==> Answers(requests[k], trace[k].open, calls[k])
        invariant Consistent(View())
      {
        ghost var c := ServeOne(requests[i]);
        RunSnoc(trace, calls, View(), c);
        trace, calls := trace + [View()], calls + [c];
      }
      RunKeepsTidy(trace, calls, |calls|);
      assert open == map[] ==> Owned(open) == {};
      if old(tp) == 0 || old(tp) in old(live) {
        DlThread.LiveIsApart(trace, calls);
        DlThread.RestoredExactly(trace, calls, |calls|);
      }
    }
  }

  /** An open succeeds exactly when none of its steps fails, a close exactly when the handle is open. */
  predicate Answers(r: Request, open: map<Addr, Handle>, c: Call) {
    match r
    case ToOpen(lib, faults) => if faults.Any(lib.hasTls) then c == Failed else c.Open? && c.lib == lib
    case ToClose(h) => c == if h in open then Close(h) else Failed
  }

  lemma {:induction false} RunSnoc(trace: seq<World>, calls: seq<Call>, w: World, c: Call)
    requires IsRun(trace, calls) && Step(trace[|calls|], w, c)
    ensures IsRun(trace + [w], calls + [c])
  {
  }

  /** A call of the program: open a library, or close a handle if it is open. */
  datatype Request = ToOpen(lib: Library, faults: Faults) | ToClose(h: Addr)

  /** Some number is not in a finite set. */
  lemma {:induction false} Unused(s: set<nat>)
    ensures exists n: nat :: n !in s
  {
    var b := UpperBound(s);
    assert b !in s;
  }

  lemma {:induction false} UpperBound(s: set<nat>) returns (b: nat)
    ensures forall x :: x in s ==> x < b
    decreases |s|
  {
    if s == {} {
      b := 0;
    } else {
      var x :| x in s;
      var c := UpperBound(s - {x});
      b := if x < c then c else x + 1;
      forall y | y in s ensures y < b {
        assert y == x || y in s - {x};
      }
    }
  }

  lemma {:induction false} ConstructionsSnoc(h: Addr, fns: seq<Addr>, f: Addr)
    ensures Constructions(h, fns + [f]) == Constructions(h, fns) + [Constructed(h, f)]
  {
  }

  lemma {:induction false} ReversedSnoc(fns: seq<Addr>, f: Addr)
    ensures Reversed(fns + [f]) == [f] + Reversed(fns)
  {
    assert (fns + [f])[..|fns|] == fns;
  }

  lemma {:induction false} DestructionsCons(h: Addr, f: Addr, fns: seq<Addr>, log: seq<Event>)
    ensures log + Destructions(h, [f] + fns) == (log + [Destructed(h, f)]) + Destructions(h, fns)
  {
    assert Destructions(h, [f] + fns) == [Destructed(h, f)] + Destructions(h, fns);
  }
}
