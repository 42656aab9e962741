/**
  Loading of ELF segments in libdl/dl.c: the address span of the PT_LOAD
  segments, the page-aligned image inside one heap block, the load bias, and
  the thread-local block.
 */
module DlImage {
  import opened Base

  const PAGE: nat := 0x1000

  datatype Kind = PtLoad | PtDynamic | PtTls | Other

  /** The fields of Elf32_Phdr the loader reads. */
  datatype Phdr = Phdr(kind: Kind, offset: word, vaddr: word, filesz: word, memsz: word) {
    function FileEnd(): int { (vaddr as int) + (filesz as int) }

    function MemEnd(): int { (vaddr as int) + (memsz as int) }

    /** The end as the loader computes it, in 32 bits. */
    function EndWord(): word { MemEnd() % UINT32_RANGE }

    /** In bounds of the file, no longer in the file than in memory, and not wrapping. */
    predicate Sound(fileSize: nat) {
      && (offset as int) + (filesz as int) <= fileSize
      && filesz <= memsz
      && MemEnd() < UINT32_RANGE
    }

    /** Address `a` is backed by the file. */
    predicate Backs(a: int) {
      kind == PtLoad && vaddr <= a < FileEnd()
    }
  }

  predicate AllSound(ps: seq<Phdr>, fileSize: nat) {
    forall i :: 0 <= i < |ps| && ps[i].kind == PtLoad ==> ps[i].Sound(fileSize)
  }

  // ----- the span

  /** `lo` and `hi` are the least start and the greatest end, in 32 bits, of the PT_LOAD segments. */
  predicate IsSpan(ps: seq<Phdr>, lo: int, hi: int) {
    && (forall i :: 0 <= i < |ps| && ps[i].kind == PtLoad ==> lo <= ps[i].vaddr && ps[i].EndWord() <= hi)
    && (exists i :: 0 <= i < |ps| && ps[i].kind == PtLoad && ps[i].vaddr == lo)
    && (exists i :: 0 <= i < |ps| && ps[i].kind == PtLoad && ps[i].EndWord() == hi)
  }

  /** No PT_LOAD segment reaches past the end of the address space. */
  predicate AllFit(ps: seq<Phdr>) {
    forall i :: 0 <= i < |ps| && ps[i].kind == PtLoad ==> ps[i].MemEnd() < UINT32_RANGE
  }

  /** Every PT_LOAD segment lies between `lo` and `hi`. */
  predicate Covers(ps: seq<Phdr>, lo: word, hi: word) {
    lo <= hi && forall i :: 0 <= i < |ps| && ps[i].kind == PtLoad ==> lo <= ps[i].vaddr && ps[i].MemEnd() <= hi
  }

  /** The span covers every segment exactly when none wraps; the end of one that does is not seen. */
  lemma {:induction false} SpanCovers(ps: seq<Phdr>, lo: word, hi: word)
    requires IsSpan(ps, lo, hi)
    ensures AllFit(ps) <==> Covers(ps, lo, hi)
  {
  }

  /** One segment over the end of the address space gives a span that ends before it starts. */
  lemma {:induction false} SegmentWraps() returns (ps: seq<Phdr>, lo: word, hi: word)
    ensures IsSpan(ps, lo, hi) && !AllFit(ps) && hi < lo
  {
    ps, lo, hi := [Phdr(PtLoad, 0, 0x1000, 0, 0xffff_f800)], 0x1000, 0x800;
    assert ps[0].kind == PtLoad && ps[0].vaddr == lo && ps[0].EndWord() == hi;
  }

  /** No PT_LOAD header at all, or none that the walk notices. */
  predicate NothingToLoad(ps: seq<Phdr>) {
    || (forall i :: 0 <= i < |ps| && ps[i].kind == PtLoad ==> ps[i].vaddr == 0xffff_ffff)
    || (forall i :: 0 <= i < |ps| && ps[i].kind == PtLoad ==> ps[i].EndWord() == 0)
  }

  /** A sound PT_LOAD header that takes any memory is never overlooked. */
  lemma {:induction false} SoundIsNoticed(ps: seq<Phdr>, i: nat, fileSize: nat)
    requires i < |ps| && ps[i].kind == PtLoad && ps[i].Sound(fileSize) && ps[i].memsz > 0
    ensures !NothingToLoad(ps)
  {
    EndOfSound(ps[i], fileSize);
  }

  lemma {:induction false} EndOfSound(p: Phdr, fileSize: nat)
    requires p.Sound(fileSize)
    ensures p.EndWord() == p.vaddr + p.memsz
  {
  }

  /** The first walk of the program headers, with the 32-bit sum of address and size. */
  method Span(ps: seq<Phdr>) returns (r: Option<(word, word)>)
    ensures r.Some? ==> IsSpan(ps, r.value.0, r.value.1)
    ensures r.Some? && AllFit(ps) ==> r.value.0 <= r.value.1
    ensures r.None? <==> NothingToLoad(ps)
  {
    var lo: word, hi: word := 0xffff_ffff, 0;
    for i := 0 to |ps|
      invariant lo == 0xffff_ffff || exists k :: 0 <= k < i && ps[k].kind == PtLoad && ps[k].vaddr == lo
      invariant hi == 0 || exists k :: 0 <= k < i && ps[k].kind == PtLoad && ps[k].EndWord() == hi
      invariant forall k :: 0 <= k < i && ps[k].kind == PtLoad ==> lo <= ps[k].vaddr && ps[k].EndWord() <= hi
    {
      if ps[i].kind == PtLoad {
        if ps[i].vaddr < lo {
          lo := ps[i].vaddr;
        }
        var end: word := ps[i].EndWord();
        if end > hi {
          hi := end;
        }
      }
    }
    if lo == 0xffff_ffff || hi == 0 {
      return None;
    }
    return Some((lo, hi));
  }

  // ----- the image

  /** The byte at address `a`: from the last of the first `n` headers that backs it, else zero. */
  function ImageByte(file: seq<byte>, ps: seq<Phdr>, n: nat, a: int): byte
    requires AllSound(ps, |file|) && n <= |ps|
  {
    if n == 0 then 0
    else if ps[n - 1].Backs(a) then file[ps[n - 1].offset + (a - ps[n - 1].vaddr)]
    else ImageByte(file, ps, n - 1, a)
  }

  predicate Disjoint(ps: seq<Phdr>) {
    forall i, j :: 0 <= i < |ps| && 0 <= j < |ps| && i != j && ps[i].kind == PtLoad && ps[j].kind == PtLoad ==>
      ps[i].MemEnd() <= ps[j].vaddr || ps[j].MemEnd() <= ps[i].vaddr
  }

  /** Address `a` lies in no PT_LOAD segment. */
  predicate InNone(ps: seq<Phdr>, a: int) {
    forall i :: 0 <= i < |ps| && ps[i].kind == PtLoad ==> !(ps[i].vaddr <= a < ps[i].MemEnd())
  }

  lemma {:induction false} UnbackedIsZero(file: seq<byte>, ps: seq<Phdr>, n: nat, a: int)
    requires AllSound(ps, |file|) && n <= |ps| && forall i :: 0 <= i < |ps| ==> !ps[i].Backs(a)
    ensures ImageByte(file, ps, n, a) == 0
  {
    if n > 0 {
      UnbackedIsZero(file, ps, n - 1, a);
    }
  }

  lemma {:induction false} BackedByOnly(file: seq<byte>, ps: seq<Phdr>, n: nat, a: int, k: nat)
    requires AllSound(ps, |file|) && k < n <= |ps| && ps[k].Backs(a)
    requires forall i :: 0 <= i < |ps| && i != k ==> !ps[i].Backs(a)
    ensures ImageByte(file, ps, n, a) == file[ps[k].offset + (a - ps[k].vaddr)]
  {
    if k != n - 1 {
      BackedByOnly(file, ps, n - 1, a, k);
    }
  }

  /**
    With disjoint segments, the bytes of segment `k` are its file bytes followed
    by zeros, and an address in no segment is zero.
   */
  lemma {:induction false} SegmentBytes(file: seq<byte>, ps: seq<Phdr>, k: nat, a: int)
    requires AllSound(ps, |file|) && Disjoint(ps)
    ensures k < |ps| && ps[k].Backs(a) ==> ImageByte(file, ps, |ps|, a) == file[ps[k].offset + (a - ps[k].vaddr)]
    ensures k < |ps| && ps[k].kind == PtLoad && ps[k].FileEnd() <= a < ps[k].MemEnd() ==>
              ImageByte(file, ps, |ps|, a) == 0
    ensures InNone(ps, a) ==> ImageByte(file, ps, |ps|, a) == 0
  {
    if k < |ps| && ps[k].kind == PtLoad && ps[k].vaddr <= a < ps[k].MemEnd() {
      forall i | 0 <= i < |ps| && i != k ensures !ps[i].Backs(a) {
      }
      if a < ps[k].FileEnd() {
        BackedByOnly(file, ps, |ps|, a, k);
      } else {
        UnbackedIsZero(file, ps, |ps|, a);
      }
    }
    if InNone(ps, a) {
      UnbackedIsZero(file, ps, |ps|, a);
    }
  }

  function AlignUp(x: nat): nat {
    (x + (PAGE - 1)) / PAGE * PAGE
  }

  lemma {:induction false} AlignUpFits(x: nat)
    ensures x <= AlignUp(x) < x + PAGE && AlignUp(x) % PAGE == 0
  {
  }

  /** A block of `load_size + 0x1000` bytes has room for the aligned image exactly when that size does not wrap. */
  lemma {:induction false} BlockFits(raw: nat, loadSize: word)
    ensures (AlignUp(raw) - raw) + loadSize <= (loadSize + PAGE) % UINT32_RANGE <==> loadSize + PAGE < UINT32_RANGE
  {
    AlignUpFits(raw);
  }

  /** One segment that fills all but the last page makes the block empty. */
  lemma {:induction false} BlockTooSmall() returns (ps: seq<Phdr>, lo: word, hi: word)
    ensures AllSound(ps, 0) && IsSpan(ps, lo, hi)
    ensures (hi - lo + PAGE) % UINT32_RANGE == 0 < hi - lo
  {
    ps, lo, hi := [Phdr(PtLoad, 0, 0, 0, 0xffff_f000)], 0, 0xffff_f000;
    assert ps[0].kind == PtLoad && ps[0].vaddr == lo && ps[0].EndWord() == hi;
  }

  /** What the loader knows about the block, the span and the file. */
  predicate Placed(file: seq<byte>, ps: seq<Phdr>, lo: word, hi: word, blockSize: nat) {
    AllSound(ps, |file|) && Covers(ps, lo, hi) && blockSize == (hi - lo) + PAGE
  }

  /** The block from `at` on holds the image of the first `n` headers. */
  predicate Holds(block: array<byte>, at: nat, file: seq<byte>, ps: seq<Phdr>, n: nat, lo: word, size: nat)
    requires AllSound(ps, |file|) && n <= |ps|
    reads block
  {
    at + size <= block.Length && forall j :: at <= j < at + size ==> block[j] == ImageByte(file, ps, n, lo + (j - at))
  }

  /** Zero the aligned region, then copy each PT_LOAD segment's file bytes into place. */
  method LoadImage(file: seq<byte>, ps: seq<Phdr>, lo: word, hi: word, block: array<byte>, raw: nat)
    returns (at: nat, bias: word)
    requires Placed(file, ps, lo, hi, block.Length)
    modifies block
    ensures (raw + at) % PAGE == 0 && at < PAGE
    ensures Holds(block, at, file, ps, |ps|, lo, hi - lo)
    ensures forall k :: 0 <= k < at || at + (hi - lo) <= k < block.Length ==> block[k] == old(block[k])
    ensures bias == (raw + at - lo) % UINT32_RANGE
  {
    at, bias := Place(raw, lo);
    var size := hi - lo;
    Clear(block, at, size);
    CopySegments(file, ps, lo, hi, block, at);
  }

  /** The walk over the headers that copies the PT_LOAD segments into a cleared image. */
  method CopySegments(file: seq<byte>, ps: seq<Phdr>, lo: word, hi: word, block: array<byte>, at: nat)
    requires AllSound(ps, |file|) && Covers(ps, lo, hi) && at + (hi - lo) <= block.Length
    requires forall j :: at <= j < at + (hi - lo) ==> block[j] == 0
    modifies block
    ensures Holds(block, at, file, ps, |ps|, lo, hi - lo)
    ensures forall k :: 0 <= k < at || at + (hi - lo) <= k < block.Length ==> block[k] == old(block[k])
  {
    var size := hi - lo;
    for i := 0 to |ps|
      invariant Holds(block, at, file, ps, i, lo, size)
      invariant forall k :: 0 <= k < at || at + size <= k < block.Length ==> block[k] == old(block[k])
    {
      if ps[i].kind == PtLoad {
        CopySegment(file, ps[i], lo, hi, block, at);
      }
    }
  }

  /** Where the image starts in its block, and the load bias. */
  method Place(raw: nat, lo: word) returns (at: nat, bias: word)
    ensures (raw + at) % PAGE == 0 && at < PAGE && bias == (raw + at - lo) % UINT32_RANGE
  {
    AlignUpFits(raw);
    at := AlignUp(raw) - raw;
    bias := (raw + at - lo) % UINT32_RANGE;
  }

  /** memset of the image to zero. */
  method Clear(block: array<byte>, at: nat, size: nat)
    requires at + size <= block.Length
    modifies block
    ensures forall j :: at <= j < at + size ==> block[j] == 0
    ensures forall k :: 0 <= k < at || at + size <= k < block.Length ==> block[k] == old(block[k])
  {
    forall j | at <= j < at + size {
      block[j] := 0;
    }
  }

  /** memcpy of one segment's file bytes. */
  method CopySegment(file: seq<byte>, p: Phdr, lo: word, hi: word, block: array<byte>, at: nat)
    requires p.kind == PtLoad && p.Sound(|file|) && lo <= p.vaddr && p.MemEnd() <= hi
    requires at + (hi - lo) <= block.Length
    modifies block
    ensures forall j :: at <= j < at + (hi - lo) ==>
              block[j] == if p.Backs(lo + (j - at)) then file[p.offset + (lo + (j - at) - p.vaddr)] else old(block[j])
    ensures forall k :: 0 <= k < at || at + (hi - lo) <= k < block.Length ==> block[k] == old(block[k])
  {
    var to: nat := at + (p.vaddr - lo);
    forall j | to <= j < to + p.filesz {
      block[j] := file[p.offset + (j - to)];
    }
  }

  /** `load_bias + vaddr`, in word arithmetic, is the address of image offset `vaddr - min_vaddr`. */
  lemma {:induction false} BiasAddresses(raw: nat, at: nat, lo: word, hi: word, v: word)
    requires lo <= v <= hi && raw + at + (hi - lo) < UINT32_RANGE
    ensures ((raw + at - lo) % UINT32_RANGE + v) % UINT32_RANGE == raw + at + (v - lo)
  {
  }

  /** The block byte that `load_bias + a`, in word arithmetic, addresses. */
  function At(raw: nat, bias: word, a: int): int {
    (bias + a) % UINT32_RANGE - raw
  }

  /** The block holds the image at `raw + at`, which the bias accounts for. */
  predicate Based(raw: nat, at: nat, bias: word, lo: word, hi: word, blockSize: nat) {
    && lo <= hi && bias == (raw + at - lo) % UINT32_RANGE
    && at + (hi - lo) <= blockSize && raw + at + (hi - lo) < UINT32_RANGE
  }

  /** Any address of the span, through the bias, leads to its byte of the image. */
  lemma {:induction false} ByteAt(
      block: array<byte>, raw: nat, at: nat, bias: word, file: seq<byte>, ps: seq<Phdr>, lo: word, hi: word, a: int)
    requires AllSound(ps, |file|) && Based(raw, at, bias, lo, hi, block.Length) && lo <= a < hi
    requires Holds(block, at, file, ps, |ps|, lo, hi - lo)
    ensures At(raw, bias, a) == at + (a - lo)
    ensures block[At(raw, bias, a)] == ImageByte(file, ps, |ps|, a)
  {
    BiasAddresses(raw, at, lo, hi, a);
    assert lo + ((at + (a - lo)) - at) == a;
  }

  /** Through the bias, every address of the segment leads to its file byte, or to zero past the file part. */
  predicate Loaded(block: array<byte>, raw: nat, bias: word, file: seq<byte>, p: Phdr)
    requires p.Sound(|file|)
    reads block
  {
    && (forall a :: p.vaddr <= a < p.vaddr + p.memsz ==> 0 <= At(raw, bias, a) < block.Length)
    && (forall a :: p.vaddr <= a < p.vaddr + p.filesz ==> block[At(raw, bias, a)] == file[p.offset + (a - p.vaddr)])
    && (forall a :: p.vaddr + p.filesz <= a < p.vaddr + p.memsz ==> block[At(raw, bias, a)] == 0)
  }

  lemma {:induction false} SegmentIsLoaded(
      block: array<byte>, raw: nat, at: nat, bias: word, file: seq<byte>, ps: seq<Phdr>, lo: word, hi: word, k: nat)
    requires AllSound(ps, |file|) && Disjoint(ps) && Covers(ps, lo, hi)
    requires Holds(block, at, file, ps, |ps|, lo, hi - lo) && Based(raw, at, bias, lo, hi, block.Length)
    requires k < |ps| && ps[k].kind == PtLoad
    ensures Loaded(block, raw, bias, file, ps[k])
  {
    var p := ps[k];
    forall a | p.vaddr <= a < p.MemEnd()
      ensures 0 <= At(raw, bias, a) < block.Length
      ensures a < p.FileEnd() ==> block[At(raw, bias, a)] == file[p.offset + (a - p.vaddr)]
      ensures p.FileEnd() <= a ==> block[At(raw, bias, a)] == 0
    {
      ByteAt(block, raw, at, bias, file, ps, lo, hi, a);
      SegmentBytes(file, ps, k, a);
    }
  }

  /** From any segment to any other, and a page, there is room behind `raw`. */
  predicate Room(ps: seq<Phdr>, raw: nat) {
    forall i, j :: 0 <= i < |ps| && 0 <= j < |ps| && ps[i].kind == PtLoad && ps[j].kind == PtLoad ==>
      raw + (ps[i].MemEnd() - ps[j].vaddr) + PAGE <= UINT32_RANGE
  }

  lemma {:induction false} NoWrap(n: nat)
    requires n < UINT32_RANGE
    ensures n % UINT32_RANGE == n
  {
  }

  /** A span runs from the start of one segment to the end of another. */
  lemma {:induction false} SpanEnds(ps: seq<Phdr>, lo: word, hi: word) returns (i: nat, j: nat)
    requires AllFit(ps) && IsSpan(ps, lo, hi)
    ensures i < |ps| && ps[i].kind == PtLoad && ps[i].MemEnd() == hi
    ensures j < |ps| && ps[j].kind == PtLoad && ps[j].vaddr == lo
  {
    j :| 0 <= j < |ps| && ps[j].kind == PtLoad && ps[j].vaddr == lo;
    i :| 0 <= i < |ps| && ps[i].kind == PtLoad && ps[i].EndWord() == hi;
    NoWrap(ps[i].MemEnd());
  }

  /** Then there is room for the span, and the size of its block does not wrap. */
  lemma {:induction false} RoomForSpan(ps: seq<Phdr>, raw: nat, lo: word, hi: word)
    requires raw > 0 && AllFit(ps) && Room(ps, raw) && IsSpan(ps, lo, hi)
    ensures lo <= hi && raw + (hi - lo) + PAGE <= UINT32_RANGE
    ensures (hi - lo + PAGE) % UINT32_RANGE == hi - lo + PAGE
  {
    SpanCovers(ps, lo, hi);
    var i, j := SpanEnds(ps, lo, hi);
    NoWrap(ps[i].MemEnd() - ps[j].vaddr + PAGE);
  }

  /**
    From the program headers to the bytes: the walk, the block of the size it
    gives, at the address `raw` where there is room for it, and the copies.  Every
    segment is loaded where the bias puts it, and every other address of the span
    leads to zero.
   */
  method LoadSegments(file: seq<byte>, ps: seq<Phdr>, raw: nat)
    returns (lo: word, hi: word, block: array?<byte>, at: nat, bias: word)
    requires AllSound(ps, |file|) && Disjoint(ps) && raw > 0 && Room(ps, raw)
    ensures block == null <==> NothingToLoad(ps)
    ensures block != null ==> IsSpan(ps, lo, hi) && block.Length == hi - lo + PAGE
    ensures block != null ==> (raw + at) % PAGE == 0 && Based(raw, at, bias, lo, hi, block.Length)
    ensures block != null ==>
              forall k :: 0 <= k < |ps| && ps[k].kind == PtLoad ==> Loaded(block, raw, bias, file, ps[k])
    ensures block != null ==> GapsAreZero(block, raw, bias, ps, lo, hi)
  {
    lo, hi, block, at, bias := 0, 0, null, 0, 0;
    var span := Span(ps);
    if span.None? {
      return;
    }
    lo, hi := span.value.0, span.value.1;
    SpanCovers(ps, lo, hi);
    RoomForSpan(ps, raw, lo, hi);
    var image := new byte[(hi - lo + PAGE) % UINT32_RANGE];
    at, bias := FillBlock(file, ps, lo, hi, image, raw);
    block := image;
  }

  /** Load the image into a block that has room for it. */
  method FillBlock(file: seq<byte>, ps: seq<Phdr>, lo: word, hi: word, block: array<byte>, raw: nat)
    returns (at: nat, bias: word)
    requires AllSound(ps, |file|) && Disjoint(ps) && Covers(ps, lo, hi)
    requires block.Length == hi - lo + PAGE && raw + block.Length <= UINT32_RANGE
    modifies block
    ensures (raw + at) % PAGE == 0 && Based(raw, at, bias, lo, hi, block.Length)
    ensures forall k :: 0 <= k < |ps| && ps[k].kind == PtLoad ==> Loaded(block, raw, bias, file, ps[k])
    ensures GapsAreZero(block, raw, bias, ps, lo, hi)
  {
    at, bias := LoadImage(file, ps, lo, hi, block, raw);
    forall k | 0 <= k < |ps| && ps[k].kind == PtLoad ensures Loaded(block, raw, bias, file, ps[k]) {
      SegmentIsLoaded(block, raw, at, bias, file, ps, lo, hi, k);
    }
    forall a | lo <= a < hi && InNone(ps, a)
      ensures 0 <= At(raw, bias, a) < block.Length && block[At(raw, bias, a)] == 0
    {
      ByteAt(block, raw, at, bias, file, ps, lo, hi, a);
      SegmentBytes(file, ps, |ps|, a);
    }
  }

  /** Through the bias, every address of the span in no segment leads to zero. */
  predicate GapsAreZero(block: array<byte>, raw: nat, bias: word, ps: seq<Phdr>, lo: word, hi: word)
    reads block
  {
    forall a :: lo <= a < hi && InNone(ps, a) ==>
      0 <= At(raw, bias, a) < block.Length && block[At(raw, bias, a)] == 0
  }

  // ----- the thread-local block

  /** The first PT_TLS header's block: its initialised bytes out of the image, then zeros. */
  method TlsBlock(p: Phdr, lo: word, hi: word, image: array<byte>, at: nat) returns (tls: array<byte>)
    requires p.filesz <= p.memsz && at + (hi - lo) <= image.Length
    requires p.filesz > 0 ==> lo <= p.vaddr && p.FileEnd() <= hi
    ensures fresh(tls) && tls.Length == p.memsz
    ensures forall k :: 0 <= k < p.memsz ==> tls[k] == if k < p.filesz then image[at + (p.vaddr - lo) + k] else 0
  {
    tls := new byte[p.memsz];
    forall k | 0 <= k < p.memsz {
      tls[k] := 0;
    }
    if p.filesz > 0 {
      forall k | 0 <= k < p.filesz {
        tls[k] := image[at + (p.vaddr - lo) + k];
      }
    }
  }

  /** PT_TLS lies in the file-backed part of a PT_LOAD segment at the same distance from both starts. */
  predicate TlsInside(tls: Phdr, load: Phdr) {
    && load.kind == PtLoad
    && load.vaddr <= tls.vaddr && tls.FileEnd() <= load.FileEnd()
    && (tls.offset as int) - (load.offset as int) == (tls.vaddr as int) - (load.vaddr as int)
  }

  /** Then the initialised part of the block is the file contents of the PT_TLS segment. */
  lemma {:induction false} TlsIsInitialised(file: seq<byte>, ps: seq<Phdr>, k: nat, tls: Phdr, i: nat)
    requires AllSound(ps, |file|) && Disjoint(ps) && k < |ps| && TlsInside(tls, ps[k]) && i < tls.filesz
    ensures (tls.offset as int) + i < |file|
    ensures ImageByte(file, ps, |ps|, tls.vaddr + i) == file[tls.offset + i]
  {
    SegmentBytes(file, ps, k, tls.vaddr + i);
  }

  /** The headers before `i` are not PT_TLS, and header `i` is, if there is one. */
  predicate FirstTls(ps: seq<Phdr>, i: nat) {
    i <= |ps| && (i < |ps| ==> ps[i].kind == PtTls) && forall j :: 0 <= j < i ==> ps[j].kind != PtTls
  }

  /** A PT_TLS header whose initialised part, if any, lies in a PT_LOAD segment. */
  predicate TlsSound(ps: seq<Phdr>, p: Phdr) {
    p.filesz <= p.memsz && (p.filesz > 0 ==> exists k :: 0 <= k < |ps| && TlsInside(p, ps[k]))
  }

  /**
    The walk to the first PT_TLS header.  Its block, taken out of the loaded
    image, is the file contents of that segment followed by zeros.
   */
  method LoadTls(file: seq<byte>, ps: seq<Phdr>, lo: word, hi: word, image: array<byte>, at: nat)
    returns (i: nat, tls: array?<byte>)
    requires AllSound(ps, |file|) && Disjoint(ps) && Covers(ps, lo, hi)
    requires Holds(image, at, file, ps, |ps|, lo, hi - lo)
    requires forall j :: 0 <= j < |ps| && ps[j].kind == PtTls ==> TlsSound(ps, ps[j])
    ensures FirstTls(ps, i) && (tls == null <==> i == |ps|)
    ensures tls != null ==> fresh(tls) && ps[i].filesz <= ps[i].memsz == tls.Length
    ensures tls != null ==>
              forall k :: 0 <= k < ps[i].filesz ==> ps[i].offset + k < |file| && tls[k] == file[ps[i].offset + k]
    ensures tls != null ==> forall k :: ps[i].filesz <= k < ps[i].memsz ==> tls[k] == 0
  {
    i, tls := 0, null;
    while i < |ps| && ps[i].kind != PtTls
      invariant i <= |ps| && forall j :: 0 <= j < i ==> ps[j].kind != PtTls
    {
      i := i + 1;
    }
    if i < |ps| {
      var p := ps[i];
      tls := TlsBlock(p, lo, hi, image, at);
      forall k | 0 <= k < p.filesz ensures p.offset + k < |file| && tls[k] == file[p.offset + k] {
        var load :| 0 <= load < |ps| && TlsInside(p, ps[load]);
        TlsIsInitialised(file, ps, load, p, k);
        assert ps[load].MemEnd() <= hi;
        assert lo + ((at + (p.vaddr - lo) + k) - at) == p.vaddr + k;
      }
    }
  }
}
