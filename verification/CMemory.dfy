/**
  The memory primitives the argz code is written with, on the bytes of one
  heap block.  Allocation always succeeds here; bytes gained by growing a block
  are unspecified.
 */
module CMemory {

  /** memcpy of `src` over `dst` at `at`. */
  function Overlay(dst: string, at: nat, src: string): (r: string)
    requires at + |src| <= |dst|
    ensures |r| == |dst|
  {
    dst[..at] + src + dst[at + |src|..]
  }

  /** Copying at the end of what is already filled appends to it. */
  lemma {:induction false} OverlayAppends(dst: string, at: nat, src: string)
    requires at + |src| <= |dst|
    ensures Overlay(dst, at, src)[..at + |src|] == dst[..at] + src
  {
  }

  /** memmove inside one block: the source range is read before anything is written. */
  function Moved(buf: string, to: nat, from: nat, n: nat): (r: string)
    requires to + n <= |buf| && from + n <= |buf|
    ensures |r| == |buf|
  {
    Overlay(buf, to, buf[from..from + n])
  }

  /** Moving the tail down over `n` bytes and cutting the block there removes the bytes. */
  lemma {:induction false} ShiftDown(buf: string, at: nat, n: nat)
    requires at + n <= |buf|
    ensures Moved(buf, at, at + n, |buf| - at - n)[..|buf| - n] == buf[..at] + buf[at + n..]
  {
  }

  /** Moving the tail up in a grown block and copying into the gap inserts the bytes. */
  lemma {:induction false} ShiftUp(before: string, grown: string, at: nat, bytes: string)
    requires at <= |before| && |grown| == |before| + |bytes| && grown[..|before|] == before
    ensures Overlay(Moved(grown, at + |bytes|, at, |before| - at), at, bytes)
         == before[..at] + bytes + before[at..]
  {
    assert grown[at..|before|] == grown[..|before|][at..];
    assert grown[..at] == grown[..|before|][..at];
  }

  method Malloc(n: nat) returns (r: string)
    ensures |r| == n
  {
    r := seq(n, _ => '?');
  }

  method Realloc(block: string, n: nat) returns (r: string)
    ensures |r| == n
    ensures n <= |block| ==> r == block[..n]
    ensures |block| <= n ==> r[..|block|] == block
  {
    if n <= |block| {
      r := block[..n];
    } else {
      r := block + seq(n - |block|, _ => '?');
    }
  }
}
