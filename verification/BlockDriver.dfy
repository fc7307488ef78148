/** What a block driver promises to kernel/blkdev.c. */
module BlockDriver {
  newtype byte = x: int | 0 <= x < 256

  /** What a device stores. */
  class Medium {
    var bytes: seq<byte>

    constructor (bytes: seq<byte>)
      ensures this.bytes == bytes
    {
      this.bytes := bytes;
    }
  }

  /** A read of `nblocks` blocks at byte `lo` of the device, to `at` in the buffer, that got `n`
      blocks: 0 means failure; a short count is allowed. */
  ghost predicate HasRead(d: seq<byte>, bs: nat, lo: nat, nblocks: nat, n: nat, old_: seq<byte>, at: nat,
                          buf: seq<byte>)
  {
    && n <= nblocks && |buf| == |old_| && at + n * bs <= |buf|
    && (n > 0 ==> lo + n * bs <= |d|)
    && (forall k {:trigger buf[k]} :: at <= k < at + n * bs && n > 0 ==> buf[k] == d[lo + k - at])
    && (forall k {:trigger buf[k]} :: 0 <= k < |buf| && !(at <= k < at + nblocks * bs) ==> buf[k] == old_[k])
  }

  /** A write of `total` bytes of `src`, from `at` on, at byte `lo` of the device, of which `done`
      bytes are sure to be written; the others may or may not be. */
  ghost predicate HasWritten(d: seq<byte>, d': seq<byte>, lo: nat, total: nat, done: nat, src: seq<byte>, at: nat)
  {
    && |d'| == |d| && done <= total && at + total <= |src| && (done > 0 ==> lo + done <= |d|)
    && forall k {:trigger d'[k]} :: 0 <= k < |d| ==>
         (d'[k] == d[k] && !(lo <= k < lo + done)) || (lo <= k < lo + total && d'[k] == src[at + k - lo])
  }

  lemma Times(a: int, b: int, bs: int)
    requires a <= b && bs >= 0
    ensures a * bs <= b * bs && (b - a) * bs == b * bs - a * bs
  {
    assert (b - a) * bs >= 0;
  }

  lemma InRange(block: nat, n: nat, capacity: nat, bs: nat)
    requires block + n <= capacity
    ensures block * bs + n * bs <= capacity * bs
  {
    Times(block + n, capacity, bs);
    assert (block + n) * bs == block * bs + n * bs;
  }

  method Memcpy(buf: array<byte>, at: nat, src: seq<byte>, lo: nat, cnt: nat)
    requires at + cnt <= buf.Length && lo + cnt <= |src|
    modifies buf
    ensures forall k {:trigger buf[k]} :: 0 <= k < buf.Length ==>
              buf[k] == if at <= k < at + cnt then src[lo + k - at] else old(buf[k])
  {
    var i := 0;
    while i < cnt
      invariant 0 <= i <= cnt
      invariant forall k {:trigger buf[k]} :: 0 <= k < buf.Length ==>
                  buf[k] == if at <= k < at + i then src[lo + k - at] else old(buf[k])
    {
      buf[at + i] := src[lo + i];
      i := i + 1;
    }
  }
}
