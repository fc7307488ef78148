/** Byte ranges over a block device (kernel/blkdev.c:98-130 and 264-429). */
module BlockDevice {
  import opened Common
  import opened BlockDriver
  import RamDisk

  const NR_BLKDEV_MAJOR_TYPES: nat := 2

  datatype Ret = Ok | Fail | InvalidArg

  // ---- How a range is split into blocks (kernel/blkdev.c:288-308)

  function BlockOf(offset: nat, bs: nat): nat
    requires bs > 0
  {
    offset / bs % WORD
  }

  function FirstPart(offset: nat, bs: nat): nat
    requires bs > 0
  {
    if offset % bs == 0 then 0 else bs - offset % bs
  }

  /** The block after the partial first one. */
  function NextBlock(offset: nat, bs: nat): nat
    requires bs > 0
  {
    (BlockOf(offset, bs) + if offset % bs == 0 then 0 else 1) % WORD
  }

  function FullBlocks(offset: nat, len: nat, bs: nat): nat
    requires bs > 0
  {
    ((offset + len) / bs - NextBlock(offset, bs)) % WORD
  }

  function LastPart(offset: nat, len: nat, bs: nat): nat
    requires bs > 0
  {
    (offset + len) % bs
  }

  /** The block number behind the last block of the range. */
  function EndBlock(offset: nat, len: nat, bs: nat): nat
    requires bs > 0
  {
    (offset + len) / bs + if (offset + len) % bs == 0 then 0 else 1
  }

  /** The range starts a block or reaches the end of its first block. */
  predicate ReachesBlockEnd(offset: nat, len: nat, bs: nat)
    requires bs > 0
  {
    offset % bs == 0 || offset % bs + len >= bs
  }

  lemma Split(x: nat, bs: nat)
    requires bs > 0
    ensures x == x / bs * bs + x % bs && 0 <= x % bs < bs
  {
  }

  lemma Plus(a: int, b: int, bs: int)
    ensures (a + b) * bs == a * bs + b * bs
  {
  }

  lemma Quotient(x: nat, q: int, bs: nat)
    requires bs > 0 && q * bs <= x < q * bs + bs
    ensures x / bs == q
  {
    var p := x / bs;
    Split(x, bs);
    Plus(p, 1, bs);
    Plus(q, 1, bs);
    if p < q {
      Times(p + 1, q, bs);
    } else if p > q {
      Times(q + 1, p, bs);
    }
  }

  /** Offsets of 2^32 blocks and more start at another block. */
  lemma BlockNumberIff(offset: nat, bs: nat)
    requires bs > 0
    ensures BlockOf(offset, bs) == offset / bs <==> offset < WORD * bs
  {
    Split(offset, bs);
    if offset / bs < WORD {
      Times(offset / bs + 1, WORD, bs);
      assert (offset / bs + 1) * bs == offset / bs * bs + bs;
    } else {
      Times(WORD, offset / bs, bs);
    }
  }

  /** The quotients and remainders of the two ends of a range. */
  lemma Ends(q: nat, r: nat, q': nat, r': nat, len: nat, bs: nat)
    requires q * bs + r + len == q' * bs + r' && r < bs && r' < bs && (r == 0 || r + len >= bs)
    ensures var e := if r == 0 then 0 else 1; q + e <= q' && (q + e) * bs == q * bs + e * bs
  {
    var e := if r == 0 then 0 else 1;
    Plus(q, e, bs);
    Plus(q', 1, bs);
    if q' < q + e {
      Times(q' + 1, q + e, bs);
    }
  }

  lemma Small(a: nat, b: nat)
    requires a <= b < WORD
    ensures a % WORD == a && (b - a) % WORD == b - a
  {
  }

  lemma NextBlockIs(offset: nat, bs: nat, e: nat)
    requires bs > 0 && e == (if offset % bs == 0 then 0 else 1) && offset / bs + e < WORD
    ensures BlockOf(offset, bs) == offset / bs && NextBlock(offset, bs) == offset / bs + e
  {
    Small(offset / bs, offset / bs + e);
    Small(offset / bs + e, offset / bs + e);
  }

  /** The numbers of the blocks, once the range reaches the end of its first one. */
  lemma PlanBlocks(offset: nat, len: nat, bs: nat, e: nat)
    requires bs > 0 && (offset + len) / bs < WORD && ReachesBlockEnd(offset, len, bs)
    requires e == if offset % bs == 0 then 0 else 1
    ensures offset / bs + e <= (offset + len) / bs && (offset / bs + e) * bs == offset / bs * bs + e * bs
    ensures BlockOf(offset, bs) == offset / bs && NextBlock(offset, bs) == offset / bs + e
  {
    Split(offset, bs);
    Split(offset + len, bs);
    Ends(offset / bs, offset % bs, (offset + len) / bs, (offset + len) % bs, len, bs);
    NextBlockIs(offset, bs, e);
  }

  /** Where the full blocks start and end. */
  lemma PlanForward(offset: nat, len: nat, bs: nat)
    requires bs > 0 && (offset + len) / bs < WORD && ReachesBlockEnd(offset, len, bs)
    ensures BlockOf(offset, bs) == offset / bs && NextBlock(offset, bs) * bs == offset + FirstPart(offset, bs)
    ensures NextBlock(offset, bs) + FullBlocks(offset, len, bs) == (offset + len) / bs
  {
    var e := if offset % bs == 0 then 0 else 1;
    PlanBlocks(offset, len, bs, e);
    Small(offset / bs + e, (offset + len) / bs);
    Split(offset, bs);
  }

  lemma PlanSum(offset: nat, len: nat, bs: nat)
    requires bs > 0 && (offset + len) / bs < WORD && ReachesBlockEnd(offset, len, bs)
    ensures FirstPart(offset, bs) + FullBlocks(offset, len, bs) * bs + LastPart(offset, len, bs) == len
  {
    PlanForward(offset, len, bs);
    Split(offset + len, bs);
    Plus(NextBlock(offset, bs), FullBlocks(offset, len, bs), bs);
  }

  /** The pieces add up to the length asked for exactly when the range starts a block or
      reaches the end of its first one; otherwise the number of full blocks wraps around. */
  lemma PlanExactIff(offset: nat, len: nat, bs: nat)
    requires bs > 0 && (offset + len) / bs < WORD
    ensures FirstPart(offset, bs) + FullBlocks(offset, len, bs) * bs + LastPart(offset, len, bs) == len
            <==> ReachesBlockEnd(offset, len, bs)
  {
    if ReachesBlockEnd(offset, len, bs) {
      PlanSum(offset, len, bs);
    } else {
      WrappedPlan(offset, len, bs);
    }
  }

  lemma WrappedPlan(offset: nat, len: nat, bs: nat)
    requires bs > 0 && (offset + len) / bs < WORD && !ReachesBlockEnd(offset, len, bs)
    ensures FullBlocks(offset, len, bs) == WORD - 1
    ensures FirstPart(offset, bs) + LastPart(offset, len, bs) == bs + len
  {
    Split(offset, bs);
    Split(offset + len, bs);
    Quotient(offset + len, offset / bs, bs);
  }

  lemma FarOffsetExample()
    ensures BlockOf(WORD * 512, 512) == 0
  {
  }

  lemma ShortRangeExample()
    ensures FullBlocks(10, 5, 512) == WORD - 1
  {
  }

  /** The pieces of a range: `delta` and `block0` tell where it starts, `first` bytes come from
      there, then `nblocks` blocks from `block` on up to byte `mid` of the buffer, then `last` bytes. */
  datatype Plan = Plan(delta: nat, block0: nat, first: nat, block: nat, nblocks: nat, mid: nat, last: nat)

  ghost predicate Covers(p: Plan, offset: nat, len: nat, bs: nat)
  {
    && p.block0 * bs + p.delta == offset && p.block * bs == offset + p.first
    && p.delta + p.first == (if p.delta == 0 then 0 else bs) && p.delta < bs && p.last < bs
    && p.mid == p.first + p.nblocks * bs && p.first <= p.mid && p.mid + p.last == len
    && (p.block + p.nblocks) * bs == offset + p.mid
    && (p.delta != 0 ==> p.block0 + 1 < WORD) && p.block + p.nblocks + (if p.last == 0 then 0 else 1) < WORD
    && p.block == p.block0 + if p.delta == 0 then 0 else 1
  }

  method MakePlan(offset: nat, len: nat, bs: nat) returns (p: Plan)
    requires bs > 0 && EndBlock(offset, len, bs) < WORD && ReachesBlockEnd(offset, len, bs)
    ensures Covers(p, offset, len, bs)
    ensures p.block + p.nblocks + (if p.last == 0 then 0 else 1) == EndBlock(offset, len, bs)
    ensures p.delta == offset % bs && p.last == (offset + len) % bs && p.block0 == offset / bs
  {
    var block := offset / bs % WORD;
    var delta := offset % bs;
    var block0, first := block, 0;
    if delta != 0 {
      first := bs - delta;
      block := (block + 1) % WORD;
    }
    var nblocks := ((offset + len) / bs - block) % WORD;
    Times(0, nblocks, bs);
    p := Plan(delta, block0, first, block, nblocks, first + nblocks * bs, (offset + len) % bs);
    PlanForward(offset, len, bs);
    PlanSum(offset, len, bs);
    Split(offset, bs);
    Plus(block, nblocks, bs);
  }

  // ---- Instances

  /** The RAM disk driver over its list of disks, or any other driver that meets the contract: which
      requests it fails, how short its counts are, and what a failed request leaves behind is
      then left open. */
  datatype Driver = Other | Ram(disks: seq<RamDisk.Disk>)

  /** A call of a driver: `asked` blocks from `block` on, of which it read or wrote `got`. */
  datatype Call = Call(block: nat, asked: nat, got: nat)

  /** A RAM disk of `capacity` blocks serves what lies on it, and all of it. */
  ghost predicate AllOrNone(cs: seq<Call>, capacity: nat)
  {
    forall i {:trigger cs[i]} :: 0 <= i < |cs| ==>
      cs[i].got == if cs[i].block + cs[i].asked <= capacity then cs[i].asked else 0
  }

  /** `cs'` is `cs` and more calls, each for some of the blocks from `lo` to `hi`. */
  ghost predicate Asked(cs: seq<Call>, cs': seq<Call>, lo: nat, hi: nat)
  {
    && |cs| <= |cs'| && cs'[..|cs|] == cs
    && forall i {:trigger cs'[i]} :: |cs| <= i < |cs'| ==>
         lo <= cs'[i].block && cs'[i].block + cs'[i].asked <= hi && 0 < cs'[i].asked
  }

  /** None of the calls of `cs'` after those of `cs` was refused. */
  ghost predicate Served(cs: seq<Call>, cs': seq<Call>)
  {
    forall i {:trigger cs'[i]} :: |cs| <= i < |cs'| ==> 0 < cs'[i].got
  }

  lemma AskedMore(a: seq<Call>, b: seq<Call>, c: seq<Call>, lo: nat, mid: nat, mid': nat, hi: nat)
    requires Asked(a, b, lo, mid) && Asked(b, c, mid', hi) && lo <= mid' && mid <= hi
    ensures Asked(a, c, lo, hi) && (Served(a, c) <==> Served(a, b) && Served(b, c))
  {
    assert forall i {:trigger b[i]} {:trigger c[i]} :: 0 <= i < |b| ==> c[..|b|][i] == b[i];
  }

  lemma AskedOne(a: seq<Call>, b: seq<Call>, c: Call, lo: nat, hi: nat)
    requires Asked(a, b, lo, hi) && lo <= c.block && c.block + c.asked <= hi && 0 < c.asked
    ensures Asked(a, b + [c], lo, hi) && (Served(a, b + [c]) <==> Served(a, b) && 0 < c.got)
  {
    var cs := b + [c];
    assert cs[|b|] == c && forall i {:trigger b[i]} :: 0 <= i < |b| ==> b[i] == cs[i];
  }

  lemma AskedNone(a: seq<Call>, lo: nat, hi: nat)
    ensures Asked(a, a, lo, hi) && Served(a, a)
  {
  }

  /** What lies on a RAM disk is served. */
  lemma RamServes(cs: seq<Call>, cs': seq<Call>, lo: nat, hi: nat, capacity: nat)
    requires Asked(cs, cs', lo, hi) && AllOrNone(cs', capacity) && hi <= capacity
    ensures Served(cs, cs')
  {
  }

  /** Whether kmalloc has a temporary buffer for the first and for the last block. */
  datatype Spare = Spare(first: bool, last: bool)

  /** The temporary buffers that the range needs are there. */
  predicate Suffices(spare: Spare, offset: nat, len: nat, bs: nat)
    requires bs > 0
  {
    (offset % bs != 0 ==> spare.first) && ((offset + len) % bs != 0 ==> spare.last)
  }

  class Device {
    const minor: nat
    const blockSize: nat
    const capacity: nat
    const driver: Driver
    const medium: Medium
    var refcnt: nat
    /** The calls of the driver so far. */
    ghost var calls: seq<Call>

    /** The medium has the registered size; if the driver is the RAM disk driver, it is that of the
        disk with this minor number. */
    ghost predicate Valid()
      reads this, medium
    {
      && 0 < blockSize && |medium.bytes| == capacity * blockSize
      && (driver.Ram? ==>
            && blockSize == RamDisk.BLOCK_SIZE
            && forall d {:trigger d in driver.disks} :: d in driver.disks && d.minor == minor ==>
                 d.medium == medium && d.nblocks == capacity && capacity < WORD)
      && (OnRamDisk() ==> AllOrNone(calls, capacity))
    }

    /** The driver is the RAM disk driver, and the disk is there. */
    ghost predicate OnRamDisk() { driver.Ram? && exists d :: d in driver.disks && d.minor == minor }

    constructor (minor: nat, blockSize: nat, capacity: nat, driver: Driver, medium: Medium)
      requires 0 < blockSize && |medium.bytes| == capacity * blockSize
      requires driver.Ram? ==>
                 && blockSize == RamDisk.BLOCK_SIZE
                 && forall d {:trigger d in driver.disks} :: d in driver.disks && d.minor == minor ==>
                      d.medium == medium && d.nblocks == capacity && capacity < WORD
      ensures Valid() && refcnt == 0 && calls == [] && this.medium == medium && this.driver == driver
      ensures this.minor == minor && this.blockSize == blockSize && this.capacity == capacity
    {
      this.minor, this.blockSize, this.capacity := minor, blockSize, capacity;
      this.driver, this.medium, this.refcnt, this.calls := driver, medium, 0, [];
    }

    method ReadImpl(block: nat, nblocks: nat, buf: array<byte>, at: nat) returns (n: nat)
      requires Valid() && block + nblocks < WORD && at + nblocks * blockSize <= buf.Length
      modifies buf, this`calls
      ensures Valid() && calls == old(calls) + [Call(block, nblocks, n)]
      ensures HasRead(medium.bytes, blockSize, block * blockSize, nblocks, n, old(buf[..]), at, buf[..])
    {
      match driver {
        case Ram(disks) =>
          ghost var i;
          n, i := RamDisk.ReadBlocks(disks, minor, block, nblocks, buf, at);
          assert i < |disks| ==> disks[i] in disks;
        case Other =>
          n := OtherRead(medium, capacity, blockSize, block, nblocks, buf, at);
      }
      calls := calls + [Call(block, nblocks, n)];
    }

    method WriteImpl(block: nat, nblocks: nat, src: seq<byte>, at: nat) returns (n: nat)
      requires Valid() && block + nblocks < WORD && at + nblocks * blockSize <= |src|
      modifies medium, this`calls
      ensures Valid() && n <= nblocks && calls == old(calls) + [Call(block, nblocks, n)]
      ensures HasWritten(old(medium.bytes), medium.bytes, block * blockSize, nblocks * blockSize, n * blockSize, src,
                         at)
    {
      match driver {
        case Ram(disks) =>
          ghost var i;
          n, i := RamDisk.WriteBlocks(disks, minor, block, nblocks, src, at);
          assert i < |disks| ==> disks[i] in disks;
        case Other =>
          n := OtherWrite(medium, capacity, blockSize, block, nblocks, src, at);
      }
      calls := calls + [Call(block, nblocks, n)];
    }
  }

  /** Since the calls `cs`, the driver was asked for blocks of the range only, and success was reported
      exactly if the temporary buffers that the range needs were there and no call was refused. */
  ghost predicate Transferred(dev: Device, cs: seq<Call>, spare: Spare, offset: nat, len: nat, ok: bool)
    reads dev, dev.medium
  {
    && dev.Valid()
    && Asked(cs, dev.calls, offset / dev.blockSize, EndBlock(offset, len, dev.blockSize))
    && (ok <==> Suffices(spare, offset, len, dev.blockSize) && Served(cs, dev.calls))
  }

  /** A read by some driver. */
  method OtherRead(medium: Medium, capacity: nat, bs: nat, block: nat, nblocks: nat, buf: array<byte>, at: nat)
    returns (n: nat)
    requires |medium.bytes| == capacity * bs && at + nblocks * bs <= buf.Length
    modifies buf
    ensures HasRead(medium.bytes, bs, block * bs, nblocks, n, old(buf[..]), at, buf[..])
  {
    n :| 0 <= n <= nblocks && (n > 0 ==> block + n <= capacity);
    if n > 0 {
      InRange(block, n, capacity, bs);
      Times(n, nblocks, bs);
      Memcpy(buf, at, medium.bytes, block * bs, n * bs);
    }
  }

  /** A write by some driver; after a failure or a short count any of the other bytes asked for may
      have been written. */
  method OtherWrite(medium: Medium, capacity: nat, bs: nat, block: nat, nblocks: nat, src: seq<byte>, at: nat)
    returns (n: nat)
    requires |medium.bytes| == capacity * bs && at + nblocks * bs <= |src|
    modifies medium
    ensures n <= nblocks
    ensures HasWritten(old(medium.bytes), medium.bytes, block * bs, nblocks * bs, n * bs, src, at)
  {
    n :| 0 <= n <= nblocks && (n > 0 ==> block + n <= capacity);
    var stray: nat :| 0 <= stray;
    var d, lo, done, total := medium.bytes, block * bs, n * bs, nblocks * bs;
    Times(n, nblocks, bs);
    if n > 0 {
      InRange(block, n, capacity, bs);
    }
    medium.bytes := seq(|d|, k requires 0 <= k < |d| =>
      if lo <= k < lo + done || (lo <= k < lo + total && k % 256 == stray) then src[at + k - lo] else d[k]);
  }

  // ---- blkdev_read

  /** The first `m` bytes of the buffer are the device's from `offset` on. */
  ghost predicate Filled(d: seq<byte>, offset: nat, buf: seq<byte>, m: nat)
  {
    && m <= |buf| && (m > 0 ==> offset + m <= |d|)
    && forall k {:trigger buf[k]} :: 0 <= k < m ==> buf[k] == d[offset + k]
  }

  lemma FilledMore(d: seq<byte>, offset: nat, buf: seq<byte>, buf': seq<byte>, m: nat, m': nat)
    requires Filled(d, offset, buf, m) && m <= m' <= |buf'| == |buf| && (m' > m ==> offset + m' <= |d|)
    requires forall k {:trigger buf'[k]} :: 0 <= k < m ==> buf'[k] == buf[k]
    requires forall k {:trigger buf'[k]} :: m <= k < m' ==> buf'[k] == d[offset + k]
    ensures Filled(d, offset, buf', m')
  {
  }

  /** `cnt` bytes of a block, from byte `from` of the block, by way of a temporary buffer. */
  method ReadPart(dev: Device, spare: bool, block: nat, from: nat, cnt: nat, buffer: array<byte>, dst: nat)
    returns (ok: bool)
    requires dev.Valid() && block + 1 < WORD && from + cnt <= dev.blockSize && dst + cnt <= buffer.Length
    modifies buffer, dev`calls
    ensures dev.Valid() && Asked(old(dev.calls), dev.calls, block, block + 1)
    ensures ok <==> spare && Served(old(dev.calls), dev.calls)
    ensures forall k {:trigger buffer[k]} :: 0 <= k < buffer.Length && !(dst <= k < dst + cnt) ==>
                buffer[k] == old(buffer[k])
    ensures ok ==> block * dev.blockSize + dev.blockSize <= |dev.medium.bytes|
    ensures ok ==> forall k {:trigger buffer[k]} :: dst <= k < dst + cnt ==>
                     buffer[k] == dev.medium.bytes[block * dev.blockSize + from + k - dst]
  {
    if !spare {
      return false;
    }
    var tmp := new byte[dev.blockSize];
    ghost var cs := dev.calls;
    var n := dev.ReadImpl(block, 1, tmp, 0);
    AskedOne(cs, cs, Call(block, 1, n), block, block + 1);
    if n == 0 {
      return false;
    }
    var t := tmp[..];
    Memcpy(buffer, dst, t, from, cnt);
    return true;
  }

  /** The full blocks of a read. */
  method ReadBlocks(dev: Device, offset: nat, first: nat, count: nat, buffer: array<byte>, at: nat) returns (ok: bool)
    requires dev.Valid() && first * dev.blockSize == offset + at && at + count * dev.blockSize <= buffer.Length
    requires first + count < WORD && Filled(dev.medium.bytes, offset, buffer[..], at)
    modifies buffer, dev`calls
    ensures dev.Valid() && Asked(old(dev.calls), dev.calls, first, first + count)
    ensures ok <==> Served(old(dev.calls), dev.calls)
    ensures forall k {:trigger buffer[k]} :: at + count * dev.blockSize <= k < buffer.Length ==>
                buffer[k] == old(buffer[k])
    ensures ok ==> Filled(dev.medium.bytes, offset, buffer[..], at + count * dev.blockSize)
  {
    var bs, block, nblocks, dst := dev.blockSize, first, count, at;
    ghost var d, end := dev.medium.bytes, at + count * bs;
    while nblocks != 0
      invariant block + nblocks == first + count && block * bs == offset + dst && dst + nblocks * bs == end
      invariant forall k {:trigger buffer[k]} :: end <= k < buffer.Length ==> buffer[k] == old(buffer[k])
      invariant Filled(d, offset, buffer[..], dst)
      invariant dev.Valid() && Asked(old(dev.calls), dev.calls, first, first + count)
      invariant Served(old(dev.calls), dev.calls)
    {
      ghost var before := buffer[..];
      ghost var cs := dev.calls;
      var n := dev.ReadImpl(block, nblocks, buffer, dst);
      AskedOne(old(dev.calls), cs, Call(block, nblocks, n), first, first + count);
      if n == 0 {
        return false;
      }
      Advance(block, nblocks, n, bs);
      FilledMore(d, offset, before, buffer[..], dst, dst + n * bs);
      dst := dst + n * bs;
      nblocks := nblocks - n;
      block := block + n;
    }
    return true;
  }

  method ReadRange(dev: Device, spare: Spare, offset: nat, len: nat, buffer: array<byte>) returns (ok: bool)
    requires dev.Valid() && len <= buffer.Length && EndBlock(offset, len, dev.blockSize) < WORD
    requires ReachesBlockEnd(offset, len, dev.blockSize)
    modifies buffer, dev`calls
    ensures Transferred(dev, old(dev.calls), spare, offset, len, ok)
    ensures forall k {:trigger buffer[k]} :: len <= k < buffer.Length ==> buffer[k] == old(buffer[k])
    ensures ok ==> Filled(dev.medium.bytes, offset, buffer[..], len)
  {
    var bs := dev.blockSize;
    var p := MakePlan(offset, len, bs);
    ok := ReadPlanned(dev, spare, p, offset, len, buffer);
  }

  /** The block behind the last one of the plan. */
  function PlanEnd(p: Plan): nat { p.block + p.nblocks + if p.last == 0 then 0 else 1 }

  predicate PlanSuffices(spare: Spare, p: Plan) { (p.delta != 0 ==> spare.first) && (p.last != 0 ==> spare.last) }

  method ReadPlanned(dev: Device, spare: Spare, p: Plan, offset: nat, len: nat, buffer: array<byte>)
    returns (ok: bool)
    requires dev.Valid() && len <= buffer.Length && Covers(p, offset, len, dev.blockSize)
    modifies buffer, dev`calls
    ensures dev.Valid() && Asked(old(dev.calls), dev.calls, p.block0, PlanEnd(p))
    ensures ok <==> PlanSuffices(spare, p) && Served(old(dev.calls), dev.calls)
    ensures forall k {:trigger buffer[k]} :: len <= k < buffer.Length ==> buffer[k] == old(buffer[k])
    ensures ok ==> Filled(dev.medium.bytes, offset, buffer[..], len)
  {
    ghost var cs := dev.calls;
    if p.delta != 0 {
      ok := ReadPart(dev, spare.first, p.block0, p.delta, p.first, buffer, 0);
      if !ok {
        return;
      }
    }
    assert Filled(dev.medium.bytes, offset, buffer[..], p.first);
    ghost var cs1 := dev.calls;
    ok := ReadBlocks(dev, offset, p.block, p.nblocks, buffer, p.first);
    AskedMore(cs, cs1, dev.calls, p.block0, p.block, p.block, p.block + p.nblocks);
    if ok {
      ghost var cs2 := dev.calls;
      ok := ReadLast(dev, spare.last, p, offset, buffer, p.mid);
      AskedMore(cs, cs2, dev.calls, p.block0, p.block + p.nblocks, p.block + p.nblocks, PlanEnd(p));
    }
  }

  /** The partial last block of a read. */
  method ReadLast(dev: Device, spare: bool, p: Plan, offset: nat, buffer: array<byte>, dst: nat) returns (ok: bool)
    requires dev.Valid() && dst + p.last <= buffer.Length && p.last < dev.blockSize
    requires p.last != 0 ==> p.block + p.nblocks + 1 < WORD
    requires (p.block + p.nblocks) * dev.blockSize == offset + dst && Filled(dev.medium.bytes, offset, buffer[..], dst)
    modifies buffer, dev`calls
    ensures dev.Valid() && Asked(old(dev.calls), dev.calls, p.block + p.nblocks, PlanEnd(p))
    ensures ok <==> (p.last != 0 ==> spare) && Served(old(dev.calls), dev.calls)
    ensures forall k {:trigger buffer[k]} :: dst + p.last <= k < buffer.Length ==> buffer[k] == old(buffer[k])
    ensures ok ==> Filled(dev.medium.bytes, offset, buffer[..], dst + p.last)
  {
    ok := true;
    if p.last != 0 {
      ghost var before := buffer[..];
      ok := ReadPart(dev, spare, p.block + p.nblocks, 0, p.last, buffer, dst);
      if ok {
        FilledMore(dev.medium.bytes, offset, before, buffer[..], dst, dst + p.last);
      }
    }
  }

  lemma Advance(block: nat, nblocks: nat, n: nat, bs: nat)
    requires n <= nblocks
    ensures (block + n) * bs == block * bs + n * bs && (nblocks - n) * bs == nblocks * bs - n * bs &&
              n * bs <= nblocks * bs
  {
    Times(n, nblocks, bs);
  }

  // ---- blkdev_write

  /** A write that continues where the one before stopped. */
  lemma WriteMore(d: seq<byte>, d1: seq<byte>, d2: seq<byte>, offset: nat, len: nat, done: nat, total: nat, n: nat,
                  src: seq<byte>)
    requires HasWritten(d, d1, offset, len, done, src, 0) && done + total <= len
    requires HasWritten(d1, d2, offset + done, total, n, src, done)
    ensures HasWritten(d, d2, offset, len, done + n, src, 0)
  {
  }

  /** Writing back a block with `cnt` bytes replaced is writing those bytes. */
  lemma PartWritten(d: seq<byte>, d': seq<byte>, lo: nat, bs: nat, done: bool, tmp: seq<byte>, from: nat, cnt: nat,
                    src: seq<byte>, at: nat)
    requires from + cnt <= bs && at + cnt <= |src| && |tmp| == bs && lo + bs <= |d|
    requires HasWritten(d, d', lo, bs, if done then bs else 0, tmp, 0)
    requires forall k {:trigger tmp[k]} :: 0 <= k < bs ==>
                tmp[k] == if from <= k < from + cnt then src[at + k - from] else d[lo + k]
    ensures HasWritten(d, d', lo + from, cnt, if done then cnt else 0, src, at)
  {
    forall k {:trigger d'[k]} | 0 <= k < |d|
      ensures (d'[k] == d[k] && !(done && lo + from <= k < lo + from + cnt)) ||
              (lo + from <= k < lo + from + cnt && d'[k] == src[at + k - (lo + from)])
    {
      assert lo <= k < lo + bs ==> tmp[k - lo] == if from <= k - lo < from + cnt then src[at + k - lo - from] else d[k];
    }
  }

  /** A block of the device in a new buffer, with `cnt` bytes replaced. */
  method PatchedBlock(dev: Device, block: nat, from: nat, cnt: nat, src: seq<byte>, at: nat)
    returns (ok: bool, t: seq<byte>)
    requires dev.Valid() && block + 1 < WORD && from + cnt <= dev.blockSize && at + cnt <= |src|
    modifies dev`calls
    ensures dev.Valid() && Asked(old(dev.calls), dev.calls, block, block + 1)
    ensures ok <==> Served(old(dev.calls), dev.calls)
    ensures ok ==> |t| == dev.blockSize && block * dev.blockSize + dev.blockSize <= |dev.medium.bytes|
    ensures ok ==> forall k {:trigger t[k]} :: 0 <= k < |t| ==>
                     t[k] == if from <= k < from + cnt then src[at + k - from]
                             else dev.medium.bytes[block * dev.blockSize + k]
  {
    var bs := dev.blockSize;
    var tmp := new byte[bs];
    ghost var cs := dev.calls;
    var n := dev.ReadImpl(block, 1, tmp, 0);
    AskedOne(cs, cs, Call(block, 1, n), block, block + 1);
    if n == 0 {
      return false, [];
    }
    assert 1 * bs == bs;
    Memcpy(tmp, from, src, at, cnt);
    return true, tmp[..];
  }

  /** Read, modify, write of one block. */
  method WritePart(dev: Device, spare: bool, block: nat, from: nat, cnt: nat, src: seq<byte>, at: nat)
    returns (ok: bool)
    requires dev.Valid() && block + 1 < WORD && from + cnt <= dev.blockSize && at + cnt <= |src|
    modifies dev.medium, dev`calls
    ensures dev.Valid() && Asked(old(dev.calls), dev.calls, block, block + 1)
    ensures ok <==> spare && Served(old(dev.calls), dev.calls)
    ensures HasWritten(old(dev.medium.bytes), dev.medium.bytes, block * dev.blockSize + from, cnt,
                       if ok then cnt else 0, src, at)
  {
    if !spare {
      return false;
    }
    var t;
    ok, t := PatchedBlock(dev, block, from, cnt, src, at);
    if ok {
      ghost var cs := dev.calls;
      ok := WriteBack(dev, block, from, cnt, src, at, t);
      AskedOne(old(dev.calls), cs, Call(block, 1, if ok then 1 else 0), block, block + 1);
    }
  }

  /** The block in its buffer is written. */
  method WriteBack(dev: Device, block: nat, ghost from: nat, ghost cnt: nat, ghost src: seq<byte>, ghost at: nat,
                   t: seq<byte>)
    returns (ok: bool)
    requires dev.Valid() && block + 1 < WORD && from + cnt <= dev.blockSize && at + cnt <= |src|
    requires |t| == dev.blockSize && block * dev.blockSize + dev.blockSize <= |dev.medium.bytes|
    requires forall k {:trigger t[k]} :: 0 <= k < |t| ==>
               t[k] == if from <= k < from + cnt then src[at + k - from]
                       else dev.medium.bytes[block * dev.blockSize + k]
    modifies dev.medium, dev`calls
    ensures dev.Valid() && dev.calls == old(dev.calls) + [Call(block, 1, if ok then 1 else 0)]
    ensures HasWritten(old(dev.medium.bytes), dev.medium.bytes, block * dev.blockSize + from, cnt,
                       if ok then cnt else 0, src, at)
  {
    ghost var d, lo, bs := dev.medium.bytes, block * dev.blockSize, dev.blockSize;
    var n := dev.WriteImpl(block, 1, t, 0);
    ok := n != 0;
    assert n * bs == if ok then bs else 0;
    PartWritten(d, dev.medium.bytes, lo, bs, ok, t, from, cnt, src, at);
  }

  /** The full blocks of a write. */
  method WriteBlocks(dev: Device, ghost d: seq<byte>, offset: nat, ghost len: nat, first: nat, count: nat,
                     src: seq<byte>, start: nat)
    returns (ok: bool)
    requires dev.Valid() && first * dev.blockSize == offset + start && start + count * dev.blockSize <= len
    requires first + count < WORD && HasWritten(d, dev.medium.bytes, offset, len, start, src, 0)
    modifies dev.medium, dev`calls
    ensures dev.Valid() && Asked(old(dev.calls), dev.calls, first, first + count)
    ensures ok <==> Served(old(dev.calls), dev.calls)
    ensures HasWritten(d, dev.medium.bytes, offset, len, if ok then start + count * dev.blockSize else 0, src, 0)
  {
    var bs, block, nblocks, at := dev.blockSize, first, count, start;
    while nblocks != 0
      invariant block + nblocks == first + count && block * bs == offset + at
      invariant at + nblocks * bs == start + count * bs
      invariant dev.Valid() && HasWritten(d, dev.medium.bytes, offset, len, at, src, 0)
      invariant Asked(old(dev.calls), dev.calls, first, first + count) && Served(old(dev.calls), dev.calls)
    {
      ghost var before := dev.medium.bytes;
      ghost var cs := dev.calls;
      var n := dev.WriteImpl(block, nblocks, src, at);
      AskedOne(old(dev.calls), cs, Call(block, nblocks, n), first, first + count);
      WriteMore(d, before, dev.medium.bytes, offset, len, at, nblocks * bs, n * bs, src);
      if n == 0 {
        return false;
      }
      Advance(block, nblocks, n, bs);
      at := at + n * bs;
      nblocks := nblocks - n;
      block := block + n;
    }
    return true;
  }

  /** On success exactly the range is replaced; on failure each of its bytes is old or new. */
  method WriteRange(dev: Device, spare: Spare, offset: nat, len: nat, src: seq<byte>) returns (ok: bool)
    requires dev.Valid() && len <= |src| && EndBlock(offset, len, dev.blockSize) < WORD
    requires ReachesBlockEnd(offset, len, dev.blockSize)
    modifies dev.medium, dev`calls
    ensures Transferred(dev, old(dev.calls), spare, offset, len, ok)
    ensures HasWritten(old(dev.medium.bytes), dev.medium.bytes, offset, len, if ok then len else 0, src, 0)
  {
    var bs := dev.blockSize;
    var p := MakePlan(offset, len, bs);
    ok := WritePlanned(dev, spare, p, offset, len, src);
  }

  method WritePlanned(dev: Device, spare: Spare, p: Plan, offset: nat, len: nat, src: seq<byte>) returns (ok: bool)
    requires dev.Valid() && len <= |src| && Covers(p, offset, len, dev.blockSize)
    modifies dev.medium, dev`calls
    ensures dev.Valid() && Asked(old(dev.calls), dev.calls, p.block0, PlanEnd(p))
    ensures ok <==> PlanSuffices(spare, p) && Served(old(dev.calls), dev.calls)
    ensures HasWritten(old(dev.medium.bytes), dev.medium.bytes, offset, len, if ok then len else 0, src, 0)
  {
    ghost var d, cs := dev.medium.bytes, dev.calls;
    if p.delta != 0 {
      ok := WritePart(dev, spare.first, p.block0, p.delta, p.first, src, 0);
      WriteMore(d, d, dev.medium.bytes, offset, len, 0, p.first, if ok then p.first else 0, src);
      if !ok {
        return;
      }
    }
    ghost var cs1 := dev.calls;
    ok := WriteBlocks(dev, d, offset, len, p.block, p.nblocks, src, p.first);
    AskedMore(cs, cs1, dev.calls, p.block0, p.block, p.block, p.block + p.nblocks);
    if ok {
      ghost var cs2 := dev.calls;
      ok := WriteLast(dev, spare.last, d, p, offset, len, src);
      AskedMore(cs, cs2, dev.calls, p.block0, p.block + p.nblocks, p.block + p.nblocks, PlanEnd(p));
    }
  }

  /** The partial last block of a write. */
  method WriteLast(dev: Device, spare: bool, ghost d: seq<byte>, p: Plan, ghost offset: nat, ghost len: nat,
                   src: seq<byte>)
    returns (ok: bool)
    requires dev.Valid() && len <= |src| && Covers(p, offset, len, dev.blockSize)
    requires HasWritten(d, dev.medium.bytes, offset, len, p.mid, src, 0)
    modifies dev.medium, dev`calls
    ensures dev.Valid() && Asked(old(dev.calls), dev.calls, p.block + p.nblocks, PlanEnd(p))
    ensures ok <==> (p.last != 0 ==> spare) && Served(old(dev.calls), dev.calls)
    ensures HasWritten(d, dev.medium.bytes, offset, len, if ok then len else 0, src, 0)
  {
    ok := true;
    if p.last != 0 {
      ghost var before := dev.medium.bytes;
      ok := WritePart(dev, spare, p.block + p.nblocks, 0, p.last, src, p.mid);
      WriteMore(d, before, dev.medium.bytes, offset, len, p.mid, p.last, if ok then p.last else 0, src);
    }
  }

  /** A completed write replaces exactly the range. */
  lemma WrittenIsReplaced(d: seq<byte>, d': seq<byte>, offset: nat, len: nat, src: seq<byte>)
    requires HasWritten(d, d', offset, len, len, src, 0) && offset + len <= |d|
    ensures d' == d[..offset] + src[..len] + d[offset + len..]
  {
  }

  /** A read after a write of the same range returns what was written. */
  lemma ReadAfterWrite(d: seq<byte>, d': seq<byte>, offset: nat, len: nat, src: seq<byte>, buf: seq<byte>)
    requires HasWritten(d, d', offset, len, len, src, 0) && Filled(d', offset, buf, len)
    ensures buf[..len] == src[..len]
  {
    forall k | 0 <= k < len ensures buf[k] == src[k] {
      assert d'[offset + k] == buf[k];
    }
  }

  // ---- Instances and their reference counts

  datatype Class = NoClass | Class(instances: seq<Device>)

  ghost function Instances(classes: seq<Class>, major: nat): set<Device>
  {
    if major < |classes| && classes[major].Class? then set d | d in classes[major].instances else {}
  }

  /** What the instances with the minor number store. */
  ghost function Media(classes: seq<Class>, major: nat, minor: nat): set<Medium>
  {
    set d | d in Instances(classes, major) && d.minor == minor :: d.medium
  }

  /** Any instance the request can reach is sound, and the range suits its block size. */
  ghost predicate Suits(ds: set<Device>, minor: nat, offset: nat, len: nat)
    reads ds, set d | d in ds :: d.medium
  {
    forall d {:trigger d in ds} :: d in ds ==>
      && d.Valid()
      && (d.minor == minor ==> EndBlock(offset, len, d.blockSize) < WORD && ReachesBlockEnd(offset, len, d.blockSize))
  }

  /** The first instance with the minor number, with its reference count incremented; `|devs|`
      if there is none. */
  method GetInstance(devs: seq<Device>, minor: nat) returns (i: nat)
    modifies (set d | d in devs)`refcnt
    ensures i <= |devs| && forall j {:trigger devs[j]} :: 0 <= j < i ==> devs[j].minor != minor
    ensures i < |devs| ==> devs[i].minor == minor && devs[i].refcnt == old(devs[i].refcnt) + 1
    ensures forall d {:trigger d.refcnt} :: d in devs && !(i < |devs| && d == devs[i]) ==> d.refcnt == old(d.refcnt)
  {
    i := 0;
    while i < |devs|
      invariant 0 <= i <= |devs| && forall j {:trigger devs[j]} :: 0 <= j < i ==> devs[j].minor != minor
      invariant forall d {:trigger d.refcnt} :: d in devs ==> d.refcnt == old(d.refcnt)
    {
      if devs[i].minor == minor {
        devs[i].refcnt := devs[i].refcnt + 1;
        return;
      }
      i := i + 1;
    }
  }

  method ReleaseInstance(dev: Device)
    requires dev.refcnt > 0
    modifies dev`refcnt
    ensures dev.refcnt == old(dev.refcnt) - 1
  {
    dev.refcnt := dev.refcnt - 1;
  }

  /** Instance `i` of the class is the first with the minor number. */
  ghost predicate IsFirst(classes: seq<Class>, major: nat, minor: nat, i: nat)
  {
    && major < |classes| && classes[major].Class? && i < |classes[major].instances|
    && classes[major].instances[i].minor == minor
    && forall j {:trigger classes[major].instances[j]} :: 0 <= j < i ==> classes[major].instances[j].minor != minor
  }

  /** blkdev_read: every device and every reference count is as before. */
  method Read(classes: seq<Class>, major: nat, minor: nat, spare: Spare, offset: nat, len: nat, buffer: array<byte>)
    returns (r: Ret, ghost i: nat)
    requires |classes| == NR_BLKDEV_MAJOR_TYPES && major < NR_BLKDEV_MAJOR_TYPES && len <= buffer.Length
    requires Suits(Instances(classes, major), minor, offset, len)
    modifies Instances(classes, major), buffer
    ensures forall d {:trigger d.refcnt} :: d in Instances(classes, major) ==> d.refcnt == old(d.refcnt)
    ensures forall k {:trigger buffer[k]} :: len <= k < buffer.Length ==> buffer[k] == old(buffer[k])
    ensures r == InvalidArg <==>
              forall d {:trigger d in Instances(classes, major)} :: d in Instances(classes, major) ==> d.minor != minor
    ensures r != InvalidArg ==> IsFirst(classes, major, minor, i)
    ensures r != InvalidArg ==>
              var dev := classes[major].instances[i];
              Transferred(dev, old(dev.calls), spare, offset, len, r == Ok)
    ensures r == Ok ==>
              && IsFirst(classes, major, minor, i)
              && Filled(classes[major].instances[i].medium.bytes, offset, buffer[..], len)
  {
    i := 0;
    if classes[major].NoClass? {
      return InvalidArg, 0;
    }
    var devs := classes[major].instances;
    var k := GetInstance(devs, minor);
    i := k;
    if k == |devs| {
      return InvalidArg, k;
    }
    assert devs[k] in Instances(classes, major);
    var ok := ReadRange(devs[k], spare, offset, len, buffer);
    ReleaseInstance(devs[k]);
    r := if ok then Ok else Fail;
  }

  /** blkdev_write: what other minor numbers store and every reference count is as before. */
  method Write(classes: seq<Class>, major: nat, minor: nat, spare: Spare, offset: nat, len: nat, src: seq<byte>)
    returns (r: Ret, ghost i: nat)
    requires |classes| == NR_BLKDEV_MAJOR_TYPES && major < NR_BLKDEV_MAJOR_TYPES && len <= |src|
    requires Suits(Instances(classes, major), minor, offset, len)
    modifies Instances(classes, major), Media(classes, major, minor)
    ensures forall d {:trigger d.refcnt} :: d in Instances(classes, major) ==> d.refcnt == old(d.refcnt)
    ensures r == InvalidArg <==>
              forall d {:trigger d in Instances(classes, major)} :: d in Instances(classes, major) ==> d.minor != minor
    ensures r != InvalidArg ==> IsFirst(classes, major, minor, i)
    ensures r != InvalidArg ==>
              var dev := classes[major].instances[i];
              Transferred(dev, old(dev.calls), spare, offset, len, r == Ok)
    ensures r != InvalidArg ==>
              var medium := classes[major].instances[i].medium;
              HasWritten(old(medium.bytes), medium.bytes, offset, len, if r == Ok then len else 0, src, 0)
    ensures forall m {:trigger m.bytes} ::
              m in Media(classes, major, minor) && (r == InvalidArg || m != classes[major].instances[i].medium) ==>
                m.bytes == old(m.bytes)
  {
    i := 0;
    if classes[major].NoClass? {
      return InvalidArg, 0;
    }
    var devs := classes[major].instances;
    var k := GetInstance(devs, minor);
    i := k;
    if k == |devs| {
      return InvalidArg, k;
    }
    assert devs[k] in Instances(classes, major);
    assert devs[k].medium in Media(classes, major, minor);
    var ok := WriteRange(devs[k], spare, offset, len, src);
    ReleaseInstance(devs[k]);
    r := if ok then Ok else Fail;
  }

  /** A range that lies on a RAM disk is transferred, unless a temporary buffer is missing; one that
      starts and ends on block boundaries needs none. */
  lemma RamTransfers(dev: Device, cs: seq<Call>, spare: Spare, offset: nat, len: nat, ok: bool)
    requires dev.Valid() && dev.OnRamDisk() && offset + len <= |dev.medium.bytes|
    requires Transferred(dev, cs, spare, offset, len, ok)
    ensures ok <==> Suffices(spare, offset, len, dev.blockSize)
    ensures offset % RamDisk.BLOCK_SIZE == 0 && len % RamDisk.BLOCK_SIZE == 0 ==> ok
  {
    var bs := dev.blockSize;
    EndOnDevice(offset + len, dev.capacity, bs);
    RamServes(cs, dev.calls, offset / bs, EndBlock(offset, len, bs), dev.capacity);
    if offset % bs == 0 && len % bs == 0 {
      SumOfMultiples(offset, len, bs);
    }
  }

  lemma SumOfMultiples(x: nat, y: nat, bs: nat)
    requires bs > 0 && x % bs == 0 && y % bs == 0
    ensures (x + y) % bs == 0
  {
    Split(x, bs);
    Split(y, bs);
    Plus(x / bs, y / bs, bs);
    Quotient(x + y, x / bs + y / bs, bs);
    Split(x + y, bs);
  }

  lemma EndOnDevice(end: nat, capacity: nat, bs: nat)
    requires bs > 0 && end <= capacity * bs
    ensures end / bs + (if end % bs == 0 then 0 else 1) <= capacity
  {
    var q := end / bs;
    Split(end, bs);
    if capacity < q {
      Times(capacity + 1, q, bs);
      Plus(capacity, 1, bs);
    } else if capacity == q {
      assert end % bs == 0;
    }
  }

  /** Whatever its driver, and so on a RAM disk too: a read after a completed write of the same range
      returns what was written. Both are completed exactly if no temporary buffer is missing and no call
      of the driver is refused; on a RAM disk that holds the range none is. */
  method WriteThenRead(dev: Device, spare: Spare, spare': Spare, offset: nat, len: nat, src: seq<byte>,
                       buffer: array<byte>)
    returns (ok: bool)
    requires dev.Valid() && len <= |src| && len <= buffer.Length
    requires EndBlock(offset, len, dev.blockSize) < WORD && ReachesBlockEnd(offset, len, dev.blockSize)
    modifies dev.medium, dev`calls, buffer
    ensures dev.Valid()
    ensures ok ==> buffer[..len] == src[..len]
    ensures dev.OnRamDisk() && old(offset + len <= |dev.medium.bytes|) ==>
              (ok <==> Suffices(spare, offset, len, dev.blockSize) && Suffices(spare', offset, len, dev.blockSize))
  {
    ghost var d, cs := dev.medium.bytes, dev.calls;
    ok := WriteRange(dev, spare, offset, len, src);
    if dev.OnRamDisk() && offset + len <= |d| {
      RamTransfers(dev, cs, spare, offset, len, ok);
    }
    if ok {
      cs := dev.calls;
      ok := ReadRange(dev, spare', offset, len, buffer);
      if ok {
        ReadAfterWrite(d, dev.medium.bytes, offset, len, src, buffer[..]);
      }
      if dev.OnRamDisk() && offset + len <= |d| {
        RamTransfers(dev, cs, spare', offset, len, ok);
      }
    }
  }
}
