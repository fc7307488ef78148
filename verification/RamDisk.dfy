/** The RAM disk driver (drivers/ramdisk.c:57-101) meets the contract of block drivers. */
module RamDisk {
  import opened Common
  import opened BlockDriver

  const BLOCK_SIZE: nat := 512

  /** A RAM disk instance (drivers/ramdisk.c:37-49). */
  datatype Disk = Disk(minor: nat, nblocks: nat, medium: Medium)

  /** The range check is done in 32 bits. */
  predicate Accepts(block: nat, nblocks: nat, capacity: nat) { (block + nblocks) % WORD <= capacity }

  /** What the check accepts is in range exactly when the sum does not wrap around. */
  lemma AcceptsIff(block: nat, nblocks: nat, capacity: nat)
    requires block < WORD && nblocks < WORD && capacity < WORD
    ensures Accepts(block, nblocks, capacity) ==> (block + nblocks <= capacity <==> block + nblocks < WORD)
    ensures block + nblocks <= capacity ==> Accepts(block, nblocks, capacity)
  {
  }

  lemma WrappedRequestExample()
    ensures Accepts(1, WORD - 1, 8) && !(1 + (WORD - 1) <= 8)
  {
  }

  method Find(disks: seq<Disk>, minor: nat) returns (i: nat)
    ensures i <= |disks| && (i < |disks| ==> disks[i].minor == minor)
    ensures forall j {:trigger disks[j]} :: 0 <= j < i ==> disks[j].minor != minor
  {
    i := 0;
    while i < |disks|
      invariant 0 <= i <= |disks| && forall j {:trigger disks[j]} :: 0 <= j < i ==> disks[j].minor != minor
    {
      if disks[i].minor == minor {
        return;
      }
      i := i + 1;
    }
  }

  /** All the blocks or none; `i` is the disk found. */
  method ReadBlocks(disks: seq<Disk>, minor: nat, block: nat, nblocks: nat, buffer: array<byte>, at: nat)
    returns (n: nat, ghost i: nat)
    requires forall d {:trigger d in disks} :: d in disks && d.minor == minor ==>
               |d.medium.bytes| == d.nblocks * BLOCK_SIZE && d.nblocks < WORD
    requires block + nblocks < WORD && at + nblocks * BLOCK_SIZE <= buffer.Length
    modifies buffer
    ensures i <= |disks| && (n == 0 || n == nblocks)
    ensures forall j {:trigger disks[j]} :: 0 <= j < i ==> disks[j].minor != minor
    ensures i == |disks| ==> n == 0 && buffer[..] == old(buffer[..])
    ensures i < |disks| ==> disks[i].minor == minor && (n == nblocks <==>
                nblocks == 0 || block + nblocks <= disks[i].nblocks)
    ensures i < |disks| ==>
              HasRead(disks[i].medium.bytes, BLOCK_SIZE, block * BLOCK_SIZE, nblocks, n, old(buffer[..]), at,
                      buffer[..])
  {
    var k := Find(disks, minor);
    i := k;
    if k == |disks| || !Accepts(block, nblocks, disks[k].nblocks) {
      return 0, k;
    }
    assert disks[k] in disks;
    Memcpy(buffer, at, disks[k].medium.bytes, block * BLOCK_SIZE, nblocks * BLOCK_SIZE);
    n := nblocks;
  }

  method WriteBlocks(disks: seq<Disk>, minor: nat, block: nat, nblocks: nat, src: seq<byte>, at: nat)
    returns (n: nat, ghost i: nat)
    requires forall d {:trigger d in disks} :: d in disks && d.minor == minor ==>
               |d.medium.bytes| == d.nblocks * BLOCK_SIZE && d.nblocks < WORD
    requires block + nblocks < WORD && at + nblocks * BLOCK_SIZE <= |src|
    modifies set d | d in disks && d.minor == minor :: d.medium
    ensures i <= |disks| && (n == 0 || n == nblocks)
    ensures forall d {:trigger d in disks} :: d in disks && (i == |disks| || d.medium != disks[i].medium) ==>
              d.medium.bytes == old(d.medium.bytes)
    ensures forall j {:trigger disks[j]} :: 0 <= j < i ==> disks[j].minor != minor
    ensures i == |disks| ==> n == 0
    ensures i < |disks| ==> disks[i].minor == minor && (n == nblocks <==>
                nblocks == 0 || block + nblocks <= disks[i].nblocks)
    ensures i < |disks| ==>
              HasWritten(old(disks[i].medium.bytes), disks[i].medium.bytes, block * BLOCK_SIZE, nblocks * BLOCK_SIZE,
                         n * BLOCK_SIZE, src, at)
  {
    var k := Find(disks, minor);
    i := k;
    if k == |disks| || !Accepts(block, nblocks, disks[k].nblocks) {
      return 0, k;
    }
    assert disks[k] in disks;
    var medium, lo, size := disks[k].medium, block * BLOCK_SIZE, nblocks * BLOCK_SIZE;
    medium.bytes := medium.bytes[..lo] + src[at..at + size] + medium.bytes[lo + size..];
    n := nblocks;
  }
}
