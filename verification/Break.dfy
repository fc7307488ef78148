/** The break of a task: what sys_brk (kernel/sys.c:196-231) makes of the size of its data segment, and
    what sbrk (lib/stdlib.c:32-53) makes of the answer. Sizes and breaks are bytes in 32 bits. */
module Break {
  import opened Common

  /** PAGE_ALIGN_SUP of a 32-bit value. */
  function NewBreak(ebx: nat): nat { AlignUp(ebx) % WORD }

  lemma NewBreakFacts(ebx: nat)
    ensures NewBreak(ebx) < WORD && NewBreak(ebx) % PAGE_SIZE == 0
    ensures ebx + (PAGE_SIZE - 1) < WORD ==> ebx <= NewBreak(ebx) < ebx + PAGE_SIZE
  {
  }

  lemma NewBreakWraps(ebx: nat)
    requires ebx < WORD <= ebx + (PAGE_SIZE - 1)
    ensures NewBreak(ebx) == 0
  {
    assert AlignUp(ebx) == WORD;
  }

  /** The size of a data segment of `seg` bytes, over `code` bytes of code, after a request for `size`
      bytes. Pages are given back whenever asked for; `granted` tells whether there are more. */
  function Settle(seg: nat, code: nat, size: nat, granted: bool): nat
  {
    if size < code || size == 0 || (seg < size && !granted) then seg else size
  }

  /** The same after brk(ebx), which also returns it. */
  function NewSegment(seg: nat, code: nat, ebx: nat, granted: bool): nat { Settle(seg, code, NewBreak(ebx), granted) }

  /** What sbrk returns (-1 for failure), the break it remembers, and the segment. */
  datatype Reply = Reply(result: int, cur: nat, seg: nat)

  function Compare(cur: nat, newbrk: nat, seg: nat): Reply
  {
    if seg == cur then Reply(-1, cur, seg) else Reply(cur, newbrk, seg)
  }

  function Sbrk(cur: nat, seg: nat, code: nat, increment: nat, granted: bool): Reply
  {
    var newbrk := (cur + increment) % WORD;
    if increment == 0 then Reply(cur, cur, seg) else Compare(cur, newbrk, NewSegment(seg, code, newbrk, granted))
  }

  /** The break that sbrk remembers and the segment of the kernel agree. */
  predicate Synced(cur: nat, seg: nat, code: nat)
  {
    0 < cur <= seg < WORD && seg == AlignUp(cur) && code <= seg && code % PAGE_SIZE == 0
  }

  /** The call fails, or the `bytes` bytes from the break on are in the segment afterwards. */
  predicate Covers(r: Reply, cur: nat, bytes: nat) { r.result == -1 || cur + bytes <= r.seg }

  /** sbrk, asked for `bytes` bytes in 32 bits, is honest. */
  predicate Backs(cur: nat, seg: nat, code: nat, bytes: nat, granted: bool)
  {
    Covers(Sbrk(cur, seg, code, bytes % WORD, granted), cur, bytes)
  }

  lemma PageMultiple(x: nat)
    ensures AlignUp(x) % PAGE_SIZE == 0 && x <= AlignUp(x) < x + PAGE_SIZE
    ensures x % PAGE_SIZE == 0 <==> AlignUp(x) == x
  {
  }

  lemma Rounding(x: nat, y: nat)
    requires x <= y
    ensures AlignUp(x) <= AlignUp(y)
  {
  }

  /** The new break and the size that the kernel makes of it, as `wraps` says without wrap-around or
      with one. */
  ghost predicate Requested(cur: nat, seg: nat, bytes: nat, newbrk: nat, size: nat, wraps: bool)
  {
    && cur <= seg < cur + PAGE_SIZE
    && (!wraps ==> newbrk == cur + bytes && newbrk <= size < WORD)
    && (wraps ==> size <= seg && (size == cur ==> seg == cur))
  }

  lemma WrapsBelow(cur: nat, seg: nat, sum: nat, newbrk: nat, size: nat)
    requires cur <= seg < WORD && seg == AlignUp(cur) && cur < sum < cur + WORD && WORD <= AlignUp(sum)
    requires newbrk == sum % WORD && size == NewBreak(newbrk)
    ensures size == if sum < WORD then 0 else NewBreak(sum - WORD)
    ensures size <= seg && (size == cur ==> seg == cur)
  {
    PageMultiple(cur);
    PageMultiple(sum);
    if WORD <= sum {
      assert newbrk == sum - WORD;
      Rounding(newbrk, cur);
    }
  }

  lemma Request(cur: nat, seg: nat, code: nat, bytes: nat) returns (newbrk: nat, size: nat, wraps: bool)
    requires Synced(cur, seg, code) && 0 < bytes < WORD
    ensures Requested(cur, seg, bytes, newbrk, size, wraps) && (wraps <==> WORD <= AlignUp(cur + bytes))
    ensures size == if !wraps then AlignUp(cur + bytes)
                    else if cur + bytes < WORD then 0 else NewBreak(cur + bytes - WORD)
    ensures size == NewBreak((cur + bytes) % WORD) && newbrk == (cur + bytes) % WORD
  {
    var sum := cur + bytes;
    newbrk := sum % WORD;
    size, wraps := NewBreak(newbrk), WORD <= AlignUp(sum);
    PageMultiple(cur);
    if wraps {
      WrapsBelow(cur, seg, sum, newbrk, size);
    } else {
      PageMultiple(sum);
    }
  }

  /** The answer is honest for one reply of the kernel exactly if the segment grows, or the kernel
      returns the break that sbrk compares with. */
  lemma CoversIff(cur: nat, seg: nat, code: nat, bytes: nat, newbrk: nat, size: nat, wraps: bool, granted: bool)
    requires Requested(cur, seg, bytes, newbrk, size, wraps) && 2 * PAGE_SIZE <= bytes && code <= seg
    ensures var r := Compare(cur, newbrk, Settle(seg, code, size, granted));
            && (Covers(r, cur, bytes) <==> (!wraps && granted) || r.seg == cur)
            && (Covers(r, cur, bytes) ==> r == Reply(-1, cur, seg) || (!wraps && r == Reply(cur, cur + bytes, size)))
  {
  }

  lemma BacksIs(cur: nat, seg: nat, code: nat, bytes: nat, newbrk: nat, size: nat, granted: bool)
    requires 0 < bytes < WORD && newbrk == (cur + bytes) % WORD && size == NewBreak(newbrk)
    ensures Sbrk(cur, seg, code, bytes, granted) == Compare(cur, newbrk, Settle(seg, code, size, granted))
    ensures Sbrk(cur, seg, code, bytes % WORD, granted) == Compare(cur, newbrk, Settle(seg, code, size, granted))
    ensures Backs(cur, seg, code, bytes, granted) <==>
            Covers(Compare(cur, newbrk, Settle(seg, code, size, granted)), cur, bytes)
  {
  }

  lemma BacksIff(cur: nat, seg: nat, code: nat, bytes: nat, granted: bool)
    requires Synced(cur, seg, code) && 2 * PAGE_SIZE <= bytes < WORD
    ensures Backs(cur, seg, code, bytes, granted) <==>
            (AlignUp(cur + bytes) < WORD && granted) || NewSegment(seg, code, (cur + bytes) % WORD, granted) == cur
    ensures Backs(cur, seg, code, bytes, granted) ==>
              Sbrk(cur, seg, code, bytes, granted) in
                {Reply(-1, cur, seg), Reply(cur, cur + bytes, AlignUp(cur + bytes))}
    ensures Backs(cur, seg, code, bytes, granted) && Sbrk(cur, seg, code, bytes, granted).result != -1 ==>
              AlignUp(cur + bytes) < WORD
  {
    var newbrk, size, wraps := Request(cur, seg, code, bytes);
    CoversIff(cur, seg, code, bytes, newbrk, size, wraps, granted);
    BacksIs(cur, seg, code, bytes, newbrk, size, granted);
  }

  /** A request for 2^32 bytes asks for none. */
  lemma NoBytesAsked(cur: nat, seg: nat, code: nat, granted: bool)
    requires seg < WORD
    ensures !Backs(cur, seg, code, WORD, granted) && Sbrk(cur, seg, code, WORD % WORD, granted) == Reply(cur, cur, seg)
  {
  }

  /** A dishonest answer leaves bytes outside the segment; after an honest one break and segment
      agree. */
  ghost predicate Outcome(r: Reply, cur: nat, seg: nat, code: nat, bytes: nat, backs: bool)
  {
    && (r.result == -1 ==> r == Reply(-1, cur, seg) && backs)
    && (r.result != -1 && backs ==> r.cur == cur + bytes && Synced(r.cur, r.seg, code))
    && (!backs ==> r.seg < cur + bytes)
  }

  lemma OutcomeIs(cur: nat, seg: nat, code: nat, bytes: nat, newbrk: nat, size: nat, wraps: bool, granted: bool)
    requires Requested(cur, seg, bytes, newbrk, size, wraps) && 2 * PAGE_SIZE <= bytes && code <= seg && 0 < cur
    requires code % PAGE_SIZE == 0 && (!wraps ==> size == AlignUp(cur + bytes))
    ensures var r := Compare(cur, newbrk, Settle(seg, code, size, granted));
            Outcome(r, cur, seg, code, bytes, Covers(r, cur, bytes))
  {
  }

  lemma SbrkOutcome(cur: nat, seg: nat, code: nat, bytes: nat, granted: bool)
    requires Synced(cur, seg, code) && 2 * PAGE_SIZE <= bytes <= WORD
    ensures Outcome(Sbrk(cur, seg, code, bytes % WORD, granted), cur, seg, code, bytes,
                    Backs(cur, seg, code, bytes, granted))
  {
    if bytes == WORD {
      NoBytesAsked(cur, seg, code, granted);
    } else {
      var newbrk, size, wraps := Request(cur, seg, code, bytes);
      OutcomeIs(cur, seg, code, bytes, newbrk, size, wraps, granted);
      BacksIs(cur, seg, code, bytes, newbrk, size, granted);
    }
  }

  /** The bytes fit 32 bits, the break is a multiple of the page size, and the sum does not wrap around
      or wraps to a size that the kernel refuses or that is the break again. */
  predicate Honest(cur: nat, code: nat, bytes: nat)
  {
    && bytes < WORD && cur % PAGE_SIZE == 0
    && (cur + bytes < WORD || NewBreak(cur + bytes - WORD) < code || NewBreak(cur + bytes - WORD) in {0, cur})
  }

  lemma HonestCore(cur: nat, seg: nat, code: nat, bytes: nat, newbrk: nat, size: nat, wraps: bool)
    requires Requested(cur, seg, bytes, newbrk, size, wraps) && 2 * PAGE_SIZE <= bytes && code <= seg
    ensures var no, yes := Settle(seg, code, size, false), Settle(seg, code, size, true);
            Covers(Compare(cur, newbrk, no), cur, bytes) && Covers(Compare(cur, newbrk, yes), cur, bytes) <==>
            seg == cur && (!wraps || size < code || size in {0, cur})
  {
  }

  lemma BacksBoth(cur: nat, seg: nat, code: nat, bytes: nat, newbrk: nat, size: nat, wraps: bool)
    requires Requested(cur, seg, bytes, newbrk, size, wraps) && 2 * PAGE_SIZE <= bytes < WORD && code <= seg
    requires newbrk == (cur + bytes) % WORD && size == NewBreak(newbrk)
    ensures Backs(cur, seg, code, bytes, true) && Backs(cur, seg, code, bytes, false) <==>
            seg == cur && (!wraps || size < code || size in {0, cur})
  {
    BacksIs(cur, seg, code, bytes, newbrk, size, true);
    BacksIs(cur, seg, code, bytes, newbrk, size, false);
    HonestCore(cur, seg, code, bytes, newbrk, size, wraps);
  }

  lemma HonestIs(cur: nat, seg: nat, code: nat, bytes: nat, newbrk: nat, size: nat, wraps: bool)
    requires Requested(cur, seg, bytes, newbrk, size, wraps) && bytes < WORD && seg == AlignUp(cur)
    requires wraps <==> WORD <= AlignUp(cur + bytes)
    requires wraps ==> size == if cur + bytes < WORD then 0 else NewBreak(cur + bytes - WORD)
    ensures Honest(cur, code, bytes) <==> seg == cur && (!wraps || size < code || size in {0, cur})
  {
    PageMultiple(cur);
    PageMultiple(cur + bytes);
  }

  /** Whatever the kernel replies, sbrk is honest exactly if `Honest` holds. */
  lemma HonestIff(cur: nat, seg: nat, code: nat, bytes: nat)
    requires Synced(cur, seg, code) && 2 * PAGE_SIZE <= bytes <= WORD
    ensures Honest(cur, code, bytes) <==> Backs(cur, seg, code, bytes, true) && Backs(cur, seg, code, bytes, false)
  {
    if bytes == WORD {
      NoBytesAsked(cur, seg, code, true);
    } else {
      var newbrk, size, wraps := Request(cur, seg, code, bytes);
      HonestIs(cur, seg, code, bytes, newbrk, size, wraps);
      BacksBoth(cur, seg, code, bytes, newbrk, size, wraps);
    }
  }

  /** A break of 256 KiB and a request of almost 4 GiB: the segment shrinks by a page, and sbrk reports
      success. */
  lemma WrappedBreakExample(granted: bool)
    ensures Synced(0x40000, 0x40000, 0x3f000)
    ensures Sbrk(0x40000, 0x40000, 0x3f000, 0xffff_f000, granted) == Reply(0x40000, 0x3f000, 0x3f000)
  {
  }

  /** After a request of 8200 bytes the break is off a page boundary, and the next refusal is taken for
      success. */
  lemma RefusalLostExample(bytes: nat)
    requires 2 * PAGE_SIZE <= bytes < 0x1000_0000
    ensures Sbrk(0x40000, 0x40000, 0x3f000, 8200, true) == Reply(0x40000, 0x42008, 0x43000)
    ensures Sbrk(0x42008, 0x43000, 0x3f000, bytes, false) == Reply(0x42008, 0x42008 + bytes, 0x43000)
  {
    var newbrk, size, wraps := Request(0x42008, 0x43000, 0x3f000, bytes);
    PageMultiple(0x42008 + bytes);
  }
}
