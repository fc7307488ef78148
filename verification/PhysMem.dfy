/** kernel/physmem.c: the physical page allocator and the pages it hands out. */
module PhysMem {
  import opened Common
  import opened Ring
  import opened BlockList
  import opened BlockCalls
  import opened Descriptors
  import opened BlockOps
  import opened PhysInit

  /** memset with zeros, on whole pages. */
  method ZeroPages(mem: array<Page>, b: nat, n: nat)
    requires b + n <= mem.Length
    modifies mem
    ensures forall q {:trigger mem[q]} :: 0 <= q < mem.Length ==>
              mem[q] == if b <= q < b + n then ZERO_PAGE else old(mem[q])
  {
    forall q | b <= q < b + n {
      mem[q] := ZERO_PAGE;
    }
  }

  /** memcpy between two blocks that do not overlap, on whole pages. */
  method CopyPages(mem: array<Page>, dst: nat, src: nat, n: nat)
    requires dst + n <= mem.Length && src + n <= mem.Length
    modifies mem
    ensures forall q {:trigger mem[q]} :: 0 <= q < mem.Length ==>
              mem[q] == old(if dst <= q < dst + n then mem[src + (q - dst)] else mem[q])
  {
    forall q | dst <= q < dst + n {
      mem[q] := mem[src + (q - dst)];
    }
  }

  lemma LiveBlocksDisjoint(bs: seq<Extent>, n: nat, e: Extent, f: Extent)
    requires Wf(bs, n) && e in Live(bs) && f in Live(bs) && e != f
    ensures End(e) <= f.start || End(f) <= e.start
    ensures 0 < e.pages && End(e) <= n
  {
    LiveAt(bs, e);
    LiveAt(bs, f);
    var i :| 0 <= i < |bs| && bs[i] == e;
    var j :| 0 <= j < |bs| && bs[j] == f;
    TilesAt(bs, 0, n, i);
    if i < j {
      TilesOrder(bs, 0, n, i, j);
    } else {
      TilesOrder(bs, 0, n, j, i);
    }
  }

  /** What `Alloc` makes of the set of live blocks; the new one overlaps no other. */
  lemma AllocFacts(bs: seq<Extent>, n: nat, k: nat)
    requires Wf(bs, n) && 0 < k && FirstFit(bs, k) < |bs|
    ensures var p := bs[FirstFit(bs, k)].start;
            && Live(Apply(bs, n, Op.Alloc(k))) == Live(bs) + {Extent(p, k, false)}
            && p + k <= n && Extent(p, k, false) !in Live(bs)
            && forall e {:trigger e in Live(bs)} :: e in Live(bs) ==> End(e) <= p || p + k <= e.start
  {
    var i := FirstFit(bs, k);
    var x := Extent(bs[i].start, k, false);
    AllocKeeps(bs, n, i, k);
    TilesAt(bs, 0, n, i);
    if x in Live(bs) {
      LiveInWindow(bs, n, i, 1, x);
      LiveAt(bs[i..i + 1], x);
    }
    forall e {:trigger e in Live(bs)} | e in Live(bs) ensures End(e) <= bs[i].start || bs[i].start + k <= e.start {
      LiveBlocksDisjoint(AllocAt(bs, i, k), n, e, x);
    }
  }

  lemma FreeFacts(bs: seq<Extent>, n: nat, e: Extent)
    requires Wf(bs, n) && e in Live(bs) && e.start + 1 < n
    ensures Live(Apply(bs, n, Op.Free(e.start))) == Live(bs) - {e}
  {
    FindLive(bs, n, e.start, e);
    FreeKeeps(bs, n, Find(bs, e.start));
  }

  lemma ResizeFacts(bs: seq<Extent>, n: nat, e: Extent, k: nat)
    requires Wf(bs, n) && e in Live(bs)
    ensures Find(bs, e.start) < |bs| && bs[Find(bs, e.start)] == e
    ensures 0 < k <= Reach(bs, Find(bs, e.start)) ==>
              Live(Apply(bs, n, Op.Realloc(e.start, k))) == Live(bs) - {e} + {Extent(e.start, k, false)}
  {
    FindLive(bs, n, e.start, e);
    if 0 < k <= Reach(bs, Find(bs, e.start)) {
      ResizeKeeps(bs, n, Find(bs, e.start), k);
    }
  }

  /** The descriptor of a live block. */
  lemma LiveData(s: seq<Node<Info>>, head: int, bs: seq<Extent>, linked: set<nat>, e: Extent)
    requires Represents(s, head, bs, linked) && e in Live(bs)
    ensures End(e) <= |s| && 0 < e.pages
    ensures e.start in linked && s[e.start].data == Info(e.pages, false)
  {
    Open(s, head, bs, linked);
    LiveAt(bs, e);
    var i :| 0 <= i < |bs| && bs[i] == e;
    TilesAt(bs, 0, |s|, i);
    assert s[bs[i].start].data == Info(e.pages, false);
  }

  lemma ResizeSame(bs: seq<Extent>, n: nat, i: nat)
    requires Wf(bs, n) && i < |bs| && !bs[i].hole && 0 < bs[i].pages
    ensures ResizeAt(bs, i, bs[i].pages) == bs
  {
    ResizeKeeps(bs, n, i, bs[i].pages);
    LiveAt(bs, bs[i]);
    assert Live(ResizeAt(bs, i, bs[i].pages)) == Live(bs);
    Canonical(ResizeAt(bs, i, bs[i].pages), bs, 0, n);
  }

  /** Memory `m'` is `m` with the `n` pages from page `from` copied to page `to`, and zeros
      behind them up to `k` pages. */
  ghost predicate Moved(m: seq<Page>, m': seq<Page>, from: nat, n: nat, to: nat, k: nat)
  {
    && |m'| == |m|
    && forall q {:trigger m'[q]} :: 0 <= q < |m| ==>
      m'[q] == if to <= q < to + n && from + (q - to) < |m| then m[from + (q - to)]
               else if to <= q < to + k then ZERO_PAGE else m[q]
  }

  method MovePages(mem: array<Page>, dst: nat, src: nat, n: nat, k: nat)
    requires n <= k && dst + k <= mem.Length && src + n <= mem.Length
    modifies mem
    ensures Moved(old(mem[..]), mem[..], src, n, dst, k)
  {
    CopyPages(mem, dst, src, n);
    ZeroPages(mem, dst + n, k - n);
  }

  /** Memory before and after a call of `Realloc`: only a relocation changes it. */
  ghost predicate ReallocMem(m: seq<Page>, m': seq<Page>, bs: seq<Extent>, p: nat, k: nat)
  {
    if k != 0 && Find(bs, p) < |bs| && Reach(bs, Find(bs, p)) < k && FirstFit(bs, k) < |bs|
    then Moved(m, m', p, bs[Find(bs, p)].pages, bs[FirstFit(bs, k)].start, k)
    else m' == m
  }

  /** A successful `Realloc` replaces one live block and leaves all others alone. */
  lemma ReallocLiveSet(bs: seq<Extent>, n: nat, e: Extent, k: nat)
    requires Wf(bs, n) && e in Live(bs) && ReallocResult(bs, n, e.start, k) == Ok
    ensures var to := ReallocPage(bs, e.start, k);
            && to + k <= n
            && Live(Apply(bs, n, Op.Realloc(e.start, k))) == Live(bs) - {e} + {Extent(to, k, false)}
            && Extent(to, k, false) !in Live(bs) - {e}
  {
    FindLive(bs, n, e.start, e);
    if Reach(bs, Find(bs, e.start)) < k {
      RelocatedSet(bs, n, e, k);
    } else {
      ResizedSet(bs, n, e, k);
    }
  }

  lemma RelocatedSet(bs: seq<Extent>, n: nat, e: Extent, k: nat)
    requires Wf(bs, n) && e in Live(bs) && 0 < k && FirstFit(bs, k) < |bs| && e.start + 1 < n
    ensures var x := Extent(bs[FirstFit(bs, k)].start, k, false);
            && End(x) <= n && x !in Live(bs)
            && Live(Apply(Apply(bs, n, Op.Alloc(k)), n, Op.Free(e.start))) == Live(bs) - {e} + {x}
  {
    AllocFacts(bs, n, k);
    ApplyKeeps(bs, n, Op.Alloc(k));
    FreeFacts(Apply(bs, n, Op.Alloc(k)), n, e);
  }

  lemma ResizedSet(bs: seq<Extent>, n: nat, e: Extent, k: nat)
    requires Wf(bs, n) && e in Live(bs) && Find(bs, e.start) < |bs| && 0 < k <= Reach(bs, Find(bs, e.start))
    ensures var x := Extent(e.start, k, false);
            && End(x) <= n && x !in Live(bs) - {e}
            && Live(Apply(bs, n, Op.Realloc(e.start, k))) == Live(bs) - {e} + {x}
  {
    var x, i := Extent(e.start, k, false), Find(bs, e.start);
    ResizeFacts(bs, n, e, k);
    if x in Live(bs) {
      FindLive(bs, n, e.start, x);
    }
    ResizeWindow(bs, n, i, if HoleAfter(bs, i) then 2 else 1);
    TilesAt(bs, 0, n, i + if HoleAfter(bs, i) then 1 else 0);
  }

  /** `Realloc` keeps the content both sizes have in common, zero-fills what a relocation
      adds, and touches no page of a block that was live before. */
  lemma ReallocContent(m: seq<Page>, m': seq<Page>, bs: seq<Extent>, e: Extent, k: nat, to: nat)
    requires Wf(bs, |m|) && e in Live(bs) && ReallocResult(bs, |m|, e.start, k) == Ok
    requires ReallocMem(m, m', bs, e.start, k) && to == ReallocPage(bs, e.start, k)
    ensures |m'| == |m| && to + k <= |m| && End(e) <= |m|
    ensures forall q {:trigger m'[q]} :: to <= q < to + k && q - to < e.pages ==> m'[q] == m[e.start + (q - to)]
    ensures to != e.start ==> forall q {:trigger m'[q]} :: to + e.pages <= q < to + k ==> m'[q] == ZERO_PAGE
    ensures forall f, q {:trigger f in Live(bs), m'[q]} ::
              f in Live(bs) && f.start <= q < End(f) && 0 <= q < |m| ==> m'[q] == m[q]
    ensures forall q {:trigger m'[q]} :: 0 <= q < |m| && !(to <= q < to + k) ==> m'[q] == m[q]
  {
    ReallocLiveSet(bs, |m|, e, k);
    FindLive(bs, |m|, e.start, e);
    LiveBounds(bs, |m|, e);
    if Reach(bs, Find(bs, e.start)) < k {
      AllocFacts(bs, |m|, k);
      MovedContent(m, m', Live(bs), e, k, to);
    } else {
      InPlaceCase(m, m', bs, |m|, e.start, k);
    }
  }

  lemma MovedContent(m: seq<Page>, m': seq<Page>, live: set<Extent>, e: Extent, k: nat, to: nat)
    requires Moved(m, m', e.start, e.pages, to, k) && to + k <= |m| && End(e) <= |m| && e.pages <= k
    requires forall f {:trigger f in live} :: f in live ==> End(f) <= to || to + k <= f.start
    ensures forall q {:trigger m'[q]} :: to <= q < to + k && q - to < e.pages ==> m'[q] == m[e.start + (q - to)]
    ensures forall q {:trigger m'[q]} :: to + e.pages <= q < to + k ==> m'[q] == ZERO_PAGE
    ensures forall f, q {:trigger f in live, m'[q]} ::
              f in live && f.start <= q < End(f) && 0 <= q < |m| ==> m'[q] == m[q]
    ensures forall q {:trigger m'[q]} :: 0 <= q < |m| && !(to <= q < to + k) ==> m'[q] == m[q]
  {
  }

  /** All `k - from` pages behind page `p + from` are zero. */
  ghost predicate ZeroTail(m: seq<Page>, p: nat, from: nat, k: nat)
  {
    forall q {:trigger m[q]} :: p + from <= q < p + k && q < |m| ==> m[q] == ZERO_PAGE
  }

  /** The pages that a successful widening adds are all zero exactly when the block had to move,
      or they were zero before: widening in place does not fill them. */
  lemma WidenedZeroIff(m: seq<Page>, m': seq<Page>, bs: seq<Extent>, e: Extent, k: nat)
    requires Wf(bs, |m|) && e in Live(bs) && e.pages < k && ReallocResult(bs, |m|, e.start, k) == Ok
    requires ReallocMem(m, m', bs, e.start, k)
    ensures ZeroTail(m', ReallocPage(bs, e.start, k), e.pages, k) <==>
            Reach(bs, Find(bs, e.start)) < k || ZeroTail(m, e.start, e.pages, k)
  {
    FindLive(bs, |m|, e.start, e);
    if Reach(bs, Find(bs, e.start)) < k {
      Relocates(m, m', bs, e, k);
    } else {
      InPlaceCase(m, m', bs, |m|, e.start, k);
    }
  }

  lemma Relocates(m: seq<Page>, m': seq<Page>, bs: seq<Extent>, e: Extent, k: nat)
    requires Wf(bs, |m|) && e in Live(bs) && e.pages < k && ReallocResult(bs, |m|, e.start, k) == Ok
    requires ReallocMem(m, m', bs, e.start, k) && Find(bs, e.start) < |bs| && Reach(bs, Find(bs, e.start)) < k
    ensures ZeroTail(m', ReallocPage(bs, e.start, k), e.pages, k)
  {
    var to := ReallocPage(bs, e.start, k);
    ReallocContent(m, m', bs, e, k, to);
    AllocFacts(bs, |m|, k);
    assert End(e) <= to || to + k <= e.start;
    LiveBounds(bs, |m|, e);
  }

  /** A block that is widened by one page into the hole behind it gets that page as it was. */
  lemma NotZeroed(m: seq<Page>, bs: seq<Extent>, e: Extent)
    requires Wf(bs, |m|) && e in Live(bs) && HoleAfter(bs, Find(bs, e.start)) && End(e) < |m|
    requires Find(bs, e.start) < |bs| && 0 < bs[Find(bs, e.start) + 1].pages && m[End(e)] != ZERO_PAGE
    ensures ReallocResult(bs, |m|, e.start, e.pages + 1) == Ok && ReallocMem(m, m, bs, e.start, e.pages + 1)
    ensures !ZeroTail(m, ReallocPage(bs, e.start, e.pages + 1), e.pages, e.pages + 1)
  {
    FindLive(bs, |m|, e.start, e);
    assert m[End(e)] != ZERO_PAGE;
  }

  /** An allocation that leaves the rest of its hole behind the new block. */
  lemma SplitLeavesHole(bs: seq<Extent>, n: nat, k: nat, bs': seq<Extent>, i: nat)
    requires Wf(bs, n) && 0 < k && i == FirstFit(bs, k) < |bs| && k < bs[i].pages
    requires bs' == Apply(bs, n, Op.Alloc(k))
    ensures Wf(bs', n) && i + 1 < |bs'| && bs'[i] == Extent(bs[i].start, k, false) && bs'[i + 1].hole
    ensures 0 < bs'[i + 1].pages && bs[i].start + k < n
  {
    var w := Carve(bs[i].start, bs[i].pages, k);
    ApplyKeeps(bs, n, Op.Alloc(k));
    SpliceIndex(bs, i, 1, w, i);
    SpliceIndex(bs, i, 1, w, i + 1);
    TilesAt(bs, 0, n, i);
    TilesAt(bs', 0, n, i + 1);
  }

  /** So it is for the first block handed out on any machine: if the page behind it is not zero and in
      the same hole, widening the block by a page gives it that page. */
  lemma NotZeroedExample(m: seq<Page>, memsize: nat, kernelEnd: nat, k: nat, bs: seq<Extent>)
    requires kernelEnd <= BIOS_START && BIOS_END <= memsize && Choose(memsize, kernelEnd) != Impossible
    requires Aligned(memsize, kernelEnd) && |m| == PageCount(memsize) && bs == InitialBlocks(memsize, kernelEnd)
    requires 0 < k && FirstFit(bs, k) < |bs| && k < bs[FirstFit(bs, k)].pages
    requires bs[FirstFit(bs, k)].start + k < |m| && m[bs[FirstFit(bs, k)].start + k] != ZERO_PAGE
    ensures var p, bs' := bs[FirstFit(bs, k)].start, Apply(bs, |m|, Op.Alloc(k));
            && Wf(bs', |m|) && Extent(p, k, false) in Live(bs') && ReallocResult(bs', |m|, p, k + 1) == Ok
            && ReallocMem(m, m, bs', p, k + 1) && !ZeroTail(m, ReallocPage(bs', p, k + 1), k, k + 1)
  {
    var i, bs' := FirstFit(bs, k), Apply(bs, |m|, Op.Alloc(k));
    InitTilesIffAligned(memsize, kernelEnd);
    SplitLeavesHole(bs, |m|, k, bs', i);
    var e := bs'[i];
    LiveAt(bs', e);
    FindLive(bs', |m|, e.start, e);
    TilesOrderFind(bs', |m|, e, i);
    NotZeroed(m, bs', e);
  }

  lemma TilesOrderFind(bs: seq<Extent>, n: nat, e: Extent, i: nat)
    requires Wf(bs, n) && i < |bs| && bs[i] == e && !e.hole && Find(bs, e.start) < |bs| && bs[Find(bs, e.start)] == e
    ensures Find(bs, e.start) == i
  {
    var j := Find(bs, e.start);
    if j < i {
      TilesOrder(bs, 0, n, j, i);
    } else if i < j {
      TilesOrder(bs, 0, n, i, j);
    }
  }

  lemma LiveBounds(bs: seq<Extent>, n: nat, e: Extent)
    requires Wf(bs, n) && e in Live(bs)
    ensures 0 < e.pages && End(e) <= n
  {
    LiveAt(bs, e);
    var i :| 0 <= i < |bs| && bs[i] == e;
    TilesAt(bs, 0, n, i);
  }

  /** A call of `Realloc` that does not succeed leaves list and memory as they were. */
  lemma ReallocFailure(m: seq<Page>, m': seq<Page>, bs: seq<Extent>, n: nat, p: nat, k: nat)
    requires ReallocResult(bs, n, p, k) in {InvalidArg, Fail, NoMem}
    requires ReallocMem(m, m', bs, p, k)
    ensures Apply(bs, n, Op.Realloc(p, k)) == bs && m' == m
  {
  }

  /** How a call of `Realloc` ends, in terms of the block list before it. */
  function ReallocResult(bs: seq<Extent>, n: nat, p: nat, k: nat): Ret
  {
    var i := Find(bs, p);
    if k == 0 then InvalidArg
    else if i == |bs| then Fail
    else if k <= Reach(bs, i) then Ok
    else if FirstFit(bs, k) == |bs| then NoMem
    else if n <= p + 1 then Panic else Ok
  }

  /** How `Realloc` of a live block ends, in terms of the pages that are free: the block stays if it shrinks
      or the pages behind it are free; otherwise it moves to the lowest run of free pages that is long
      enough. Without one there is no memory, and a block at the last page cannot move. */
  lemma ReallocDecides(bs: seq<Extent>, n: nat, e: Extent, k: nat)
    requires Wf(bs, n) && e in Live(bs) && 0 < k
    ensures var stays := k <= e.pages || FreeRun(bs, n, End(e), k - e.pages);
            var room := exists p :: FreeRun(bs, n, p, k);
            && ReallocResult(bs, n, e.start, k) ==
                 (if stays then Ok else if !room then NoMem else if n <= e.start + 1 then Panic else Ok)
            && (stays ==> ReallocPage(bs, e.start, k) == e.start)
            && (!stays && room ==>
                  var p := ReallocPage(bs, e.start, k);
                  FreeRun(bs, n, p, k) && forall p' :: FreeRun(bs, n, p', k) ==> p <= p')
  {
    FindLive(bs, n, e.start, e);
    ReachIsRun(bs, n, e, k);
    LowestRun(bs, n, k);
  }

  /** The page at which a successful `Realloc` leaves the block. */
  function ReallocPage(bs: seq<Extent>, p: nat, k: nat): nat
  {
    var i := Find(bs, p);
    if i < |bs| && k <= Reach(bs, i) then p
    else if FirstFit(bs, k) < |bs| then bs[FirstFit(bs, k)].start else 0
  }

  /** What every call makes of the set of live blocks, which determines the list: an allocation takes the
      lowest run of free pages, if there is one; a free removes the block that starts at the page, unless
      it is the last one; a successful reallocation replaces one block. */
  lemma CallOnLiveBlocks(bs: seq<Extent>, n: nat, op: Op)
    requires Wf(bs, n)
    ensures var bs' := Apply(bs, n, op);
            match op
            case Alloc(k) =>
              if k == 0 || !exists p :: FreeRun(bs, n, p, k) then bs' == bs
              else exists p :: && FreeRun(bs, n, p, k) && (forall p' :: FreeRun(bs, n, p', k) ==> p <= p')
                               && Live(bs') == Live(bs) + {Extent(p, k, false)}
            case Free(p) =>
              if p + 1 < n && LiveStart(bs, p)
              then exists e :: e in Live(bs) && e.start == p && Live(bs') == Live(bs) - {e}
              else bs' == bs
            case Realloc(p, k) =>
              if LiveStart(bs, p) && ReallocResult(bs, n, p, k) == Ok
              then exists e :: && e in Live(bs) && e.start == p
                               && Live(bs') == Live(bs) - {e} + {Extent(ReallocPage(bs, p, k), k, false)}
              else ReallocResult(bs, n, p, k) == Panic || bs' == bs
  {
    match op
    case Alloc(k) =>
      if k > 0 {
        LowestRun(bs, n, k);
        if FirstFit(bs, k) < |bs| {
          AllocFacts(bs, n, k);
        }
      }
    case Free(p) =>
      if p + 1 < n && LiveStart(bs, p) {
        var e :| e in Live(bs) && e.start == p;
        FreeFacts(bs, n, e);
      } else if p + 1 < n {
        FailKeeps(bs, n, p);
      }
    case Realloc(p, k) =>
      if LiveStart(bs, p) {
        var e :| e in Live(bs) && e.start == p;
        FindLive(bs, n, p, e);
        if ReallocResult(bs, n, p, k) == Ok {
          ReallocLiveSet(bs, n, e, k);
        }
      } else {
        NotFound(bs, p);
      }
  }

  lemma NotFound(bs: seq<Extent>, p: nat)
    requires !LiveStart(bs, p)
    ensures Find(bs, p) == |bs|
  {
    if Find(bs, p) < |bs| {
      LiveAt(bs, bs[Find(bs, p)]);
    }
  }

  // ---- A second free is refused until the address is handed out again

  /** The call makes page `p` the start of a block. */
  predicate HandsOut(bs: seq<Extent>, n: nat, op: Op, p: nat)
  {
    match op
    case Alloc(k) => 0 < k && FirstFit(bs, k) < |bs| && bs[FirstFit(bs, k)].start == p
    case Free(_) => false
    case Realloc(b, k) =>
      && 0 < k && Find(bs, b) < |bs| && Reach(bs, Find(bs, b)) < k
      && FirstFit(bs, k) < |bs| && bs[FirstFit(bs, k)].start == p
  }

  lemma FreeMakesNoStart(bs: seq<Extent>, n: nat, b: nat, p: nat)
    requires Wf(bs, n) && LiveStart(Apply(bs, n, Op.Free(b)), p)
    ensures LiveStart(bs, p)
    ensures b + 1 < n ==> p != b
  {
    var cs := Apply(bs, n, Op.Free(b));
    var e :| e in Live(cs) && e.start == p;
    var i := Find(bs, b);
    if b + 1 < n && i < |bs| {
      FreeKeeps(bs, n, i);
      if p == b {
        FindLive(bs, n, b, e);
      }
    } else if i == |bs| {
      LiveAt(bs, e);
    }
  }

  lemma OnlyHandedOut(bs: seq<Extent>, n: nat, op: Op, p: nat)
    requires Wf(bs, n) && !LiveStart(bs, p) && !HandsOut(bs, n, op, p)
    ensures !LiveStart(Apply(bs, n, op), p)
  {
    match op
    case Alloc(k) =>
      if 0 < k && FirstFit(bs, k) < |bs| {
        AllocFacts(bs, n, k);
      }
    case Free(b) =>
      if LiveStart(Apply(bs, n, op), p) {
        FreeMakesNoStart(bs, n, b, p);
      }
    case Realloc(b, k) =>
      var i := Find(bs, b);
      if 0 < k && i < |bs| {
        if k <= Reach(bs, i) {
          LiveAt(bs, bs[i]);
          ResizeKeeps(bs, n, i, k);
        } else if FirstFit(bs, k) < |bs| {
          AllocFacts(bs, n, k);
          ApplyKeeps(bs, n, Op.Alloc(k));
          if LiveStart(Apply(bs, n, op), p) {
            FreeMakesNoStart(Apply(bs, n, Op.Alloc(k)), n, b, p);
          }
        }
      }
  }

  predicate NeverHandsOut(bs: seq<Extent>, n: nat, ops: seq<Op>, p: nat)
    decreases |ops|
  {
    ops == [] || (!HandsOut(bs, n, ops[0], p) && NeverHandsOut(Apply(bs, n, ops[0]), n, ops[1..], p))
  }

  /** After a block has been freed, freeing its address again fails, however many calls lie in
      between, until some call hands the address out. */
  lemma {:induction false} SecondFreeRefused(bs: seq<Extent>, n: nat, b: nat, ops: seq<Op>)
    requires Wf(bs, n) && b + 1 < n
    requires NeverHandsOut(Apply(bs, n, Op.Free(b)), n, ops, b)
    ensures !LiveStart(Run(Apply(bs, n, Op.Free(b)), n, ops), b)
  {
    var cs := Apply(bs, n, Op.Free(b));
    ApplyKeeps(bs, n, Op.Free(b));
    if LiveStart(cs, b) {
      FreeMakesNoStart(bs, n, b, b);
    }
    StaysFree(cs, n, ops, b);
  }

  lemma {:induction false} StaysFree(bs: seq<Extent>, n: nat, ops: seq<Op>, p: nat)
    requires Wf(bs, n) && !LiveStart(bs, p) && NeverHandsOut(bs, n, ops, p)
    ensures !LiveStart(Run(bs, n, ops), p)
    decreases |ops|
  {
    if ops != [] {
      OnlyHandedOut(bs, n, ops[0], p);
      ApplyKeeps(bs, n, ops[0]);
      StaysFree(Apply(bs, n, ops[0]), n, ops[1..], p);
    }
  }

  lemma InPlaceCase(m: seq<Page>, m': seq<Page>, bs: seq<Extent>, n: nat, b: nat, k: nat)
    requires Find(bs, b) < |bs| && 0 < k <= Reach(bs, Find(bs, b))
    ensures Apply(bs, n, Op.Realloc(b, k)) == ResizeAt(bs, Find(bs, b), k)
    ensures ReallocResult(bs, n, b, k) == Ok && ReallocPage(bs, b, k) == b && (ReallocMem(m, m', bs, b, k) <==> m' == m)
  {
  }

  /** What the relocating branch does is what `Realloc` should do when the block has to move. */
  lemma RelocateCase(m: seq<Page>, m': seq<Page>, bs: seq<Extent>, bs': seq<Extent>, n: nat, b: nat, k: nat, res: Ret,
                     paddr: nat)
    requires Find(bs, b) < |bs| && Reach(bs, Find(bs, b)) < k
    requires res == if FirstFit(bs, k) == |bs| then NoMem else if n <= b + 1 then Panic else Ok
    requires res == NoMem ==> bs' == bs && m' == m
    requires res != NoMem ==>
               && paddr == AddrOf(bs[FirstFit(bs, k)].start)
               && bs' == Apply(Apply(bs, n, Op.Alloc(k)), n, Op.Free(b))
               && Moved(m, m', b, bs[Find(bs, b)].pages, DescriptorOf(paddr), k)
    ensures bs' == Apply(bs, n, Op.Realloc(b, k)) && res == ReallocResult(bs, n, b, k)
    ensures res == Ok ==> paddr == AddrOf(ReallocPage(bs, b, k))
    ensures ReallocMem(m, m', bs, b, k)
  {
    if res != NoMem {
      assert DescriptorOf(paddr) == bs[FirstFit(bs, k)].start;
    }
  }

  class Allocator {
    /** The descriptor array and the list head. */
    const desc: array<Node<Info>>
    var head: int
    /** The content of physical memory, page by page. */
    const mem: array<Page>

    /** The block list read from the head, and every descriptor that was ever linked. */
    ghost var blocks: seq<Extent>
    ghost var linked: set<nat>

    ghost predicate Valid()
      reads this, desc
    {
      && mem.Length == desc.Length
      && 0 < desc.Length
      && Represents(desc[..], head, blocks, linked)
    }

    /** init_physmem over raw memory, when every boundary lies on a page. */
    constructor (memsize: nat, kernelEnd: nat, d: array<Node<Info>>, m: array<Page>)
      requires kernelEnd <= BIOS_START && BIOS_END <= memsize
      requires Choose(memsize, kernelEnd) != Impossible && Aligned(memsize, kernelEnd)
      requires d.Length == m.Length == PageCount(memsize)
      modifies d
      ensures Valid() && desc == d && mem == m
      ensures blocks == InitialBlocks(memsize, kernelEnd)
      ensures exists image :: Bootable(blocks, image, kernelEnd)
    {
      desc := d;
      mem := m;
      var first;
      ghost var bs;
      first, bs := Initialize(d, memsize, kernelEnd);
      head := first;
      blocks := bs;
      linked := StartSet(InitialBlocks(memsize, kernelEnd));
      ghost var image := ImageAtStart(memsize, kernelEnd);
    }

    lemma ValidWf()
      requires Valid()
      ensures Wf(blocks, desc.Length)
    {
      Open(desc[..], head, blocks, linked);
    }

    /** __alloc_physmem_block: first fit, without touching the memory. */
    method AllocRaw(pages: nat) returns (res: Ret, addr: nat)
      requires Valid()
      modifies this, desc
      ensures Valid() && old(linked) <= linked
      ensures blocks == Apply(old(blocks), desc.Length, Op.Alloc(pages))
      ensures res == if pages == 0 then InvalidArg
                     else if FirstFit(old(blocks), pages) < |old(blocks)| then Ok else NoMem
      ensures res == Ok ==> addr == AddrOf(old(blocks)[FirstFit(old(blocks), pages)].start)
      ensures res != Ok ==> blocks == old(blocks)
    {
      ghost var bs, linked' := Apply(blocks, desc.Length, Op.Alloc(pages)), linked;
      res, addr, linked' := AllocBlock(desc, head, pages, blocks, linked);
      ghost var s := desc[..];
      assert Represents(s, head, bs, linked');
      blocks, linked := bs, linked';
      assert desc[..] == s;
    }

    /** alloc_physmem_block: the new block is filled with zeros, and only it. */
    method Alloc(pages: nat) returns (res: Ret, addr: nat)
      requires Valid()
      modifies this, desc, mem
      ensures Valid() && old(linked) <= linked
      ensures blocks == Apply(old(blocks), desc.Length, Op.Alloc(pages))
      ensures res == if pages == 0 then InvalidArg
                     else if FirstFit(old(blocks), pages) < |old(blocks)| then Ok else NoMem
      ensures res == Ok ==> addr == AddrOf(old(blocks)[FirstFit(old(blocks), pages)].start)
      ensures forall q {:trigger mem[q]} :: 0 <= q < mem.Length ==>
                mem[q] == if res == Ok && DescriptorOf(addr) <= q < DescriptorOf(addr) + pages
                          then ZERO_PAGE else old(mem[q])
    {
      ValidWf();
      res, addr := AllocRaw(pages);
      if res == Ok {
        AllocFacts(old(blocks), desc.Length, pages);
        ZeroPages(mem, DescriptorOf(addr), pages);
      }
    }

    /** free_physmem_block. An address whose descriptor was never linked is the caller's error. */
    method Free(addr: nat) returns (res: Ret)
      requires Valid()
      requires DescriptorOf(addr) + 1 < desc.Length ==> DescriptorOf(addr) in linked
      modifies this, desc
      ensures Valid() && linked == old(linked)
      ensures blocks == Apply(old(blocks), desc.Length, Op.Free(DescriptorOf(addr)))
      ensures res == if desc.Length <= DescriptorOf(addr) + 1 then Panic
                     else if LiveStart(old(blocks), DescriptorOf(addr)) then Ok else Fail
      ensures res != Ok ==> blocks == old(blocks)
    {
      ghost var head0, s := head, desc[..];
      res, head := FreeBlock(desc, head, addr, blocks, linked);
      ghost var was := blocks;
      blocks := Apply(blocks, desc.Length, Op.Free(DescriptorOf(addr)));
      if res == Fail {
        FailKeeps(was, desc.Length, DescriptorOf(addr));
      }
    }

    /** kernel/physmem.c:309-326 */
    method Relocate(addr: nat, pages: nat, ghost e: Extent) returns (res: Ret, paddr: nat)
      requires Valid() && e in Live(blocks) && addr == AddrOf(e.start) && e.pages < pages
      modifies this, desc, mem
      ensures Valid() && old(linked) <= linked
      ensures res == if FirstFit(old(blocks), pages) == |old(blocks)| then NoMem
                     else if desc.Length <= e.start + 1 then Panic else Ok
      ensures res == NoMem ==> blocks == old(blocks) && mem[..] == old(mem[..])
      ensures res != NoMem ==>
                && paddr == AddrOf(old(blocks)[FirstFit(old(blocks), pages)].start)
                && blocks == Apply(Apply(old(blocks), desc.Length, Op.Alloc(pages)), desc.Length, Op.Free(e.start))
                && Moved(old(mem[..]), mem[..], e.start, e.pages, DescriptorOf(paddr), pages)
    {
      ghost var bs := blocks;
      ValidWf();
      res, paddr := AllocRaw(pages);
      if res != Ok {
        return;
      }
      AllocFacts(bs, desc.Length, pages);
      var b := DescriptorOf(addr);
      LiveData(desc[..], head, blocks, linked, e);
      MovePages(mem, DescriptorOf(paddr), b, desc[b].data.pages, pages);
      res := Free(addr);
      assert LiveStart(Apply(bs, desc.Length, Op.Alloc(pages)), e.start);
    }

    /** realloc_physmem_block. `addr` is the start of a block that was handed out earlier. */
    method Realloc(addr: nat, pages: nat) returns (res: Ret, paddr: nat)
      requires Valid() && addr % PAGE_SIZE == 0 && DescriptorOf(addr) in linked
      modifies this, desc, mem
      ensures Valid() && old(linked) <= linked
      ensures blocks == Apply(old(blocks), desc.Length, Op.Realloc(DescriptorOf(addr), pages))
      ensures res == ReallocResult(old(blocks), desc.Length, DescriptorOf(addr), pages)
      ensures res == Ok ==> paddr == AddrOf(ReallocPage(old(blocks), DescriptorOf(addr), pages))
      ensures ReallocMem(old(mem[..]), mem[..], old(blocks), DescriptorOf(addr), pages)
    {
      paddr := 0;
      var b := DescriptorOf(addr);
      BeforeFree(desc[..], head, blocks, linked, b);
      if pages == 0 {
        res := InvalidArg;
      } else if desc[b].data.available {
        res := Fail;
      } else {
        res, paddr := ReallocLive(addr, b, pages, Find(blocks, b));
      }
    }

    method ResizeInPlace(b: nat, pages: nat, ghost i: nat)
      requires Valid() && i < |blocks| && !blocks[i].hole && b == blocks[i].start
      requires 0 < pages <= Reach(blocks, i) && pages != blocks[i].pages
      modifies this, desc
      ensures Valid() && old(linked) <= linked
      ensures blocks == ResizeAt(old(blocks), i, pages)
    {
      ghost var linked';
      head, linked' := ResizeBlock(desc, head, b, pages, blocks, linked, i);
      blocks := ResizeAt(blocks, i, pages);
      linked := linked';
    }

    /** kernel/physmem.c:256-307: the block keeps its address. */
    method StayInPlace(addr: nat, b: nat, pages: nat, ghost i: nat)
      requires Valid() && addr == AddrOf(b) && i == Find(blocks, b) < |blocks| && 0 < pages <= Reach(blocks, i)
      requires Wf(blocks, desc.Length) && b < desc.Length && desc[b].data.pages == blocks[i].pages
      modifies this, desc
      ensures Valid() && old(linked) <= linked
      ensures blocks == Apply(old(blocks), desc.Length, Op.Realloc(b, pages))
    {
      ghost var bs := blocks;
      LiveAt(bs, bs[i]);
      InPlaceCase(mem[..], mem[..], bs, desc.Length, b, pages);
      if pages == desc[b].data.pages {
        ResizeSame(bs, desc.Length, i);
      } else {
        ResizeInPlace(b, pages, i);
      }
    }

    /** kernel/physmem.c:309-330: the block moves. */
    method MoveAway(addr: nat, b: nat, pages: nat, ghost i: nat) returns (res: Ret, paddr: nat)
      requires Valid() && addr == AddrOf(b) && i == Find(blocks, b) < |blocks| && Reach(blocks, i) < pages
      modifies this, desc, mem
      ensures Valid() && old(linked) <= linked
      ensures blocks == Apply(old(blocks), desc.Length, Op.Realloc(b, pages))
      ensures res == ReallocResult(old(blocks), desc.Length, b, pages)
      ensures res == Ok ==> paddr == AddrOf(ReallocPage(old(blocks), b, pages))
      ensures ReallocMem(old(mem[..]), mem[..], old(blocks), b, pages)
    {
      ghost var bs, m := blocks, mem[..];
      LiveAt(bs, bs[i]);
      res, paddr := Relocate(addr, pages, bs[i]);
      RelocateCase(m, mem[..], bs, blocks, desc.Length, b, pages, res, paddr);
    }

    /** kernel/physmem.c:256-330, for a live block. */
    method ReallocLive(addr: nat, b: nat, pages: nat, ghost i: nat) returns (res: Ret, paddr: nat)
      requires Valid() && addr == AddrOf(b) && 0 < pages
      requires i == Find(blocks, b) < |blocks|
      modifies this, desc, mem
      ensures Valid() && old(linked) <= linked
      ensures blocks == Apply(old(blocks), desc.Length, Op.Realloc(b, pages))
      ensures res == ReallocResult(old(blocks), desc.Length, b, pages)
      ensures res == Ok ==> paddr == AddrOf(ReallocPage(old(blocks), b, pages))
      ensures ReallocMem(old(mem[..]), mem[..], old(blocks), b, pages)
    {
      ghost var bs, m := blocks, mem[..];
      ValidWf();
      ResizeGuards(desc[..], head, blocks, linked, i);
      if pages <= desc[b].data.pages ||
         (b < desc[b].next && desc[desc[b].next].data.available &&
          desc[desc[b].next].data.pages >= pages - desc[b].data.pages) {
        InPlaceCase(m, mem[..], bs, desc.Length, b, pages);
        StayInPlace(addr, b, pages, i);
        paddr := addr;
        res := Ok;
      } else {
        res, paddr := MoveAway(addr, b, pages, i);
      }
    }
  }

  lemma FailKeeps(bs: seq<Extent>, n: nat, p: nat)
    requires !LiveStart(bs, p)
    ensures Apply(bs, n, Op.Free(p)) == bs
  {
    var i := Find(bs, p);
    if i < |bs| {
      LiveAt(bs, bs[i]);
    }
  }
}
