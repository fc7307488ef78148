/** The calls of kernel/physmem.c on the block list as a value: allocation, freeing and resizing, and
    whole sequences of them. */
module BlockCalls {
  import opened BlockList

  // ---- The operations, as windows

  /** First position whose hole holds `k` pages, or `|bs|`. */
  function FirstFit(bs: seq<Extent>, k: nat): (i: nat)
    ensures i <= |bs|
    ensures i < |bs| ==> bs[i].hole && k <= bs[i].pages
    ensures forall j :: 0 <= j < i ==> !(bs[j].hole && k <= bs[j].pages)
  {
    if bs == [] then 0
    else if bs[0].hole && k <= bs[0].pages then 0
    else
      var i := FirstFit(bs[1..], k);
      assert forall j :: 0 < j < |bs| ==> bs[j] == bs[1..][j - 1];
      i + 1
  }

  function HoleTail(start: nat, pages: nat): seq<Extent>
  {
    if pages == 0 then [] else [Extent(start, pages, true)]
  }

  /** A block of `k` pages from page `start`, then a hole for the rest of the `pages` pages. */
  function Carve(start: nat, pages: nat, k: nat): seq<Extent>
    requires k <= pages
  {
    [Extent(start, k, false)] + HoleTail(start + k, pages - k)
  }

  lemma CarveFacts(start: nat, pages: nat, k: nat)
    requires 0 < k <= pages
    ensures Tiles(Carve(start, pages, k), start, start + pages)
    ensures Coalesced(Carve(start, pages, k))
    ensures Live(Carve(start, pages, k)) == {Extent(start, k, false)}
  {
    var w := Carve(start, pages, k);
    var t := HoleTail(start + k, pages - k);
    assert w[1..] == t;
    if k < pages {
      LoneHole(start + k, pages - k);
      assert t == [Extent(start + k, pages - k, true)];
      assert Tiles(w, start, start + pages) && Live(w) == {Extent(start, k, false)} + Live(t);
    } else {
      assert t == [];
    }
  }

  /** kernel/physmem.c:164-175 on the hole at position `i`. */
  function AllocAt(bs: seq<Extent>, i: nat, k: nat): seq<Extent>
    requires i < |bs| && k <= bs[i].pages
  {
    Splice(bs, i, 1, Carve(bs[i].start, bs[i].pages, k))
  }

  lemma AllocRange(bs: seq<Extent>, i: nat, k: nat)
    requires i < |bs| && 0 < k <= bs[i].pages
    ensures SameRange(bs, i, 1, Carve(bs[i].start, bs[i].pages, k))
  {
    CarveFacts(bs[i].start, bs[i].pages, k);
  }

  predicate HoleAfter(bs: seq<Extent>, i: nat)
  {
    i + 1 < |bs| && bs[i + 1].hole
  }

  predicate HoleBefore(bs: seq<Extent>, i: nat)
  {
    0 < i <= |bs| && bs[i - 1].hole
  }

  /** Pages of position `i` and of the hole behind it, if there is one. */
  function Reach(bs: seq<Extent>, i: nat): nat
    requires i < |bs|
  {
    bs[i].pages + if HoleAfter(bs, i) then bs[i + 1].pages else 0
  }

  function FreeFrom(bs: seq<Extent>, i: nat): nat
  {
    if HoleBefore(bs, i) then i - 1 else i
  }

  function FreeCount(bs: seq<Extent>, i: nat): nat
  {
    i - FreeFrom(bs, i) + if HoleAfter(bs, i) then 2 else 1
  }

  /** The hole left by position `i`, merged on both sides. */
  function FreeHole(bs: seq<Extent>, i: nat): Extent
    requires i < |bs|
  {
    if HoleBefore(bs, i)
    then Extent(bs[i - 1].start, bs[i - 1].pages + Reach(bs, i), true)
    else Extent(bs[i].start, Reach(bs, i), true)
  }

  /** kernel/physmem.c:215-227 */
  function FreeAt(bs: seq<Extent>, i: nat): seq<Extent>
    requires i < |bs|
  {
    Splice(bs, FreeFrom(bs, i), FreeCount(bs, i), [FreeHole(bs, i)])
  }

  /** kernel/physmem.c:263-307: position `i` resized in place to `k` pages. */
  function ResizeAt(bs: seq<Extent>, i: nat, k: nat): seq<Extent>
    requires i < |bs| && k <= Reach(bs, i)
  {
    Splice(bs, i, if HoleAfter(bs, i) then 2 else 1, Carve(bs[i].start, Reach(bs, i), k))
  }

  lemma CoalescedAt(bs: seq<Extent>, i: nat)
    requires Coalesced(bs) && i + 1 < |bs|
    ensures !(bs[i].hole && bs[i + 1].hole)
  {
  }

  lemma AllocKeeps(bs: seq<Extent>, n: nat, i: nat, k: nat)
    requires Wf(bs, n) && i < |bs| && bs[i].hole && 0 < k <= bs[i].pages
    ensures Wf(AllocAt(bs, i, k), n)
    ensures Live(AllocAt(bs, i, k)) == Live(bs) + {Extent(bs[i].start, k, false)}
  {
    var w := Carve(bs[i].start, bs[i].pages, k);
    CarveFacts(bs[i].start, bs[i].pages, k);
    if i + 1 < |bs| {
      CoalescedAt(bs, i);
    }
    SpliceWf(bs, n, i, 1, w);
    assert bs[i..i + 1] == [bs[i]];
  }

  lemma ResizeWindow(bs: seq<Extent>, n: nat, i: nat, m: nat)
    requires Wf(bs, n) && i < |bs| && !bs[i].hole
    requires m == if HoleAfter(bs, i) then 2 else 1
    ensures Live(bs[i..i + m]) == {bs[i]}
    ensures End(bs[i + m - 1]) == bs[i].start + Reach(bs, i)
    ensures i + m < |bs| ==> !bs[i + m].hole || !bs[i + m - 1].hole
  {
    TilesAt(bs, 0, n, i);
    assert bs[i..i + m] == [bs[i]] + bs[i + 1..i + m];
    LiveConcat([bs[i]], bs[i + 1..i + m]);
    assert Live(bs[i + 1..i + m]) == {};
    if i + m < |bs| {
      CoalescedAt(bs, i + m - 1);
    }
  }

  lemma ResizeKeeps(bs: seq<Extent>, n: nat, i: nat, k: nat)
    requires Wf(bs, n) && i < |bs| && !bs[i].hole && 0 < k <= Reach(bs, i)
    ensures Wf(ResizeAt(bs, i, k), n)
    ensures Live(ResizeAt(bs, i, k)) == Live(bs) - {bs[i]} + {Extent(bs[i].start, k, false)}
  {
    var m := if HoleAfter(bs, i) then 2 else 1;
    var w := Carve(bs[i].start, Reach(bs, i), k);
    CarveFacts(bs[i].start, Reach(bs, i), k);
    ResizeWindow(bs, n, i, m);
    SpliceWf(bs, n, i, m, w);
  }

  lemma LoneHole(start: nat, pages: nat)
    requires 0 < pages
    ensures var w := [Extent(start, pages, true)];
            Tiles(w, start, start + pages) && Live(w) == {} && Coalesced(w)
  {
    assert [Extent(start, pages, true)][1..] == [];
  }

  lemma FreeWindowLive(bs: seq<Extent>, i: nat, a: nat, e: nat)
    requires a <= i < e <= |bs| && !bs[i].hole
    requires forall j :: a <= j < e && j != i ==> bs[j].hole
    ensures Live(bs[a..e]) == {bs[i]}
  {
    forall x ensures x in Live(bs[a..e]) <==> x == bs[i] {
      LiveAt(bs[a..e], x);
      assert bs[a..e][i - a] == bs[i];
    }
  }

  lemma FreeWindow(bs: seq<Extent>, n: nat, i: nat)
    requires Wf(bs, n) && i < |bs| && !bs[i].hole
    ensures SameRange(bs, FreeFrom(bs, i), FreeCount(bs, i), [FreeHole(bs, i)])
    ensures FitsBetween(bs, FreeFrom(bs, i), FreeCount(bs, i), [FreeHole(bs, i)])
    ensures Live(bs[FreeFrom(bs, i)..FreeFrom(bs, i) + FreeCount(bs, i)]) == {bs[i]}
  {
    var a, m, h := FreeFrom(bs, i), FreeCount(bs, i), FreeHole(bs, i);
    TilesAt(bs, 0, n, i);
    TilesAt(bs, 0, n, a);
    LoneHole(h.start, h.pages);
    FreeWindowLive(bs, i, a, a + m);
    if a > 0 {
      CoalescedAt(bs, a - 1);
    }
    if a + m < |bs| {
      CoalescedAt(bs, a + m - 1);
    }
  }

  lemma FreeKeeps(bs: seq<Extent>, n: nat, i: nat)
    requires Wf(bs, n) && i < |bs| && !bs[i].hole
    ensures Wf(FreeAt(bs, i), n)
    ensures Live(FreeAt(bs, i)) == Live(bs) - {bs[i]}
  {
    var h := FreeHole(bs, i);
    FreeWindow(bs, n, i);
    SpliceWf(bs, n, FreeFrom(bs, i), FreeCount(bs, i), [h]);
    LoneHole(h.start, h.pages);
  }

  /** Freeing a block as soon as it has been handed out restores the list exactly. */
  lemma FreeUndoesAlloc(bs: seq<Extent>, n: nat, i: nat, k: nat)
    requires Wf(bs, n) && i < |bs| && bs[i].hole && 0 < k <= bs[i].pages
    ensures i < |AllocAt(bs, i, k)| && AllocAt(bs, i, k)[i] == Extent(bs[i].start, k, false)
    ensures FreeAt(AllocAt(bs, i, k), i) == bs
  {
    var as_ := AllocAt(bs, i, k);
    var e := Extent(bs[i].start, k, false);
    AllocKeeps(bs, n, i, k);
    SpliceIndex(bs, i, 1, Carve(bs[i].start, bs[i].pages, k), i);
    FreeKeeps(as_, n, i);
    if e in Live(bs) {
      LiveAt(bs, e);
      var j :| 0 <= j < |bs| && bs[j] == e;
      if i < j { TilesOrder(bs, 0, n, i, j); } else { TilesOrder(bs, 0, n, j, i); }
    }
    assert Live(FreeAt(as_, i)) == Live(bs);
    Canonical(FreeAt(as_, i), bs, 0, n);
  }

  // ---- Whole runs

  /** Page allocation succeeds exactly when some hole is large enough, and then takes the
      lowest-addressed one. */
  lemma LowestFit(bs: seq<Extent>, n: nat, k: nat)
    requires Wf(bs, n)
    ensures FirstFit(bs, k) < |bs| <==> exists e :: e in bs && e.hole && k <= e.pages
    ensures forall e :: FirstFit(bs, k) < |bs| && e in bs && e.hole && k <= e.pages ==>
                          bs[FirstFit(bs, k)].start <= e.start
  {
    var i := FirstFit(bs, k);
    forall e | i < |bs| && e in bs && e.hole && k <= e.pages ensures bs[i].start <= e.start {
      var j :| 0 <= j < |bs| && bs[j] == e;
      if i < j {
        TilesOrder(bs, 0, n, i, j);
      }
    }
  }

  /** Position of the live extent that starts at page `p`, or `|bs|`. */
  function Find(bs: seq<Extent>, p: nat): (i: nat)
    ensures i <= |bs|
    ensures i < |bs| ==> bs[i].start == p && !bs[i].hole
    ensures i == |bs| ==> forall e :: e in bs && !e.hole ==> e.start != p
  {
    if bs == [] then 0
    else if bs[0].start == p && !bs[0].hole then 0
    else
      assert bs == [bs[0]] + bs[1..];
      1 + Find(bs[1..], p)
  }

  /** Page `p` starts an allocated block. */
  ghost predicate LiveStart(bs: seq<Extent>, p: nat)
  {
    exists e :: e in Live(bs) && e.start == p
  }

  lemma FindLive(bs: seq<Extent>, n: nat, p: nat, e: Extent)
    requires Wf(bs, n) && e in Live(bs) && e.start == p
    ensures Find(bs, p) < |bs| && bs[Find(bs, p)] == e
  {
    LiveAt(bs, e);
    var i, j := Find(bs, p), var j :| 0 <= j < |bs| && bs[j] == e; j;
    if i < j {
      TilesOrder(bs, 0, n, i, j);
    } else if j < i {
      TilesOrder(bs, 0, n, j, i);
    }
  }

  // ---- Runs of free pages

  /** Page `q` is in a live block. */
  ghost predicate InUse(bs: seq<Extent>, q: nat) { exists e :: e in Live(bs) && e.start <= q < End(e) }

  /** The `k` pages from `p` on are there, and in no live block. */
  ghost predicate FreeRun(bs: seq<Extent>, n: nat, p: nat, k: nat)
  {
    p + k <= n && forall q {:trigger InUse(bs, q)} :: p <= q < p + k ==> !InUse(bs, q)
  }

  lemma HoleIsFree(bs: seq<Extent>, n: nat, i: nat, q: nat)
    requires Wf(bs, n) && i < |bs| && bs[i].hole && bs[i].start <= q < End(bs[i])
    ensures !InUse(bs, q)
  {
    if e :| e in Live(bs) && e.start <= q < End(e) {
      LiveAt(bs, e);
      var j :| 0 <= j < |bs| && bs[j] == e;
      if i < j {
        TilesOrder(bs, 0, n, i, j);
      } else if j < i {
        TilesOrder(bs, 0, n, j, i);
      }
    }
  }

  lemma FreeIsHole(bs: seq<Extent>, n: nat, i: nat, q: nat)
    requires i < |bs| && bs[i].start <= q < End(bs[i]) && !InUse(bs, q)
    ensures bs[i].hole
  {
    LiveAt(bs, bs[i]);
  }

  lemma HoleRun(bs: seq<Extent>, n: nat, i: nat, k: nat)
    requires Wf(bs, n) && i < |bs| && bs[i].hole && k <= bs[i].pages
    ensures FreeRun(bs, n, bs[i].start, k)
  {
    TilesAt(bs, 0, n, i);
    forall q {:trigger InUse(bs, q)} | bs[i].start <= q < bs[i].start + k ensures !InUse(bs, q) {
      HoleIsFree(bs, n, i, q);
    }
  }

  /** A run of free pages lies in one hole. */
  lemma RunInHole(bs: seq<Extent>, n: nat, p: nat, k: nat) returns (i: nat)
    requires Wf(bs, n) && 0 < k && FreeRun(bs, n, p, k)
    ensures i < |bs| && bs[i].hole && bs[i].start <= p && p + k <= End(bs[i])
  {
    i := Covering(bs, 0, n, p);
    FreeIsHole(bs, n, i, p);
    TilesAt(bs, 0, n, i);
    if End(bs[i]) < p + k {
      var q := End(bs[i]);
      TilesAt(bs, 0, n, i + 1);
      assert !InUse(bs, q);
      FreeIsHole(bs, n, i + 1, q);
      CoalescedAt(bs, i);
    }
  }

  /** First fit on the list is the lowest run of free pages in memory. */
  lemma LowestRun(bs: seq<Extent>, n: nat, k: nat)
    requires Wf(bs, n) && 0 < k
    ensures FirstFit(bs, k) < |bs| <==> exists p :: FreeRun(bs, n, p, k)
    ensures FirstFit(bs, k) < |bs| ==>
              var p := bs[FirstFit(bs, k)].start;
              FreeRun(bs, n, p, k) && forall p' :: FreeRun(bs, n, p', k) ==> p <= p'
  {
    var i := FirstFit(bs, k);
    if i < |bs| {
      HoleRun(bs, n, i, k);
    }
    forall p | FreeRun(bs, n, p, k) ensures i < |bs| && bs[i].start <= p {
      var j := RunInHole(bs, n, p, k);
      if i < j {
        TilesOrder(bs, 0, n, i, j);
      }
    }
  }

  /** A block can be widened in place exactly if the pages behind it are free. */
  lemma ReachIsRun(bs: seq<Extent>, n: nat, e: Extent, k: nat)
    requires Wf(bs, n) && e in Live(bs) && Find(bs, e.start) < |bs|
    ensures k <= Reach(bs, Find(bs, e.start)) <==> k <= e.pages || FreeRun(bs, n, End(e), k - e.pages)
  {
    FindLive(bs, n, e.start, e);
    var i := Find(bs, e.start);
    TilesAt(bs, 0, n, i);
    if e.pages < k {
      if HoleAfter(bs, i) && k <= Reach(bs, i) {
        HoleRun(bs, n, i + 1, k - e.pages);
      }
      if FreeRun(bs, n, End(e), k - e.pages) {
        var j := RunInHole(bs, n, End(e), k - e.pages);
        TilesAt(bs, 0, n, i + 1);
        if i + 1 < j {
          TilesOrder(bs, 0, n, i + 1, j);
        } else if j < i {
          TilesOrder(bs, 0, n, j, i);
        }
      }
    }
  }

  datatype Op = Alloc(k: nat) | Free(p: nat) | Realloc(p: nat, k: nat)

  /** What one call makes of the list of `n` pages. Freeing the last page panics. */
  function Apply(bs: seq<Extent>, n: nat, op: Op): seq<Extent>
    decreases op.Realloc?
  {
    match op
    case Alloc(k) =>
      var i := FirstFit(bs, k);
      if k == 0 || i == |bs| then bs else AllocAt(bs, i, k)
    case Free(p) =>
      var i := Find(bs, p);
      if n <= p + 1 || i == |bs| then bs else FreeAt(bs, i)
    case Realloc(p, k) =>
      var i := Find(bs, p);
      if k == 0 || i == |bs| then bs
      else if k <= Reach(bs, i) then ResizeAt(bs, i, k)
      else if FirstFit(bs, k) == |bs| then bs
      else Apply(Apply(bs, n, Alloc(k)), n, Free(p))
  }

  function Run(bs: seq<Extent>, n: nat, ops: seq<Op>): seq<Extent>
    decreases |ops|
  {
    if ops == [] then bs else Run(Apply(bs, n, ops[0]), n, ops[1..])
  }

  lemma ApplyKeeps(bs: seq<Extent>, n: nat, op: Op)
    requires Wf(bs, n)
    ensures Wf(Apply(bs, n, op), n)
    decreases op.Realloc?
  {
    match op
    case Alloc(k) =>
      var i := FirstFit(bs, k);
      if k != 0 && i != |bs| {
        AllocKeeps(bs, n, i, k);
      }
    case Free(p) =>
      var i := Find(bs, p);
      if !(n <= p + 1 || i == |bs|) {
        FreeKeeps(bs, n, i);
      }
    case Realloc(p, k) =>
      var i := Find(bs, p);
      if !(k == 0 || i == |bs|) {
        if k <= Reach(bs, i) {
          ResizeKeeps(bs, n, i, k);
        } else {
          ApplyKeeps(bs, n, Alloc(k));
          ApplyKeeps(Apply(bs, n, Alloc(k)), n, Free(p));
        }
      }
  }

  /** In every reachable state the blocks tile all pages, none is empty and no two
      neighbours are holes. */
  lemma {:induction false} RunKeeps(bs: seq<Extent>, n: nat, ops: seq<Op>)
    requires Wf(bs, n)
    ensures Wf(Run(bs, n, ops), n)
    ensures LivePages(Run(bs, n, ops)) + HolePages(Run(bs, n, ops)) == n
    decreases |ops|
  {
    if ops == [] {
      PagesConserved(bs, 0, n);
    } else {
      ApplyKeeps(bs, n, ops[0]);
      RunKeeps(Apply(bs, n, ops[0]), n, ops[1..]);
    }
  }

  /** A block that `Alloc` hands out can be freed exactly when it does not start at the
      last page; if it does, freeing it panics and leaves the list alone. */
  lemma FreeableIffNotLastPage(bs: seq<Extent>, n: nat, k: nat)
    requires Wf(bs, n) && 0 < k && FirstFit(bs, k) < |bs|
    ensures var as_, p := Apply(bs, n, Alloc(k)), bs[FirstFit(bs, k)].start;
            && LiveStart(as_, p)
            && (Apply(as_, n, Free(p)) == bs <==> p + 1 < n)
            && (p + 1 == n ==> Apply(as_, n, Free(p)) == as_)
  {
    var i := FirstFit(bs, k);
    var as_, p := Apply(bs, n, Alloc(k)), bs[i].start;
    var e := Extent(p, k, false);
    AllocKeeps(bs, n, i, k);
    FreeUndoesAlloc(bs, n, i, k);
    FindLive(as_, n, p, e);
    TilesAt(bs, 0, n, i);
    SpliceIndex(bs, i, 1, Carve(p, bs[i].pages, k), i);
    if Find(as_, p) < i {
      TilesOrder(as_, 0, n, Find(as_, p), i);
    } else if i < Find(as_, p) {
      TilesOrder(as_, 0, n, i, Find(as_, p));
    }
    assert as_[i] == e && as_[i] != bs[i];
  }

  /** On every machine whose only hole is its last page, that page can be handed out and
      never freed. */
  lemma LastPageExample(n: nat)
    requires 1 < n
    ensures var bs := [Extent(0, n - 1, false), Extent(n - 1, 1, true)];
            Wf(bs, n) && Apply(Apply(bs, n, Alloc(1)), n, Free(n - 1)) != bs
  {
    var a, b := Extent(0, n - 1, false), Extent(n - 1, 1, true);
    LoneHole(n - 1, 1);
    assert [a, b][1..] == [b];
    assert Wf([a, b], n);
    assert FirstFit([a, b], 1) == 1;
    FreeableIffNotLastPage([a, b], n, 1);
  }
}
