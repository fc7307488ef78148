/** The operations of kernel/physmem.c on the block descriptor array, proved against BlockList. */
module BlockOps {
  import opened Common
  import opened Ring
  import opened BlockList
  import opened BlockCalls
  import opened Descriptors

  /** The first-fit walk of kernel/physmem.c:156-158. */
  method FindHole(d: array<Node<Info>>, head: int, pages: nat, ghost bs: seq<Extent>)
    returns (b: int, ghost i: nat)
    requires bs != [] && IsList(d[..], head, Starts(bs)) && Described(d[..], bs)
    ensures b == if FirstFit(bs, pages) < |bs| then bs[FirstFit(bs, pages)].start else NULL
    ensures i == FirstFit(bs, pages)
  {
    ghost var s := d[..];
    b := head;
    var index := 0;
    WalkStep(s, head, bs, 0);
    while head != NULL && (b != head || index == 0)
      invariant 0 <= index <= |bs|
      invariant b == bs[if index == |bs| then 0 else index].start
      invariant forall j :: 0 <= j < index ==> !(bs[j].hole && pages <= bs[j].pages)
      invariant index < |bs| ==> 0 <= b < d.Length && d[b].data == Info(bs[index].pages, bs[index].hole)
      invariant index < |bs| ==> d[b].next == bs[Succ(index, |bs|)].start
      invariant 0 < index < |bs| ==> b != head
      decreases |bs| - index
    {
      if d[b].data.available && d[b].data.pages >= pages {
        i := index;
        FirstFitIs(bs, pages, i);
        return;
      }
      b := d[b].next;
      index := index + 1;
      if index < |bs| {
        WalkStep(s, head, bs, index);
      }
    }
    b := NULL;
    i := |bs|;
    FirstFitIs(bs, pages, i);
  }

  // ---- kernel/physmem.c:164-175

  /** Descriptor data after `Carve` of `pages` pages from page `b`. */
  ghost predicate Carved(s: seq<Node<Info>>, s': seq<Node<Info>>, b: nat, pages: nat, k: nat)
  {
    && |s'| == |s|
    && forall p {:trigger s'[p]} :: 0 <= p < |s| ==>
      s'[p].data == if p == b then Info(k, false)
                    else if p == b + k && k < pages then Info(pages - k, true) else s[p].data
  }

  lemma CarvedDescribed(s: seq<Node<Info>>, s': seq<Node<Info>>, b: nat, pages: nat, k: nat)
    requires Carved(s, s', b, pages, k) && 0 < k <= pages && b + pages <= |s|
    ensures Described(s', Carve(b, pages, k))
    ensures DataOutside(s, s', b, b + pages)
  {
    var w := Carve(b, pages, k);
    assert w[0] == Extent(b, k, false);
    assert k < pages ==> |w| == 2 && w[1] == Extent(b + k, pages - k, true);
  }

  lemma HoleHasNoLive(bs: seq<Extent>, n: nat, i: nat, p: nat)
    requires Wf(bs, n) && i < |bs| && bs[i].hole && bs[i].start <= p < End(bs[i])
    ensures !LiveStart(bs, p)
  {
    if e :| e in Live(bs) && e.start == p {
      LiveInWindow(bs, n, i, 1, e);
      LiveAt(bs[i..i + 1], e);
    }
  }

  lemma TakeStale(s: seq<Node<Info>>, s': seq<Node<Info>>, bs: seq<Extent>, linked: set<nat>, i: nat, k: nat)
    requires Wf(bs, |s|) && Remembered(s, bs, linked)
    requires i < |bs| && bs[i].hole && 0 < k <= bs[i].pages && End(bs[i]) <= |s|
    requires Carved(s, s', bs[i].start, bs[i].pages, k)
    ensures StaleAvailable(s', bs, linked, i, 1, Carve(bs[i].start, bs[i].pages, k))
  {
    var w := Carve(bs[i].start, bs[i].pages, k);
    forall p | p in linked && bs[i].start <= p < End(bs[i]) && p !in StartSet(w) ensures s'[p].data.available {
      assert w[0] == Extent(bs[i].start, k, false);
      HoleHasNoLive(bs, |s|, i, p);
    }
  }

  lemma TakeRepresents(s: seq<Node<Info>>, s': seq<Node<Info>>, head: int, bs: seq<Extent>,
                       linked: set<nat>, i: nat, k: nat)
    requires Wf(bs, |s|) && Described(s, bs) && Remembered(s, bs, linked)
    requires i < |bs| && bs[i].hole && 0 < k <= bs[i].pages
    requires IsList(s', head, Starts(AllocAt(bs, i, k)))
    requires Carved(s, s', bs[i].start, bs[i].pages, k)
    ensures Represents(s', head, AllocAt(bs, i, k),
                       linked + StartSet(Carve(bs[i].start, bs[i].pages, k)))
  {
    TilesAt(bs, 0, |s|, i);
    AllocRange(bs, i, k);
    CarvedDescribed(s, s', bs[i].start, bs[i].pages, k);
    TakeStale(s, s', bs, linked, i, k);
    AllocKeeps(bs, |s|, i, k);
    SpliceRepresents(s, s', head, bs, linked, i, 1, Carve(bs[i].start, bs[i].pages, k));
  }

  method Take(d: array<Node<Info>>, b: nat, pages: nat, ghost total: nat, ghost r: seq<int>, ghost i: nat)
    requires IsRing(d[..], r) && i < |r| && r[i] == b && d[b].data.pages == total
    requires 0 < pages <= total && b + total <= d.Length
    requires pages < total ==> b + pages !in r
    modifies d
    ensures IsRing(d[..], if pages < total then InsertAt(r, i + 1, b + pages) else r)
    ensures Carved(old(d[..]), d[..], b, total, pages)
  {
    ghost var s := d[..];
    var addr := AddrOf(b);
    d[b] := d[b].(data := d[b].data.(available := false));
    if d[b].data.pages > pages {
      var h := DescriptorOf(addr + pages * PAGE_SIZE);
      d[h] := d[h].(data := d[h].data.(available := true));
      d[h] := d[h].(data := d[h].data.(pages := d[b].data.pages - pages));
      d[b] := d[b].(data := d[b].data.(pages := pages));
      RingKept(s, d[..], r);
      InsertAfter(d, b, h, r, i);
    } else {
      RingKept(s, d[..], r);
    }
  }

  // ---- kernel/physmem.c:215-227

  /** `b->next` exists at a higher address and is available. */
  ghost predicate NextFree(s: seq<Node<Info>>, b: nat)
    requires b < |s|
  {
    b < s[b].next < |s| && s[s[b].next].data.available
  }

  ghost predicate PrevFree(s: seq<Node<Info>>, b: nat)
    requires b < |s|
  {
    0 <= s[b].prev < b && s[s[b].prev].data.available
  }

  /** Only the page count of `a` changed, by `n`. */
  ghost predicate Grown(s: seq<Node<Info>>, s': seq<Node<Info>>, a: nat, n: nat)
  {
    && |s'| == |s|
    && forall p {:trigger s'[p]} :: 0 <= p < |s| ==>
      s'[p].data == if p == a then Info(s[p].data.pages + n, s[p].data.available) else s[p].data
  }

  /** kernel/physmem.c:217-221 */
  method AbsorbNext(d: array<Node<Info>>, head: int, b: nat, ghost r: seq<int>, ghost i: nat) returns (head': int)
    requires IsList(d[..], head, r) && i < |r| && r[i] == b
    requires NextFree(d[..], b) ==> i + 1 < |r|
    modifies d
    ensures if old(NextFree(d[..], b))
            then IsList(d[..], head', RemoveAt(r, i + 1)) && Grown(old(d[..]), d[..], b, old(d[d[b].next].data.pages))
            else head' == head && d[..] == old(d[..])
  {
    ghost var s := d[..];
    head' := head;
    assert s[r[i]] == d[b];
    if b < d[b].next && d[d[b].next].data.available {
      d[b] := d[b].(data := d[b].data.(pages := d[b].data.pages + d[d[b].next].data.pages));
      RingKept(s, d[..], r);
      head' := RemoveNext(d, head', b, r, i);
    }
  }

  /** kernel/physmem.c:223-227 */
  method AbsorbIntoPrev(d: array<Node<Info>>, head: int, b: nat, ghost r: seq<int>, ghost i: nat) returns (head': int)
    requires IsList(d[..], head, r) && i < |r| && r[i] == b
    modifies d
    ensures if old(PrevFree(d[..], b))
            then IsList(d[..], head', RemoveAt(r, i)) && Grown(old(d[..]), d[..], old(d[b].prev), old(d[b].data.pages))
            else head' == head && d[..] == old(d[..])
  {
    ghost var s := d[..];
    head' := head;
    assert s[r[i]] == d[b];
    if d[b].prev < b && d[d[b].prev].data.available {
      ghost var p, n := d[b].prev, d[b].data.pages;
      SetPages(d, d[b].prev, d[d[b].prev].data.pages + d[b].data.pages, r);
      ghost var t := d[..];
      assert Grown(s, t, p, n);
      head' := Remove(d, head', b, r, i);
      SameGrown(s, t, d[..], p, n);
    }
  }

  lemma SameGrown(s: seq<Node<Info>>, t: seq<Node<Info>>, t': seq<Node<Info>>, a: nat, n: nat)
    requires Grown(s, t, a, n) && |t'| == |t| && forall p {:trigger t'[p]} :: 0 <= p < |t| ==> t'[p].data == t[p].data
    ensures Grown(s, t', a, n)
  {
  }

  /** One merge of the linked list is one `Merge` of the block list. */
  lemma MergeStage(s: seq<Node<Info>>, s': seq<Node<Info>>, head: int, head': int, bs: seq<Extent>, i: nat)
    requires Shaped(s, head, bs) && i + 1 < |bs| && bs[i].hole
    requires IsList(s', head', RemoveAt(Starts(bs), i + 1))
    requires Grown(s, s', bs[i].start, bs[i + 1].pages)
    ensures Shaped(s', head', Merge(bs, i))
  {
    assert s[bs[i].start].data == Info(bs[i].pages, true);
    MergeStarts(bs, i);
    MergeTiles(bs, |s|, i);
    MergeDescribed(s, s', bs, i);
  }

  /** Freeing flips one availability flag and rewrites payloads inside the merged hole only. */
  ghost predicate Released(s: seq<Node<Info>>, s': seq<Node<Info>>, b: nat, h: Extent)
  {
    && DataOutside(s, s', h.start, End(h))
    && forall p {:trigger s'[p]} :: 0 <= p < |s| ==> s'[p].data.available == (p == b || s[p].data.available)
  }

  lemma ReleaseStale(s: seq<Node<Info>>, s': seq<Node<Info>>, bs: seq<Extent>, linked: set<nat>, i: nat)
    requires Wf(bs, |s|) && Remembered(s, bs, linked) && i < |bs| && !bs[i].hole
    requires Released(s, s', bs[i].start, FreeHole(bs, i))
    requires SameRange(bs, FreeFrom(bs, i), FreeCount(bs, i), [FreeHole(bs, i)])
    requires End(bs[FreeFrom(bs, i) + FreeCount(bs, i) - 1]) <= |s|
    ensures StaleAvailable(s', bs, linked, FreeFrom(bs, i), FreeCount(bs, i), [FreeHole(bs, i)])
  {
    var a, m := FreeFrom(bs, i), FreeCount(bs, i);
    FreeWindow(bs, |s|, i);
    forall p | p in linked && bs[a].start <= p < End(bs[a + m - 1]) ensures s'[p].data.available {
      if e :| e in Live(bs) && e.start == p {
        LiveInWindow(bs, |s|, a, m, e);
        assert e == bs[i];
      }
    }
  }

  lemma ReleaseHole(s': seq<Node<Info>>, bs: seq<Extent>, i: nat)
    requires i < |bs| && FreeFrom(bs, i) + FreeCount(bs, i) <= |bs|
    requires Described(s', FreeAt(bs, i))
    ensures Described(s', [FreeHole(bs, i)])
  {
    var a, h := FreeFrom(bs, i), FreeHole(bs, i);
    SpliceIndex(bs, a, FreeCount(bs, i), [h], a);
    var cs := FreeAt(bs, i);
    assert cs[a] == h && s'[cs[a].start].data == Info(h.pages, h.hole);
  }

  lemma ReleaseRemembered(s: seq<Node<Info>>, s': seq<Node<Info>>, bs: seq<Extent>, linked: set<nat>, i: nat)
    requires Wf(bs, |s|) && Remembered(s, bs, linked) && i < |bs| && !bs[i].hole
    requires Released(s, s', bs[i].start, FreeHole(bs, i))
    requires FreeFrom(bs, i) + FreeCount(bs, i) <= |bs| && Described(s', [FreeHole(bs, i)])
    ensures Remembered(s', FreeAt(bs, i), linked)
  {
    var a, m, h := FreeFrom(bs, i), FreeCount(bs, i), FreeHole(bs, i);
    FreeWindow(bs, |s|, i);
    FreeEnd(bs, |s|, i);
    ReleaseStale(s, s', bs, linked, i);
    SpliceRemembered(s, s', bs, a, m, [h], linked);
    assert linked + StartSet([h]) == linked;
  }

  lemma ReleaseRepresents(s: seq<Node<Info>>, s': seq<Node<Info>>, head: int, bs: seq<Extent>,
                          linked: set<nat>, i: nat)
    requires Wf(bs, |s|) && Remembered(s, bs, linked) && i < |bs| && !bs[i].hole
    requires Released(s, s', bs[i].start, FreeHole(bs, i))
    requires Shaped(s', head, FreeAt(bs, i))
    ensures Represents(s', head, FreeAt(bs, i), linked)
  {
    FreeEnd(bs, |s|, i);
    FreeKeeps(bs, |s|, i);
    ReleaseHole(s', bs, i);
    ReleaseRemembered(s, s', bs, linked, i);
  }

  lemma FreeEnd(bs: seq<Extent>, n: nat, i: nat)
    requires Wf(bs, n) && i < |bs| && !bs[i].hole
    ensures FreeFrom(bs, i) + FreeCount(bs, i) <= |bs|
    ensures bs[FreeFrom(bs, i)].start == FreeHole(bs, i).start
    ensures End(bs[FreeFrom(bs, i) + FreeCount(bs, i) - 1]) == End(FreeHole(bs, i)) <= n
    ensures FreeHole(bs, i).start <= bs[i].start < End(bs[i]) <= End(FreeHole(bs, i))
  {
    TilesAt(bs, 0, n, i);
    TilesAt(bs, 0, n, FreeFrom(bs, i));
    TilesAt(bs, 0, n, FreeFrom(bs, i) + FreeCount(bs, i) - 1);
  }

  /** After the first merge: `b` heads the hole, and is position `i` of `b1`. */
  lemma FirstStage(s: seq<Node<Info>>, s': seq<Node<Info>>, head: int, head': int, b0: seq<Extent>, i: nat)
    requires Shaped(s, head, b0) && i < |b0| && b0[i].hole
    requires if NextFree(s, b0[i].start)
             then i + 1 < |b0| && IsList(s', head', RemoveAt(Starts(b0), i + 1)) &&
                  Grown(s, s', b0[i].start, s[s[b0[i].start].next].data.pages)
             else head' == head && s' == s
    ensures Shaped(s', head', if HoleAfter(b0, i) then Merge(b0, i) else b0)
    ensures Grown(s, s', b0[i].start, if HoleAfter(b0, i) then b0[i + 1].pages else 0)
  {
    NextIsHole(s, head, b0, i);
    if HoleAfter(b0, i) {
      assert s[b0[i + 1].start].data.pages == b0[i + 1].pages;
      MergeStage(s, s', head, head', b0, i);
    }
  }

  lemma SecondStage(s: seq<Node<Info>>, s': seq<Node<Info>>, head: int, head': int, b1: seq<Extent>, i: nat)
    requires Shaped(s, head, b1) && i < |b1| && b1[i].hole
    requires if PrevFree(s, b1[i].start)
             then IsList(s', head', RemoveAt(Starts(b1), i)) &&
                  Grown(s, s', s[b1[i].start].prev, s[b1[i].start].data.pages)
             else head' == head && s' == s
    ensures Shaped(s', head', if HoleBefore(b1, i) then Merge(b1, i - 1) else b1)
    ensures if HoleBefore(b1, i) then Grown(s, s', b1[i - 1].start, b1[i].pages) else s' == s
  {
    PrevIsHole(s, head, b1, i);
    if HoleBefore(b1, i) {
      assert s[b1[i].start].data.pages == b1[i].pages;
      MergeStage(s, s', head, head', b1, i - 1);
    }
  }

  method Release(d: array<Node<Info>>, head: int, b: nat, ghost bs: seq<Extent>, ghost i: nat) returns (head': int)
    requires Wf(bs, d.Length) && IsList(d[..], head, Starts(bs)) && Described(d[..], bs)
    requires i < |bs| && !bs[i].hole && b == bs[i].start
    modifies d
    ensures Shaped(d[..], head', FreeAt(bs, i))
    ensures Released(old(d[..]), d[..], b, FreeHole(bs, i))
  {
    ghost var b0 := bs[i := bs[i].(hole := true)];
    ghost var b1 := if HoleAfter(b0, i) then Merge(b0, i) else b0;
    ghost var s := d[..];
    d[b] := d[b].(data := d[b].data.(available := true));
    ghost var s0 := d[..];
    OpenedShaped(s, s0, head, bs, i);
    NextIsHole(s0, head, b0, i);
    FreeStages(bs, i);
    head' := AbsorbNext(d, head, b, Starts(b0), i);
    ghost var s1, head1 := d[..], head';
    FirstStage(s0, s1, head, head1, b0, i);
    head' := AbsorbIntoPrev(d, head', b, Starts(b1), i);
    SecondStage(s1, d[..], head1, head', b1, i);
    ReleasedStages(s, s0, s1, d[..], bs, i, if HoleAfter(b0, i) then b0[i + 1].pages else 0, b1[i].pages);
  }

  lemma ReleasedStages(s: seq<Node<Info>>, s0: seq<Node<Info>>, s1: seq<Node<Info>>, s2: seq<Node<Info>>,
                       bs: seq<Extent>, i: nat, n1: nat, n2: nat)
    requires Wf(bs, |s|) && i < |bs| && !bs[i].hole && bs[i].start < |s| == |s0| == |s1| == |s2|
    requires s0 == s[bs[i].start := s[bs[i].start].(data := s[bs[i].start].data.(available := true))]
    requires Grown(s0, s1, bs[i].start, n1)
    requires if HoleBefore(bs, i) then Grown(s1, s2, bs[i - 1].start, n2) else s2 == s1
    ensures Released(s, s2, bs[i].start, FreeHole(bs, i))
  {
    FreeEnd(bs, |s|, i);
    var h := FreeHole(bs, i);
    assert HoleBefore(bs, i) ==> h.start == bs[i - 1].start;
  }

  lemma OpenedShaped(s: seq<Node<Info>>, s': seq<Node<Info>>, head: int, bs: seq<Extent>, i: nat)
    requires Wf(bs, |s|) && IsList(s, head, Starts(bs)) && Described(s, bs) && i < |bs|
    requires s' == s[bs[i].start := s[bs[i].start].(data := s[bs[i].start].data.(available := true))]
    ensures Shaped(s', head, bs[i := bs[i].(hole := true)])
  {
    var b0 := bs[i := bs[i].(hole := true)];
    TilesAt(bs, 0, |s|, i);
    assert [b0[i]][1..] == [];
    SpliceTiles(bs, 0, |s|, i, 1, [b0[i]]);
    assert Splice(bs, i, 1, [b0[i]]) == b0;
    RingKept(s, s', Starts(bs));
    assert Starts(b0) == Starts(bs);
    assert Described(s', [b0[i]]);
    SpliceDescribed(s, s', bs, i, 1, [b0[i]]);
  }

  // ---- kernel/physmem.c:263-307

  /** Descriptor `h` becomes a hole, before it is linked. */
  method MakeHole(d: array<Node<Info>>, h: nat, pages: nat, ghost r: seq<int>)
    requires IsRing(d[..], r) && h < d.Length
    modifies d
    ensures IsRing(d[..], r)
    ensures d[..] == old(d[..])[h := old(d[h]).(data := Info(pages, true))]
  {
    ghost var s := d[..];
    d[h] := d[h].(data := d[h].data.(available := true));
    d[h] := d[h].(data := d[h].data.(pages := pages));
    RingKept(s, d[..], r);
  }

  method SetPages(d: array<Node<Info>>, b: nat, pages: nat, ghost r: seq<int>)
    requires IsRing(d[..], r) && b < d.Length
    modifies d
    ensures IsRing(d[..], r)
    ensures d[..] == old(d[..])[b := old(d[b]).(data := Info(pages, old(d[b]).data.available))]
  {
    ghost var s := d[..];
    d[b] := d[b].(data := d[b].data.(pages := pages));
    RingKept(s, d[..], r);
  }

  method Resize(d: array<Node<Info>>, head: int, b: nat, pages: nat, ghost reach: nat, ghost r: seq<int>, ghost i: nat)
    returns (head': int)
    requires IsList(d[..], head, r) && i < |r| && r[i] == b && !d[b].data.available
    requires NextFree(d[..], b) ==> i + 1 < |r|
    requires reach == d[b].data.pages + if NextFree(d[..], b) then d[d[b].next].data.pages else 0
    requires 0 < pages <= reach && pages != d[b].data.pages && b + reach <= d.Length
    requires pages < reach ==> b + pages !in r
    modifies d
    ensures IsList(d[..], head',
                   if old(NextFree(d[..], b)) then
                     if pages < reach then r[i + 1 := b + pages] else RemoveAt(r, i + 1)
                   else InsertAt(r, i + 1, b + pages))
    ensures Carved(old(d[..]), d[..], b, reach, pages)
  {
    ghost var s := d[..];
    assert s[r[i]] == d[b];
    if pages < d[b].data.pages {
      head' := Shrink(d, head, b, pages, reach, r, i);
    } else {
      head' := Widen(d, head, b, pages, reach, r, i);
    }
  }

  method Shrink(d: array<Node<Info>>, head: int, b: nat, pages: nat, ghost reach: nat, ghost r: seq<int>, ghost i: nat)
    returns (head': int)
    requires IsList(d[..], head, r) && i < |r| && r[i] == b && !d[b].data.available
    requires 0 <= d[b].next < d.Length
    requires NextFree(d[..], b) ==> i + 1 < |r|
    requires reach == d[b].data.pages + if NextFree(d[..], b) then d[d[b].next].data.pages else 0
    requires 0 < pages < d[b].data.pages && b + reach <= d.Length && b + pages !in r
    modifies d
    ensures IsList(d[..], head', if old(NextFree(d[..], b)) then r[i + 1 := b + pages]
              else InsertAt(r, i + 1, b + pages))
    ensures Carved(old(d[..]), d[..], b, reach, pages)
  {
    var addr := AddrOf(b);
    var h := DescriptorOf(addr + pages * PAGE_SIZE);
    if b < d[b].next && d[d[b].next].data.available {
      head' := MoveHole(d, head, b, h, pages, reach, r, i);
    } else {
      NewHole(d, head, b, h, pages, reach, r, i);
      head' := head;
    }
  }

  /** The hole behind the block starts earlier (kernel/physmem.c:269-272). */
  method MoveHole(d: array<Node<Info>>, head: int, b: nat, h: nat, pages: nat, ghost reach: nat, ghost r: seq<int>,
                  ghost i: nat)
    returns (head': int)
    requires IsList(d[..], head, r) && i + 1 < |r| && r[i] == b && !d[b].data.available
    requires 0 <= d[b].next < d.Length && reach == d[b].data.pages + d[d[b].next].data.pages
    requires 0 < pages < d[b].data.pages && b + reach <= d.Length && h == b + pages && h !in r
    modifies d
    ensures IsList(d[..], head', r[i + 1 := h]) && Carved(old(d[..]), d[..], b, reach, pages)
  {
    MakeHole(d, h, d[d[b].next].data.pages + d[b].data.pages - pages, r);
    head' := ReplaceNext(d, head, b, h, r, i);
    SetPages(d, b, pages, r[i + 1 := h]);
  }

  /** A new hole behind the block (kernel/physmem.c:276-279). */
  method NewHole(d: array<Node<Info>>, head: int, b: nat, h: nat, pages: nat, ghost reach: nat, ghost r: seq<int>,
                 ghost i: nat)
    requires IsList(d[..], head, r) && i < |r| && r[i] == b && !d[b].data.available
    requires 0 < pages < d[b].data.pages == reach && b + reach <= d.Length && h == b + pages && h !in r
    modifies d
    ensures IsList(d[..], head, InsertAt(r, i + 1, h)) && Carved(old(d[..]), d[..], b, reach, pages)
  {
    MakeHole(d, h, d[b].data.pages - pages, r);
    InsertAfter(d, b, h, r, i);
    SetPages(d, b, pages, InsertAt(r, i + 1, h));
  }

  /** `list_remove(block_list_head, h)` at line 302 is read as removing the following hole. */
  method Widen(d: array<Node<Info>>, head: int, b: nat, pages: nat, ghost reach: nat, ghost r: seq<int>, ghost i: nat)
    returns (head': int)
    requires IsList(d[..], head, r) && i + 1 < |r| && r[i] == b && !d[b].data.available
    requires NextFree(d[..], b)
    requires reach == d[b].data.pages + d[d[b].next].data.pages
    requires d[b].data.pages < pages <= reach && b + reach <= d.Length
    requires pages < reach ==> b + pages !in r
    modifies d
    ensures IsList(d[..], head', if pages < reach then r[i + 1 := b + pages] else RemoveAt(r, i + 1))
    ensures Carved(old(d[..]), d[..], b, reach, pages)
  {
    ghost var s := d[..];
    var addr := AddrOf(b);
    head' := head;
    if d[d[b].next].data.pages > pages - d[b].data.pages {
      var h := DescriptorOf(addr + pages * PAGE_SIZE);
      MakeHole(d, h, d[d[b].next].data.pages - pages + d[b].data.pages, r);
      head' := ReplaceNext(d, head', b, h, r, i);
    } else {
      head' := RemoveNext(d, head', b, r, i);
    }
    SetPages(d, b, pages, if pages < reach then r[i + 1 := b + pages] else RemoveAt(r, i + 1));
  }

  lemma ResizeStale(s: seq<Node<Info>>, s': seq<Node<Info>>, bs: seq<Extent>, linked: set<nat>, i: nat, m: nat, k: nat)
    requires Wf(bs, |s|) && Remembered(s, bs, linked) && i < |bs| && !bs[i].hole
    requires m == (if HoleAfter(bs, i) then 2 else 1) && 0 < k <= Reach(bs, i) && End(bs[i + m - 1]) <= |s|
    requires Carved(s, s', bs[i].start, Reach(bs, i), k)
    ensures StaleAvailable(s', bs, linked, i, m, Carve(bs[i].start, Reach(bs, i), k))
  {
    var w := Carve(bs[i].start, Reach(bs, i), k);
    ResizeWindow(bs, |s|, i, m);
    assert w[0] == Extent(bs[i].start, k, false);
    forall p | p in linked && bs[i].start <= p < End(bs[i + m - 1]) && p !in StartSet(w) ensures s'[p].data.available {
      if e :| e in Live(bs) && e.start == p {
        LiveInWindow(bs, |s|, i, m, e);
      }
    }
  }

  lemma ResizeRange(bs: seq<Extent>, n: nat, i: nat, m: nat, k: nat)
    requires Wf(bs, n) && i < |bs| && !bs[i].hole && 0 < k <= Reach(bs, i)
    requires m == if HoleAfter(bs, i) then 2 else 1
    ensures SameRange(bs, i, m, Carve(bs[i].start, Reach(bs, i), k))
    ensures End(bs[i + m - 1]) == bs[i].start + Reach(bs, i) <= n
  {
    ResizeWindow(bs, n, i, m);
    CarveFacts(bs[i].start, Reach(bs, i), k);
    TilesAt(bs, 0, n, i + m - 1);
  }

  lemma ResizeRepresents(s: seq<Node<Info>>, s': seq<Node<Info>>, head: int, bs: seq<Extent>,
                         linked: set<nat>, i: nat, k: nat)
    requires Wf(bs, |s|) && Described(s, bs) && Remembered(s, bs, linked)
    requires i < |bs| && !bs[i].hole && 0 < k <= Reach(bs, i)
    requires Carved(s, s', bs[i].start, Reach(bs, i), k)
    requires IsList(s', head, Starts(ResizeAt(bs, i, k)))
    ensures Represents(s', head, ResizeAt(bs, i, k), linked + StartSet(Carve(bs[i].start, Reach(bs, i), k)))
  {
    var m := if HoleAfter(bs, i) then 2 else 1;
    ResizeRange(bs, |s|, i, m, k);
    CarvedDescribed(s, s', bs[i].start, Reach(bs, i), k);
    ResizeStale(s, s', bs, linked, i, m, k);
    ResizeKeeps(bs, |s|, i, k);
    SpliceRepresents(s, s', head, bs, linked, i, m, Carve(bs[i].start, Reach(bs, i), k));
  }

  // ---- The calls, on the descriptor array

  lemma FirstFitIs(bs: seq<Extent>, k: nat, i: nat)
    requires i <= |bs|
    requires i < |bs| ==> bs[i].hole && k <= bs[i].pages
    requires forall j :: 0 <= j < i ==> !(bs[j].hole && k <= bs[j].pages)
    ensures FirstFit(bs, k) == i
  {
    var f := FirstFit(bs, k);
  }

  lemma BeforeWalk(s: seq<Node<Info>>, head: int, bs: seq<Extent>, linked: set<nat>)
    requires Represents(s, head, bs, linked)
    ensures bs != [] && IsList(s, head, Starts(bs)) && Described(s, bs)
  {
    Open(s, head, bs, linked);
    TilesBounds(bs, 0, |s|);
  }

  lemma CarveIsFresh(bs: seq<Extent>, n: nat, i: nat, k: nat)
    requires Tiles(bs, 0, n) && i < |bs| && 0 < k
    ensures k < bs[i].pages ==> bs[i].start + k !in Starts(bs)
  {
    if k < bs[i].pages {
      NotAStart(bs, n, i, bs[i].start + k);
    }
  }

  lemma BeforeTake(s: seq<Node<Info>>, head: int, bs: seq<Extent>, linked: set<nat>, i: nat, k: nat)
    requires Represents(s, head, bs, linked)
    requires i < |bs| && bs[i].hole && 0 < k <= bs[i].pages
    ensures IsRing(s, Starts(bs)) && Starts(bs)[i] == bs[i].start
    ensures bs[i].start < |s| && s[bs[i].start].data.pages == bs[i].pages && End(bs[i]) <= |s|
    ensures k < bs[i].pages ==> bs[i].start + k !in Starts(bs)
  {
    Open(s, head, bs, linked);
    TilesAt(bs, 0, |s|, i);
    CarveIsFresh(bs, |s|, i, k);
    assert s[bs[i].start].data == Info(bs[i].pages, true);
  }

  lemma AfterTake(s: seq<Node<Info>>, s': seq<Node<Info>>, head: int, bs: seq<Extent>, linked: set<nat>, i: nat, k: nat)
    requires Represents(s, head, bs, linked)
    requires i < |bs| && bs[i].hole && 0 < k <= bs[i].pages
    requires IsRing(s', if k < bs[i].pages then InsertAt(Starts(bs), i + 1, bs[i].start + k) else Starts(bs))
    requires Carved(s, s', bs[i].start, bs[i].pages, k)
    ensures Represents(s', head, AllocAt(bs, i, k), linked + StartSet(Carve(bs[i].start, bs[i].pages, k)))
  {
    Open(s, head, bs, linked);
    CarveStarts(bs, i, 1, bs[i].pages, k);
    assert Starts(AllocAt(bs, i, k))[0] == Starts(bs)[0];
    TakeRepresents(s, s', head, bs, linked, i, k);
  }

  method TakeBlock(d: array<Node<Info>>, head: int, b: nat, pages: nat, ghost bs: seq<Extent>,
                   ghost linked: set<nat>, ghost i: nat)
    returns (ghost linked': set<nat>)
    requires Represents(d[..], head, bs, linked)
    requires i < |bs| && bs[i].hole && 0 < pages <= bs[i].pages && b == bs[i].start
    modifies d
    ensures linked <= linked' && Represents(d[..], head, AllocAt(bs, i, pages), linked')
  {
    ghost var s := d[..];
    BeforeTake(s, head, bs, linked, i, pages);
    Take(d, b, pages, bs[i].pages, Starts(bs), i);
    AfterTake(s, d[..], head, bs, linked, i, pages);
    linked' := linked + StartSet(Carve(bs[i].start, bs[i].pages, pages));
  }

  /** __alloc_physmem_block, kernel/physmem.c:142-180 */
  method AllocBlock(d: array<Node<Info>>, head: int, pages: nat, ghost bs: seq<Extent>, ghost linked: set<nat>)
    returns (res: Ret, addr: nat, ghost linked': set<nat>)
    requires Represents(d[..], head, bs, linked)
    modifies d
    ensures linked <= linked'
    ensures Represents(d[..], head, Apply(bs, d.Length, Op.Alloc(pages)), linked')
    ensures res == if pages == 0 then InvalidArg else if FirstFit(bs, pages) < |bs| then Ok else NoMem
    ensures res == Ok ==> addr == AddrOf(bs[FirstFit(bs, pages)].start)
    ensures res != Ok ==> d[..] == old(d[..]) && linked' == linked && Apply(bs, d.Length, Op.Alloc(pages)) == bs
  {
    addr := 0;
    linked' := linked;
    if pages == 0 {
      return InvalidArg, addr, linked';
    }
    var b;
    ghost var i;
    BeforeWalk(d[..], head, bs, linked);
    b, i := FindHole(d, head, pages, bs);
    if b == NULL {
      return NoMem, addr, linked';
    }
    linked' := TakeBlock(d, head, b, pages, bs, linked, i);
    addr := AddrOf(b);
    res := Ok;
  }

  lemma BeforeFree(s: seq<Node<Info>>, head: int, bs: seq<Extent>, linked: set<nat>, p: nat)
    requires Represents(s, head, bs, linked) && p in linked
    ensures p < |s| && 0 < |s|
    ensures !s[p].data.available <==> LiveStart(bs, p)
    ensures LiveStart(bs, p) <==> Find(bs, p) < |bs|
  {
    Open(s, head, bs, linked);
    var i := Find(bs, p);
    if i < |bs| {
      LiveAt(bs, bs[i]);
    }
    if e :| e in Live(bs) && e.start == p {
      FindLive(bs, |s|, p, e);
    }
  }

  method ReleaseBlock(d: array<Node<Info>>, head: int, b: nat, ghost bs: seq<Extent>, ghost linked: set<nat>,
                      ghost i: nat)
    returns (head': int)
    requires Represents(d[..], head, bs, linked)
    requires i < |bs| && !bs[i].hole && b == bs[i].start
    modifies d
    ensures Represents(d[..], head', FreeAt(bs, i), linked)
  {
    ghost var s := d[..];
    Open(s, head, bs, linked);
    head' := Release(d, head, b, bs, i);
    ReleaseRepresents(s, d[..], head', bs, linked, i);
  }

  /** free_physmem_block, kernel/physmem.c:199-231 */
  method FreeBlock(d: array<Node<Info>>, head: int, addr: nat, ghost bs: seq<Extent>, ghost linked: set<nat>)
    returns (res: Ret, head': int)
    requires Represents(d[..], head, bs, linked) && 0 < d.Length
    requires DescriptorOf(addr) + 1 < d.Length ==> DescriptorOf(addr) in linked
    modifies d
    ensures Represents(d[..], head', Apply(bs, d.Length, Op.Free(DescriptorOf(addr))), linked)
    ensures res == if d.Length <= DescriptorOf(addr) + 1 then Panic
                   else if LiveStart(bs, DescriptorOf(addr)) then Ok else Fail
    ensures res != Ok ==> d[..] == old(d[..]) && head' == head
  {
    head' := head;
    if addr >= AddrOf(d.Length) - PAGE_SIZE {
      return Panic, head';
    }
    var b := DescriptorOf(addr);
    BeforeFree(d[..], head, bs, linked, b);
    if d[b].data.available {
      return Fail, head';
    }
    head' := ReleaseBlock(d, head, b, bs, linked, Find(bs, b));
    res := Ok;
  }

  lemma ResizeIsFresh(bs: seq<Extent>, n: nat, i: nat, k: nat)
    requires Tiles(bs, 0, n) && i < |bs| && 0 < k < Reach(bs, i) && k != bs[i].pages
    ensures bs[i].start + k !in Starts(bs)
  {
    TilesAt(bs, 0, n, i);
    if k < bs[i].pages {
      NotAStart(bs, n, i, bs[i].start + k);
    } else {
      NotAStart(bs, n, i + 1, bs[i].start + k);
    }
  }

  lemma BeforeResize(s: seq<Node<Info>>, head: int, bs: seq<Extent>, linked: set<nat>, i: nat)
    requires Represents(s, head, bs, linked) && i < |bs| && !bs[i].hole
    ensures IsList(s, head, Starts(bs)) && Starts(bs)[i] == bs[i].start
    ensures bs[i].start < |s| && s[bs[i].start].data == Info(bs[i].pages, false)
    ensures 0 <= s[bs[i].start].next < |s|
    ensures NextFree(s, bs[i].start) <==> HoleAfter(bs, i)
    ensures HoleAfter(bs, i) ==> s[s[bs[i].start].next].data == Info(bs[i + 1].pages, true)
    ensures bs[i].start + Reach(bs, i) <= |s|
  {
    Open(s, head, bs, linked);
    ResizeWindow(bs, |s|, i, if HoleAfter(bs, i) then 2 else 1);
    TilesAt(bs, 0, |s|, i + if HoleAfter(bs, i) then 1 else 0);
    NextIsHole(s, head, bs, i);
    assert s[bs[i].start].data == Info(bs[i].pages, false);
    if HoleAfter(bs, i) {
      assert s[bs[i + 1].start].data == Info(bs[i + 1].pages, true);
    }
  }

  /** What the branches of kernel/physmem.c:256-309 read. */
  lemma ResizeGuards(s: seq<Node<Info>>, head: int, bs: seq<Extent>, linked: set<nat>, i: nat)
    requires Represents(s, head, bs, linked) && i < |bs| && !bs[i].hole
    ensures bs[i].start < |s| && s[bs[i].start].data == Info(bs[i].pages, false)
    ensures 0 <= s[bs[i].start].next < |s|
    ensures NextFree(s, bs[i].start) <==> HoleAfter(bs, i)
    ensures HoleAfter(bs, i) ==> s[s[bs[i].start].next].data == Info(bs[i + 1].pages, true)
  {
    BeforeResize(s, head, bs, linked, i);
  }

  lemma AfterResize(s: seq<Node<Info>>, s': seq<Node<Info>>, head: int, head': int, bs: seq<Extent>,
                    linked: set<nat>, i: nat, k: nat)
    requires Represents(s, head, bs, linked) && i < |bs| && !bs[i].hole
    requires 0 < k <= Reach(bs, i) && k != bs[i].pages
    requires IsList(s', head', var r := Starts(bs);
                    if HoleAfter(bs, i) then
                      if k < Reach(bs, i) then r[i + 1 := bs[i].start + k] else RemoveAt(r, i + 1)
                    else InsertAt(r, i + 1, bs[i].start + k))
    requires Carved(s, s', bs[i].start, Reach(bs, i), k)
    ensures Represents(s', head', ResizeAt(bs, i, k), linked + StartSet(Carve(bs[i].start, Reach(bs, i), k)))
  {
    Open(s, head, bs, linked);
    CarveStarts(bs, i, if HoleAfter(bs, i) then 2 else 1, Reach(bs, i), k);
    ResizeRepresents(s, s', head', bs, linked, i, k);
  }

  lemma ResizeFresh(s: seq<Node<Info>>, head: int, bs: seq<Extent>, linked: set<nat>, i: nat, k: nat)
    requires Represents(s, head, bs, linked) && i < |bs| && 0 < k && k != bs[i].pages
    ensures k < Reach(bs, i) ==> bs[i].start + k !in Starts(bs)
  {
    Open(s, head, bs, linked);
    if k < Reach(bs, i) {
      ResizeIsFresh(bs, |s|, i, k);
    }
  }

  method ResizeBlock(d: array<Node<Info>>, head: int, b: nat, pages: nat, ghost bs: seq<Extent>,
                     ghost linked: set<nat>, ghost i: nat)
    returns (head': int, ghost linked': set<nat>)
    requires Represents(d[..], head, bs, linked)
    requires i < |bs| && !bs[i].hole && b == bs[i].start
    requires 0 < pages <= Reach(bs, i) && pages != bs[i].pages
    modifies d
    ensures linked <= linked' && Represents(d[..], head', ResizeAt(bs, i, pages), linked')
  {
    ghost var s := d[..];
    BeforeResize(s, head, bs, linked, i);
    ResizeFresh(s, head, bs, linked, i, pages);
    head' := Resize(d, head, b, pages, Reach(bs, i), Starts(bs), i);
    AfterResize(s, d[..], head, head', bs, linked, i, pages);
    linked' := linked + StartSet(Carve(bs[i].start, Reach(bs, i), pages));
  }
}
