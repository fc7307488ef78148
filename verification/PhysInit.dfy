/** init_physmem of kernel/physmem.c: the first block list, and exactly when it tiles memory. */
module PhysInit {
  import opened Common
  import opened Ring
  import opened BlockList
  import opened BlockCalls
  import opened Descriptors

  const BIOS_START: nat := 0x0a0000
  const BIOS_END: nat := 0x100000
  /** sizeof(struct block): two words and two links. */
  const DESCRIPTOR_SIZE: nat := 16

  /** The macro add_block: the start is rounded down and the end is rounded up. */
  function AddBlock(start: nat, end: nat, hole: bool): Extent
    requires start <= end
  {
    Extent(AlignDown(start) / PAGE_SIZE, (AlignUp(end) - AlignDown(start)) / PAGE_SIZE, hole)
  }

  function PageCount(memsize: nat): nat { memsize / PAGE_SIZE }

  datatype Layout = Low | High | Impossible

  /** Where the descriptor array goes, kernel/physmem.c:105-112. */
  function Choose(memsize: nat, kernelEnd: nat): Layout
    requires kernelEnd <= BIOS_START && BIOS_END <= memsize
  {
    if PageCount(memsize) * DESCRIPTOR_SIZE <= BIOS_START - kernelEnd then Low
    else if PageCount(memsize) * DESCRIPTOR_SIZE <= memsize - BIOS_END then High
    else Impossible
  }

  /** The array finds no place, and the kernel panics, exactly if memory ends less than 4112 bytes above the
      first MiB and the array does not fit below the video memory. */
  lemma PanicsIff(memsize: nat, kernelEnd: nat)
    requires kernelEnd <= BIOS_START && BIOS_END <= memsize
    ensures Choose(memsize, kernelEnd) == Impossible <==>
            memsize < 0x10_1010 && 0xa_0000 < kernelEnd + memsize / 4096 * 16
  {
  }

  /** The address behind the descriptor array. */
  function ArrayEnd(memsize: nat, kernelEnd: nat): nat
    requires kernelEnd <= BIOS_START && BIOS_END <= memsize
  {
    (if Choose(memsize, kernelEnd) == Low then kernelEnd else BIOS_END) + PageCount(memsize) * DESCRIPTOR_SIZE
  }

  /** kernel/physmem.c:125-135 */
  function InitialBlocks(memsize: nat, kernelEnd: nat): seq<Extent>
    requires kernelEnd <= BIOS_START && BIOS_END <= memsize
    requires Choose(memsize, kernelEnd) != Impossible
  {
    var end := ArrayEnd(memsize, kernelEnd);
    if Choose(memsize, kernelEnd) == Low then
      [AddBlock(0, end, false), AddBlock(end, BIOS_START, true),
       AddBlock(BIOS_START, BIOS_END, false), AddBlock(BIOS_END, memsize, true)]
    else
      [AddBlock(0, kernelEnd, false), AddBlock(kernelEnd, BIOS_START, true),
       AddBlock(BIOS_START, end, false), AddBlock(end, memsize, true)]
  }

  /** Every boundary between two blocks lies on a page and no block is empty. */
  predicate Aligned(memsize: nat, kernelEnd: nat)
    requires kernelEnd <= BIOS_START && BIOS_END <= memsize
    requires Choose(memsize, kernelEnd) != Impossible
  {
    var end := ArrayEnd(memsize, kernelEnd);
    && memsize % PAGE_SIZE == 0
    && end % PAGE_SIZE == 0
    && (Choose(memsize, kernelEnd) == Low ==> end < BIOS_START && BIOS_END < memsize)
    && (Choose(memsize, kernelEnd) == High ==>
          kernelEnd % PAGE_SIZE == 0 && 0 < kernelEnd < BIOS_START && end < memsize)
  }

  lemma FourTiles(a: Extent, b: Extent, c: Extent, d: Extent, n: nat)
    ensures Tiles([a, b, c, d], 0, n) <==>
              && a.start == 0 && b.start == End(a) && c.start == End(b) && d.start == End(c) && n == End(d)
              && 0 < a.pages && 0 < b.pages && 0 < c.pages && 0 < d.pages
  {
    assert [a, b, c, d][1..] == [b, c, d] && [b, c, d][1..] == [c, d] && [c, d][1..] == [d] && [d][1..] == [];
    assert Tiles([d], End(c), n) <==> d.start == End(c) && 0 < d.pages && End(d) == n;
    assert Tiles([c, d], End(b), n) <==> c.start == End(b) && 0 < c.pages && Tiles([d], End(c), n);
    assert Tiles([b, c, d], End(a), n) <==> b.start == End(a) && 0 < b.pages && Tiles([c, d], End(b), n);
  }

  lemma AddBlockFacts(start: nat, end: nat, hole: bool)
    requires start <= end
    ensures AddBlock(start, end, hole).start == start / PAGE_SIZE
    ensures End(AddBlock(start, end, hole)) == (end + (PAGE_SIZE - 1)) / PAGE_SIZE
  {
  }

  /** Rounding up and rounding down meet exactly on page boundaries. */
  lemma Boundary(x: nat)
    ensures x / PAGE_SIZE == (x + (PAGE_SIZE - 1)) / PAGE_SIZE <==> x % PAGE_SIZE == 0
    ensures x / PAGE_SIZE <= (x + (PAGE_SIZE - 1)) / PAGE_SIZE
  {
  }

  /** Four blocks with boundaries `p`, `q` and `r` in a memory of `m` bytes. */
  lemma FourBlocks(p: nat, q: nat, r: nat, m: nat)
    requires p <= q <= r <= m
    ensures Tiles([AddBlock(0, p, false), AddBlock(p, q, true), AddBlock(q, r, false), AddBlock(r, m, true)],
                  0, PageCount(m)) <==>
              && p % PAGE_SIZE == 0 && q % PAGE_SIZE == 0 && r % PAGE_SIZE == 0 && m % PAGE_SIZE == 0
              && 0 < p < q < r < m
  {
    FourTiles(AddBlock(0, p, false), AddBlock(p, q, true), AddBlock(q, r, false), AddBlock(r, m, true), PageCount(m));
    AddBlockFacts(0, p, false);
    AddBlockFacts(p, q, true);
    AddBlockFacts(q, r, false);
    AddBlockFacts(r, m, true);
    Boundary(p);
    Boundary(q);
    Boundary(r);
    Boundary(m);
  }

  /** The initial list is well formed exactly when the boundaries are page-aligned: otherwise
      two neighbours share a page, or the last block runs past the end of memory. */
  lemma InitTilesIffAligned(memsize: nat, kernelEnd: nat)
    requires kernelEnd <= BIOS_START && BIOS_END <= memsize
    requires Choose(memsize, kernelEnd) != Impossible
    ensures Wf(InitialBlocks(memsize, kernelEnd), PageCount(memsize)) <==> Aligned(memsize, kernelEnd)
  {
    var end := ArrayEnd(memsize, kernelEnd);
    if Choose(memsize, kernelEnd) == Low {
      FourBlocks(end, BIOS_START, BIOS_END, memsize);
    } else {
      FourBlocks(kernelEnd, BIOS_START, end, memsize);
    }
  }

  /** A kernel of 64 KiB on a machine of 4 MiB and a page: the array of 1025 descriptors does not end on
      a page boundary, so the hole behind it starts on its last page. */
  lemma UnalignedExample()
    ensures var bs := InitialBlocks(0x401000, 0x10000);
            !Wf(bs, PageCount(0x401000)) && bs[0] == Extent(0, 21, false) && bs[1] == Extent(20, 140, true)
  {
    InitTilesIffAligned(0x401000, 0x10000);
  }

  // ---- What is in use at the start

  /** Four blocks, every other one a hole. */
  lemma FourInUse(a: Extent, b: Extent, c: Extent, d: Extent, q: nat)
    requires !a.hole && b.hole && !c.hole && d.hole
    ensures InUse([a, b, c, d], q) <==> a.start <= q < End(a) || c.start <= q < End(c)
  {
    var bs := [a, b, c, d];
    LiveAt(bs, a);
    LiveAt(bs, c);
    assert bs[0] == a && bs[2] == c;
    if e :| e in Live(bs) && e.start <= q < End(e) {
      LiveAt(bs, e);
    }
  }

  /** A page lies before a page boundary exactly if its address does. */
  lemma PageBefore(q: nat, x: nat)
    requires x % PAGE_SIZE == 0
    ensures q < (x + (PAGE_SIZE - 1)) / PAGE_SIZE <==> q * PAGE_SIZE < x
    ensures q < x / PAGE_SIZE <==> q * PAGE_SIZE < x
  {
  }

  lemma BlocksInUse(p: nat, q: nat, r: nat, m: nat, k: nat)
    requires p <= q <= r <= m && p % PAGE_SIZE == 0 && q % PAGE_SIZE == 0 && r % PAGE_SIZE == 0
    ensures InUse([AddBlock(0, p, false), AddBlock(p, q, true), AddBlock(q, r, false), AddBlock(r, m, true)], k) <==>
            k * PAGE_SIZE < p || q <= k * PAGE_SIZE < r
  {
    FourInUse(AddBlock(0, p, false), AddBlock(p, q, true), AddBlock(q, r, false), AddBlock(r, m, true), k);
    AddBlockFacts(0, p, false);
    AddBlockFacts(q, r, false);
    PageBefore(k, p);
    PageBefore(k, q);
    PageBefore(k, r);
  }

  /** At the start, the pages in use are exactly those of the kernel image, of the descriptor array of 16
      bytes a page, behind the kernel if it fits there and above the BIOS otherwise, and of the video
      memory and the BIOS. */
  lemma InUseAtStart(memsize: nat, kernelEnd: nat, q: nat)
    requires kernelEnd <= BIOS_START && BIOS_END <= memsize
    requires Choose(memsize, kernelEnd) != Impossible && Aligned(memsize, kernelEnd)
    ensures var size := memsize / 4096 * 16;
            var start := if size <= 0xa_0000 - kernelEnd then kernelEnd else 0x10_0000;
            InUse(InitialBlocks(memsize, kernelEnd), q) <==>
              || q * 4096 < kernelEnd
              || start <= q * 4096 < start + size
              || 0xa_0000 <= q * 4096 < 0x10_0000
  {
    var end := ArrayEnd(memsize, kernelEnd);
    if Choose(memsize, kernelEnd) == Low {
      BlocksInUse(end, BIOS_START, BIOS_END, memsize, q);
    } else {
      BlocksInUse(kernelEnd, BIOS_START, end, memsize, q);
    }
  }

  /** `image` is the live block of the kernel image, and there is a page left. */
  ghost predicate Bootable(bs: seq<Extent>, image: Extent, kernelEnd: nat)
  {
    && image in Live(bs) && image.start == 0 && kernelEnd <= End(image) * PAGE_SIZE
    && FirstFit(bs, 1) < |bs|
  }

  lemma ImageAtStart(memsize: nat, kernelEnd: nat) returns (image: Extent)
    requires kernelEnd <= BIOS_START && BIOS_END <= memsize
    requires Choose(memsize, kernelEnd) != Impossible && Aligned(memsize, kernelEnd)
    ensures Bootable(InitialBlocks(memsize, kernelEnd), image, kernelEnd)
  {
    var bs, n := InitialBlocks(memsize, kernelEnd), PageCount(memsize);
    InitTilesIffAligned(memsize, kernelEnd);
    image := bs[0];
    LiveAt(bs, image);
    AddBlockFacts(0, if Choose(memsize, kernelEnd) == Low then ArrayEnd(memsize, kernelEnd) else kernelEnd, false);
    TilesAt(bs, 0, n, 1);
    assert bs[1] in bs && bs[1].hole && 1 <= bs[1].pages;
    LowestFit(bs, n, 1);
  }

  // ---- Building the list

  ghost predicate Listed(s: seq<Node<Info>>, head: int, bs: seq<Extent>)
  {
    IsList(s, head, Starts(bs)) && Described(s, bs)
  }

  method Add(d: array<Node<Info>>, head: int, e: Extent, ghost bs: seq<Extent>) returns (head': int)
    requires Listed(d[..], head, bs) && e.start < d.Length
    requires forall i :: 0 <= i < |bs| ==> bs[i].start != e.start
    modifies d
    ensures Listed(d[..], head', bs + [e])
  {
    ghost var s, r := d[..], Starts(bs);
    var b := e.start;
    d[b] := d[b].(data := d[b].data.(pages := e.pages));
    d[b] := d[b].(data := d[b].data.(available := e.hole));
    RingKept(s, d[..], r);
    head' := Append(d, head, b, r);
    AddListed(s, d[..], bs, e);
  }

  lemma AddListed(s: seq<Node<Info>>, s': seq<Node<Info>>, bs: seq<Extent>, e: Extent)
    requires Described(s, bs) && e.start < |s| == |s'|
    requires forall i :: 0 <= i < |bs| ==> bs[i].start != e.start
    requires forall p {:trigger s'[p]} :: 0 <= p < |s| ==>
               s'[p].data == if p == e.start then Info(e.pages, e.hole) else s[p].data
    ensures Starts(bs + [e]) == InsertAt(Starts(bs), |bs|, e.start)
    ensures Described(s', bs + [e])
  {
    var cs := bs + [e];
    forall i {:trigger cs[i]} {:trigger s'[cs[i].start]} | 0 <= i < |cs|
      ensures cs[i].start < |s'| && s'[cs[i].start].data == Info(cs[i].pages, cs[i].hole)
    {
      if i < |bs| {
        assert cs[i] == bs[i] && s[bs[i].start].data == Info(bs[i].pages, bs[i].hole);
      }
    }
  }

  lemma ListedRepresents(s: seq<Node<Info>>, head: int, bs: seq<Extent>)
    requires Listed(s, head, bs) && Wf(bs, |s|)
    ensures Represents(s, head, bs, StartSet(bs))
  {
    forall p | p in StartSet(bs) ensures p < |s| && (!s[p].data.available <==> LiveStart(bs, p)) {
      var i :| 0 <= i < |bs| && bs[i].start == p;
      WindowStart(bs, 0, |s|, p);
      assert s[bs[i].start].data == Info(bs[i].pages, bs[i].hole);
    }
  }

  /** kernel/physmem.c:116-135, for page-aligned boundaries. The descriptor array is raw memory. */
  method Initialize(d: array<Node<Info>>, memsize: nat, kernelEnd: nat) returns (head: int, ghost bs: seq<Extent>)
    requires kernelEnd <= BIOS_START && BIOS_END <= memsize
    requires Choose(memsize, kernelEnd) != Impossible && Aligned(memsize, kernelEnd)
    requires d.Length == PageCount(memsize)
    modifies d
    ensures bs == InitialBlocks(memsize, kernelEnd)
    ensures Represents(d[..], head, bs, StartSet(bs))
  {
    var init := InitialBlocks(memsize, kernelEnd);
    InitTilesIffAligned(memsize, kernelEnd);
    head := AddFour(d, init);
    bs := init;
    ListedRepresents(d[..], head, bs);
  }

  method AddFour(d: array<Node<Info>>, init: seq<Extent>) returns (head: int)
    requires |init| == 4 && Tiles(init, 0, d.Length)
    modifies d
    ensures Listed(d[..], head, init)
  {
    head := NULL;
    assert Starts(init[..0]) == [];
    Fresh(init, d.Length, 0);
    head := Add(d, head, init[0], init[..0]);
    Fresh(init, d.Length, 1);
    head := Add(d, head, init[1], init[..1]);
    Fresh(init, d.Length, 2);
    head := Add(d, head, init[2], init[..2]);
    Fresh(init, d.Length, 3);
    head := Add(d, head, init[3], init[..3]);
    assert init[..4] == init;
  }

  lemma Fresh(init: seq<Extent>, n: nat, k: nat)
    requires Tiles(init, 0, n) && k < |init|
    ensures init[k].start < n && init[..k] + [init[k]] == init[..k + 1]
    ensures forall i :: 0 <= i < k ==> init[..k][i].start != init[k].start
  {
    TilesAt(init, 0, n, k);
    forall i | 0 <= i < k ensures init[i].start != init[k].start {
      TilesOrder(init, 0, n, i, k);
    }
  }
}
