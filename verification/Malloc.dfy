/** malloc, free and morecore of lib/stdlib.c. Addresses count header units. */
module Malloc {
  import opened Common
  import opened Break
  import opened Ring
  import opened FreeList

  datatype Header = Header(ptr: int, size: nat)

  type Memory = map<int, Header>

  // ---- How headers in memory represent the free list

  ghost predicate Linked(mem: Memory, fs: seq<Blk>)
  {
    && (forall i {:trigger fs[i]} :: 0 <= i < |fs| ==> fs[i].addr in mem)
    && (forall i {:trigger mem[fs[i].addr]} :: 0 <= i < |fs| ==>
          mem[fs[i].addr] == Header(fs[Succ(i, |fs|)].addr, fs[i].size))
  }

  // ---- The search of free, lib/stdlib.c:132-134

  /** Steps from position `j` to position `k` along a ring of `n`. */
  function Ahead(j: nat, k: nat, n: nat): int { if j <= k then k - j else k - j + n }

  /** `k` is the position behind which address `bp` belongs. */
  ghost predicate Below(fs: seq<Blk>, k: nat, bp: int)
  {
    k < |fs| && fs[k].addr < bp && (k + 1 < |fs| ==> bp < fs[k + 1].addr)
  }

  /** The highest block of the list below `bp` is at `p`. */
  ghost predicate NearestBelow(fs: seq<Blk>, bp: int, p: int)
  {
    exists k: nat {:trigger Below(fs, k, bp)} :: Below(fs, k, bp) && p == fs[k].addr
  }

  /** At position `j` the loop stops exactly when `j == k`. */
  lemma SearchStop(fs: seq<Blk>, j: nat, k: nat, bp: int)
    requires Sorted(fs) && Below(fs, k, bp) && j < |fs|
    ensures var p, next := fs[j].addr, fs[Succ(j, |fs|)].addr;
            ((bp > p && bp < next) || (p >= next && (bp > p || bp < next))) <==> j == k
  {
    var n := Succ(j, |fs|);
    if j < k {
      assert fs[j].addr < fs[k].addr;
      assert n <= k && fs[n].addr <= fs[k].addr;
    } else if k < j {
      assert fs[k + 1].addr <= fs[j].addr;
      assert n == 0 || fs[j].addr < fs[n].addr;
      assert n == 0 ==> fs[0].addr <= fs[k].addr;
    } else if n == 0 {
      assert fs[0].addr <= fs[j].addr;
    }
  }

  /** From any starting point the gap is found within one trip round the list. */
  method FindGap(mem: Memory, freep: int, bp: int, ghost fs: seq<Blk>, ghost k: nat, ghost start: nat)
    returns (p: int, ghost steps: nat)
    requires Sorted(fs) && Linked(mem, fs) && Below(fs, k, bp)
    requires start < |fs| && freep == fs[start].addr
    ensures p == fs[k].addr && steps < |fs|
  {
    p := freep;
    ghost var j: nat := start;
    steps := 0;
    SearchStop(fs, j, k, bp);
    while !(bp > p && bp < mem[p].ptr)
      invariant j < |fs| && p == fs[j].addr && p in mem && mem[p].ptr == fs[Succ(j, |fs|)].addr
      invariant steps + Ahead(j, k, |fs|) == Ahead(start, k, |fs|)
      invariant ((bp > p && bp < mem[p].ptr) || (p >= mem[p].ptr && (bp > p || bp < mem[p].ptr))) <==> j == k
      decreases Ahead(j, k, |fs|)
    {
      if p >= mem[p].ptr && (bp > p || bp < mem[p].ptr) {
        break;
      }
      p := mem[p].ptr;
      j, steps := Succ(j, |fs|), steps + 1;
      SearchStop(fs, j, k, bp);
      assert mem[fs[j].addr].ptr == fs[Succ(j, |fs|)].addr;
    }
  }

  // ---- The links after free (lib/stdlib.c:136-148) and malloc (lib/stdlib.c:108-116)

  /** `gs` is `fs` with block `x` behind position `k` (`down` is 1) or in its place (`down` is 0),
      and with the next `up` blocks gone. */
  ghost predicate Reshaped(fs: seq<Blk>, gs: seq<Blk>, k: nat, up: nat, down: nat, x: Blk)
  {
    && up <= 1 && down <= 1 && k + up < |fs| && |gs| == |fs| + down - up
    && forall i {:trigger gs[i]} :: 0 <= i < |gs| ==>
      gs[i] == if i < k + down then fs[i] else if i == k + down then x else fs[i - down + up]
  }

  /** Headers to match: `x` points behind the window, position `k` at `x`, all others are kept. */
  ghost predicate Relinked(mem: Memory, mem': Memory, fs: seq<Blk>, k: nat, up: nat, down: nat, x: Blk)
    requires k + up < |fs|
  {
    && (forall i {:trigger fs[i]} :: 0 <= i < |fs| ==> fs[i].addr in mem && fs[i].addr in mem')
    && (forall i {:trigger mem'[fs[i].addr]} :: 0 <= i < |fs| && i != k ==> mem'[fs[i].addr] == mem[fs[i].addr])
    && x.addr in mem' && mem'[x.addr] == Header(fs[Succ(k + up, |fs|)].addr, x.size)
    && (down == 0 ==> x.addr == fs[k].addr)
    && (down == 1 ==> mem'[fs[k].addr] == Header(x.addr, fs[k].size))
  }

  lemma TailIndex(fs: seq<Blk>, gs: seq<Blk>, k: nat, up: nat, down: nat, x: Blk, i: nat)
    requires Reshaped(fs, gs, k, up, down, x) && k + down < i < |gs|
    requires down == 0 ==> x.addr == fs[k].addr
    ensures gs[i] == fs[i - down + up]
    ensures gs[Succ(i, |gs|)].addr == fs[Succ(i - down + up, |fs|)].addr
  {
  }

  lemma TailLink(mem: Memory, mem': Memory, fs: seq<Blk>, k: nat, up: nat, down: nat, x: Blk, j: nat)
    requires Linked(mem, fs) && k + up < j < |fs| && Relinked(mem, mem', fs, k, up, down, x)
    ensures fs[j].addr in mem' && mem'[fs[j].addr] == Header(fs[Succ(j, |fs|)].addr, fs[j].size)
  {
    assert mem'[fs[j].addr] == mem[fs[j].addr];
  }

  lemma FrontLink(mem: Memory, mem': Memory, fs: seq<Blk>, gs: seq<Blk>, k: nat, up: nat, down: nat, x: Blk, i: nat)
    requires Linked(mem, fs) && Reshaped(fs, gs, k, up, down, x) && Relinked(mem, mem', fs, k, up, down, x)
    requires i < k
    ensures gs[i] == fs[i] && gs[i].addr in mem' && mem'[gs[i].addr] == Header(gs[i + 1].addr, gs[i].size)
  {
    assert mem'[fs[i].addr] == mem[fs[i].addr];
    assert gs[i + 1].addr == fs[i + 1].addr;
  }

  /** The new block, and the one in front of it when that is another one. */
  lemma WindowLink(mem: Memory, mem': Memory, fs: seq<Blk>, gs: seq<Blk>, k: nat, up: nat, down: nat, x: Blk)
    requires Reshaped(fs, gs, k, up, down, x) && Relinked(mem, mem', fs, k, up, down, x)
    ensures k + down < |gs| && gs[k + down] == x
    ensures mem'[x.addr] == Header(gs[Succ(k + down, |gs|)].addr, x.size)
    ensures down == 1 ==> gs[k] == fs[k] && gs[k].addr in mem' && mem'[gs[k].addr] == Header(gs[k + 1].addr, gs[k].size)
  {
    var last := gs[Succ(k + down, |gs|)];
    assert last.addr == fs[Succ(k + up, |fs|)].addr;
  }

  lemma ReshapedLink(mem: Memory, mem': Memory, fs: seq<Blk>, gs: seq<Blk>, k: nat, up: nat, down: nat, x: Blk, i: nat)
    requires Linked(mem, fs) && Reshaped(fs, gs, k, up, down, x) && Relinked(mem, mem', fs, k, up, down, x)
    requires i < |gs|
    ensures gs[i].addr in mem' && mem'[gs[i].addr] == Header(gs[Succ(i, |gs|)].addr, gs[i].size)
  {
    WindowLink(mem, mem', fs, gs, k, up, down, x);
    if i < k {
      FrontLink(mem, mem', fs, gs, k, up, down, x, i);
    } else if k + down < i {
      TailIndex(fs, gs, k, up, down, x, i);
      TailLink(mem, mem', fs, k, up, down, x, i - down + up);
    }
  }

  lemma ReshapedLinked(mem: Memory, mem': Memory, fs: seq<Blk>, gs: seq<Blk>, k: nat, up: nat, down: nat, x: Blk)
    requires Linked(mem, fs) && Reshaped(fs, gs, k, up, down, x) && Relinked(mem, mem', fs, k, up, down, x)
    ensures Linked(mem', gs)
  {
    forall i {:trigger gs[i]} {:trigger mem'[gs[i].addr]} | 0 <= i < |gs|
      ensures gs[i].addr in mem' && mem'[gs[i].addr] == Header(gs[Succ(i, |gs|)].addr, gs[i].size)
    {
      ReshapedLink(mem, mem', fs, gs, k, up, down, x, i);
    }
  }

  lemma PlaceReshapes(fs: seq<Blk>, k: nat, c: Blk, up: nat, join: bool)
    requires up <= 1 && k + up < |fs|
    ensures Reshaped(fs, Place(fs, k, c, fs[k + 1 + up..], join), k, up, if join then 0 else 1,
                     if join then Blk(fs[k].addr, fs[k].size + c.size) else c)
  {
  }

  lemma TakeReshapes(fs: seq<Blk>, k: nat, n: nat)
    requires 0 < k < |fs| && n <= fs[k].size
    ensures if fs[k].size == n then Reshaped(fs, Take(fs, k, n), k - 1, 1, 0, fs[k - 1])
            else Reshaped(fs, Take(fs, k, n), k, 0, 0, Blk(fs[k].addr, fs[k].size - n))
  {
  }

  // ---- Free and live blocks together

  ghost predicate InLive(live: set<Blk>, u: int)
  {
    exists b :: b in live && b.addr <= u < End(b)
  }

  /** A live block: its header records its size, and it shares no unit with a free block. */
  ghost predicate LiveBlock(mem: Memory, fs: seq<Blk>, top: int, b: Blk)
    requires fs != []
  {
    && 0 < b.size && fs[0].addr < b.addr && End(b) <= top
    && b.addr in mem && mem[b.addr].size == b.size
    && Units(b) !! Cover(fs)
  }

  /** Live blocks are disjoint from each other and from the free list. */
  ghost predicate LiveBlocks(mem: Memory, fs: seq<Blk>, live: set<Blk>, top: int)
  {
    && Sorted(fs) && fs[0].addr < top
    && (forall b {:trigger b in live} :: b in live ==> LiveBlock(mem, fs, top, b))
    && (forall b, c {:trigger b in live, c in live} :: b in live && c in live && b != c ==>
          End(b) <= c.addr || End(c) <= b.addr)
  }

  /** The units obtained from sbrk are those of the free blocks and those of the live blocks. */
  ghost predicate Accounted(cover: set<int>, live: set<Blk>, obtained: set<int>)
  {
    forall u {:trigger u in obtained} {:trigger u in cover} :: u in obtained <==> u in cover || InLive(live, u)
  }

  /** Every unit obtained from sbrk is in exactly one free block or one live block. */
  ghost predicate Balanced(mem: Memory, fs: seq<Blk>, live: set<Blk>, obtained: set<int>, top: int)
  {
    && LiveBlocks(mem, fs, live, top)
    && Accounted(Cover(fs), live, obtained)
    && Bounded(obtained, fs[0].addr, top)
  }

  ghost predicate Bounded(obtained: set<int>, lo: int, hi: int)
  {
    forall u {:trigger u in obtained} :: u in obtained ==> lo < u < hi
  }

  lemma GrowBounded(obtained: set<int>, lo: int, hi: int, b: Blk)
    requires Bounded(obtained, lo, hi) && lo < hi <= b.addr
    ensures Bounded(obtained + Units(b), lo, End(b))
  {
  }

  lemma CoverBelow(cover: set<int>, live: set<Blk>, obtained: set<int>, lo: int, hi: int)
    requires Accounted(cover, live, obtained) && Bounded(obtained, lo, hi)
    ensures forall u :: u in cover ==> u < hi
  {
  }

  lemma FreeAccounted(cover: set<int>, live: set<Blk>, obtained: set<int>, b: Blk)
    requires Accounted(cover, live, obtained) && b in live
    ensures Accounted(cover + Units(b), live - {b}, obtained)
  {
    forall u ensures u in obtained <==> u in cover + Units(b) || InLive(live - {b}, u) {
      if InLive(live, u) {
        var c :| c in live && c.addr <= u < End(c);
        assert c != b ==> c in live - {b};
      }
    }
  }

  lemma TakeAccounted(cover: set<int>, live: set<Blk>, obtained: set<int>, b: Blk)
    requires Accounted(cover, live, obtained) && Units(b) <= cover
    ensures Accounted(cover - Units(b), live + {b}, obtained)
  {
    assert b in live + {b};
    forall u ensures u in obtained <==> u in cover - Units(b) || InLive(live + {b}, u) {
      if InLive(live, u) {
        var c :| c in live && c.addr <= u < End(c);
        assert c in live + {b};
      }
    }
  }

  lemma GrowAccounted(cover: set<int>, live: set<Blk>, obtained: set<int>, b: Blk)
    requires Accounted(cover, live, obtained)
    ensures Accounted(cover, live + {b}, obtained + Units(b))
  {
    assert b in live + {b};
    forall u ensures u in obtained + Units(b) <==> u in cover || InLive(live + {b}, u) {
      if InLive(live, u) {
        var c :| c in live && c.addr <= u < End(c);
        assert c in live + {b};
      }
    }
  }

  /** Headers of the blocks in `live` are as before. */
  ghost predicate HeadersKept(mem: Memory, mem': Memory, live: set<Blk>)
  {
    forall b {:trigger b in live} :: b in live ==> b.addr in mem && b.addr in mem' && mem'[b.addr] == mem[b.addr]
  }

  lemma GapOf(mem: Memory, fs: seq<Blk>, top: int, k: nat, b: Blk)
    requires Sorted(fs) && LiveBlock(mem, fs, top, b) && Below(fs, k, b.addr)
    ensures Gap(fs, k, b)
  {
    CoverHas(fs, k);
    assert b.addr in Units(b);
    assert End(fs[k]) <= b.addr;
    if k + 1 < |fs| {
      CoverHas(fs, k + 1);
      assert fs[k + 1].addr in Units(fs[k + 1]);
    }
  }

  lemma FreeLiveBlocks(mem: Memory, mem': Memory, fs: seq<Blk>, gs: seq<Blk>, b: Blk, live: set<Blk>, top: int)
    requires LiveBlocks(mem, fs, live, top) && b in live
    requires Sorted(gs) && gs[0] == fs[0] && Cover(gs) == Cover(fs) + Units(b)
    requires HeadersKept(mem, mem', live - {b})
    ensures LiveBlocks(mem', gs, live - {b}, top)
  {
    forall c {:trigger c in live} | c in live - {b} ensures LiveBlock(mem', gs, top, c) {
      assert LiveBlock(mem, fs, top, c);
      assert Units(c) !! Units(b);
    }
  }

  lemma FreeBalanced(mem: Memory, mem': Memory, fs: seq<Blk>, k: nat, b: Blk,
                     live: set<Blk>, obtained: set<int>, top: int)
    requires Balanced(mem, fs, live, obtained, top) && b in live && Gap(fs, k, b)
    requires HeadersKept(mem, mem', live - {b})
    ensures Balanced(mem', Insert(fs, k, b), live - {b}, obtained, top)
  {
    InsertKeeps(fs, k, b);
    FreeLiveBlocks(mem, mem', fs, Insert(fs, k, b), b, live, top);
    FreeAccounted(Cover(fs), live, obtained, b);
  }

  lemma TakeLiveBlocks(mem: Memory, mem': Memory, fs: seq<Blk>, gs: seq<Blk>, b: Blk, live: set<Blk>, top: int)
    requires LiveBlocks(mem, fs, live, top)
    requires Sorted(gs) && gs[0] == fs[0] && Cover(gs) == Cover(fs) - Units(b) && Units(b) <= Cover(fs)
    requires 0 < b.size && fs[0].addr < b.addr && End(b) <= top
    requires HeadersKept(mem, mem', live) && b.addr in mem' && mem'[b.addr].size == b.size
    ensures LiveBlocks(mem', gs, live + {b}, top)
  {
    forall c {:trigger c in live} | c in live
      ensures LiveBlock(mem', gs, top, c) && (End(b) <= c.addr || End(c) <= b.addr)
    {
      assert LiveBlock(mem, fs, top, c);
      UnitsApart(b, c);
    }
  }

  lemma TakeBalanced(mem: Memory, mem': Memory, fs: seq<Blk>, k: nat, n: nat,
                     live: set<Blk>, obtained: set<int>, top: int)
    requires Balanced(mem, fs, live, obtained, top) && k < |fs| && 0 < n <= fs[k].size
    requires HeadersKept(mem, mem', live)
    requires var b := Taken(fs, k, n); b.addr in mem' && mem'[b.addr].size == n
    ensures Balanced(mem', Take(fs, k, n), live + {Taken(fs, k, n)}, obtained, top)
  {
    var b := Taken(fs, k, n);
    TakeKeeps(fs, k, n);
    TakenBounds(mem, fs, live, obtained, top, b);
    TakeLiveBlocks(mem, mem', fs, Take(fs, k, n), b, live, top);
    TakeAccounted(Cover(fs), live, obtained, b);
  }

  lemma UnitsApart(b: Blk, c: Blk)
    requires 0 < b.size && 0 < c.size && Units(b) !! Units(c)
    ensures End(b) <= c.addr || End(c) <= b.addr
  {
    assert b.addr in Units(b) && c.addr in Units(c);
  }

  lemma TakenBounds(mem: Memory, fs: seq<Blk>, live: set<Blk>, obtained: set<int>, top: int, b: Blk)
    requires Balanced(mem, fs, live, obtained, top) && 0 < b.size && Units(b) <= Cover(fs)
    ensures fs[0].addr < b.addr && End(b) <= top
  {
    assert b.addr in Units(b) && End(b) - 1 in Units(b);
    assert b.addr in obtained && End(b) - 1 in obtained;
  }

  lemma GrowLiveBlocks(mem: Memory, mem': Memory, fs: seq<Blk>, b: Blk, live: set<Blk>, top: int)
    requires LiveBlocks(mem, fs, live, top) && 0 < b.size && top <= b.addr
    requires forall u :: u in Cover(fs) ==> u < top
    requires HeadersKept(mem, mem', live) && b.addr in mem' && mem'[b.addr].size == b.size
    ensures LiveBlocks(mem', fs, live + {b}, End(b))
  {
    forall c {:trigger c in live} | c in live ensures LiveBlock(mem', fs, End(b), c) && End(c) <= b.addr {
      assert LiveBlock(mem, fs, top, c);
    }
  }

  /** morecore: a fresh region at or above `top`, recorded as a live block about to be freed. */
  lemma GrowBalanced(mem: Memory, mem': Memory, fs: seq<Blk>, b: Blk, live: set<Blk>, obtained: set<int>, top: int)
    requires Balanced(mem, fs, live, obtained, top) && 0 < b.size && top <= b.addr
    requires HeadersKept(mem, mem', live) && b.addr in mem' && mem'[b.addr].size == b.size
    ensures Balanced(mem', fs, live + {b}, obtained + Units(b), End(b))
  {
    CoverBelow(Cover(fs), live, obtained, fs[0].addr, top);
    GrowBounded(obtained, fs[0].addr, top, b);
    GrowLiveBlocks(mem, mem', fs, b, live, top);
    GrowAccounted(Cover(fs), live, obtained, b);
  }

  // ---- The heap

  ghost predicate OnList(fs: seq<Blk>, p: int)
  {
    exists i :: 0 <= i < |fs| && fs[i].addr == p
  }

  ghost predicate HeapParts(mem: Memory, freep: int, fs: seq<Blk>, live: set<Blk>, obtained: set<int>, top: int)
  {
    Linked(mem, fs) && Balanced(mem, fs, live, obtained, top) && OnList(fs, freep)
  }

  /** `HeapParts`, kept folded so that callers carry it around as one fact. */
  ghost predicate HeapOk(mem: Memory, freep: int, fs: seq<Blk>, live: set<Blk>, obtained: set<int>, top: int)
  {
    forall k {:trigger Unfold(k)} :: Unfold(k) ==> HeapParts(mem, freep, fs, live, obtained, top)
  }

  lemma Open(mem: Memory, freep: int, fs: seq<Blk>, live: set<Blk>, obtained: set<int>, top: int)
    requires HeapOk(mem, freep, fs, live, obtained, top)
    ensures HeapParts(mem, freep, fs, live, obtained, top)
  {
    assert Unfold(0);
  }

  /** Only the headers at `p` and `q` may differ. */
  ghost predicate OnlyAt(mem: Memory, mem': Memory, p: int, q: int)
  {
    forall a {:trigger a in mem} {:trigger a in mem'} :: a in mem ==> a in mem' && (a != p && a != q ==>
          mem'[a] == mem[a])
  }

  /** lib/stdlib.c:136-148 on the two headers and the one behind them. */
  method Coalesce(mem: Memory, p: int, bp: int) returns (mem': Memory)
    requires p in mem && bp in mem && p != bp && mem[p].ptr in mem && mem[p].ptr != bp
    ensures OnlyAt(mem, mem', p, bp) && p in mem' && bp in mem'
    ensures var next := mem[p].ptr;
            var b := if bp + mem[bp].size == next then Header(mem[next].ptr, mem[bp].size + mem[next].size)
                     else Header(next, mem[bp].size);
            if p + mem[p].size == bp
            then mem'[p] == Header(b.ptr, mem[p].size + b.size)
            else mem'[p] == Header(bp, mem[p].size) && mem'[bp] == b
  {
    mem' := mem;
    if bp + mem'[bp].size == mem'[p].ptr {
      mem' := mem'[bp := mem'[bp].(size := mem'[bp].size + mem'[mem'[p].ptr].size)];
      mem' := mem'[bp := mem'[bp].(ptr := mem'[mem'[p].ptr].ptr)];
    } else {
      mem' := mem'[bp := mem'[bp].(ptr := mem'[p].ptr)];
    }
    if p + mem'[p].size == bp {
      mem' := mem'[p := mem'[p].(size := mem'[p].size + mem'[bp].size)];
      mem' := mem'[p := mem'[p].(ptr := mem'[bp].ptr)];
    } else {
      mem' := mem'[p := mem'[p].(ptr := bp)];
    }
  }

  lemma CoalescedLinks(mem: Memory, mem': Memory, fs: seq<Blk>, k: nat, b: Blk)
    requires Sorted(fs) && Linked(mem, fs) && Gap(fs, k, b) && b.addr in mem && mem[b.addr].size == b.size
    requires OnlyAt(mem, mem', fs[k].addr, b.addr) && fs[k].addr in mem' && b.addr in mem'
    requires var p, bp := fs[k].addr, b.addr;
             var next := mem[p].ptr;
             next in mem &&
             var h := if bp + mem[bp].size == next then Header(mem[next].ptr, mem[bp].size + mem[next].size)
                      else Header(next, mem[bp].size);
             if p + mem[p].size == bp
             then mem'[p] == Header(h.ptr, mem[p].size + h.size)
             else mem'[p] == Header(bp, mem[p].size) && mem'[bp] == h
    ensures Linked(mem', Insert(fs, k, b))
  {
    var up, join, c := if JoinsNext(fs, k, b) then 1 else 0, JoinsPrev(fs, k, b), JoinNext(fs, k, b);
    var x := if join then Blk(fs[k].addr, fs[k].size + c.size) else c;
    assert mem[fs[k].addr] == Header(fs[Succ(k, |fs|)].addr, fs[k].size);
    if up == 1 {
      assert mem[fs[k + 1].addr] == Header(fs[Succ(k + 1, |fs|)].addr, fs[k + 1].size);
    }
    NotListed(fs, k, b);
    PlaceReshapes(fs, k, c, up, join);
    ReshapedLinked(mem, mem', fs, Insert(fs, k, b), k, up, if join then 0 else 1, x);
  }

  lemma NotListed(fs: seq<Blk>, k: nat, b: Blk)
    requires Sorted(fs) && Gap(fs, k, b)
    ensures forall i :: 0 <= i < |fs| ==> fs[i].addr != b.addr
    ensures forall i :: 0 <= i < |fs| && i != k ==> fs[i].addr != fs[k].addr
  {
    forall i | 0 <= i < |fs| ensures fs[i].addr != b.addr {
      if i < k {
        assert fs[i].addr <= fs[k].addr;
      } else if k + 1 < i {
        assert fs[k + 1].addr <= fs[i].addr;
      }
    }
  }

  lemma FindBelow(fs: seq<Blk>, bp: int) returns (k: nat)
    requires Sorted(fs) && fs[0].addr < bp && forall i :: 0 <= i < |fs| ==> fs[i].addr != bp
    ensures Below(fs, k, bp)
  {
    k := 0;
    while k + 1 < |fs| && fs[k + 1].addr < bp
      invariant k < |fs| && fs[k].addr < bp
    {
      k := k + 1;
    }
  }

  lemma LiveElsewhere(mem: Memory, fs: seq<Blk>, top: int, c: Blk, i: nat)
    requires Sorted(fs) && LiveBlock(mem, fs, top, c) && i < |fs|
    ensures c.addr != fs[i].addr
  {
    CoverHas(fs, i);
    assert c.addr in Units(c);
    assert 0 < i ==> fs[i].addr in Units(fs[i]);
  }

  lemma BeforeFree(mem: Memory, freep: int, fs: seq<Blk>, live: set<Blk>, obtained: set<int>, top: int, b: Blk)
    returns (k: nat, start: nat)
    requires HeapOk(mem, freep, fs, live, obtained, top) && b in live
    ensures Sorted(fs) && Linked(mem, fs) && Below(fs, k, b.addr) && Gap(fs, k, b)
    ensures start < |fs| && freep == fs[start].addr
    ensures b.addr in mem && mem[b.addr].size == b.size
    ensures var p := fs[k].addr; p != b.addr && p in mem && mem[p].ptr in mem && mem[p].ptr != b.addr
  {
    Open(mem, freep, fs, live, obtained, top);
    assert LiveBlock(mem, fs, top, b);
    forall i | 0 <= i < |fs| ensures fs[i].addr != b.addr {
      LiveElsewhere(mem, fs, top, b, i);
    }
    k := FindBelow(fs, b.addr);
    GapOf(mem, fs, top, k, b);
    start :| start < |fs| && freep == fs[start].addr;
    assert mem[fs[k].addr].ptr == fs[Succ(k, |fs|)].addr;
  }

  lemma HeadersKeptBy(mem: Memory, mem': Memory, fs: seq<Blk>, live: set<Blk>, top: int, k: nat, b: Blk)
    requires LiveBlocks(mem, fs, live, top) && k < |fs| && b in live
    requires OnlyAt(mem, mem', fs[k].addr, b.addr)
    ensures HeadersKept(mem, mem', live - {b})
  {
    forall c {:trigger c in live} | c in live - {b}
      ensures c.addr in mem && c.addr in mem' && mem'[c.addr] == mem[c.addr]
    {
      assert LiveBlock(mem, fs, top, c) && LiveBlock(mem, fs, top, b);
      LiveElsewhere(mem, fs, top, c, k);
    }
  }

  lemma AfterFree(mem: Memory, mem': Memory, freep: int, fs: seq<Blk>, live: set<Blk>, obtained: set<int>,
                  top: int, k: nat, b: Blk)
    requires HeapOk(mem, freep, fs, live, obtained, top) && b in live && Gap(fs, k, b)
    requires OnlyAt(mem, mem', fs[k].addr, b.addr)
    requires Linked(mem', Insert(fs, k, b))
    ensures HeapOk(mem', fs[k].addr, Insert(fs, k, b), live - {b}, obtained, top)
  {
    Open(mem, freep, fs, live, obtained, top);
    HeadersKeptBy(mem, mem', fs, live, top, k, b);
    FreeBalanced(mem, mem', fs, k, b, live, obtained, top);
    assert Insert(fs, k, b)[k].addr == fs[k].addr;
  }

  /** After free some block on the list is at least as large as the freed one. */
  lemma InsertFits(fs: seq<Blk>, k: nat, b: Blk)
    requires k < |fs|
    ensures Fits(Insert(fs, k, b), b.size)
  {
    var gs := Insert(fs, k, b);
    assert gs[if JoinsPrev(fs, k, b) then k else k + 1].size >= b.size;
  }

  ghost predicate Fits(fs: seq<Blk>, n: nat)
  {
    exists i :: 0 <= i < |fs| && n <= fs[i].size
  }

  /** free, lib/stdlib.c:126-151: the units of the block join the free list, and the
      next search starts at the block below them. */
  method FreeUnits(mem: Memory, freep: int, bp: int, ghost fs: seq<Blk>, ghost live: set<Blk>,
                   ghost obtained: set<int>, ghost top: int, ghost b: Blk)
    returns (mem': Memory, freep': int, ghost fs': seq<Blk>)
    requires HeapOk(mem, freep, fs, live, obtained, top) && b in live && bp == b.addr
    ensures HeapOk(mem', freep', fs', live - {b}, obtained, top)
    ensures fs' != [] && fs != [] && fs'[0] == fs[0] && Cover(fs') == Cover(fs) + Units(b) && Fits(fs', b.size)
    ensures fs[0].addr <= freep' && NearestBelow(fs, bp, freep')
  {
    ghost var k, start := BeforeFree(mem, freep, fs, live, obtained, top, b);
    ghost var steps;
    freep', steps := FindGap(mem, freep, bp, fs, k, start);
    mem' := Coalesce(mem, freep', bp);
    CoalescedLinks(mem, mem', fs, k, b);
    AfterFree(mem, mem', freep, fs, live, obtained, top, k, b);
    fs' := Insert(fs, k, b);
    InsertKeeps(fs, k, b);
    InsertFits(fs, k, b);
    assert 0 < k ==> End(fs[0]) < fs[k].addr;
  }

  // ---- malloc

  const HEADER_BYTES: nat := 8
  const NALLOC: nat := 1024

  /** lib/stdlib.c:99 in 32-bit arithmetic: payload units rounded up, and one for the header. */
  function UnitsFor(nbytes: nat): nat
  {
    (nbytes + HEADER_BYTES - 1) % WORD / HEADER_BYTES + 1
  }

  /** What morecore asks sbrk for, in 32-bit arithmetic, lib/stdlib.c:83. */
  function BytesAsked(nu: nat): nat { nu * HEADER_BYTES % WORD }

  /** The payload of a block of that many units is at least `nbytes` exactly when the sum in the
      rounding does not wrap around; for the seven largest requests it does. */
  lemma PayloadSufficesIffNoWrap(nbytes: nat)
    requires nbytes < WORD
    ensures (UnitsFor(nbytes) - 1) * HEADER_BYTES >= nbytes <==> nbytes + HEADER_BYTES - 1 < WORD
    ensures (UnitsFor(nbytes) - 1) * HEADER_BYTES < nbytes + HEADER_BYTES
  {
  }

  lemma WrapExample()
    ensures UnitsFor(0xffff_ffff) == 1
  {
  }

  lemma Product(nu: nat)
    requires nu * HEADER_BYTES <= WORD
    ensures BytesAsked(nu) == nu * HEADER_BYTES <==> nu * HEADER_BYTES < WORD
  {
  }

  /** The bytes that malloc needs for a request when no free block fits: at least NALLOC units. */
  function BytesNeeded(nbytes: nat): nat
  {
    RegionBytes(UnitsFor(nbytes))
  }

  /** The bytes of a region that morecore obtains for `nunits` units. */
  function RegionBytes(nunits: nat): nat { (if nunits < NALLOC then NALLOC else nunits) * HEADER_BYTES }

  lemma NeededBounds(nbytes: nat)
    requires nbytes < WORD
    ensures 2 * PAGE_SIZE <= BytesNeeded(nbytes) <= WORD && UnitsFor(nbytes) * HEADER_BYTES <= BytesNeeded(nbytes)
    ensures BytesNeeded(nbytes) == WORD <==> WORD - 15 <= nbytes <= WORD - 8
  {
    var sum := nbytes + HEADER_BYTES - 1;
    if sum < WORD {
      assert UnitsFor(nbytes) == sum / HEADER_BYTES + 1;
    } else {
      assert UnitsFor(nbytes) == 1;
    }
  }

  /** A request that no free block fits gets payload enough, and only memory that was obtained, or
      fails, whatever the kernel replies, exactly if neither the rounding nor the product wraps around,
      the break is a multiple of the page size, and break plus bytes does not wrap around to a size that
      the kernel would shrink the segment to. */
  lemma RequestSafeIff(nbytes: nat, cur: nat, seg: nat, code: nat)
    requires nbytes < WORD && Synced(cur, seg, code)
    ensures var bytes := BytesNeeded(nbytes);
            (UnitsFor(nbytes) - 1) * HEADER_BYTES >= nbytes &&
            Backs(cur, seg, code, bytes, true) && Backs(cur, seg, code, bytes, false)
            <==> nbytes <= WORD - 2 * HEADER_BYTES && Honest(cur, code, bytes)
  {
    NeededBounds(nbytes);
    PayloadSufficesIffNoWrap(nbytes);
    HonestIff(cur, seg, code, BytesNeeded(nbytes));
  }

  /** The eight requests below the largest seven are for 2^29 units, and sbrk is asked for none. */
  lemma NothingAskedExample(nbytes: nat)
    requires 0xffff_fff1 <= nbytes <= 0xffff_fff8
    ensures UnitsFor(nbytes) == 0x2000_0000 && BytesAsked(UnitsFor(nbytes)) == 0
  {
  }

  /** A request for which neither sum nor product wraps around, but the break does: with a segment of
      256 KiB and code of one page less, sbrk returns the break and the segment has shrunk. */
  lemma ShrunkExample(granted: bool)
    ensures var bytes := BytesNeeded(0xffff_eff8);
            && bytes == 0xffff_f000 && 0xffff_eff8 <= WORD - 2 * HEADER_BYTES
            && Sbrk(0x40000, 0x40000, 0x3f000, bytes, granted) == Reply(0x40000, 0x3f000, 0x3f000)
            && !Backs(0x40000, 0x40000, 0x3f000, bytes, granted)
  {
    WrappedBreakExample(granted);
  }

  /** A request of 8192 bytes leaves the break off a page boundary; when the kernel then refuses more
      memory, the next small request is told that it got some. */
  lemma RefusedExample()
    ensures BytesNeeded(8192) == 8200 && BytesNeeded(1) == 8192
    ensures Sbrk(0x40000, 0x40000, 0x3f000, 8200, true) == Reply(0x40000, 0x42008, 0x43000)
    ensures !Backs(0x42008, 0x43000, 0x3f000, 8192, false)
  {
    RefusalLostExample(8192);
  }

  lemma NodeAt(mem: Memory, freep: int, fs: seq<Blk>, live: set<Blk>, obtained: set<int>, top: int, j: nat)
    requires HeapOk(mem, freep, fs, live, obtained, top) && j < |fs|
    ensures fs[j].addr in mem && mem[fs[j].addr] == Header(fs[Succ(j, |fs|)].addr, fs[j].size)
    ensures forall i :: 0 <= i < |fs| && fs[i].addr == fs[j].addr ==> i == j
  {
    Open(mem, freep, fs, live, obtained, top);
    forall i | 0 <= i < |fs| && i != j ensures fs[i].addr != fs[j].addr {
      AddrInjective(fs, i, j);
    }
  }

  lemma AddrInjective(fs: seq<Blk>, i: nat, j: nat)
    requires Sorted(fs) && i < |fs| && j < |fs| && i != j
    ensures fs[i].addr != fs[j].addr
  {
    var lo, hi := if i < j then i else j, if i < j then j else i;
    assert End(fs[lo]) < fs[hi].addr;
  }

  lemma FreePosition(mem: Memory, freep: int, fs: seq<Blk>, live: set<Blk>, obtained: set<int>, top: int)
    returns (f: nat)
    requires HeapOk(mem, freep, fs, live, obtained, top)
    ensures f < |fs| && freep == fs[f].addr && fs[0].size == 0 && fs[0].addr <= freep
  {
    Open(mem, freep, fs, live, obtained, top);
    f :| f < |fs| && freep == fs[f].addr;
    assert 0 < f ==> End(fs[0]) < fs[f].addr;
  }

  /** lib/stdlib.c:109-115: the header at `p` and the one in front of it. */
  method Carve(mem: Memory, prevp: int, p: int, nunits: nat) returns (mem': Memory, q: int, ghost h: Header)
    requires p in mem && prevp in mem && p != prevp && 0 < nunits <= mem[p].size
    ensures q == p + mem[p].size - nunits && q in mem' && mem'[q].size == nunits
    ensures forall a {:trigger a in mem} {:trigger a in mem'} :: a in mem ==> a in mem'
    ensures if mem[p].size == nunits
            then mem' == mem[prevp := Header(mem[p].ptr, mem[prevp].size)]
            else mem' == mem[p := Header(mem[p].ptr, mem[p].size - nunits)][q := h]
  {
    mem', q, h := mem, p, Header(0, 0);
    if mem'[q].size == nunits {
      mem' := mem'[prevp := mem'[prevp].(ptr := mem'[q].ptr)];
    } else {
      mem' := mem'[q := mem'[q].(size := mem'[q].size - nunits)];
      q := q + mem'[q].size;
      // the header inside the block is raw memory until here
      var raw: Header := if q in mem' then mem'[q] else Header(0, 0);
      mem' := mem'[q := raw.(size := nunits)];
      h := mem'[q];
    }
  }

  lemma InnerAddress(fs: seq<Blk>, k: nat, a: int, i: nat)
    requires Sorted(fs) && k < |fs| && i < |fs| && fs[k].addr < a < End(fs[k])
    ensures fs[i].addr != a
  {
    if i < k {
      assert End(fs[i]) < fs[k].addr;
    } else if k < i {
      assert End(fs[k]) < fs[i].addr;
    }
  }

  lemma ExactRelinked(mem: Memory, mem': Memory, fs: seq<Blk>, k: nat)
    requires Sorted(fs) && Linked(mem, fs) && 0 < k < |fs|
    requires mem' == mem[fs[k - 1].addr := Header(mem[fs[k].addr].ptr, mem[fs[k - 1].addr].size)]
    ensures Relinked(mem, mem', fs, k - 1, 1, 0, fs[k - 1])
  {
    assert mem[fs[k - 1].addr].size == fs[k - 1].size && mem[fs[k].addr].ptr == fs[Succ(k, |fs|)].addr;
    forall i {:trigger mem'[fs[i].addr]} | 0 <= i < |fs| && i != k - 1 ensures mem'[fs[i].addr] == mem[fs[i].addr] {
      AddrInjective(fs, i, k - 1);
    }
  }

  lemma CarvedExact(mem: Memory, mem': Memory, fs: seq<Blk>, k: nat)
    requires Sorted(fs) && Linked(mem, fs) && 0 < k < |fs|
    requires mem' == mem[fs[k - 1].addr := Header(mem[fs[k].addr].ptr, mem[fs[k - 1].addr].size)]
    ensures Linked(mem', Take(fs, k, fs[k].size))
  {
    ExactRelinked(mem, mem', fs, k);
    TakeReshapes(fs, k, fs[k].size);
    ReshapedLinked(mem, mem', fs, Take(fs, k, fs[k].size), k - 1, 1, 0, fs[k - 1]);
  }

  lemma TailRelinked(mem: Memory, mem': Memory, fs: seq<Blk>, k: nat, n: nat, q: int)
    requires Sorted(fs) && Linked(mem, fs) && k < |fs| && 0 < n < fs[k].size && fs[k].addr < q < End(fs[k])
    requires OnlyAt(mem, mem', fs[k].addr, q)
    requires fs[k].addr in mem' && mem'[fs[k].addr] == Header(mem[fs[k].addr].ptr, fs[k].size - n)
    ensures Relinked(mem, mem', fs, k, 0, 0, Blk(fs[k].addr, fs[k].size - n))
  {
    assert mem[fs[k].addr].ptr == fs[Succ(k, |fs|)].addr;
    OtherAddresses(fs, k, q);
    forall i {:trigger mem'[fs[i].addr]} | 0 <= i < |fs| && i != k
      ensures fs[i].addr in mem' && mem'[fs[i].addr] == mem[fs[i].addr]
    {
      var e := fs[i];
      assert e.addr != q && e.addr != fs[k].addr;
    }
  }

  lemma OtherAddresses(fs: seq<Blk>, k: nat, q: int)
    requires Sorted(fs) && k < |fs| && fs[k].addr < q < End(fs[k])
    ensures forall i {:trigger fs[i]} :: 0 <= i < |fs| ==> fs[i].addr != q && (i != k ==> fs[i].addr != fs[k].addr)
  {
    forall i {:trigger fs[i]} | 0 <= i < |fs| ensures fs[i].addr != q && (i != k ==> fs[i].addr != fs[k].addr) {
      InnerAddress(fs, k, q, i);
      if i != k {
        AddrInjective(fs, i, k);
      }
    }
  }

  lemma CarvedTail(mem: Memory, mem': Memory, fs: seq<Blk>, k: nat, n: nat, h: Header)
    requires Sorted(fs) && Linked(mem, fs) && 0 < k < |fs| && 0 < n < fs[k].size
    requires mem' == mem[fs[k].addr := Header(mem[fs[k].addr].ptr, fs[k].size - n)][Taken(fs, k, n).addr := h]
    ensures Linked(mem', Take(fs, k, n))
  {
    var q := Taken(fs, k, n).addr;
    assert q != fs[k].addr && OnlyAt(mem, mem', fs[k].addr, q);
    TailRelinked(mem, mem', fs, k, n, q);
    TakeReshapes(fs, k, n);
    ReshapedLinked(mem, mem', fs, Take(fs, k, n), k, 0, 0, Blk(fs[k].addr, fs[k].size - n));
  }

  /** malloc writes inside block `k` or at the header in front of it: no live header changes. */
  lemma CarveKeepsLive(mem: Memory, mem': Memory, fs: seq<Blk>, live: set<Blk>, top: int, k: nat, q: int)
    requires LiveBlocks(mem, fs, live, top) && 0 < k < |fs| && fs[k].addr <= q < End(fs[k])
    requires forall a {:trigger a in mem} :: a in mem ==> a in mem'
    requires forall a {:trigger a in mem'} :: a in mem && a != fs[k - 1].addr && a != fs[k].addr && a != q ==>
                a in mem' && mem'[a] == mem[a]
    ensures HeadersKept(mem, mem', live)
  {
    forall c {:trigger c in live} | c in live ensures c.addr in mem && c.addr in mem' && mem'[c.addr] == mem[c.addr] {
      assert LiveBlock(mem, fs, top, c);
      LiveElsewhere(mem, fs, top, c, k - 1);
      LiveElsewhere(mem, fs, top, c, k);
      CoverHas(fs, k);
      assert c.addr in Units(c) && q in Units(fs[k]);
    }
  }

  /** malloc on the block at position `k`, lib/stdlib.c:108-117. */
  method TakeUnits(mem: Memory, freep: int, prevp: int, p: int, nunits: nat, ghost fs: seq<Blk>, ghost live: set<Blk>,
                   ghost obtained: set<int>, ghost top: int, ghost k: nat)
    returns (mem': Memory, q: int)
    requires HeapOk(mem, freep, fs, live, obtained, top)
    requires 0 < k < |fs| && p == fs[k].addr && prevp == fs[k - 1].addr && 0 < nunits <= fs[k].size
    ensures Blk(q, nunits) == Taken(fs, k, nunits)
    ensures HeapOk(mem', prevp, Take(fs, k, nunits), live + {Blk(q, nunits)}, obtained, top)
  {
    NodeAt(mem, freep, fs, live, obtained, top, k);
    NodeAt(mem, freep, fs, live, obtained, top, k - 1);
    ghost var h;
    mem', q, h := Carve(mem, prevp, p, nunits);
    AfterTake(mem, mem', freep, fs, live, obtained, top, k, nunits, h);
  }

  lemma TakenLinked(mem: Memory, mem': Memory, fs: seq<Blk>, k: nat, n: nat, h: Header)
    requires Sorted(fs) && Linked(mem, fs) && 0 < k < |fs| && 0 < n <= fs[k].size
    requires mem[fs[k].addr].size == fs[k].size
    requires if fs[k].size == n
             then mem' == mem[fs[k - 1].addr := Header(mem[fs[k].addr].ptr, mem[fs[k - 1].addr].size)]
             else mem' == mem[fs[k].addr := Header(mem[fs[k].addr].ptr, fs[k].size - n)][Taken(fs, k, n).addr := h]
    ensures Linked(mem', Take(fs, k, n))
  {
    if fs[k].size == n {
      CarvedExact(mem, mem', fs, k);
    } else {
      CarvedTail(mem, mem', fs, k, n, h);
    }
  }

  lemma AfterTake(mem: Memory, mem': Memory, freep: int, fs: seq<Blk>, live: set<Blk>, obtained: set<int>, top: int,
                  k: nat, n: nat, h: Header)
    requires HeapOk(mem, freep, fs, live, obtained, top) && 0 < k < |fs| && 0 < n <= fs[k].size
    requires fs[k].addr in mem && fs[k - 1].addr in mem && mem[fs[k].addr].size == fs[k].size
    requires Taken(fs, k, n).addr in mem' && mem'[Taken(fs, k, n).addr].size == n
    requires if fs[k].size == n
             then mem' == mem[fs[k - 1].addr := Header(mem[fs[k].addr].ptr, mem[fs[k - 1].addr].size)]
             else mem' == mem[fs[k].addr := Header(mem[fs[k].addr].ptr, fs[k].size - n)][Taken(fs, k, n).addr := h]
    ensures HeapOk(mem', fs[k - 1].addr, Take(fs, k, n), live + {Taken(fs, k, n)}, obtained, top)
  {
    Open(mem, freep, fs, live, obtained, top);
    TakenLinked(mem, mem', fs, k, n, h);
    CarveKeepsLive(mem, mem', fs, live, top, k, Taken(fs, k, n).addr);
    TakeBalanced(mem, mem', fs, k, n, live, obtained, top);
    assert Take(fs, k, n)[k - 1].addr == fs[k - 1].addr;
  }

  /** All positions from `f + 1` round to just before `j` were too small. */
  ghost predicate Scanned(fs: seq<Blk>, f: nat, j: nat, n: nat)
    requires f < |fs| && j < |fs|
  {
    forall i {:trigger fs[i]} :: 0 <= i < |fs| && Ahead(Succ(f, |fs|), i, |fs|) < Ahead(Succ(f, |fs|), j, |fs|) ==>
          fs[i].size < n
  }

  lemma ScanOn(fs: seq<Blk>, f: nat, j: nat, n: nat)
    requires f < |fs| && j < |fs| && Scanned(fs, f, j, n) && fs[j].size < n
    ensures j != f ==> Scanned(fs, f, Succ(j, |fs|), n) &&
                       Ahead(Succ(f, |fs|), Succ(j, |fs|), |fs|) == Ahead(Succ(f, |fs|), j, |fs|) + 1
    ensures j == f ==> !Fits(fs, n)
  {
  }

  /** `k` is the first block behind the one at `freep`, around the list, that has `n` units. */
  ghost predicate NextFit(fs: seq<Blk>, freep: int, n: nat, k: nat)
  {
    && k < |fs| && n <= fs[k].size
    && exists f :: && 0 <= f < |fs| && fs[f].addr == freep
                   && if f < k then forall i {:trigger fs[i]} :: f < i < k ==> fs[i].size < n
                      else forall i {:trigger fs[i]} :: 0 <= i < |fs| && (i < k || f < i) ==> fs[i].size < n
  }

  lemma ScannedIsNextFit(fs: seq<Blk>, freep: int, f: nat, k: nat, n: nat)
    requires f < |fs| && k < |fs| && fs[f].addr == freep && n <= fs[k].size && Scanned(fs, f, k, n)
    ensures NextFit(fs, freep, n, k)
  {
    if f < k {
      forall i {:trigger fs[i]} | f < i < k ensures fs[i].size < n {
        assert Ahead(Succ(f, |fs|), i, |fs|) < Ahead(Succ(f, |fs|), k, |fs|);
      }
    } else {
      forall i {:trigger fs[i]} | 0 <= i < |fs| && (i < k || f < i) ensures fs[i].size < n {
        assert Ahead(Succ(f, |fs|), i, |fs|) < Ahead(Succ(f, |fs|), k, |fs|);
      }
    }
  }

  /** Some block is the next fit; its last `n` units, at `at`, leave the list, and the next search starts
      at the block below. */
  ghost predicate Carved(fs: seq<Blk>, freep: int, n: nat, fs': seq<Blk>, freep': int, at: int)
  {
    exists k {:trigger NextFit(fs, freep, n, k)} ::
      && 0 < k && NextFit(fs, freep, n, k) && at == End(fs[k]) - n && freep' == fs[k - 1].addr
      && fs' == if fs[k].size == n then fs[..k] + fs[k + 1..] else fs[k := Blk(fs[k].addr, fs[k].size - n)]
  }

  lemma LiveUnit(mem: Memory, fs: seq<Blk>, live: set<Blk>, top: int, u: int, b: Blk, c: Blk)
    requires LiveBlocks(mem, fs, live, top) && b in live && c in live && b.addr <= u < End(b) && c.addr <= u < End(c)
    ensures u !in Cover(fs) && b == c
  {
    assert LiveBlock(mem, fs, top, b) && u in Units(b);
  }

  /** Every unit obtained from sbrk lies in one free block or in one live block, never in two. */
  lemma EveryUnitOnce(mem: Memory, freep: int, fs: seq<Blk>, live: set<Blk>, obtained: set<int>, top: int, u: int)
    requires HeapOk(mem, freep, fs, live, obtained, top)
    ensures u in obtained <==> u in Cover(fs) || InLive(live, u)
    ensures forall b, c :: b in live && c in live && b.addr <= u < End(b) && c.addr <= u < End(c) ==>
                             u !in Cover(fs) && b == c
  {
    Open(mem, freep, fs, live, obtained, top);
    assert u in obtained || u !in obtained;
    forall b, c | b in live && c in live && b.addr <= u < End(b) && c.addr <= u < End(c)
      ensures u !in Cover(fs) && b == c
    {
      LiveUnit(mem, fs, live, top, u, b, c);
    }
  }

  /** `n` links from the header at `a`. */
  function Follow(mem: Memory, a: int, n: nat): int
    decreases n
  {
    if n == 0 then a else if a in mem then Follow(mem, mem[a].ptr, n - 1) else NULL
  }

  /** `n` steps from position `i` on a cycle of `len` positions. */
  function Walk(i: nat, n: nat, len: nat): (r: nat)
    requires i < len
    ensures r < len
    decreases n
  {
    if n == 0 then i else Walk(Succ(i, len), n - 1, len)
  }

  lemma {:induction false} WalkOn(i: nat, n: nat, len: nat)
    requires i + n < len
    ensures Walk(i, n, len) == i + n
    decreases n
  {
    if n > 0 {
      WalkOn(i + 1, n - 1, len);
    }
  }

  lemma {:induction false} WalkAround(i: nat, j: nat, len: nat)
    requires i < len && j < len
    ensures Walk(i, len - i + j, len) == j
    decreases len - i
  {
    if i + 1 < len {
      WalkAround(i + 1, j, len);
    } else {
      WalkOn(0, j, len);
    }
  }

  lemma {:induction false} FollowWalks(mem: Memory, fs: seq<Blk>, i: nat, n: nat)
    requires Linked(mem, fs) && i < |fs|
    ensures Follow(mem, fs[i].addr, n) == fs[Walk(i, n, |fs|)].addr
    decreases n
  {
    if n > 0 {
      assert mem[fs[i].addr].ptr == fs[Succ(i, |fs|)].addr;
      FollowWalks(mem, fs, Succ(i, |fs|), n - 1);
    }
  }

  lemma WalkReaches(i: nat, j: nat, len: nat)
    requires i < len && j < len
    ensures Walk(i, Ahead(i, j, len), len) == j && Walk(i, len, len) == i
  {
    WalkAround(i, i, len);
    if i <= j {
      WalkOn(i, j - i, len);
    } else {
      WalkAround(i, j, len);
    }
  }

  /** The links form one cycle: from any header every header is reached within the length of the
      list, and that length leads back. Addresses rise everywhere but at one place, and no two
      free blocks touch. */
  lemma OneCycle(mem: Memory, freep: int, fs: seq<Blk>, live: set<Blk>, obtained: set<int>, top: int, i: nat, j: nat)
    requires HeapOk(mem, freep, fs, live, obtained, top) && i < |fs| && j < |fs|
    ensures 0 <= Ahead(i, j, |fs|) < |fs| && Follow(mem, fs[i].addr, Ahead(i, j, |fs|)) == fs[j].addr
    ensures Follow(mem, fs[i].addr, |fs|) == fs[i].addr
    ensures fs[i].addr in mem && (fs[i].addr < mem[fs[i].addr].ptr <==> i + 1 < |fs|)
    ensures i < j ==> End(fs[i]) < fs[j].addr
  {
    Open(mem, freep, fs, live, obtained, top);
    FollowWalks(mem, fs, i, Ahead(i, j, |fs|));
    FollowWalks(mem, fs, i, |fs|);
    WalkReaches(i, j, |fs|);
    assert mem[fs[i].addr].ptr == fs[Succ(i, |fs|)].addr;
    assert 0 < i ==> End(fs[0]) < fs[i].addr;
  }

  /** One trip of the loop at lib/stdlib.c:106-123: the first block behind `freep` that is large
      enough, with the header in front of it, or NULL once the loop is back at `freep`. */
  method Search(mem: Memory, freep: int, nunits: nat, ghost fs: seq<Blk>, ghost live: set<Blk>,
                ghost obtained: set<int>, ghost top: int)
    returns (prevp: int, p: int, ghost k: nat)
    requires HeapOk(mem, freep, fs, live, obtained, top) && 0 < nunits && fs != [] && 0 <= fs[0].addr
    ensures p == NULL <==> !Fits(fs, nunits)
    ensures p != NULL ==> k < |fs| && p == fs[k].addr && prevp == fs[Pred(k, |fs|)].addr
    ensures p != NULL ==> NextFit(fs, freep, nunits, k)
  {
    ghost var f: nat := FreePosition(mem, freep, fs, live, obtained, top);
    NodeAt(mem, freep, fs, live, obtained, top, f);
    prevp := freep;
    p := mem[prevp].ptr;
    k := Succ(f, |fs|);
    while true
      invariant k < |fs| && p == fs[k].addr && prevp == fs[Pred(k, |fs|)].addr
      invariant Scanned(fs, f, k, nunits)
      decreases |fs| - Ahead(Succ(f, |fs|), k, |fs|)
    {
      NodeAt(mem, freep, fs, live, obtained, top, k);
      if mem[p].size >= nunits {
        ListAddresses(mem, freep, fs, live, obtained, top, k);
        ScannedIsNextFit(fs, freep, f, k, nunits);
        return;
      }
      ScanOn(fs, f, k, nunits);
      if p == freep {
        p := NULL;
        return;
      }
      prevp, p := p, mem[p].ptr;
      k := Succ(k, |fs|);
    }
  }

  lemma ListAddresses(mem: Memory, freep: int, fs: seq<Blk>, live: set<Blk>, obtained: set<int>, top: int, k: nat)
    requires HeapOk(mem, freep, fs, live, obtained, top) && k < |fs|
    ensures fs[0].addr <= fs[k].addr
  {
    Open(mem, freep, fs, live, obtained, top);
    assert 0 < k ==> End(fs[0]) < fs[k].addr;
  }

  lemma FreshUnits(mem: Memory, freep: int, fs: seq<Blk>, live: set<Blk>, obtained: set<int>, top: int, b: Blk)
    requires HeapOk(mem, freep, fs, live, obtained, top) && top <= b.addr
    ensures Units(b) !! obtained
  {
    Open(mem, freep, fs, live, obtained, top);
  }

  /** A region of `nu` units at `cp` becomes a block and is freed, lib/stdlib.c:87-89. */
  method AddRegion(mem: Memory, freep: int, cp: int, nu: nat, ghost fs: seq<Blk>, ghost live: set<Blk>,
                   ghost obtained: set<int>, ghost top: int, ghost granted: set<int>, ghost end: int)
    returns (mem': Memory, freep': int, ghost fs': seq<Blk>)
    requires HeapOk(mem, freep, fs, live, obtained, top) && top <= cp && 0 < nu
    requires granted == obtained + Units(Blk(cp, nu)) && end == cp + nu
    ensures HeapOk(mem', freep', fs', live, granted, end) && Units(Blk(cp, nu)) !! obtained
    ensures fs' != [] && fs != [] && fs'[0] == fs[0] && fs[0].addr <= freep' && Fits(fs', nu)
  {
    ghost var b := Blk(cp, nu);
    var raw: Header := if cp in mem then mem[cp] else Header(0, 0);
    mem' := mem[cp := raw.(size := nu)];
    Grown(mem, mem', freep, fs, live, obtained, top, b, end);
    FreshUnits(mem, freep, fs, live, obtained, top, b);
    mem', freep', fs' := FreeUnits(mem', freep, cp, fs, live + {b}, granted, end, b);
    assert live + {b} - {b} == live;
  }

  class Heap {
    var mem: Memory
    var freep: int
    /** The address of the static header. */
    const base: int
    /** The statics of sbrk, in bytes; both are 0 before its first call. */
    var oldbrk: nat
    var curbrk: nat
    /** The sizes of the data and code segments in the kernel, in bytes. */
    var segment: nat
    const code: nat

    ghost var fs: seq<Blk>
    ghost var live: set<Blk>
    /** The units in free and live blocks, and the end of the highest of them. */
    ghost var claimed: set<int>
    ghost var end: int
    /** Successful calls of sbrk so far. */
    ghost var grants: nat

    ghost predicate Valid()
      reads this
    {
      && 0 <= base < end && |fs| > 0 && fs[0] == Blk(base, 0)
      && (freep == NULL ==> fs == [Blk(base, 0)] && live == {} && claimed == {})
      && (freep != NULL ==> HeapOk(mem, freep, fs, live, claimed, end))
    }

    /** The break that sbrk remembers, or would fetch. */
    ghost function Brk(): nat
      reads this`oldbrk, this`curbrk, this`segment
    {
      if oldbrk == 0 then segment else curbrk
    }

    /** The heap ends at the break, and the kernel has the same idea of it. */
    ghost predicate InStep()
      reads this`end, this`oldbrk, this`curbrk, this`segment
    {
      end * HEADER_BYTES == Brk() && Synced(Brk(), segment, code)
    }

    /** Every unit of the heap lies in the segment. */
    ghost predicate Backed()
      reads this`claimed, this`segment
    {
      forall u {:trigger u in claimed} :: u in claimed ==> (u + 1) * HEADER_BYTES <= segment
    }

    lemma InStepIsBacked()
      requires Valid() && InStep()
      ensures Backed()
    {
      if freep != NULL {
        Open(mem, freep, fs, live, claimed, end);
      }
    }

    constructor (baseAddr: nat, dataSize: nat, codeSize: nat)
      requires baseAddr * HEADER_BYTES < dataSize < WORD && dataSize % PAGE_SIZE == 0
      requires codeSize <= dataSize && codeSize % PAGE_SIZE == 0
      ensures Valid() && InStep() && Backed() && freep == NULL && live == {}
    {
      mem, freep, base := map[], NULL, baseAddr;
      oldbrk, curbrk, segment, code := 0, 0, dataSize, codeSize;
      fs, live, claimed, end, grants := [Blk(baseAddr, 0)], {}, {}, dataSize / HEADER_BYTES, 0;
    }

    /** sys_brk on the segment; `granted` is whether the kernel has more pages. */
    method BrkCall(newbrk: nat, granted: bool) returns (r: nat)
      modifies this`segment
      ensures r == segment == NewSegment(old(segment), code, newbrk, granted)
    {
      var size := NewBreak(newbrk);
      if size < code {
        return segment;
      }
      if size == 0 || (segment < size && !granted) {
        return segment;
      }
      segment := size;
      r := size;
    }

    /** The first call of sbrk fetches the break, lib/stdlib.c:38-39. */
    method FetchBreak()
      requires InStep()
      modifies this`oldbrk, this`curbrk, this`segment
      ensures InStep() && oldbrk > 0 && Brk() == old(Brk()) == curbrk && segment == old(segment)
    {
      if oldbrk == 0 {
        oldbrk := BrkCall(0, false);
        curbrk := oldbrk;
      }
    }

    /** sbrk, lib/stdlib.c:32-53; the result in header units. */
    method SbrkCall(increment: nat, granted: bool) returns (cp: int)
      requires InStep()
      modifies this`oldbrk, this`curbrk, this`segment, this`grants
      ensures var r := Sbrk(old(Brk()), old(segment), code, increment, granted);
              && oldbrk > 0 && Brk() == r.cur && segment == r.seg
              && cp == (if r.result == -1 then NULL else end)
              && grants == old(grants) + if r.result == -1 then 0 else 1
    {
      FetchBreak();
      cp := curbrk / HEADER_BYTES;
      if increment != 0 {
        cp := MoveBreak(increment, granted);
      } else {
        grants := grants + 1;
      }
    }

    /** lib/stdlib.c:44-52 */
    method MoveBreak(increment: nat, granted: bool) returns (cp: int)
      requires InStep() && oldbrk > 0 && increment != 0
      modifies this`oldbrk, this`curbrk, this`segment, this`grants
      ensures var r := Sbrk(old(curbrk), old(segment), code, increment, granted);
              && oldbrk > 0 && curbrk == r.cur && segment == r.seg
              && cp == (if r.result == -1 then NULL else end)
              && grants == old(grants) + if r.result == -1 then 0 else 1
    {
      var newbrk := (curbrk + increment) % WORD;
      var r := BrkCall(newbrk, granted);
      if r == curbrk {
        return NULL;
      }
      cp := curbrk / HEADER_BYTES;
      oldbrk := curbrk;
      curbrk := newbrk;
      grants := grants + 1;
    }

    /** free: `ap` is the address behind the header of a live block. */
    method Free(ap: int, ghost b: Blk)
      requires Valid() && b in live && ap == b.addr + 1
      modifies this`mem, this`freep, this`fs, this`live
      ensures Valid() && freep != NULL
      ensures live == old(live) - {b} && Cover(fs) == old(Cover(fs)) + Units(b) && Fits(fs, b.size)
      ensures NearestBelow(old(fs), b.addr, freep)
    {
      assert freep != NULL by {
        assert live != {};
      }
      var bp := ap - 1;
      var mem', freep';
      ghost var fs', live', claimed', end' := fs, live - {b}, claimed, end;
      mem', freep', fs' := FreeUnits(mem, freep, bp, fs, live, claimed, end, b);
      mem, freep, fs, live := mem', freep', fs', live';
      assert mem == mem' && fs == fs' && live == live' && claimed == claimed' && end == end';
    }

    /** morecore: at least NALLOC units from sbrk, put on the free list. When sbrk is not honest, the
        list then holds units that are not in the segment. */
    method MoreCore(nunits: nat, granted: bool) returns (p: int)
      requires Valid() && InStep() && freep != NULL && 0 < nunits && nunits * HEADER_BYTES <= WORD
      modifies this
      ensures Valid() && freep != NULL && live == old(live) && old(claimed) <= claimed
      ensures grants == old(grants) + if p == NULL then 0 else 1
      ensures p == NULL ==> fs == old(fs) && mem == old(mem) && freep == old(freep) && claimed == old(claimed)
      ensures p != NULL ==> p == freep && Fits(fs, nunits)
      ensures var bytes := RegionBytes(nunits);
              && (p == NULL <==> Sbrk(old(Brk()), old(segment), code, bytes % WORD, granted).result == -1)
              && (Backed() <==> Backs(old(Brk()), old(segment), code, bytes, granted))
              && (Backed() ==> InStep())
    {
      var nu := if nunits < NALLOC then NALLOC else nunits;
      ghost var cur, seg, bytes := Brk(), segment, nu * HEADER_BYTES;
      SbrkOutcome(cur, seg, code, bytes, granted);
      var cp := SbrkCall(BytesAsked(nu), granted);
      if cp == NULL {
        InStepIsBacked();
        return NULL;
      }
      AddCore(cp, nu);
      FitsLess(fs, nu, nunits);
      p := freep;
      if Backs(cur, seg, code, bytes, granted) {
        InStepIsBacked();
      } else {
        SomeUnit(cp + nu - 1, 1);
        assert cp + nu - 1 in claimed;
      }
    }

    /** The region becomes part of the list, lib/stdlib.c:87-89. */
    method AddCore(cp: int, nu: nat)
      requires Valid() && freep != NULL && end <= cp && 0 < nu
      modifies this`mem, this`freep, this`fs, this`claimed, this`end
      ensures Valid() && freep != NULL && Fits(fs, nu) && end == cp + nu
      ensures claimed == old(claimed) + Units(Blk(cp, nu)) && Units(Blk(cp, nu)) !! old(claimed)
    {
      var mem', freep';
      ghost var fs', live', claimed', end' := fs, live, claimed + Units(Blk(cp, nu)), cp + nu;
      mem', freep', fs' := AddRegion(mem, freep, cp, nu, fs, live, claimed, end, claimed', end');
      mem, freep, fs, claimed, end := mem', freep', fs', claimed', end';
      assert mem == mem' && freep == freep' && fs == fs' && live == live' && claimed == claimed' && end == end';
    }

    /** lib/stdlib.c:101-104: the list starts as `base` alone. */
    method Prepare()
      requires Valid()
      modifies this`mem, this`freep
      ensures Valid() && freep != NULL && (old(freep) == NULL ==> freep == base)
      ensures old(freep) != NULL ==> freep == old(freep) && mem == old(mem)
    {
      if freep == NULL {
        mem := mem[base := Header(base, 0)];
        freep := base;
        FirstHeap(mem, base, end);
      }
    }

    /** malloc: a block of exactly the units the request rounds up to, disjoint from every other
        live block, after at most one successful call of sbrk. `granted` is whether the kernel has
        more pages. The heap stays in the segment exactly if a free block fits or sbrk is honest about
        the bytes needed. */
    method Malloc(nbytes: nat, granted: bool) returns (ap: int)
      requires Valid() && InStep() && nbytes < WORD
      modifies this
      ensures Valid() && old(claimed) <= claimed
      ensures old(grants) <= grants <= old(grants) + 1
      ensures ap == NULL ==> live == old(live) && grants == old(grants) && fs == old(fs)
      ensures ap != NULL ==>
                && Blk(ap - 1, UnitsFor(nbytes)) !in old(live)
                && live == old(live) + {Blk(ap - 1, UnitsFor(nbytes))}
      ensures Fits(old(fs), UnitsFor(nbytes)) ==>
                && ap != NULL && grants == old(grants) && claimed == old(claimed)
                && Cover(fs) == old(Cover(fs)) - Units(Blk(ap - 1, UnitsFor(nbytes)))
                && Carved(old(fs), old(freep), UnitsFor(nbytes), fs, freep, ap - 1)
      ensures Backed() <==> Fits(old(fs), UnitsFor(nbytes)) ||
                            Backs(old(Brk()), old(segment), code, BytesNeeded(nbytes), granted)
      ensures Backed() ==> InStep()
    {
      NeededBounds(nbytes);
      ap := Allocate(UnitsFor(nbytes), granted);
    }

    /** lib/stdlib.c:101-123 */
    method Allocate(nunits: nat, granted: bool) returns (ap: int)
      requires Valid() && InStep() && 0 < nunits && RegionBytes(nunits) <= WORD
      modifies this
      ensures Valid() && old(claimed) <= claimed
      ensures old(grants) <= grants <= old(grants) + 1
      ensures ap == NULL ==> live == old(live) && grants == old(grants) && fs == old(fs)
      ensures ap != NULL ==> Blk(ap - 1, nunits) !in old(live) && live == old(live) + {Blk(ap - 1, nunits)}
      ensures Fits(old(fs), nunits) ==>
                && ap != NULL && grants == old(grants) && claimed == old(claimed)
                && Cover(fs) == old(Cover(fs)) - Units(Blk(ap - 1, nunits))
                && Carved(old(fs), old(freep), nunits, fs, freep, ap - 1)
      ensures Backed() <==> Fits(old(fs), nunits) ||
                            Backs(old(Brk()), old(segment), code, RegionBytes(nunits), granted)
      ensures Backed() ==> InStep()
    {
      InStepIsBacked();
      Prepare();
      ghost var grown, honest := false, Backs(Brk(), segment, code, RegionBytes(nunits), granted);
      while true
        invariant Valid() && freep != NULL && live == old(live) && old(claimed) <= claimed
        invariant grown ==> Fits(fs, nunits) && !Fits(old(fs), nunits)
        invariant grants == old(grants) + if grown then 1 else 0
        invariant !grown ==> fs == old(fs) && claimed == old(claimed) && InStep() && Backed()
        invariant !grown && Fits(fs, nunits) ==> freep == old(freep)
        invariant !grown ==> Brk() == old(Brk()) && segment == old(segment)
        invariant grown ==> (Backed() <==> honest) && (Backed() ==> InStep())
        decreases !grown
      {
        ap := TakeFit(nunits);
        if ap != NULL {
          return;
        }
        var p := MoreCore(nunits, granted);
        if p == NULL {
          return NULL;
        }
        grown := true;
      }
    }

    /** One trip around the list, lib/stdlib.c:106-120. */
    method TakeFit(nunits: nat) returns (ap: int)
      requires Valid() && freep != NULL && 0 < nunits
      modifies this`mem, this`freep, this`fs, this`live
      ensures Valid() && freep != NULL && (ap == NULL <==> !Fits(old(fs), nunits))
      ensures ap == NULL ==> mem == old(mem) && freep == old(freep) && fs == old(fs) && live == old(live)
      ensures ap != NULL ==>
                && Blk(ap - 1, nunits) !in old(live) && live == old(live) + {Blk(ap - 1, nunits)}
                && Cover(fs) == old(Cover(fs)) - Units(Blk(ap - 1, nunits))
                && Carved(old(fs), old(freep), nunits, fs, freep, ap - 1)
    {
      var prevp, p;
      ghost var k;
      prevp, p, k := Search(mem, freep, nunits, fs, live, claimed, end);
      if p == NULL {
        return NULL;
      }
      ap := Hand(prevp, p, nunits, k);
    }

    /** lib/stdlib.c:108-118 */
    method Hand(prevp: int, p: int, nunits: nat, ghost k: nat) returns (ap: int)
      requires Valid() && freep != NULL
      requires k < |fs| && p == fs[k].addr && prevp == fs[Pred(k, |fs|)].addr && 0 < nunits
      requires NextFit(fs, freep, nunits, k)
      modifies this`mem, this`freep, this`fs, this`live
      ensures Valid() && ap != NULL
      ensures Blk(ap - 1, nunits) !in old(live) && live == old(live) + {Blk(ap - 1, nunits)}
      ensures Cover(fs) == old(Cover(fs)) - Units(Blk(ap - 1, nunits))
      ensures Carved(old(fs), old(freep), nunits, fs, freep, ap - 1)
    {
      BeforeHand(mem, freep, fs, live, claimed, end, k, nunits);
      var mem', q := TakeUnits(mem, freep, prevp, p, nunits, fs, live, claimed, end, k);
      ghost var fs', live', claimed', end' := Take(fs, k, nunits), live + {Blk(q, nunits)}, claimed, end;
      mem, fs, live := mem', fs', live';
      freep := prevp;
      assert mem == mem' && fs == fs' && live == live' && claimed == claimed' && end == end';
      ap := q + 1;
    }
  }

  lemma SomeUnit(addr: int, n: nat)
    requires 0 < n
    ensures addr in Units(Blk(addr, n))
  {
  }

  lemma BeforeHand(mem: Memory, freep: int, fs: seq<Blk>, live: set<Blk>, obtained: set<int>, top: int, k: nat, n: nat)
    requires HeapOk(mem, freep, fs, live, obtained, top) && k < |fs| && 0 < n <= fs[k].size
    ensures 0 < k && fs[0].addr <= fs[k - 1].addr && fs[0].addr < Taken(fs, k, n).addr
    ensures Take(fs, k, n) != [] && Take(fs, k, n)[0] == fs[0]
    ensures Cover(Take(fs, k, n)) == Cover(fs) - Units(Taken(fs, k, n))
    ensures Taken(fs, k, n) !in live
  {
    Open(mem, freep, fs, live, obtained, top);
    TakeKeeps(fs, k, n);
    assert 1 < k ==> End(fs[0]) < fs[k - 1].addr;
    assert End(fs[0]) < fs[k].addr;
    var b := Taken(fs, k, n);
    assert b.addr in Units(b);
    assert b in live ==> LiveBlock(mem, fs, top, b);
  }

  lemma FirstHeap(mem: Memory, base: int, top: int)
    requires base in mem && mem[base] == Header(base, 0) && base < top
    ensures HeapOk(mem, base, [Blk(base, 0)], {}, {}, top)
  {
    var fs := [Blk(base, 0)];
    assert fs[1..] == [] && Cover(fs) == {};
    assert fs[0].addr == base;
    assert Balanced(mem, fs, {}, {}, top);
  }

  lemma FitsLess(fs: seq<Blk>, n: nat, m: nat)
    requires Fits(fs, n) && m <= n
    ensures Fits(fs, m)
  {
  }

  lemma Grown(mem: Memory, mem': Memory, freep: int, fs: seq<Blk>, live: set<Blk>, obtained: set<int>, top: int, b: Blk,
              top': int)
    requires HeapOk(mem, freep, fs, live, obtained, top) && 0 < b.size && top <= b.addr && top' == End(b)
    requires b.addr in mem' && mem'[b.addr].size == b.size
    requires forall a {:trigger a in mem} {:trigger a in mem'} :: a in mem ==> a in mem' && (a != b.addr ==>
                mem'[a] == mem[a])
    ensures HeapOk(mem', freep, fs, live + {b}, obtained + Units(b), top')
    ensures b !in live
  {
    Open(mem, freep, fs, live, obtained, top);
    forall c {:trigger c in live} | c in live
      ensures c.addr in mem && c.addr in mem' && mem'[c.addr] == mem[c.addr] && c != b
    {
      assert LiveBlock(mem, fs, top, c);
    }
    ListBelow(mem, fs, live, obtained, top);
    GrowBalanced(mem, mem', fs, b, live, obtained, top);
    forall i {:trigger mem'[fs[i].addr]} | 0 <= i < |fs|
      ensures fs[i].addr in mem' && mem'[fs[i].addr] == mem[fs[i].addr]
    {
      assert fs[i].addr < top;
    }
  }

  lemma ListBelow(mem: Memory, fs: seq<Blk>, live: set<Blk>, obtained: set<int>, top: int)
    requires Balanced(mem, fs, live, obtained, top)
    ensures forall i :: 0 <= i < |fs| ==> fs[i].addr < top
  {
    forall i | 0 <= i < |fs| ensures fs[i].addr < top {
      if 0 < i {
        CoverHas(fs, i);
        assert fs[i].addr in Units(fs[i]);
        assert fs[i].addr in Cover(fs);
        assert fs[i].addr in obtained;
      }
    }
  }
}
