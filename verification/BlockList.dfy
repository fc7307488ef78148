/** The page allocator of kernel/physmem.c seen as a list of extents in address order.

    `Wf` is the allocator's invariant: the extents tile all pages exactly once, none is
    empty and no two neighbouring extents are both holes. A well-formed list is determined
    by its live extents alone (`Canonical`), so the contracts of the operations only have
    to say how the set of live extents changes. */
module BlockList {

  /** `pages` pages from page `start`; a hole is an available block. */
  datatype Extent = Extent(start: nat, pages: nat, hole: bool)

  function End(e: Extent): nat { e.start + e.pages }

  /** Non-empty extents that follow each other without gap or overlap from `lo` to `hi`. */
  predicate Tiles(bs: seq<Extent>, lo: nat, hi: nat)
  {
    if bs == [] then lo == hi
    else bs[0].start == lo && 0 < bs[0].pages && Tiles(bs[1..], End(bs[0]), hi)
  }

  ghost predicate Coalesced(bs: seq<Extent>)
  {
    forall i, j :: 0 <= i < j < |bs| && j == i + 1 ==> !(bs[i].hole && bs[j].hole)
  }

  ghost predicate Wf(bs: seq<Extent>, n: nat)
  {
    0 < n && Tiles(bs, 0, n) && Coalesced(bs)
  }

  /** The allocated blocks. */
  function Live(bs: seq<Extent>): set<Extent>
  {
    if bs == [] then {}
    else (if bs[0].hole then {} else {bs[0]}) + Live(bs[1..])
  }

  function LivePages(bs: seq<Extent>): nat
  {
    if bs == [] then 0
    else (if bs[0].hole then 0 else bs[0].pages) + LivePages(bs[1..])
  }

  function HolePages(bs: seq<Extent>): nat
  {
    if bs == [] then 0
    else (if bs[0].hole then bs[0].pages else 0) + HolePages(bs[1..])
  }

  // ---- Concatenation

  function EndOf(bs: seq<Extent>, lo: nat): nat
  {
    if bs == [] then lo else End(bs[|bs| - 1])
  }

  lemma {:induction false} TilesConcat(a: seq<Extent>, b: seq<Extent>, lo: nat, hi: nat)
    ensures Tiles(a + b, lo, hi) <==> Tiles(a, lo, EndOf(a, lo)) && Tiles(b, EndOf(a, lo), hi)
  {
    if a == [] {
      assert a + b == b;
    } else {
      assert (a + b)[1..] == a[1..] + b;
      TilesConcat(a[1..], b, End(a[0]), hi);
    }
  }

  lemma CoalescedConcat(a: seq<Extent>, b: seq<Extent>)
    ensures Coalesced(a + b) <==>
              && Coalesced(a) && Coalesced(b)
              && (a == [] || b == [] || !(a[|a| - 1].hole && b[0].hole))
  {
    var c := a + b;
    if Coalesced(c) {
      forall i, j | 0 <= i < j < |a| && j == i + 1 ensures !(a[i].hole && a[j].hole) {
        assert c[i] == a[i] && c[j] == a[j];
      }
      forall i, j | 0 <= i < j < |b| && j == i + 1 ensures !(b[i].hole && b[j].hole) {
        assert c[|a| + i] == b[i] && c[|a| + j] == b[j];
      }
      if a != [] && b != [] {
        assert c[|a| - 1] == a[|a| - 1] && c[|a|] == b[0];
      }
    }
  }

  lemma {:induction false} LiveConcat(a: seq<Extent>, b: seq<Extent>)
    ensures Live(a + b) == Live(a) + Live(b)
  {
    if a == [] {
      assert a + b == b;
    } else {
      assert (a + b)[1..] == a[1..] + b;
      LiveConcat(a[1..], b);
    }
  }

  // ---- Positions

  /** Extents lie inside the tiled range, and in address order. */
  lemma {:induction false} TilesAt(bs: seq<Extent>, lo: nat, hi: nat, i: nat)
    requires Tiles(bs, lo, hi) && i < |bs|
    ensures lo <= bs[i].start < End(bs[i]) <= hi
    ensures i == 0 ==> bs[i].start == lo
    ensures i + 1 == |bs| ==> End(bs[i]) == hi
    ensures i + 1 < |bs| ==> bs[i + 1].start == End(bs[i])
    decreases |bs|
  {
    if i > 0 {
      TilesAt(bs[1..], End(bs[0]), hi, i - 1);
      assert bs[1..][i - 1] == bs[i];
    } else if |bs| > 1 {
      assert bs[1..][0] == bs[1];
    }
    TilesBounds(bs[1..], End(bs[0]), hi);
  }

  lemma {:induction false} TilesBounds(bs: seq<Extent>, lo: nat, hi: nat)
    requires Tiles(bs, lo, hi)
    ensures lo <= hi && (bs == [] <==> lo == hi)
    decreases |bs|
  {
    if bs != [] {
      TilesBounds(bs[1..], End(bs[0]), hi);
    }
  }

  lemma {:induction false} TilesOrder(bs: seq<Extent>, lo: nat, hi: nat, i: nat, j: nat)
    requires Tiles(bs, lo, hi) && i < j < |bs|
    ensures bs[i].start < End(bs[i]) <= bs[j].start
    decreases |bs|
  {
    if i == 0 {
      TilesAt(bs[1..], End(bs[0]), hi, j - 1);
      assert bs[1..][j - 1] == bs[j];
    } else {
      TilesOrder(bs[1..], End(bs[0]), hi, i - 1, j - 1);
      assert bs[1..][i - 1] == bs[i] && bs[1..][j - 1] == bs[j];
    }
  }

  lemma {:induction false} LiveAt(bs: seq<Extent>, e: Extent)
    ensures e in Live(bs) <==> !e.hole && e in bs
    decreases |bs|
  {
    if bs != [] {
      LiveAt(bs[1..], e);
      assert bs == [bs[0]] + bs[1..];
    }
  }

  /** The extent that holds page `p`: there is exactly one (`TilesOrder`). */
  lemma {:induction false} Covering(bs: seq<Extent>, lo: nat, hi: nat, p: nat) returns (i: nat)
    requires Tiles(bs, lo, hi) && lo <= p < hi
    ensures i < |bs| && bs[i].start <= p < End(bs[i])
    decreases |bs|
  {
    if p < End(bs[0]) {
      i := 0;
    } else {
      i := Covering(bs[1..], End(bs[0]), hi, p);
      i := i + 1;
    }
  }

  /** No page is lost or counted twice: live and hole pages add up to all pages. */
  lemma {:induction false} PagesConserved(bs: seq<Extent>, lo: nat, hi: nat)
    requires Tiles(bs, lo, hi)
    ensures LivePages(bs) + HolePages(bs) == hi - lo
    decreases |bs|
  {
    if bs != [] {
      PagesConserved(bs[1..], End(bs[0]), hi);
    }
  }

  // ---- The canonical form

  lemma LiveHead(bs: seq<Extent>, lo: nat, hi: nat, e: Extent)
    requires Tiles(bs, lo, hi) && e in Live(bs)
    ensures lo <= e.start && bs != []
    ensures e.start == lo ==> e == bs[0]
    ensures e != bs[0] ==> End(bs[0]) <= e.start
    ensures e != bs[0] ==> e in Live(bs[1..])
  {
    LiveAt(bs, e);
    var i :| 0 <= i < |bs| && bs[i] == e;
    TilesAt(bs, lo, hi, i);
    if i > 0 {
      TilesOrder(bs, lo, hi, 0, i);
    }
  }

  /** A hole is followed by a live extent or by the end of the range. */
  lemma AfterHole(bs: seq<Extent>, lo: nat, hi: nat)
    requires Tiles(bs, lo, hi) && Coalesced(bs) && bs != [] && bs[0].hole
    ensures End(bs[0]) <= hi
    ensures |bs| == 1 ==> End(bs[0]) == hi
    ensures |bs| > 1 ==> bs[1] in Live(bs) && bs[1].start == End(bs[0]) < hi
  {
    TilesAt(bs, lo, hi, 0);
    if |bs| > 1 {
      TilesAt(bs, lo, hi, 1);
      LiveAt(bs, bs[1]);
    }
  }

  lemma SameFirst(bs: seq<Extent>, cs: seq<Extent>, lo: nat, hi: nat)
    requires Tiles(bs, lo, hi) && Coalesced(bs)
    requires Tiles(cs, lo, hi) && Coalesced(cs)
    requires Live(bs) == Live(cs) && bs != [] && cs != []
    ensures bs[0] == cs[0]
  {
    if !bs[0].hole {
      LiveAt(bs, bs[0]);
      LiveHead(cs, lo, hi, bs[0]);
    } else if !cs[0].hole {
      LiveAt(cs, cs[0]);
      LiveHead(bs, lo, hi, cs[0]);
    } else {
      AfterHole(bs, lo, hi);
      AfterHole(cs, lo, hi);
      if |bs| > 1 {
        LiveHead(cs, lo, hi, bs[1]);
      }
      if |cs| > 1 {
        LiveHead(bs, lo, hi, cs[1]);
      }
    }
  }

  lemma LiveTail(bs: seq<Extent>, lo: nat, hi: nat, e: Extent)
    requires Tiles(bs, lo, hi) && bs != []
    ensures e in Live(bs[1..]) <==> e in Live(bs) && e != bs[0]
  {
    if e in Live(bs) && e != bs[0] {
      LiveHead(bs, lo, hi, e);
    }
    if e in Live(bs[1..]) {
      LiveHead(bs[1..], End(bs[0]), hi, e);
    }
  }

  /** Two well-formed lists with the same live extents are the same list. */
  lemma {:induction false} Canonical(bs: seq<Extent>, cs: seq<Extent>, lo: nat, hi: nat)
    requires Tiles(bs, lo, hi) && Coalesced(bs)
    requires Tiles(cs, lo, hi) && Coalesced(cs)
    requires Live(bs) == Live(cs)
    ensures bs == cs
    decreases |bs|
  {
    TilesBounds(bs, lo, hi);
    TilesBounds(cs, lo, hi);
    if bs != [] {
      SameFirst(bs, cs, lo, hi);
      forall e ensures e in Live(bs[1..]) <==> e in Live(cs[1..]) {
        LiveTail(bs, lo, hi, e);
        LiveTail(cs, lo, hi, e);
      }
      Canonical(bs[1..], cs[1..], End(bs[0]), hi);
      assert bs == [bs[0]] + bs[1..] && cs == [cs[0]] + cs[1..];
    }
  }

  // ---- Replacing a window of extents

  /** `bs` with the `m` extents from position `i` replaced by `w`. */
  function Splice(bs: seq<Extent>, i: nat, m: nat, w: seq<Extent>): seq<Extent>
    requires i + m <= |bs|
  {
    bs[..i] + w + bs[i + m..]
  }

  lemma SpliceIndex(bs: seq<Extent>, i: nat, m: nat, w: seq<Extent>, j: nat)
    requires i + m <= |bs| && j < |bs| - m + |w|
    ensures |Splice(bs, i, m, w)| == |bs| - m + |w|
    ensures Splice(bs, i, m, w)[j] == if j < i then bs[j] else if j < i + |w| then w[j - i] else bs[j - |w| + m]
  {
  }

  /** `w` covers exactly the pages of the `m` extents from position `i`. */
  predicate SameRange(bs: seq<Extent>, i: nat, m: nat, w: seq<Extent>)
  {
    && 0 < m && i + m <= |bs| && w != []
    && Tiles(w, bs[i].start, End(bs[i + m - 1]))
  }

  lemma Window(bs: seq<Extent>, lo: nat, hi: nat, i: nat, m: nat)
    requires Tiles(bs, lo, hi) && 0 < m && i + m <= |bs|
    ensures Tiles(bs[..i], lo, bs[i].start)
    ensures Tiles(bs[i..i + m], bs[i].start, End(bs[i + m - 1]))
    ensures Tiles(bs[i + m..], End(bs[i + m - 1]), hi)
  {
    var pre, mid, post := bs[..i], bs[i..i + m], bs[i + m..];
    assert bs == pre + mid + post;
    TilesConcat(pre + mid, post, lo, hi);
    assert (pre + mid)[|pre + mid| - 1] == bs[i + m - 1];
    TilesConcat(pre, mid, lo, End(bs[i + m - 1]));
    assert mid[0] == bs[i];
  }

  lemma SpliceTiles(bs: seq<Extent>, lo: nat, hi: nat, i: nat, m: nat, w: seq<Extent>)
    requires Tiles(bs, lo, hi) && SameRange(bs, i, m, w)
    ensures Tiles(Splice(bs, i, m, w), lo, hi)
  {
    Window(bs, lo, hi, i, m);
    var pre, post := bs[..i], bs[i + m..];
    TilesEnd(pre, lo, bs[i].start);
    TilesEnd(w, bs[i].start, End(bs[i + m - 1]));
    TilesConcat(w, post, bs[i].start, hi);
    TilesConcat(pre, w + post, lo, hi);
    assert pre + (w + post) == pre + w + post;
  }

  lemma TilesEnd(bs: seq<Extent>, lo: nat, hi: nat)
    requires Tiles(bs, lo, hi)
    ensures EndOf(bs, lo) == hi
  {
    if bs != [] {
      TilesAt(bs, lo, hi, |bs| - 1);
    }
  }

  /** The extents on both sides of a window that keep `w` from touching another hole. */
  ghost predicate FitsBetween(bs: seq<Extent>, i: nat, m: nat, w: seq<Extent>)
    requires 0 < m && i + m <= |bs| && w != []
  {
    && Coalesced(w)
    && (i > 0 ==> !(bs[i - 1].hole && w[0].hole))
    && (i + m < |bs| ==> !(w[|w| - 1].hole && bs[i + m].hole))
  }

  lemma SpliceCoalesced(bs: seq<Extent>, i: nat, m: nat, w: seq<Extent>)
    requires Coalesced(bs) && 0 < m && i + m <= |bs| && w != []
    requires FitsBetween(bs, i, m, w)
    ensures Coalesced(Splice(bs, i, m, w))
  {
    CoalescedConcat(bs[..i], w);
    CoalescedConcat(bs[..i] + w, bs[i + m..]);
  }

  lemma LiveDisjoint(a: seq<Extent>, b: seq<Extent>, lo: nat, mid: nat, hi: nat, e: Extent)
    requires Tiles(a, lo, mid) && Tiles(b, mid, hi)
    requires e in Live(a)
    ensures e !in Live(b)
  {
    LiveAt(a, e);
    var i :| 0 <= i < |a| && a[i] == e;
    TilesAt(a, lo, mid, i);
    if e in Live(b) {
      LiveHead(b, mid, hi, e);
    }
  }

  /** A splice trades the live extents of the window for those of `w` and keeps all others. */
  lemma SpliceLive(bs: seq<Extent>, lo: nat, hi: nat, i: nat, m: nat, w: seq<Extent>)
    requires Tiles(bs, lo, hi) && SameRange(bs, i, m, w)
    ensures Live(Splice(bs, i, m, w)) == (Live(bs) - Live(bs[i..i + m])) + Live(w)
  {
    assert bs == bs[..i] + bs[i..i + m] + bs[i + m..];
    Window(bs, lo, hi, i, m);
    var pre, mid, post := bs[..i], bs[i..i + m], bs[i + m..];
    LiveConcat(pre + mid, post);
    LiveConcat(pre, mid);
    LiveConcat(pre + w, post);
    LiveConcat(pre, w);
    forall e ensures e in Live(pre) ==> e !in Live(mid) {
      if e in Live(pre) {
        LiveDisjoint(pre, mid, lo, bs[i].start, End(bs[i + m - 1]), e);
      }
    }
    forall e ensures e in Live(mid) ==> e !in Live(post) {
      if e in Live(mid) {
        LiveDisjoint(mid, post, bs[i].start, End(bs[i + m - 1]), hi, e);
      }
    }
  }

  lemma SpliceWf(bs: seq<Extent>, n: nat, i: nat, m: nat, w: seq<Extent>)
    requires Wf(bs, n) && SameRange(bs, i, m, w) && FitsBetween(bs, i, m, w)
    ensures Wf(Splice(bs, i, m, w), n)
    ensures Live(Splice(bs, i, m, w)) == (Live(bs) - Live(bs[i..i + m])) + Live(w)
  {
    SpliceTiles(bs, 0, n, i, m, w);
    SpliceCoalesced(bs, i, m, w);
    SpliceLive(bs, 0, n, i, m, w);
  }
}
