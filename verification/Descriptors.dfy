/** How the block descriptor array of kernel/physmem.c represents a block list. */
module Descriptors {
  import opened Common
  import opened Ring
  import opened BlockList
  import opened BlockCalls

  datatype Info = Info(pages: nat, available: bool)

  datatype Ret = Ok | Fail | InvalidArg | NoMem | Panic

  function Zeros(n: nat): seq<int> { seq(n, _ => 0) }

  /** The content of one page, byte by byte. */
  type Page = s: seq<int> | |s| == PAGE_SIZE witness Zeros(PAGE_SIZE)

  const ZERO_PAGE: Page := Zeros(PAGE_SIZE)

  /** get_block_descriptor */
  function DescriptorOf(addr: nat): nat { addr / PAGE_SIZE }

  /** get_block_descriptor_addr */
  function AddrOf(b: nat): nat { b * PAGE_SIZE }

  // ---- How the descriptor array represents a block list

  ghost function Starts(bs: seq<Extent>): (r: seq<int>)
  {
    seq(|bs|, i requires 0 <= i < |bs| => bs[i].start)
  }

  ghost predicate Described(s: seq<Node<Info>>, bs: seq<Extent>)
  {
    && (forall i {:trigger bs[i]} :: 0 <= i < |bs| ==> bs[i].start < |s|)
    && (forall i {:trigger s[bs[i].start]} :: 0 <= i < |bs| ==>
          s[bs[i].start].data == Info(bs[i].pages, bs[i].hole))
  }

  /** A descriptor that was ever linked is unavailable exactly when it starts a live block:
      the stale descriptors of merged holes stay available. */
  ghost predicate Remembered(s: seq<Node<Info>>, bs: seq<Extent>, linked: set<nat>)
  {
    && (forall i {:trigger bs[i]} :: 0 <= i < |bs| ==> bs[i].start in linked)
    && (forall p {:trigger p in linked} :: p in linked ==>
          p < |s| && (!s[p].data.available <==> LiveStart(bs, p)))
  }

  ghost predicate Representation(s: seq<Node<Info>>, head: int, bs: seq<Extent>, linked: set<nat>)
  {
    && Wf(bs, |s|)
    && IsList(s, head, Starts(bs))
    && Described(s, bs)
    && Remembered(s, bs, linked)
  }

  /** `Representation`, kept folded so that callers carry it around as one fact. */
  ghost predicate Represents(s: seq<Node<Info>>, head: int, bs: seq<Extent>, linked: set<nat>)
  {
    forall k {:trigger Unfold(k)} :: Unfold(k) ==> Representation(s, head, bs, linked)
  }

  lemma Open(s: seq<Node<Info>>, head: int, bs: seq<Extent>, linked: set<nat>)
    requires Represents(s, head, bs, linked)
    ensures Representation(s, head, bs, linked)
  {
    assert Unfold(0);
  }

  ghost function StartSet(w: seq<Extent>): set<nat>
  {
    set i | 0 <= i < |w| :: w[i].start
  }

  lemma LiveInRange(bs: seq<Extent>, lo: nat, hi: nat, e: Extent)
    requires Tiles(bs, lo, hi) && e in Live(bs)
    ensures lo <= e.start < hi
  {
    LiveAt(bs, e);
    var i :| 0 <= i < |bs| && bs[i] == e;
    TilesAt(bs, lo, hi, i);
  }

  lemma LiveInWindow(bs: seq<Extent>, n: nat, i: nat, m: nat, e: Extent)
    requires Tiles(bs, 0, n) && 0 < m && i + m <= |bs|
    requires e in Live(bs)
    ensures e in Live(bs[i..i + m]) <==> bs[i].start <= e.start < End(bs[i + m - 1])
  {
    assert bs == bs[..i] + bs[i..i + m] + bs[i + m..];
    Window(bs, 0, n, i, m);
    LiveConcat(bs[..i] + bs[i..i + m], bs[i + m..]);
    LiveConcat(bs[..i], bs[i..i + m]);
    if e in Live(bs[..i]) {
      LiveInRange(bs[..i], 0, bs[i].start, e);
    }
    if e in Live(bs[i..i + m]) {
      LiveInRange(bs[i..i + m], bs[i].start, End(bs[i + m - 1]), e);
    }
    if e in Live(bs[i + m..]) {
      LiveInRange(bs[i + m..], End(bs[i + m - 1]), n, e);
    }
  }

  /** Pages of a window, the live ones among them, and everything else. */
  ghost predicate DataOutside(s: seq<Node<Info>>, s': seq<Node<Info>>, lo: nat, hi: nat)
  {
    && |s'| == |s|
    && forall p {:trigger s'[p]} :: 0 <= p < |s| && !(lo <= p < hi) ==> s'[p].data == s[p].data
  }

  lemma SpliceDescribed(s: seq<Node<Info>>, s': seq<Node<Info>>, bs: seq<Extent>, i: nat, m: nat, w: seq<Extent>)
    requires Tiles(bs, 0, |s|) && SameRange(bs, i, m, w) && Described(s, bs)
    requires DataOutside(s, s', bs[i].start, End(bs[i + m - 1])) && Described(s', w)
    ensures Described(s', Splice(bs, i, m, w))
  {
    var cs := Splice(bs, i, m, w);
    forall j {:trigger cs[j]} {:trigger s'[cs[j].start]} | 0 <= j < |cs|
      ensures cs[j].start < |s'| && s'[cs[j].start].data == Info(cs[j].pages, cs[j].hole)
    {
      SpliceIndex(bs, i, m, w, j);
      if j < i {
        TilesOrder(bs, 0, |s|, j, i);
      } else if i + |w| <= j {
        TilesOrder(bs, 0, |s|, i + m - 1, j - |w| + m);
      }
    }
  }

  lemma SpliceLiveStart(bs: seq<Extent>, n: nat, i: nat, m: nat, w: seq<Extent>, p: nat)
    requires Wf(bs, n) && SameRange(bs, i, m, w)
    ensures LiveStart(Splice(bs, i, m, w), p) <==>
              if bs[i].start <= p < End(bs[i + m - 1]) then LiveStart(w, p) else LiveStart(bs, p)
  {
    var cs, lo, hi := Splice(bs, i, m, w), bs[i].start, End(bs[i + m - 1]);
    SpliceLive(bs, 0, n, i, m, w);
    forall e | e in Live(bs) ensures e in Live(bs[i..i + m]) <==> lo <= e.start < hi {
      LiveInWindow(bs, n, i, m, e);
    }
    forall e | e in Live(w) ensures lo <= e.start < hi {
      LiveInRange(w, lo, hi, e);
    }
  }

  /** No old descriptor inside the window still claims to be allocated. */
  ghost predicate StaleAvailable(s': seq<Node<Info>>, bs: seq<Extent>, linked: set<nat>, i: nat, m: nat, w: seq<Extent>)
    requires 0 < m && i + m <= |bs| && End(bs[i + m - 1]) <= |s'|
  {
    forall p :: p in linked && bs[i].start <= p < End(bs[i + m - 1]) && p !in StartSet(w) ==> s'[p].data.available
  }

  lemma SpliceRemembered(s: seq<Node<Info>>, s': seq<Node<Info>>, bs: seq<Extent>, i: nat, m: nat,
                         w: seq<Extent>, linked: set<nat>)
    requires Wf(bs, |s|) && SameRange(bs, i, m, w) && Remembered(s, bs, linked) && End(bs[i + m - 1]) <= |s|
    requires DataOutside(s, s', bs[i].start, End(bs[i + m - 1])) && Described(s', w)
    requires StaleAvailable(s', bs, linked, i, m, w)
    ensures Remembered(s', Splice(bs, i, m, w), linked + StartSet(w))
  {
    var cs, lo, hi := Splice(bs, i, m, w), bs[i].start, End(bs[i + m - 1]);
    forall j {:trigger cs[j]} | 0 <= j < |cs| ensures cs[j].start in linked + StartSet(w) {
      SpliceIndex(bs, i, m, w, j);
    }
    forall p {:trigger p in linked} | p in linked + StartSet(w)
      ensures p < |s'| && (!s'[p].data.available <==> LiveStart(cs, p))
    {
      SpliceLiveStart(bs, |s|, i, m, w, p);
      WindowStart(w, lo, hi, p);
      TilesAt(bs, 0, |s|, i + m - 1);
      if p in StartSet(w) {
        var j :| 0 <= j < |w| && w[j].start == p;
        TilesAt(w, lo, hi, j);
      }
    }
  }

  /** In a tiled window a page that starts a live block starts only that block. */
  lemma WindowStart(w: seq<Extent>, lo: nat, hi: nat, p: nat)
    requires Tiles(w, lo, hi)
    ensures forall j :: 0 <= j < |w| && w[j].start == p ==> (LiveStart(w, p) <==> !w[j].hole)
    ensures p !in StartSet(w) ==> !LiveStart(w, p)
  {
    forall e | e in Live(w) ensures e in w && !e.hole {
      LiveAt(w, e);
    }
    forall j | 0 <= j < |w| && w[j].start == p ensures LiveStart(w, p) <==> !w[j].hole {
      LiveAt(w, w[j]);
      if e :| e in Live(w) && e.start == p {
        var l :| 0 <= l < |w| && w[l] == e;
        if l < j {
          TilesOrder(w, lo, hi, l, j);
        } else if j < l {
          TilesOrder(w, lo, hi, j, l);
        }
      }
    }
  }

  // ---- The ring of the list after each window

  ghost predicate Shaped(s: seq<Node<Info>>, head: int, bs: seq<Extent>)
  {
    && bs != [] && Tiles(bs, 0, |s|)
    && IsList(s, head, Starts(bs))
    && Described(s, bs)
  }

  lemma NotAStart(bs: seq<Extent>, n: nat, i: nat, p: nat)
    requires Tiles(bs, 0, n) && i < |bs| && bs[i].start < p < End(bs[i])
    ensures p !in Starts(bs)
  {
    forall j | 0 <= j < |bs| ensures Starts(bs)[j] != p {
      if j < i {
        TilesOrder(bs, 0, n, j, i);
      } else if i < j {
        TilesOrder(bs, 0, n, i, j);
      }
    }
  }

  /** The guard `b < b->next && b->next->available`. */
  lemma NextIsHole(s: seq<Node<Info>>, head: int, bs: seq<Extent>, i: nat)
    requires Shaped(s, head, bs) && i < |bs|
    ensures 0 <= s[bs[i].start].next < |s|
    ensures bs[i].start < s[bs[i].start].next && s[s[bs[i].start].next].data.available <==> HoleAfter(bs, i)
    ensures HoleAfter(bs, i) ==> s[bs[i].start].next == bs[i + 1].start
  {
    var r, j := Starts(bs), Succ(i, |bs|);
    assert s[r[i]].next == r[j] == bs[j].start;
    if j < i {
      TilesOrder(bs, 0, |s|, j, i);
    } else if i < j {
      TilesOrder(bs, 0, |s|, i, j);
    }
  }

  /** The guard `b->prev < b && b->prev->available`. */
  lemma PrevIsHole(s: seq<Node<Info>>, head: int, bs: seq<Extent>, i: nat)
    requires Shaped(s, head, bs) && i < |bs|
    ensures 0 <= s[bs[i].start].prev < |s|
    ensures s[bs[i].start].prev < bs[i].start && s[s[bs[i].start].prev].data.available <==> HoleBefore(bs, i)
    ensures HoleBefore(bs, i) ==> s[bs[i].start].prev == bs[i - 1].start
  {
    var r, j := Starts(bs), Pred(i, |bs|);
    assert s[r[i]].prev == r[j] == bs[j].start;
    if j < i {
      TilesOrder(bs, 0, |s|, j, i);
    } else if i < j {
      TilesOrder(bs, 0, |s|, i, j);
    }
  }

  /** Positions `i` and `i + 1` as one hole. */
  function Merge(bs: seq<Extent>, i: nat): seq<Extent>
    requires i + 1 < |bs|
  {
    Splice(bs, i, 2, [Extent(bs[i].start, bs[i].pages + bs[i + 1].pages, true)])
  }

  lemma MergeStarts(bs: seq<Extent>, i: nat)
    requires i + 1 < |bs|
    ensures Starts(Merge(bs, i)) == RemoveAt(Starts(bs), i + 1)
  {
  }

  lemma MergeTiles(bs: seq<Extent>, n: nat, i: nat)
    requires Tiles(bs, 0, n) && i + 1 < |bs|
    ensures SameRange(bs, i, 2, [Extent(bs[i].start, bs[i].pages + bs[i + 1].pages, true)])
    ensures Tiles(Merge(bs, i), 0, n)
  {
    TilesAt(bs, 0, n, i);
    TilesAt(bs, 0, n, i + 1);
    LoneHole(bs[i].start, bs[i].pages + bs[i + 1].pages);
    SpliceTiles(bs, 0, n, i, 2, [Extent(bs[i].start, bs[i].pages + bs[i + 1].pages, true)]);
  }

  lemma MergeDescribed(s: seq<Node<Info>>, s': seq<Node<Info>>, bs: seq<Extent>, i: nat)
    requires Tiles(bs, 0, |s|) && Described(s, bs) && i + 1 < |bs| && |s'| == |s|
    requires forall p :: 0 <= p < |s| ==>
      s'[p].data == if p == bs[i].start then Info(bs[i].pages + bs[i + 1].pages, true) else s[p].data
    ensures Described(s', Merge(bs, i))
  {
    TilesAt(bs, 0, |s|, i);
    MergeTiles(bs, |s|, i);
    SpliceDescribed(s, s', bs, i, 2, [Extent(bs[i].start, bs[i].pages + bs[i + 1].pages, true)]);
  }

  lemma FreeStages(bs: seq<Extent>, i: nat)
    requires i < |bs| && !bs[i].hole
    ensures var b0 := bs[i := bs[i].(hole := true)];
            var b1 := if HoleAfter(b0, i) then Merge(b0, i) else b0;
            && i < |b1| && b1[i].hole && b1[i].start == bs[i].start
            && HoleBefore(b1, i) == HoleBefore(bs, i)
            && (i > 0 ==> b1[i - 1] == bs[i - 1])
            && FreeAt(bs, i) == if HoleBefore(b1, i) then Merge(b1, i - 1) else b1
  {
    var b0 := bs[i := bs[i].(hole := true)];
    var b1 := if HoleAfter(b0, i) then Merge(b0, i) else b0;
    assert b1 == bs[..i] + [Extent(bs[i].start, Reach(bs, i), true)] + bs[(if HoleAfter(bs, i) then i + 2
           else i + 1)..];
  }

  lemma CarveStarts(bs: seq<Extent>, i: nat, m: nat, pages: nat, k: nat)
    requires 0 < m && i + m <= |bs| && m <= 2 && k <= pages
    ensures var r, r' := Starts(bs), Starts(Splice(bs, i, m, Carve(bs[i].start, pages, k)));
            r' == if m == 1 then (if k < pages then InsertAt(r, i + 1, bs[i].start + k) else r)
                  else if k < pages then r[i + 1 := bs[i].start + k] else RemoveAt(r, i + 1)
  {
    var w := Carve(bs[i].start, pages, k);
    var cs := Splice(bs, i, m, w);
    SpliceStarts(bs, cs, w, i, m);
    var r, r', at := Starts(bs), Starts(cs), bs[i].start + k;
    if k < pages {
      assert |w| == 2 && w[1].start == at;
      if m == 1 {
        assert r' == InsertAt(r, i + 1, at);
      } else {
        assert r' == r[i + 1 := at];
      }
    } else {
      assert |w| == 1;
      if m == 1 {
        assert r' == r;
      } else {
        assert r' == RemoveAt(r, i + 1);
      }
    }
  }

  lemma SpliceStarts(bs: seq<Extent>, cs: seq<Extent>, w: seq<Extent>, i: nat, m: nat)
    requires i + m <= |bs| && cs == Splice(bs, i, m, w)
    ensures |Starts(cs)| == |bs| - m + |w|
    ensures forall j {:trigger Starts(cs)[j]} :: 0 <= j < |cs| ==>
              Starts(cs)[j] == if j < i then bs[j].start else if j < i + |w| then w[j - i].start
                  else bs[j - |w| + m].start
  {
  }

  /** What a walk along the list finds at position `i`. */
  lemma WalkStep(s: seq<Node<Info>>, head: int, bs: seq<Extent>, i: nat)
    requires IsList(s, head, Starts(bs)) && Described(s, bs) && i < |bs|
    ensures head == bs[0].start != NULL
    ensures bs[i].start < |s| && s[bs[i].start].data == Info(bs[i].pages, bs[i].hole)
    ensures s[bs[i].start].next == bs[Succ(i, |bs|)].start
    ensures i > 0 ==> bs[i].start != head
  {
    var r := Starts(bs);
    var node := s[r[i]];
    assert r[0] == bs[0].start && r[i] == bs[i].start;
  }

  lemma SpliceRepresents(s: seq<Node<Info>>, s': seq<Node<Info>>, head: int, bs: seq<Extent>, linked: set<nat>,
                         i: nat, m: nat, w: seq<Extent>)
    requires Wf(bs, |s|) && Described(s, bs) && Remembered(s, bs, linked)
    requires SameRange(bs, i, m, w) && End(bs[i + m - 1]) <= |s| && Wf(Splice(bs, i, m, w), |s|)
    requires DataOutside(s, s', bs[i].start, End(bs[i + m - 1]))
    requires Described(s', w) && StaleAvailable(s', bs, linked, i, m, w)
    requires IsList(s', head, Starts(Splice(bs, i, m, w)))
    ensures Represents(s', head, Splice(bs, i, m, w), linked + StartSet(w))
  {
    SpliceDescribed(s, s', bs, i, m, w);
    SpliceRemembered(s, s', bs, i, m, w, linked);
  }
}
