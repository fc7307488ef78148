/** The free list of malloc and free (lib/stdlib.c) as a list of blocks in address order.
    Addresses and sizes count header units. The first block is the static header `base`, which
    has size 0 and lies below all others. */
module FreeList {

  datatype Blk = Blk(addr: int, size: nat)

  function End(b: Blk): int { b.addr + b.size }

  function Units(b: Blk): (us: set<int>)
    ensures forall u :: u in us <==> b.addr <= u < End(b)
    decreases b.size
  {
    if b.size == 0 then {} else Units(Blk(b.addr, b.size - 1)) + {End(b) - 1}
  }

  function Cover(bs: seq<Blk>): set<int>
  {
    if bs == [] then {} else Units(bs[0]) + Cover(bs[1..])
  }

  /** Non-empty blocks in address order that neither overlap nor touch. */
  ghost predicate Separated(bs: seq<Blk>)
  {
    && (forall i :: 0 <= i < |bs| ==> 0 < bs[i].size)
    && (forall i, j :: 0 <= i < j < |bs| ==> End(bs[i]) < bs[j].addr)
  }

  /** The whole list, `base` first. */
  ghost predicate Sorted(fs: seq<Blk>)
  {
    && fs != [] && fs[0].size == 0
    && (forall i :: 0 < i < |fs| ==> 0 < fs[i].size)
    && (forall i, j :: 0 <= i < j < |fs| ==> End(fs[i]) < fs[j].addr)
  }

  lemma UnitsJoin(a: Blk, b: Blk)
    requires End(a) == b.addr
    ensures Units(Blk(a.addr, a.size + b.size)) == Units(a) + Units(b) && Units(a) !! Units(b)
  {
  }

  lemma {:induction false} CoverConcat(a: seq<Blk>, b: seq<Blk>)
    ensures Cover(a + b) == Cover(a) + Cover(b)
  {
    if a == [] {
      assert a + b == b;
    } else {
      assert (a + b)[1..] == a[1..] + b;
      CoverConcat(a[1..], b);
    }
  }

  lemma {:induction false} InCover(bs: seq<Blk>, u: int) returns (i: nat)
    requires u in Cover(bs)
    ensures i < |bs| && u in Units(bs[i])
  {
    if u in Units(bs[0]) {
      i := 0;
    } else {
      i := InCover(bs[1..], u);
      i := i + 1;
    }
  }

  lemma {:induction false} CoverHas(bs: seq<Blk>, i: nat)
    requires i < |bs|
    ensures Units(bs[i]) <= Cover(bs)
    decreases |bs|
  {
    if i > 0 {
      CoverHas(bs[1..], i - 1);
    }
  }

  // ---- Lists that cover the same units are equal

  lemma FirstUnit(bs: seq<Blk>, u: int)
    requires Separated(bs) && u in Cover(bs)
    ensures bs != [] && bs[0].addr <= u
    ensures u == End(bs[0]) ==> false
    ensures u !in Units(bs[0]) <==> u in Cover(bs[1..])
  {
    var i := InCover(bs, u);
    if u in Cover(bs[1..]) {
      var j := InCover(bs[1..], u);
      assert bs[1..][j] == bs[j + 1];
    }
  }

  lemma FirstCovered(bs: seq<Blk>)
    requires Separated(bs)
    ensures bs != [] ==> bs[0].addr in Cover(bs)
  {
    if bs != [] {
      CoverHas(bs, 0);
      assert bs[0].addr in Units(bs[0]);
    }
  }

  lemma {:induction false} Canonical(as_: seq<Blk>, bs: seq<Blk>)
    requires Separated(as_) && Separated(bs) && Cover(as_) == Cover(bs)
    ensures as_ == bs
    decreases |as_|
  {
    FirstCovered(as_);
    FirstCovered(bs);
    if as_ != [] {
      FirstUnit(bs, as_[0].addr);
      FirstUnit(as_, bs[0].addr);
      SameEnd(as_, bs);
      forall u ensures u in Cover(as_[1..]) <==> u in Cover(bs[1..]) {
        if u in Cover(as_) {
          FirstUnit(as_, u);
          FirstUnit(bs, u);
        }
      }
      Canonical(as_[1..], bs[1..]);
      assert as_ == [as_[0]] + as_[1..] && bs == [bs[0]] + bs[1..];
    }
  }

  lemma SameEnd(as_: seq<Blk>, bs: seq<Blk>)
    requires Separated(as_) && Separated(bs) && Cover(as_) == Cover(bs)
    requires as_ != [] && bs != [] && as_[0].addr == bs[0].addr
    ensures as_[0] == bs[0]
  {
    CoverHas(as_, 0);
    CoverHas(bs, 0);
    if End(as_[0]) < End(bs[0]) {
      assert End(as_[0]) in Units(bs[0]);
      FirstUnit(as_, End(as_[0]));
    } else if End(bs[0]) < End(as_[0]) {
      assert End(bs[0]) in Units(as_[0]);
      FirstUnit(bs, End(bs[0]));
    }
  }

  /** A free list is determined by its `base` and by the units it covers. */
  lemma SortedCanonical(fs: seq<Blk>, gs: seq<Blk>)
    requires Sorted(fs) && Sorted(gs) && fs[0] == gs[0] && Cover(fs) == Cover(gs)
    ensures fs == gs
  {
    assert Units(fs[0]) == {};
    Canonical(fs[1..], gs[1..]);
    assert fs == [fs[0]] + fs[1..] && gs == [gs[0]] + gs[1..];
  }

  // ---- free

  /** Position of the last block below `b`, whose successor lies above it. */
  ghost predicate Gap(fs: seq<Blk>, k: nat, b: Blk)
  {
    && k < |fs| && 0 < b.size
    && fs[k].addr < b.addr && End(fs[k]) <= b.addr
    && (k + 1 < |fs| ==> End(b) <= fs[k + 1].addr)
  }

  predicate JoinsNext(fs: seq<Blk>, k: nat, b: Blk) { k + 1 < |fs| && End(b) == fs[k + 1].addr }

  predicate JoinsPrev(fs: seq<Blk>, k: nat, b: Blk) { k < |fs| && End(fs[k]) == b.addr }

  /** lib/stdlib.c:136-141: `b` joined with its upper neighbour, or in front of it. */
  function JoinNext(fs: seq<Blk>, k: nat, b: Blk): Blk
  {
    if JoinsNext(fs, k, b) then Blk(b.addr, b.size + fs[k + 1].size) else b
  }

  function Above(fs: seq<Blk>, k: nat, b: Blk): seq<Blk>
    requires k < |fs|
  {
    if JoinsNext(fs, k, b) then fs[k + 2..] else fs[k + 1..]
  }

  /** lib/stdlib.c:143-148: `c` joined with its lower neighbour `k`, or behind it. */
  function Place(fs: seq<Blk>, k: nat, c: Blk, post: seq<Blk>, join: bool): seq<Blk>
    requires k < |fs|
  {
    if join then fs[..k] + [Blk(fs[k].addr, fs[k].size + c.size)] + post else fs[..k + 1] + [c] + post
  }

  /** lib/stdlib.c:136-148 */
  function Insert(fs: seq<Blk>, k: nat, b: Blk): seq<Blk>
    requires k < |fs|
  {
    Place(fs, k, JoinNext(fs, k, b), Above(fs, k, b), JoinsPrev(fs, k, b))
  }

  lemma AboveCover(fs: seq<Blk>, k: nat, b: Blk)
    requires k < |fs|
    ensures Units(JoinNext(fs, k, b)) + Cover(Above(fs, k, b)) == Units(b) + Cover(fs[k + 1..])
  {
    if JoinsNext(fs, k, b) {
      assert fs[k + 1..][1..] == fs[k + 2..];
      UnitsJoin(b, fs[k + 1]);
    }
  }

  lemma SuffixSeparated(fs: seq<Blk>, m: nat)
    requires Sorted(fs) && 0 < m <= |fs|
    ensures Separated(fs[m..])
    ensures forall j :: 0 <= j < |fs[m..]| ==> End(fs[m - 1]) < fs[m..][j].addr
  {
  }

  lemma AboveFacts(fs: seq<Blk>, k: nat, b: Blk)
    requires Sorted(fs) && Gap(fs, k, b)
    ensures 0 < JoinNext(fs, k, b).size && JoinNext(fs, k, b).addr == b.addr
    ensures Separated(Above(fs, k, b))
    ensures forall j :: 0 <= j < |Above(fs, k, b)| ==> End(JoinNext(fs, k, b)) < Above(fs, k, b)[j].addr
  {
    SuffixSeparated(fs, k + 1);
    if k + 1 < |fs| {
      SuffixSeparated(fs, k + 2);
    }
  }

  lemma SortedConcat(pre: seq<Blk>, x: Blk, post: seq<Blk>)
    requires Sorted(pre) && 0 < x.size && Separated(post)
    requires forall i :: 0 <= i < |pre| ==> End(pre[i]) < x.addr
    requires forall j :: 0 <= j < |post| ==> End(x) < post[j].addr
    ensures Sorted(pre + [x] + post)
  {
    var all := pre + [x] + post;
    forall i, j | 0 <= i < j < |all| ensures End(all[i]) < all[j].addr {
      if i < |pre| && |pre| < j {
        assert End(pre[i]) < x.addr;
      }
    }
  }

  lemma SortedPrefix(fs: seq<Blk>, k: nat)
    requires Sorted(fs) && 0 < k <= |fs|
    ensures Sorted(fs[..k])
  {
  }

  lemma JoinPrevSorted(fs: seq<Blk>, k: nat, x: Blk, post: seq<Blk>)
    requires Sorted(fs) && 0 < k < |fs| && x.addr == fs[k].addr && 0 < x.size && Separated(post)
    requires forall j :: 0 <= j < |post| ==> End(x) < post[j].addr
    ensures Sorted(fs[..k] + [x] + post)
  {
    SortedPrefix(fs, k);
    SortedConcat(fs[..k], x, post);
  }

  lemma PlaceSorted(fs: seq<Blk>, k: nat, c: Blk, post: seq<Blk>)
    requires Sorted(fs) && k < |fs| && End(fs[k]) < c.addr && 0 < c.size && Separated(post)
    requires forall j :: 0 <= j < |post| ==> End(c) < post[j].addr
    ensures Sorted(fs[..k + 1] + [c] + post)
  {
    SortedPrefix(fs, k + 1);
    SortedConcat(fs[..k + 1], c, post);
  }

  lemma PlacedSorted(fs: seq<Blk>, k: nat, c: Blk, post: seq<Blk>)
    requires Sorted(fs) && k < |fs| && End(fs[k]) <= c.addr && fs[k].addr < c.addr && 0 < c.size && Separated(post)
    requires forall j :: 0 <= j < |post| ==> End(c) < post[j].addr
    ensures var gs := Place(fs, k, c, post, End(fs[k]) == c.addr); Sorted(gs) && gs[0] == fs[0]
  {
    if End(fs[k]) == c.addr {
      JoinPrevSorted(fs, k, Blk(fs[k].addr, fs[k].size + c.size), post);
    } else {
      PlaceSorted(fs, k, c, post);
    }
  }

  lemma JoinPrevCover(fs: seq<Blk>, k: nat, c: Blk, post: seq<Blk>)
    requires k < |fs| && End(fs[k]) == c.addr
    ensures Cover(fs[..k] + [Blk(fs[k].addr, fs[k].size + c.size)] + post) ==
              Cover(fs[..k]) + Units(fs[k]) + (Units(c) + Cover(post))
  {
    CoverThree(fs[..k], Blk(fs[k].addr, fs[k].size + c.size), post);
    UnitsJoin(fs[k], c);
    Associate(Cover(fs[..k]), Units(fs[k]), Units(c), Cover(post));
    Three(Cover(fs[..k]), Units(fs[k]), Units(c));
  }

  lemma Three(a: set<int>, b: set<int>, c: set<int>)
    ensures a + (b + c) == a + b + c
  {
  }

  lemma PlacedCover(fs: seq<Blk>, k: nat, c: Blk, post: seq<Blk>, join: bool)
    requires k < |fs| && (join ==> End(fs[k]) == c.addr)
    ensures Cover(Place(fs, k, c, post, join)) == Cover(fs[..k]) + Units(fs[k]) + (Units(c) + Cover(post))
  {
    if join {
      JoinPrevCover(fs, k, c, post);
      assert Place(fs, k, c, post, join) == fs[..k] + [Blk(fs[k].addr, fs[k].size + c.size)] + post;
    } else {
      InsertCover(fs, k, c, post);
      assert Place(fs, k, c, post, join) == fs[..k + 1] + [c] + post;
    }
  }

  /** Freeing adds exactly the units of the block, and keeps the list sorted and coalesced. */
  lemma InsertKeeps(fs: seq<Blk>, k: nat, b: Blk)
    requires Sorted(fs) && Gap(fs, k, b)
    ensures Sorted(Insert(fs, k, b)) && Insert(fs, k, b)[0] == fs[0]
    ensures Cover(Insert(fs, k, b)) == Cover(fs) + Units(b)
  {
    AboveFacts(fs, k, b);
    AboveCover(fs, k, b);
    PlacedSorted(fs, k, JoinNext(fs, k, b), Above(fs, k, b));
    PlacedCover(fs, k, JoinNext(fs, k, b), Above(fs, k, b), JoinsPrev(fs, k, b));
    CoverSplit(fs, k, b, []);
    Regroup(Cover(fs[..k]) + Units(fs[k]), Units(b), Cover(fs[k + 1..]));
  }

  lemma Regroup(a: set<int>, b: set<int>, c: set<int>)
    ensures a + (b + c) == (a + c) + b
  {
  }

  lemma CoverThree(a: seq<Blk>, x: Blk, c: seq<Blk>)
    ensures Cover(a + [x] + c) == Cover(a) + Units(x) + Cover(c)
  {
    CoverConcat(a + [x], c);
    CoverLast(a, x);
  }

  lemma CoverLast(a: seq<Blk>, x: Blk)
    ensures Cover(a + [x]) == Cover(a) + Units(x)
  {
    CoverConcat(a, [x]);
    assert [x][1..] == [];
    assert Cover([x]) == Units(x) + Cover([]);
  }

  lemma CoverSplit(fs: seq<Blk>, k: nat, x: Blk, post: seq<Blk>)
    requires k < |fs|
    ensures Cover(fs[..k] + [x] + post) == Cover(fs[..k]) + Units(x) + Cover(post)
    ensures Cover(fs) == Cover(fs[..k]) + Units(fs[k]) + Cover(fs[k + 1..])
  {
    CoverThree(fs[..k], x, post);
    CoverAt(fs, k);
  }

  lemma CoverAt(fs: seq<Blk>, k: nat)
    requires k < |fs|
    ensures Cover(fs) == Cover(fs[..k]) + Units(fs[k]) + Cover(fs[k + 1..])
  {
    CoverThree(fs[..k], fs[k], fs[k + 1..]);
    SplitAround(fs, k);
  }

  lemma SplitAround(fs: seq<Blk>, k: nat)
    requires k < |fs|
    ensures fs == fs[..k] + [fs[k]] + fs[k + 1..]
    ensures fs[..k + 1] == fs[..k] + [fs[k]]
  {
  }

  lemma Associate(a: set<int>, b: set<int>, c: set<int>, d: set<int>)
    ensures a + b + c + d == a + b + (c + d)
  {
  }

  lemma InsertCover(fs: seq<Blk>, k: nat, x: Blk, post: seq<Blk>)
    requires k < |fs|
    ensures Cover(fs[..k + 1] + [x] + post) == Cover(fs[..k]) + Units(fs[k]) + (Units(x) + Cover(post))
  {
    CoverThree(fs[..k + 1], x, post);
    CoverLast(fs[..k], fs[k]);
    SplitAround(fs, k);
    Associate(Cover(fs[..k]), Units(fs[k]), Units(x), Cover(post));
  }

  // ---- malloc

  /** The tail of block `k` that malloc hands out, lib/stdlib.c:109-115. */
  function Taken(fs: seq<Blk>, k: nat, n: nat): Blk
    requires k < |fs| && n <= fs[k].size
  {
    Blk(fs[k].addr + (fs[k].size - n), n)
  }

  function Take(fs: seq<Blk>, k: nat, n: nat): seq<Blk>
    requires k < |fs| && n <= fs[k].size
  {
    if fs[k].size == n then fs[..k] + fs[k + 1..] else fs[k := Blk(fs[k].addr, fs[k].size - n)]
  }

  lemma TakenUnits(fs: seq<Blk>, k: nat, n: nat)
    requires k < |fs| && n <= fs[k].size
    ensures var x := Blk(fs[k].addr, fs[k].size - n);
            Units(fs[k]) == Units(x) + Units(Taken(fs, k, n)) && Units(x) !! Units(Taken(fs, k, n))
  {
    UnitsJoin(Blk(fs[k].addr, fs[k].size - n), Taken(fs, k, n));
  }

  lemma TakeSorted(fs: seq<Blk>, k: nat, n: nat)
    requires Sorted(fs) && k < |fs| && 0 < n <= fs[k].size
    ensures Sorted(Take(fs, k, n)) && Take(fs, k, n)[0] == fs[0]
  {
  }

  lemma TakeKeeps(fs: seq<Blk>, k: nat, n: nat)
    requires Sorted(fs) && k < |fs| && 0 < n <= fs[k].size
    ensures Sorted(Take(fs, k, n)) && Take(fs, k, n)[0] == fs[0]
    ensures Units(Taken(fs, k, n)) <= Cover(fs)
    ensures Cover(Take(fs, k, n)) == Cover(fs) - Units(Taken(fs, k, n))
  {
    TakeSorted(fs, k, n);
    TakenUnits(fs, k, n);
    TakeCover(fs, k, n);
    DisjointRest(fs, k);
  }

  lemma DisjointRest(fs: seq<Blk>, k: nat)
    requires Sorted(fs) && k < |fs|
    ensures Cover(fs[..k]) !! Units(fs[k]) && Cover(fs[k + 1..]) !! Units(fs[k])
  {
    forall u | u in Cover(fs[..k]) ensures u !in Units(fs[k]) {
      var i := InCover(fs[..k], u);
    }
    forall u | u in Cover(fs[k + 1..]) ensures u !in Units(fs[k]) {
      var i := InCover(fs[k + 1..], u);
    }
  }

  lemma TakeCover(fs: seq<Blk>, k: nat, n: nat)
    requires k < |fs| && 0 < n <= fs[k].size
    ensures Cover(fs) == Cover(fs[..k]) + Units(fs[k]) + Cover(fs[k + 1..])
    ensures Cover(Take(fs, k, n)) ==
              Cover(fs[..k]) + Units(Blk(fs[k].addr, fs[k].size - n)) + Cover(fs[k + 1..])
  {
    var x := Blk(fs[k].addr, fs[k].size - n);
    CoverSplit(fs, k, x, fs[k + 1..]);
    if fs[k].size == n {
      WithoutCover(fs[..k], fs[k + 1..], x);
    } else {
      Substituted(fs, k, x);
    }
  }

  lemma WithoutCover(a: seq<Blk>, c: seq<Blk>, x: Blk)
    requires x.size == 0
    ensures Cover(a + c) == Cover(a) + Units(x) + Cover(c)
  {
    CoverConcat(a, c);
    NoUnits(Cover(a), Cover(c), x);
  }

  lemma Substituted(fs: seq<Blk>, k: nat, x: Blk)
    requires k < |fs|
    ensures fs[k := x] == fs[..k] + [x] + fs[k + 1..]
  {
  }

  lemma NoUnits(a: set<int>, c: set<int>, x: Blk)
    requires x.size == 0
    ensures a + c == a + Units(x) + c
  {
  }
}
