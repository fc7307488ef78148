/** The circular doubly linked lists of include/simplix/list.h.

    A node is an index into one descriptor array; `NULL` is the empty list head.
    Every macro is a method that performs the macro's assignments in the macro's
    order, and is proved against the sequence of nodes read from the list head. */
module Ring {

  const NULL: int := -1

  datatype Node<T> = Node(data: T, prev: int, next: int)

  function Succ(i: int, n: int): int { if i + 1 == n then 0 else i + 1 }

  function Pred(i: int, n: int): int { if i == 0 then n - 1 else i - 1 }

  ghost predicate Distinct(r: seq<int>, n: nat)
  {
    && (forall i :: 0 <= i < |r| ==> 0 <= r[i] < n)
    && (forall i, j :: 0 <= i < j < |r| ==> r[i] != r[j])
  }

  /** `r` lists distinct nodes of `s`, and the links of `s` walk it in both directions. */
  ghost predicate IsRing<T>(s: seq<Node<T>>, r: seq<int>)
  {
    && Distinct(r, |s|)
    && (forall i {:trigger s[r[i]]} :: 0 <= i < |r| ==>
          s[r[i]].next == r[Succ(i, |r|)] && s[r[i]].prev == r[Pred(i, |r|)])
  }

  /** `r` is the ring read from `head`; no nodes at all is the NULL head. */
  ghost predicate IsList<T>(s: seq<Node<T>>, head: int, r: seq<int>)
  {
    && IsRing(s, r)
    && head == if r == [] then NULL else r[0]
  }

  function InsertAt(r: seq<int>, k: nat, x: int): seq<int>
    requires k <= |r|
  {
    r[..k] + [x] + r[k..]
  }

  function RemoveAt<T>(r: seq<T>, k: nat): seq<T>
    requires k < |r|
  {
    r[..k] + r[k + 1..]
  }

  /** Only links of `r` and of `x` may differ; payloads never do. */
  ghost predicate OnlyLinks<T>(s: seq<Node<T>>, s': seq<Node<T>>, r: seq<int>, x: int)
  {
    && |s'| == |s|
    && forall i {:trigger s'[i]} :: 0 <= i < |s| ==>
      && s'[i].data == s[i].data
      && (i !in r && i != x ==> s'[i] == s[i])
  }

  // ---- What the four assignments of each macro do to the ring

  /** The links after node `x` is spliced in behind `r[k]`. */
  ghost predicate SplicedIn<T>(s: seq<Node<T>>, s': seq<Node<T>>, r: seq<int>, k: nat, x: int)
    requires Distinct(r, |s|) && |s'| == |s| && k < |r| && 0 <= x < |s|
  {
    && s'[x].prev == r[k] && s'[x].next == r[Succ(k, |r|)]
    && (forall i {:trigger s'[r[i]]} :: 0 <= i < |r| ==>
          && s'[r[i]].next == (if i == k then x else s[r[i]].next)
          && s'[r[i]].prev == (if i == Succ(k, |r|) then x else s[r[i]].prev))
  }

  lemma InsertAtIndex(r: seq<int>, k: nat, x: int, j: nat)
    requires k <= |r| && j <= |r|
    ensures |InsertAt(r, k, x)| == |r| + 1
    ensures InsertAt(r, k, x)[j] == if j < k then r[j] else if j == k then x else r[j - 1]
  {
  }

  ghost predicate Inserted(r: seq<int>, r': seq<int>, k: nat, x: int)
    requires k <= |r|
  {
    && |r'| == |r| + 1
    && forall j {:trigger r'[j]} :: 0 <= j <= |r| ==>
      r'[j] == if j < k then r[j] else if j == k then x else r[j - 1]
  }

  lemma InsertedLink<T>(s: seq<Node<T>>, s': seq<Node<T>>, r: seq<int>, r': seq<int>, k: nat, x: int, j: nat)
    requires IsRing(s, r) && |s'| == |s| && k < |r| && j <= |r|
    requires 0 <= x < |s| && x !in r
    requires SplicedIn(s, s', r, k, x) && Inserted(r, r', k + 1, x)
    ensures 0 <= r'[j] < |s|
    ensures s'[r'[j]].next == r'[Succ(j, |r'|)] && s'[r'[j]].prev == r'[Pred(j, |r'|)]
  {
    if j != k + 1 {
      var i := if j <= k then j else j - 1;
      var was, now := s[r[i]], s'[r[i]];
    }
  }

  lemma SplicedInIsInsert<T>(s: seq<Node<T>>, s': seq<Node<T>>, r: seq<int>, k: nat, x: int)
    requires IsRing(s, r) && |s'| == |s| && k < |r|
    requires 0 <= x < |s| && x !in r
    requires SplicedIn(s, s', r, k, x)
    ensures IsRing(s', InsertAt(r, k + 1, x))
  {
    var r' := InsertAt(r, k + 1, x);
    forall j: nat | j <= |r|
      ensures r'[j] == if j < k + 1 then r[j] else if j == k + 1 then x else r[j - 1]
    {
      InsertAtIndex(r, k + 1, x, j);
    }
    forall j: nat {:trigger s'[r'[j]]} | j < |r'|
      ensures s'[r'[j]].next == r'[Succ(j, |r'|)] && s'[r'[j]].prev == r'[Pred(j, |r'|)]
    {
      InsertedLink(s, s', r, r', k, x, j);
    }
  }

  /** The links after `r[k]` is cut out of a ring of two nodes or more. */
  ghost predicate SplicedOut<T>(s: seq<Node<T>>, s': seq<Node<T>>, r: seq<int>, k: nat)
    requires Distinct(r, |s|) && |s'| == |s| && k < |r| && 2 <= |r|
  {
    forall i {:trigger s'[r[i]]} :: 0 <= i < |r| && i != k ==>
      && s'[r[i]].next == (if i == Pred(k, |r|) then r[Succ(k, |r|)] else s[r[i]].next)
      && s'[r[i]].prev == (if i == Succ(k, |r|) then r[Pred(k, |r|)] else s[r[i]].prev)
  }

  ghost predicate Removed(r: seq<int>, r': seq<int>, k: nat)
    requires k < |r|
  {
    && |r'| == |r| - 1
    && forall j {:trigger r'[j]} :: 0 <= j < |r'| ==> r'[j] == if j < k then r[j] else r[j + 1]
  }

  lemma RemovedLink<T>(s: seq<Node<T>>, s': seq<Node<T>>, r: seq<int>, r': seq<int>, k: nat, j: nat)
    requires IsRing(s, r) && |s'| == |s| && k < |r| && 2 <= |r| && j < |r'|
    requires SplicedOut(s, s', r, k) && Removed(r, r', k)
    ensures 0 <= r'[j] < |s|
    ensures s'[r'[j]].next == r'[Succ(j, |r'|)] && s'[r'[j]].prev == r'[Pred(j, |r'|)]
  {
    var i := if j < k then j else j + 1;
    var was, now := s[r[i]], s'[r[i]];
  }

  lemma SplicedOutIsRemove<T>(s: seq<Node<T>>, s': seq<Node<T>>, r: seq<int>, k: nat)
    requires IsRing(s, r) && |s'| == |s| && k < |r| && 2 <= |r|
    requires SplicedOut(s, s', r, k)
    ensures IsRing(s', RemoveAt(r, k))
  {
    var r' := RemoveAt(r, k);
    assert Removed(r, r', k);
    forall j: nat {:trigger s'[r'[j]]} | j < |r'|
      ensures s'[r'[j]].next == r'[Succ(j, |r'|)] && s'[r'[j]].prev == r'[Pred(j, |r'|)]
    {
      RemovedLink(s, s', r, r', k, j);
    }
  }

  /** The links after `x` takes the place of `r[k]` in a ring of two nodes or more. */
  ghost predicate Substituted<T>(s: seq<Node<T>>, s': seq<Node<T>>, r: seq<int>, k: nat, x: int)
    requires Distinct(r, |s|) && |s'| == |s| && k < |r| && 2 <= |r| && 0 <= x < |s|
  {
    && s'[x].prev == r[Pred(k, |r|)] && s'[x].next == r[Succ(k, |r|)]
    && forall i {:trigger s'[r[i]]} :: 0 <= i < |r| && i != k ==>
      && s'[r[i]].next == (if i == Pred(k, |r|) then x else s[r[i]].next)
      && s'[r[i]].prev == (if i == Succ(k, |r|) then x else s[r[i]].prev)
  }

  lemma SubstitutedIsUpdate<T>(s: seq<Node<T>>, s': seq<Node<T>>, r: seq<int>, k: nat, x: int)
    requires IsRing(s, r) && |s'| == |s| && k < |r| && 2 <= |r|
    requires 0 <= x < |s| && x !in r
    requires Substituted(s, s', r, k, x)
    ensures IsRing(s', r[k := x])
  {
    var r' := r[k := x];
    forall j {:trigger s'[r'[j]]} | 0 <= j < |r'|
      ensures s'[r'[j]].next == r'[Succ(j, |r'|)] && s'[r'[j]].prev == r'[Pred(j, |r'|)]
    {
      if j != k {
        var was, now := s[r[j]], s'[r[j]];
      }
    }
  }

  /** The ring only depends on the links of its own nodes. */
  lemma RingKept<T>(s: seq<Node<T>>, s': seq<Node<T>>, r: seq<int>)
    requires IsRing(s, r) && |s'| == |s|
    requires forall p {:trigger s'[p]} :: 0 <= p < |s| && p in r ==> s'[p].next == s[p].next && s'[p].prev == s[p].prev
    ensures IsRing(s', r)
  {
    forall i {:trigger s'[r[i]]} | 0 <= i < |r|
      ensures s'[r[i]].next == r[Succ(i, |r|)] && s'[r[i]].prev == r[Pred(i, |r|)]
    {
      var was := s[r[i]];
    }
  }

  // ---- The macros

  method InsertAfter<T>(d: array<Node<T>>, item: int, x: int, ghost r: seq<int>, ghost k: nat)
    requires IsRing(d[..], r) && k < |r| && r[k] == item
    requires 0 <= x < d.Length && x !in r
    modifies d
    ensures IsRing(d[..], InsertAt(r, k + 1, x))
    ensures OnlyLinks(old(d[..]), d[..], r, x)
  {
    ghost var s := d[..];
    assert s[r[k]] == d[item];
    d[x] := d[x].(prev := item);
    d[x] := d[x].(next := d[item].next);
    d[d[x].prev] := d[d[x].prev].(next := x);
    d[d[x].next] := d[d[x].next].(prev := x);
    SplicedInIsInsert(s, d[..], r, k, x);
  }

  /** Inserting before the list head appends at the end of the list read from it. */
  method InsertBefore<T>(d: array<Node<T>>, item: int, x: int, ghost r: seq<int>, ghost k: nat)
    requires IsRing(d[..], r) && k < |r| && r[k] == item
    requires 0 <= x < d.Length && x !in r
    modifies d
    ensures IsRing(d[..], InsertAt(r, if k == 0 then |r| else k, x))
    ensures OnlyLinks(old(d[..]), d[..], r, x)
  {
    ghost var s := d[..];
    assert s[r[k]] == d[item];
    d[x] := d[x].(prev := d[item].prev);
    d[x] := d[x].(next := item);
    d[d[x].prev] := d[d[x].prev].(next := x);
    d[d[x].next] := d[d[x].next].(prev := x);
    SplicedInIsInsert(s, d[..], r, Pred(k, |r|), x);
  }

  method Append<T>(d: array<Node<T>>, head: int, x: int, ghost r: seq<int>) returns (head': int)
    requires IsList(d[..], head, r)
    requires 0 <= x < d.Length && x !in r
    modifies d
    ensures IsList(d[..], head', InsertAt(r, |r|, x))
    ensures OnlyLinks(old(d[..]), d[..], r, x)
  {
    head' := head;
    if head' != NULL {
      InsertBefore(d, head', x, r, 0);
    } else {
      head' := x;
      d[x] := d[x].(prev := x);
      d[x] := d[x].(next := x);
    }
  }

  method Remove<T>(d: array<Node<T>>, head: int, item: int, ghost r: seq<int>, ghost k: nat)
    returns (head': int)
    requires IsList(d[..], head, r) && k < |r| && r[k] == item
    modifies d
    ensures IsList(d[..], head', RemoveAt(r, k))
    ensures OnlyLinks(old(d[..]), d[..], r, item)
  {
    ghost var s := d[..];
    assert s[r[k]] == d[item];
    head' := head;
    if d[item].next == item {
      head' := NULL;
      assert |r| == 1;
    } else {
      if item == head' {
        head' := d[item].next;
      }
      d[d[item].next] := d[d[item].next].(prev := d[item].prev);
      d[d[item].prev] := d[d[item].prev].(next := d[item].next);
      SplicedOutIsRemove(s, d[..], r, k);
    }
  }

  // The two macro calls whose item argument is the expression `b->next`, which the macro
  // evaluates anew at every use. First what they do to three neighbouring nodes.

  method UnlinkNext<T>(d: array<Node<T>>, head: int, b: int) returns (head': int)
    requires 0 <= b < d.Length && 0 <= d[b].next < d.Length && 0 <= d[d[b].next].next < d.Length
    requires d[b].next != b && d[d[b].next].prev == b && d[d[b].next].next != d[b].next
    modifies d
    ensures var n, m := old(d[b].next), old(d[d[b].next].next);
            && head' == (if n == head then m else head)
            && d[..] == (var s := old(d[..])[m := old(d[m]).(prev := b)]; s[b := s[b].(next := m)])
  {
    head' := head;
    if d[d[b].next].next == d[b].next {
      head' := NULL;
    } else {
      if d[b].next == head' {
        head' := d[d[b].next].next;
      }
      d[d[d[b].next].next] := d[d[d[b].next].next].(prev := d[d[b].next].prev);
      d[d[d[b].next].prev] := d[d[d[b].next].prev].(next := d[d[b].next].next);
    }
  }

  /** By the time the macro compares `b->next` with the head, `b->next` is already `x`. */
  method RelinkNext<T>(d: array<Node<T>>, head: int, b: int, x: int) returns (head': int)
    requires 0 <= b < d.Length && 0 <= d[b].next < d.Length && 0 <= d[d[b].next].next < d.Length
    requires d[d[b].next].prev == b
    requires 0 <= x < d.Length && x != b && x != d[b].next && x != d[d[b].next].next
    modifies d
    ensures var m := old(d[d[b].next].next);
            && head' == (if x == head then x else head)
            && d[..] == (var s := old(d[..])[x := old(d[x]).(prev := b, next := m)];
                         var s' := s[b := s[b].(next := x)]; s'[m := s'[m].(prev := x)])
  {
    head' := head;
    d[x] := d[x].(prev := d[d[b].next].prev);
    d[x] := d[x].(next := d[d[b].next].next);
    d[d[x].prev] := d[d[x].prev].(next := x);
    d[d[x].next] := d[d[x].next].(prev := x);
    if d[b].next == head' {
      head' := x;
    }
  }

  lemma UnlinkedIsSplicedOut<T>(s: seq<Node<T>>, s': seq<Node<T>>, r: seq<int>, k: nat)
    requires IsRing(s, r) && k + 1 < |r|
    requires s' == (var m := r[Succ(k + 1, |r|)];
                    var t := s[m := s[m].(prev := r[k])]; t[r[k] := t[r[k]].(next := m)])
    ensures SplicedOut(s, s', r, k + 1)
    ensures OnlyLinks(s, s', r, r[k])
  {
  }

  lemma RelinkedIsSubstituted<T>(s: seq<Node<T>>, s': seq<Node<T>>, r: seq<int>, k: nat, x: int)
    requires IsRing(s, r) && k + 1 < |r| && 0 <= x < |s| && x !in r
    requires s' == (var m := r[Succ(k + 1, |r|)];
                    var t := s[x := s[x].(prev := r[k], next := m)];
                    var t' := t[r[k] := t[r[k]].(next := x)]; t'[m := t'[m].(prev := x)])
    ensures Substituted(s, s', r, k + 1, x)
    ensures OnlyLinks(s, s', r, x)
  {
  }

  method RemoveNext<T>(d: array<Node<T>>, head: int, b: int, ghost r: seq<int>, ghost k: nat)
    returns (head': int)
    requires IsList(d[..], head, r) && k + 1 < |r| && r[k] == b
    modifies d
    ensures IsList(d[..], head', RemoveAt(r, k + 1))
    ensures OnlyLinks(old(d[..]), d[..], r, b)
  {
    ghost var s := d[..];
    assert s[r[k]] == d[b] && s[r[k + 1]] == d[d[b].next];
    head' := UnlinkNext(d, head, b);
    UnlinkedIsSplicedOut(s, d[..], r, k);
    SplicedOutIsRemove(s, d[..], r, k + 1);
  }

  method ReplaceNext<T>(d: array<Node<T>>, head: int, b: int, x: int, ghost r: seq<int>, ghost k: nat)
    returns (head': int)
    requires IsList(d[..], head, r) && k + 1 < |r| && r[k] == b
    requires 0 <= x < d.Length && x !in r
    modifies d
    ensures IsList(d[..], head', r[k + 1 := x])
    ensures OnlyLinks(old(d[..]), d[..], r, x)
  {
    ghost var s := d[..];
    assert s[r[k]] == d[b] && s[r[k + 1]] == d[d[b].next];
    head' := RelinkNext(d, head, b, x);
    RelinkedIsSubstituted(s, d[..], r, k, x);
    SubstitutedIsUpdate(s, d[..], r, k + 1, x);
  }
}
