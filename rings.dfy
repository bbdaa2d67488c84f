/** Doubly linked circular lists stored as two pointer arrays of an arena.

    A snapshot of one pair of pointer fields (`up`/`down` or `left`/`right`)
    is a `Ptrs` value; index `i` of the arena has neighbours `prev[i]` and
    `next[i]`. Unlinking and relinking one element are the two primitive
    moves of Dancing Links; this module proves that they undo each other and
    how they act on a ring. */
module Rings {

  datatype Ptrs = Ptrs(prev: seq<int>, next: seq<int>)

  predicate Distinct(xs: seq<int>) {
    forall i, j :: 0 <= i < j < |xs| ==> xs[i] != xs[j]
  }

  /** `j` and both of its neighbours are indices of the arena. */
  predicate Points(p: Ptrs, j: int) {
    |p.prev| == |p.next| && 0 <= j < |p.next|
    && 0 <= p.prev[j] < |p.next| && 0 <= p.next[j] < |p.next|
  }

  /** Both neighbours of `j` point back at `j`. */
  predicate Linked(p: Ptrs, j: int) {
    Points(p, j) && p.next[p.prev[j]] == j && p.prev[p.next[j]] == j
  }

  /** `j.next.prev = j.prev; j.prev.next = j.next`: `j` leaves its list
      but keeps its own two pointers. */
  function Unlink(p: Ptrs, j: int): (r: Ptrs)
    ensures |r.prev| == |r.next| == |p.next| || !Points(p, j)
  {
    if Points(p, j) then Ptrs(p.prev[p.next[j] := p.prev[j]], p.next[p.prev[j] := p.next[j]])
    else p
  }

  /** `j.next.prev = j; j.prev.next = j`: `j` returns between the two
      neighbours it remembered. */
  function Relink(p: Ptrs, j: int): (r: Ptrs)
    ensures |r.prev| == |r.next| == |p.next| || !Points(p, j)
  {
    if Points(p, j) then Ptrs(p.prev[p.next[j] := j], p.next[p.prev[j] := j])
    else p
  }

  /** The element before position `i` of the ring `[h] + xs`. */
  function Pred(h: int, xs: seq<int>, i: int): int
    requires 0 <= i < |xs|
  {
    if i == 0 then h else xs[i - 1]
  }

  /** The element after position `i` of the ring `[h] + xs`. */
  function Succ(h: int, xs: seq<int>, i: int): int
    requires 0 <= i < |xs|
  {
    if i == |xs| - 1 then h else xs[i + 1]
  }

  /** `h` followed by `xs` is a circular doubly linked list: reading `next`
      from `h` visits `xs` in order and comes back to `h`, and `prev` reads
      the same ring backwards. */
  ghost predicate Ring(p: Ptrs, h: int, xs: seq<int>) {
    |p.prev| == |p.next| && 0 <= h < |p.next|
    && (forall i :: 0 <= i < |xs| ==> 0 <= xs[i] < |p.next| && xs[i] != h)
    && Distinct(xs)
    && p.next[h] == (if xs == [] then h else xs[0])
    && p.prev[h] == (if xs == [] then h else xs[|xs| - 1])
    && (forall i {:trigger p.prev[xs[i]]} :: 0 <= i < |xs| ==> p.prev[xs[i]] == Pred(h, xs, i))
    && (forall i {:trigger p.next[xs[i]]} :: 0 <= i < |xs| ==> p.next[xs[i]] == Succ(h, xs, i))
  }

  /** A ring without a distinguished head (a row of the matrix). */
  ghost predicate Cycle(p: Ptrs, xs: seq<int>) {
    |p.prev| == |p.next|
    && (forall i :: 0 <= i < |xs| ==> 0 <= xs[i] < |p.next|)
    && Distinct(xs)
    && (forall i {:trigger p.next[xs[i]]} :: 0 <= i < |xs| ==> p.next[xs[i]] == xs[if i == |xs| - 1 then 0 else i + 1])
    && (forall i {:trigger p.prev[xs[i]]} :: 0 <= i < |xs| ==> p.prev[xs[i]] == xs[if i == 0 then |xs| - 1 else i - 1])
  }

  lemma CycleNext(p: Ptrs, xs: seq<int>, k: int)
    requires Cycle(p, xs) && 0 <= k < |xs|
    ensures 0 <= xs[k] < |p.next| && p.next[xs[k]] == xs[if k == |xs| - 1 then 0 else k + 1]
  {
  }

  lemma CyclePrev(p: Ptrs, xs: seq<int>, k: int)
    requires Cycle(p, xs) && 0 <= k < |xs|
    ensures 0 <= xs[k] < |p.prev| && p.prev[xs[k]] == xs[if k == 0 then |xs| - 1 else k - 1]
  {
  }

  lemma DistinctConcat(xs: seq<int>, ys: seq<int>)
    requires Distinct(xs) && Distinct(ys)
    requires forall u, v :: u in xs && v in ys ==> u != v
    ensures Distinct(xs + ys)
  {
    forall a, b | 0 <= a < b < |xs + ys| ensures (xs + ys)[a] != (xs + ys)[b] {
      if b < |xs| {
      } else if a >= |xs| {
        assert (xs + ys)[a] == ys[a - |xs|] && (xs + ys)[b] == ys[b - |xs|];
      } else {
        assert (xs + ys)[a] in xs && (xs + ys)[b] in ys;
      }
    }
  }

  lemma ConcatPrefix(xs: seq<int>, ys: seq<int>, zs: seq<int>, t: int)
    requires 0 <= t <= |ys|
    ensures |xs + ys[..t]| <= |xs + ys + zs| && (xs + ys + zs)[..|xs| + t] == xs + ys[..t]
    ensures t < |ys| ==> |xs| + t < |xs + ys + zs| && (xs + ys + zs)[|xs| + t] == ys[t]
  {
    assert (xs + ys + zs)[..|xs| + t] == xs + ys[..t];
  }

  /** Two snapshots that agree at every index of `s`. */
  ghost predicate AgreeOn(p: Ptrs, q: Ptrs, s: set<int>) {
    |p.prev| == |q.prev| && |p.next| == |q.next|
    && forall i :: i in s && 0 <= i < |p.next| && 0 <= i < |p.prev| ==> p.prev[i] == q.prev[i] && p.next[i] == q.next[i]
  }

  function Elems(xs: seq<int>): set<int> {
    set i | i in xs
  }

  lemma ElemsIndex(xs: seq<int>, n: int) returns (t: int)
    requires n in Elems(xs)
    ensures 0 <= t < |xs| && xs[t] == n
  {
    t :| 0 <= t < |xs| && xs[t] == n;
  }

  lemma RingLinked(p: Ptrs, h: int, xs: seq<int>, j: int)
    requires Ring(p, h, xs)
    requires j == h || j in xs
    ensures Linked(p, j)
  {
    if j != h {
      var k :| 0 <= k < |xs| && xs[k] == j;
      if k > 0 { assert p.next[xs[k - 1]] == Succ(h, xs, k - 1); }
      if k < |xs| - 1 { assert p.prev[xs[k + 1]] == Pred(h, xs, k + 1); }
    }
  }

  /** A ring is read off the pointers at its own elements only. */
  lemma RingFrame(p: Ptrs, q: Ptrs, h: int, xs: seq<int>)
    requires Ring(p, h, xs)
    requires AgreeOn(p, q, Elems(xs) + {h})
    ensures Ring(q, h, xs)
  {
    forall i | 0 <= i < |xs|
      ensures q.prev[xs[i]] == Pred(h, xs, i) && q.next[xs[i]] == Succ(h, xs, i)
    {
      assert xs[i] in Elems(xs);
    }
  }

  lemma CycleFrame(p: Ptrs, q: Ptrs, xs: seq<int>)
    requires Cycle(p, xs)
    requires AgreeOn(p, q, Elems(xs))
    ensures Cycle(q, xs)
  {
    forall i | 0 <= i < |xs|
      ensures q.next[xs[i]] == xs[if i == |xs| - 1 then 0 else i + 1]
      ensures q.prev[xs[i]] == xs[if i == 0 then |xs| - 1 else i - 1]
    {
      assert xs[i] in Elems(xs);
    }
  }

  /** Unlinking `j` writes only at `j`'s two neighbours. */
  lemma UnlinkFrame(p: Ptrs, j: int, s: set<int>)
    requires Points(p, j)
    requires p.prev[j] !in s && p.next[j] !in s
    ensures AgreeOn(p, Unlink(p, j), s)
  {
  }

  /** Relinking a just-unlinked element restores every pointer. */
  lemma RelinkUnlink(p: Ptrs, j: int)
    requires Linked(p, j)
    ensures Relink(Unlink(p, j), j) == p
  {
    var q := Unlink(p, j);
    assert q.prev[j] == p.prev[j] && q.next[j] == p.next[j];
    assert Relink(q, j).prev == p.prev;
    assert Relink(q, j).next == p.next;
  }

  /** Unlinking one element leaves every other linked element linked. */
  lemma UnlinkKeepsLinked(p: Ptrs, j: int, x: int)
    requires Linked(p, j) && Linked(p, x) && x != j
    ensures Linked(Unlink(p, j), x)
  {
  }

  /** The list `xs` with its element at position `k` taken out. */
  function Without(xs: seq<int>, k: int): (ys: seq<int>)
    requires 0 <= k < |xs|
    ensures |ys| == |xs| - 1
    ensures forall i :: 0 <= i < |ys| ==> ys[i] == if i < k then xs[i] else xs[i + 1]
  {
    xs[..k] + xs[k + 1..]
  }

  lemma WithoutDistinct(xs: seq<int>, k: int)
    requires Distinct(xs) && 0 <= k < |xs|
    ensures Distinct(Without(xs, k))
    ensures forall i :: 0 <= i < |xs| - 1 ==> Without(xs, k)[i] != xs[k]
  {
    var ys := Without(xs, k);
    forall a, b | 0 <= a < b < |ys| ensures ys[a] != ys[b] {
      var a' := if a < k then a else a + 1;
      var b' := if b < k then b else b + 1;
      assert xs[a'] != xs[b'];
    }
  }

  lemma UnlinkRingPrev(p: Ptrs, h: int, xs: seq<int>, k: int, i: int)
    requires Ring(p, h, xs) && 0 <= k < |xs| && 0 <= i < |xs| - 1
    ensures Unlink(p, xs[k]).prev[Without(xs, k)[i]] == Pred(h, Without(xs, k), i)
  {
    var j := xs[k];
    var ys := Without(xs, k);
    var a, n := Pred(h, xs, k), Succ(h, xs, k);
    assert p.prev[j] == a && p.next[j] == n;
    assert Unlink(p, j).prev == p.prev[n := a];
    if i == k {
      assert ys[i] == xs[k + 1] == n;
    } else if i < k {
      assert ys[i] == xs[i] != n;
      assert p.prev[xs[i]] == Pred(h, xs, i);
    } else {
      assert ys[i] == xs[i + 1] != n;
      assert p.prev[xs[i + 1]] == Pred(h, xs, i + 1);
    }
  }

  lemma UnlinkRingNext(p: Ptrs, h: int, xs: seq<int>, k: int, i: int)
    requires Ring(p, h, xs) && 0 <= k < |xs| && 0 <= i < |xs| - 1
    ensures Unlink(p, xs[k]).next[Without(xs, k)[i]] == Succ(h, Without(xs, k), i)
  {
    var j := xs[k];
    var ys := Without(xs, k);
    var a, n := Pred(h, xs, k), Succ(h, xs, k);
    assert p.prev[j] == a && p.next[j] == n;
    assert Unlink(p, j).next == p.next[a := n];
    if i == k - 1 {
      assert ys[i] == xs[k - 1] == a;
    } else if i < k {
      assert ys[i] == xs[i] != a;
      assert p.next[xs[i]] == Succ(h, xs, i);
    } else {
      assert ys[i] == xs[i + 1] != a;
      assert p.next[xs[i + 1]] == Succ(h, xs, i + 1);
    }
  }

  /** Unlinking the element at position `k` of a ring leaves the ring
      without it. */
  lemma UnlinkRing(p: Ptrs, h: int, xs: seq<int>, k: int)
    requires Ring(p, h, xs) && 0 <= k < |xs|
    ensures Ring(Unlink(p, xs[k]), h, Without(xs, k))
  {
    WithoutDistinct(xs, k);
    UnlinkRingHead(p, h, xs, k);
    UnlinkRingLinks(p, h, xs, k);
    WithoutInRing(p, h, xs, k);
  }

  lemma WithoutInRing(p: Ptrs, h: int, xs: seq<int>, k: int)
    requires Ring(p, h, xs) && 0 <= k < |xs|
    ensures forall i :: 0 <= i < |xs| - 1 ==> 0 <= Without(xs, k)[i] < |p.next| && Without(xs, k)[i] != h
  {
  }

  lemma UnlinkRingLinks(p: Ptrs, h: int, xs: seq<int>, k: int)
    requires Ring(p, h, xs) && 0 <= k < |xs|
    ensures forall i :: 0 <= i < |xs| - 1 ==>
      Unlink(p, xs[k]).prev[Without(xs, k)[i]] == Pred(h, Without(xs, k), i)
      && Unlink(p, xs[k]).next[Without(xs, k)[i]] == Succ(h, Without(xs, k), i)
  {
    forall i | 0 <= i < |xs| - 1
      ensures Unlink(p, xs[k]).prev[Without(xs, k)[i]] == Pred(h, Without(xs, k), i)
      ensures Unlink(p, xs[k]).next[Without(xs, k)[i]] == Succ(h, Without(xs, k), i)
    {
      UnlinkRingPrev(p, h, xs, k, i);
      UnlinkRingNext(p, h, xs, k, i);
    }
  }

  /** The head's own pointers after unlinking the element at position `k`. */
  lemma UnlinkRingHead(p: Ptrs, h: int, xs: seq<int>, k: int)
    requires Ring(p, h, xs) && 0 <= k < |xs|
    ensures var q := Unlink(p, xs[k]); var ys := Without(xs, k);
      |q.prev| == |q.next| == |p.next|
      && q.next[h] == (if ys == [] then h else ys[0])
      && q.prev[h] == (if ys == [] then h else ys[|ys| - 1])
  {
    var j := xs[k];
    assert p.prev[j] == Pred(h, xs, k) && p.next[j] == Succ(h, xs, k);
    if k > 0 { assert p.next[xs[k - 1]] == Succ(h, xs, k - 1); }
    if k < |xs| - 1 { assert p.prev[xs[k + 1]] == Pred(h, xs, k + 1); }
  }

  function Reverse(xs: seq<int>): (r: seq<int>)
    ensures |r| == |xs|
    ensures forall i :: 0 <= i < |xs| ==> r[i] == xs[|xs| - 1 - i]
  {
    if xs == [] then [] else Reverse(xs[1..]) + [xs[0]]
  }

  lemma ReverseAppend(a: seq<int>, b: seq<int>)
    ensures Reverse(a + b) == Reverse(b) + Reverse(a)
  {
  }

  /** Position of `v` in `xs`, its first occurrence. */
  function IndexOf(xs: seq<int>, v: int): (k: int)
    requires v in xs
    ensures 0 <= k < |xs| && xs[k] == v
    ensures forall i :: 0 <= i < k ==> xs[i] != v
  {
    if xs[0] == v then 0 else 1 + IndexOf(xs[1..], v)
  }

  lemma WithoutMembers(xs: seq<int>, k: int)
    requires Distinct(xs) && 0 <= k < |xs|
    ensures forall n :: n in Without(xs, k) <==> n in xs && n != xs[k]
  {
    var ys := Without(xs, k);
    forall n | n in xs && n != xs[k] ensures n in ys {
      var i :| 0 <= i < |xs| && xs[i] == n;
      if i < k { assert ys[i] == n; } else { assert ys[i - 1] == n; }
    }
    WithoutDistinct(xs, k);
  }

  lemma UnlinkKeepsPoints(p: Ptrs, j: int, i: int)
    requires Points(p, j) && Points(p, i)
    ensures Points(Unlink(p, j), i)
  {
  }

  /** A member of a ring is neither its own successor nor its own
      predecessor. */
  lemma RingNotSelf(p: Ptrs, h: int, xs: seq<int>, j: int)
    requires Ring(p, h, xs) && j in xs
    ensures 0 <= j < |p.next| && p.next[j] != j && p.prev[j] != j
  {
    var k := IndexOf(xs, j);
    assert p.next[xs[k]] == Succ(h, xs, k);
    assert p.prev[xs[k]] == Pred(h, xs, k);
  }

  /** Appending the next element of `xs` to `ys + xs[..t]`. */
  lemma SliceGrows(ys: seq<int>, xs: seq<int>, t: int)
    requires 0 <= t < |xs|
    ensures ys + xs[..t + 1] == (ys + xs[..t]) + [xs[t]]
  {
    assert xs[..t + 1] == xs[..t] + [xs[t]];
  }

  /** A prefix `pre` of `ys` followed by the next element of `ys` is the
      next prefix of `ys`. */
  lemma PrefixGrows(ys: seq<int>, pre: seq<int>)
    requires |pre| < |ys| && ys[..|pre|] == pre
    ensures ys[..|pre| + 1] == pre + [ys[|pre|]]
  {
  }
}
