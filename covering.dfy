/** Why `cover` keeps the structure valid and why `uncover` undoes it. */
module Covering {
  import opened Rings
  import opened Moves
  import opened Dlx

  /** The nodes of a row sit in strictly increasing columns, so a row holds
      at most one node per column. */
  lemma RowColumnsIncrease(sh: Shape, r: int, p: int, q: int)
    requires ShapeOk(sh) && 0 <= r < |sh.rows|
    requires 0 <= p < q < |sh.rows[r]|
    ensures IsNode(sh, sh.rows[r][p]) && IsNode(sh, sh.rows[r][q])
    ensures sh.col[sh.rows[r][p]] < sh.col[sh.rows[r][q]]
  {
    assert RowOk(sh, r);
  }

  lemma RowDistinct(sh: Shape, r: int)
    requires ShapeOk(sh) && 0 <= r < |sh.rows|
    ensures Distinct(sh.rows[r])
  {
    forall p, q | 0 <= p < q < |sh.rows[r]| ensures sh.rows[r][p] != sh.rows[r][q] {
      RowColumnsIncrease(sh, r, p, q);
    }
  }

  /** A node is determined by its row and its column. */
  lemma {:induction false} SameCell(sh: Shape, n1: int, n2: int)
    requires ShapeOk(sh) && IsNode(sh, n1) && IsNode(sh, n2)
    requires sh.rowIdx[n1] == sh.rowIdx[n2] && sh.col[n1] == sh.col[n2]
    ensures n1 == n2
  {
    var r := sh.rowIdx[n1];
    var xs := sh.rows[r];
    var p := IndexOf(xs, n1);
    var q := IndexOf(xs, n2);
    if p < q { RowColumnsIncrease(sh, r, p, q); }
    if q < p { RowColumnsIncrease(sh, r, q, p); }
  }

  lemma RowMember(sh: Shape, r: int, n: int)
    requires ShapeOk(sh) && 0 <= r < |sh.rows| && n in sh.rows[r]
    ensures IsNode(sh, n) && sh.rowIdx[n] == r
  {
    assert RowOk(sh, r);
    var p := IndexOf(sh.rows[r], n);
  }

  /** `Others(i)` holds every other node of `i`'s row, once each. */
  lemma OthersMembers(sh: Shape, i: int)
    requires ShapeOk(sh) && IsNode(sh, i)
    ensures Distinct(Others(sh, i))
    ensures forall n :: n in Others(sh, i) <==> n in sh.rows[sh.rowIdx[i]] && n != i
  {
    var xs := sh.rows[sh.rowIdx[i]];
    RowDistinct(sh, sh.rowIdx[i]);
    var p := IndexOf(xs, i);
    var os := Others(sh, i);
    assert os == xs[p + 1..] + xs[..p];
    assert |os| == |xs| - 1;
    assert forall t :: 0 <= t < |os| ==> os[t] == if t < |xs| - 1 - p then xs[p + 1 + t] else xs[t - (|xs| - 1 - p)];
    forall a, b | 0 <= a < b < |os| ensures os[a] != os[b] {
      var a' := if a < |xs| - 1 - p then p + 1 + a else a - (|xs| - 1 - p);
      var b' := if b < |xs| - 1 - p then p + 1 + b else b - (|xs| - 1 - p);
      assert a' != b';
      assert xs[a'] != xs[b'];
    }
    forall n | n in xs && n != i ensures n in os {
      var q :| 0 <= q < |xs| && xs[q] == n;
      if q > p { assert os[q - p - 1] == n; } else { assert q < p; assert os[q + |xs| - 1 - p] == n; }
    }
    forall n | n in os ensures n in xs && n != i {
      var t :| 0 <= t < |os| && os[t] == n;
    }
  }

  /** The nodes `cover` unlinks are distinct and are exactly the other
      nodes of the rows of the column's nodes, when those rows differ. */
  lemma {:induction false} JsMembers(sh: Shape, ns: seq<int>)
    requires ShapeOk(sh)
    requires forall t :: 0 <= t < |ns| ==> IsNode(sh, ns[t])
    requires forall a, b :: 0 <= a < b < |ns| ==> sh.rowIdx[ns[a]] != sh.rowIdx[ns[b]]
    ensures Distinct(Js(sh, ns))
    ensures forall n :: n in Js(sh, ns) <==> exists i :: i in ns && n in Others(sh, i)
  {
    if ns != [] {
      var i := ns[0];
      JsMembers(sh, ns[1..]);
      OthersMembers(sh, i);
      var os, rest := Others(sh, i), Js(sh, ns[1..]);
      RowsApart(sh, ns);
      DistinctConcat(os, rest);
      forall n ensures n in Js(sh, ns) <==> exists i' :: i' in ns && n in Others(sh, i') {
        if n in Js(sh, ns) {
          if n in os { assert i in ns; } else {
            assert n in rest;
            var i2 :| i2 in ns[1..] && n in Others(sh, i2);
            assert i2 in ns;
          }
        }
        if exists i' :: i' in ns && n in Others(sh, i') {
          var i' :| i' in ns && n in Others(sh, i');
          if i' != i { assert i' in ns[1..]; }
        }
      }
    }
  }

  /** The other nodes of the first row are none of the later rows' nodes. */
  lemma RowsApart(sh: Shape, ns: seq<int>)
    requires ShapeOk(sh) && ns != []
    requires forall t :: 0 <= t < |ns| ==> IsNode(sh, ns[t])
    requires forall a, b :: 0 <= a < b < |ns| ==> sh.rowIdx[ns[a]] != sh.rowIdx[ns[b]]
    requires forall n :: n in Js(sh, ns[1..]) <==> exists i :: i in ns[1..] && n in Others(sh, i)
    ensures forall u, v :: u in Others(sh, ns[0]) && v in Js(sh, ns[1..]) ==> u != v
  {
    var i := ns[0];
    OthersMembers(sh, i);
    forall u, v | u in Others(sh, i) && v in Js(sh, ns[1..]) ensures u != v {
      var i2 :| i2 in ns[1..] && v in Others(sh, i2);
      OthersMembers(sh, i2);
      RowMember(sh, sh.rowIdx[i], u);
      RowMember(sh, sh.rowIdx[i2], v);
      var b :| 0 <= b < |ns[1..]| && ns[1..][b] == i2;
      assert ns[b + 1] == i2;
    }
  }

  /** `uncover`'s visiting order is `cover`'s, reversed. */
  lemma {:induction false} KsIsReversedJs(sh: Shape, ns: seq<int>)
    ensures Ks(sh, ns) == Reverse(Js(sh, ns))
  {
    if ns != [] {
      KsIsReversedJs(sh, ns[1..]);
      ReverseAppend(Others(sh, ns[0]), Js(sh, ns[1..]));
    }
  }

  /** The `up`/`down` half of `InArena`. */
  ghost predicate UpDownInArena(sh: Shape, s: Links) {
    |s.ud.prev| == |s.ud.next| == |sh.col| && |s.size| == sh.C + 1
    && forall i :: 0 <= i < |sh.col| && i != sh.C ==> Points(s.ud, i)
  }

  /** Removing one node that is linked into its column shortens that column
      by exactly that node and leaves every other column as it was. */
  lemma RemoveOne(sh: Shape, s: Links, cols: seq<seq<int>>, j: int)
    requires ColumnRings(sh, s, cols) && UpDownInArena(sh, s)
    requires 0 <= j < |sh.col| && 0 <= sh.col[j] < sh.C && j in cols[sh.col[j]]
    ensures ColumnRings(sh, Remove(s, sh.col, j), Drop(cols, sh.col, j))
    ensures UpDownInArena(sh, Remove(s, sh.col, j))
    ensures forall x, n :: 0 <= x < sh.C ==> (n in Drop(cols, sh.col, j)[x] <==> n in cols[x] && n != j)
  {
    var t := Remove(s, sh.col, j);
    var cols' := Drop(cols, sh.col, j);
    RemoveOwnColumn(sh, s, cols, j);
    RemoveOtherColumns(sh, s, cols, j);
    forall x | 0 <= x < sh.C
      ensures Ring(t.ud, x, cols'[x]) && t.size[x] == |cols'[x]|
      ensures forall n :: n in cols'[x] ==> IsNode(sh, n) && sh.col[n] == x
    {
      if x != sh.col[j] {
        assert cols'[x] == cols[x];
      }
    }
    forall i | 0 <= i < |sh.col| && i != sh.C ensures Points(t.ud, i) {
      UnlinkKeepsPoints(s.ud, j, i);
    }
  }

  /** The column of the removed node loses exactly that node. */
  lemma RemoveOwnColumn(sh: Shape, s: Links, cols: seq<seq<int>>, j: int)
    requires ColumnRings(sh, s, cols)
    requires 0 <= j < |sh.col| && 0 <= sh.col[j] < sh.C && j in cols[sh.col[j]]
    ensures var x0 := sh.col[j]; var t := Remove(s, sh.col, j); var cols' := Drop(cols, sh.col, j);
      Ring(t.ud, x0, cols'[x0]) && t.size[x0] == |cols'[x0]| && |t.size| == |s.size|
      && (forall n :: n in cols'[x0] <==> n in cols[x0] && n != j)
      && (forall x :: 0 <= x < sh.C && x != x0 ==> cols'[x] == cols[x])
  {
    var x0 := sh.col[j];
    var xs := cols[x0];
    var k := IndexOf(xs, j);
    assert Ring(s.ud, x0, xs);
    assert Drop(cols, sh.col, j) == cols[x0 := Without(xs, k)];
    UnlinkRing(s.ud, x0, xs, k);
    WithoutMembers(xs, k);
  }

  /** Every other column keeps its ring and its counter. */
  lemma RemoveOtherColumns(sh: Shape, s: Links, cols: seq<seq<int>>, j: int)
    requires ColumnRings(sh, s, cols)
    requires 0 <= j < |sh.col| && 0 <= sh.col[j] < sh.C && j in cols[sh.col[j]]
    ensures var t := Remove(s, sh.col, j);
      forall x :: 0 <= x < sh.C && x != sh.col[j] ==> Ring(t.ud, x, cols[x]) && t.size[x] == s.size[x]
  {
    var x0 := sh.col[j];
    var xs := cols[x0];
    var k := IndexOf(xs, j);
    var t := Remove(s, sh.col, j);
    assert Ring(s.ud, x0, xs);
    var a, b := s.ud.prev[j], s.ud.next[j];
    assert a == Pred(x0, xs, k) && b == Succ(x0, xs, k);
    assert a == x0 || a in xs;
    assert b == x0 || b in xs;
    forall x | 0 <= x < sh.C && x != x0
      ensures Ring(t.ud, x, cols[x]) && t.size[x] == s.size[x]
    {
      assert a !in cols[x] && b !in cols[x];
      UnlinkFrame(s.ud, j, Elems(cols[x]) + {x});
      RingFrame(s.ud, t.ud, x, cols[x]);
    }
  }

  /** Removing the nodes `js` one after the other, each linked into its
      column, takes exactly those nodes out of the column lists. */
  lemma {:induction false} RemoveMany(sh: Shape, s: Links, cols: seq<seq<int>>, js: seq<int>)
    requires ColumnRings(sh, s, cols) && UpDownInArena(sh, s)
    requires Distinct(js)
    requires forall j :: j in js ==> 0 <= j < |sh.col| && 0 <= sh.col[j] < sh.C && j in cols[sh.col[j]]
    ensures ColumnRings(sh, RemoveAll(s, sh.col, js), DropAll(cols, sh.col, js))
    ensures UpDownInArena(sh, RemoveAll(s, sh.col, js))
    ensures forall x, n :: 0 <= x < sh.C ==> (n in DropAll(cols, sh.col, js)[x] <==> n in cols[x] && n !in js)
  {
    if js != [] {
      var k := |js| - 1;
      var front, j := js[..k], js[k];
      assert js == front + [j];
      assert Distinct(front);
      assert j !in front;
      assert forall i :: i in front ==> i in js;
      RemoveMany(sh, s, cols, front);
      assert j in js;
      assert j in DropAll(cols, sh.col, front)[sh.col[j]];
      RemoveOne(sh, RemoveAll(s, sh.col, front), DropAll(cols, sh.col, front), j);
      assert forall n :: n in js <==> n in front || n == j;
    }
  }

  /** Removing nodes of other columns leaves a column's list alone. */
  lemma {:induction false} DropAllElsewhere(cols: seq<seq<int>>, col: seq<int>, js: seq<int>, x: int)
    requires 0 <= x < |cols|
    requires forall j :: j in js && 0 <= j < |col| ==> col[j] != x
    ensures DropAll(cols, col, js)[x] == cols[x]
  {
    if js != [] {
      DropAllElsewhere(cols, col, js[..|js| - 1], x);
    }
  }

  /** Unlinking a live header from the header ring leaves the ring of the
      other live headers, in the same order. */
  lemma HideHeaderRing(sh: Shape, s: Links, live: seq<int>, c: int)
    requires HeaderRing(sh, s, live) && c in live
    ensures HeaderRing(sh, s.(lr := Unlink(s.lr, c)), Without(live, IndexOf(live, c)))
    ensures forall x :: x in Without(live, IndexOf(live, c)) <==> x in live && x != c
  {
    var k := IndexOf(live, c);
    assert Ring(s.lr, sh.C, live);
    UnlinkRing(s.lr, sh.C, live, k);
    WithoutMembers(live, k);
    WithoutIncreasing(live, k);
  }

  lemma WithoutIncreasing(xs: seq<int>, k: int)
    requires Increasing(xs) && 0 <= k < |xs|
    ensures Increasing(Without(xs, k))
  {
    var ys := Without(xs, k);
    forall a, b | 0 <= a < b < |ys| ensures ys[a] < ys[b] {
      var a' := if a < k then a else a + 1;
      var b' := if b < k then b else b + 1;
      assert xs[a'] < xs[b'];
    }
  }

  /** ... and disturbs no row, since a header's neighbours are headers. */
  lemma HideHeaderRows(sh: Shape, s: Links, live: seq<int>, c: int)
    requires ShapeOk(sh) && InArena(sh, s) && HeaderRing(sh, s, live) && RowCycles(sh, s)
    requires c in live
    ensures RowCycles(sh, s.(lr := Unlink(s.lr, c)))
    ensures InArena(sh, s.(lr := Unlink(s.lr, c)))
  {
    var k := IndexOf(live, c);
    var q := Unlink(s.lr, c);
    var a, b := s.lr.prev[c], s.lr.next[c];
    assert a == Pred(sh.C, live, k) && b == Succ(sh.C, live, k);
    assert a <= sh.C && b <= sh.C;
    forall r | 0 <= r < |sh.rows| ensures Cycle(q, sh.rows[r]) {
      assert RowOk(sh, r);
      assert a !in sh.rows[r] && b !in sh.rows[r];
      UnlinkFrame(s.lr, c, Elems(sh.rows[r]));
      CycleFrame(s.lr, q, sh.rows[r]);
    }
    forall i | 0 <= i < |sh.col| ensures Points(q, i) {
      UnlinkKeepsPoints(s.lr, c, i);
    }
  }

  /** The nodes of a live column lie in pairwise different rows, and the
      nodes `cover` unlinks are distinct, linked into live columns other
      than `c`, and are exactly the other nodes of those rows. */
  lemma CoverNodes(sh: Shape, s: Links, a: Abs, c: int)
    requires Valid(sh, s, a) && c in a.live
    ensures 0 <= c < sh.C
    ensures Distinct(Js(sh, a.cols[c]))
    ensures forall n :: n in Js(sh, a.cols[c]) <==> exists i :: i in a.cols[c] && n in Others(sh, i)
    ensures forall j :: j in Js(sh, a.cols[c]) ==>
              0 <= j < |sh.col| && sh.col[j] in a.live && sh.col[j] != c && 0 <= sh.col[j] < sh.C
              && j in a.cols[sh.col[j]]
  {
    var ns := a.cols[c];
    ColumnRows(sh, s, a, c);
    JsMembers(sh, ns);
    forall j | j in Js(sh, ns)
      ensures 0 <= j < |sh.col| && sh.col[j] in a.live && sh.col[j] != c && 0 <= sh.col[j] < sh.C
      ensures j in a.cols[sh.col[j]]
    {
      var i :| i in ns && j in Others(sh, i);
      OtherNodeLive(sh, s, a, c, i, j);
    }
  }

  /** The nodes of a live column are nodes of distinct rows. */
  lemma ColumnRows(sh: Shape, s: Links, a: Abs, c: int)
    requires Valid(sh, s, a) && c in a.live
    ensures 0 <= c < sh.C
    ensures forall t :: 0 <= t < |a.cols[c]| ==> IsNode(sh, a.cols[c][t])
    ensures forall x, y :: 0 <= x < y < |a.cols[c]| ==> sh.rowIdx[a.cols[c][x]] != sh.rowIdx[a.cols[c][y]]
  {
    var ns := a.cols[c];
    var k :| 0 <= k < |a.live| && a.live[k] == c;
    assert 0 <= c < sh.C;
    forall x, y | 0 <= x < y < |ns| ensures sh.rowIdx[ns[x]] != sh.rowIdx[ns[y]] {
      assert ns[x] in ns && ns[y] in ns;
      if sh.rowIdx[ns[x]] == sh.rowIdx[ns[y]] { SameCell(sh, ns[x], ns[y]); }
    }
    assert forall t :: 0 <= t < |ns| ==> ns[t] in ns;
  }

  /** Another node of the row of a node of live column `c` is linked into a
      live column other than `c`. */
  lemma OtherNodeLive(sh: Shape, s: Links, a: Abs, c: int, i: int, j: int)
    requires Valid(sh, s, a) && c in a.live && 0 <= c < sh.C
    requires i in a.cols[c] && j in Others(sh, i)
    ensures 0 <= j < |sh.col| && sh.col[j] in a.live && sh.col[j] != c && 0 <= sh.col[j] < sh.C
    ensures j in a.cols[sh.col[j]]
  {
    OthersMembers(sh, i);
    var r := sh.rowIdx[i];
    RowMember(sh, r, j);
    assert sh.col[j] in a.live && j in a.cols[sh.col[j]];
    assert 0 <= sh.col[j] < sh.C by {
      var t :| 0 <= t < |a.live| && a.live[t] == sh.col[j];
    }
    if sh.col[j] == c { SameCell(sh, i, j); }
  }

  /** A node of a row that stays linked into a live column other than `c`
      is neither in column `c` nor among the nodes `cover(c)` unlinks. */
  lemma RowStaysLinked(sh: Shape, s: Links, a: Abs, c: int, n: int, j: int)
    requires Valid(sh, s, a) && c in a.live && 0 <= c < sh.C
    requires IsNode(sh, n) && sh.col[n] != c && n !in Js(sh, a.cols[c])
    requires sh.col[n] in a.live && n in a.cols[sh.col[n]]
    requires j in sh.rows[sh.rowIdx[n]]
    ensures sh.col[j] != c && j !in Js(sh, a.cols[c])
  {
    CoverNodes(sh, s, a, c);
    RowMember(sh, sh.rowIdx[n], j);
    OthersMembers(sh, j);
    if sh.col[j] == c {
      assert false;
    }
    if j in Js(sh, a.cols[c]) {
      var i :| i in a.cols[c] && j in Others(sh, i);
      OthersMembers(sh, i);
      RowMember(sh, sh.rowIdx[i], j);
      assert false;
    }
  }

  /** `Coherent` survives `cover`: a row that stays linked into a live
      column meets neither `c` nor any row that `cover` took out. */
  lemma CoverCoherent(sh: Shape, s: Links, a: Abs, c: int, a': Abs)
    requires Valid(sh, s, a) && c in a.live && 0 <= c < sh.C
    requires |a'.cols| == sh.C
    requires forall x :: x in a'.live <==> x in a.live && x != c
    requires DropsExactly(sh.C, a.cols, a'.cols, Js(sh, a.cols[c]))
    ensures Coherent(sh, a')
  {
    var J := Js(sh, a.cols[c]);
    forall x, n, j |
      x in a'.live && 0 <= x < |a'.cols| && n in a'.cols[x] && 0 <= n < |sh.rowIdx|
      && 0 <= sh.rowIdx[n] < |sh.rows| && j in sh.rows[sh.rowIdx[n]]
      ensures 0 <= j < |sh.col| && sh.col[j] in a'.live && 0 <= sh.col[j] < |a'.cols| && j in a'.cols[sh.col[j]]
    {
      assert 0 <= x < sh.C && x in a.live;
      DropsAt(sh.C, a.cols, a'.cols, J, x, n);
      assert n in a.cols[x] && n !in J;
      assert IsNode(sh, n) && sh.col[n] == x;
      RowStaysLinked(sh, s, a, c, n, j);
      assert sh.col[j] in a.live && j in a.cols[sh.col[j]];
      assert 0 <= sh.col[j] < sh.C by {
        var t :| 0 <= t < |a.live| && a.live[t] == sh.col[j];
      }
      DropsAt(sh.C, a.cols, a'.cols, J, sh.col[j], j);
    }
  }

  /** The columns `cols'` are `cols` with the nodes `js` taken out. */
  ghost predicate DropsExactly(C: int, cols: seq<seq<int>>, cols': seq<seq<int>>, js: seq<int>) {
    |cols| == |cols'| == C
    && forall x, n :: 0 <= x < C ==> (n in cols'[x] <==> n in cols[x] && n !in js)
  }

  lemma DropsAt(C: int, cols: seq<seq<int>>, cols': seq<seq<int>>, js: seq<int>, x: int, n: int)
    requires DropsExactly(C, cols, cols', js) && 0 <= x < C
    ensures n in cols'[x] <==> n in cols[x] && n !in js
  {
  }

  /** `cover(c)` of a live column keeps the structure valid: the header
      ring loses `c`, `c`'s own column is untouched, and every other column
      loses exactly the nodes of the rows that meet `c`. */
  lemma CoverKeepsValid(sh: Shape, s: Links, a: Abs, c: int)
    requires Valid(sh, s, a) && c in a.live
    ensures 0 <= c < sh.C
    ensures Valid(sh, AfterCover(sh, s, a, c), CoverAbs(sh, a, c))
    ensures CoverAbs(sh, a, c).cols[c] == a.cols[c]
    ensures forall x :: x in CoverAbs(sh, a, c).live <==> x in a.live && x != c
    ensures forall x, n :: 0 <= x < sh.C ==>
              (n in CoverAbs(sh, a, c).cols[x] <==> n in a.cols[x] && n !in Js(sh, a.cols[c]))
  {
    CoverNodes(sh, s, a, c);
    var J := Js(sh, a.cols[c]);
    var s1 := s.(lr := Unlink(s.lr, c));
    HideHeaderRing(sh, s, a.live, c);
    HideHeaderRows(sh, s, a.live, c);
    assert ColumnRings(sh, s1, a.cols);
    RemoveMany(sh, s1, a.cols, J);
    DropAllElsewhere(a.cols, sh.col, J, c);
    assert DropsExactly(sh.C, a.cols, CoverAbs(sh, a, c).cols, J);
    CoverCoherent(sh, s, a, c, CoverAbs(sh, a, c));
  }

  /** `cover(c)` decrements the size of every column once per node of a
      row of `c` (other than the node in `c`) lying in that column. */
  lemma CoverSizes(sh: Shape, s: Links, a: Abs, c: int)
    requires 0 <= c < |a.cols|
    ensures |AfterCover(sh, s, a, c).size| == |s.size|
    ensures forall x :: 0 <= x < |s.size| ==>
              AfterCover(sh, s, a, c).size[x] == s.size[x] - InColumn(sh.col, Js(sh, a.cols[c]), x)
  {
    var J := Js(sh, a.cols[c]);
    RemoveAllLength(s.(lr := Unlink(s.lr, c)), sh.col, J);
    forall x | 0 <= x < |s.size|
      ensures AfterCover(sh, s, a, c).size[x] == s.size[x] - InColumn(sh.col, J, x)
    {
      RemoveAllSizes(s.(lr := Unlink(s.lr, c)), sh.col, J, x);
    }
  }

  /** `uncover(c)` right after `cover(c)` of a live column restores every
      pointer and every size, the header's place in the ring included. */
  lemma CoverThenUncover(sh: Shape, s: Links, a: Abs, c: int)
    requires Valid(sh, s, a) && c in a.live
    ensures UncoverF(AfterCover(sh, s, a, c), sh.col, c, Ks(sh, a.cols[c])) == s
  {
    CoverNodes(sh, s, a, c);
    var J := Js(sh, a.cols[c]);
    RingLinked(s.lr, sh.C, a.live, c);
    forall j | j in J ensures Removable(s, sh.col, j) {
      RingLinked(s.ud, sh.col[j], a.cols[sh.col[j]], j);
    }
    CoverUncover(s, sh.col, c, J);
    KsIsReversedJs(sh, a.cols[c]);
  }

  lemma {:induction false} JsAppend(sh: Shape, xs: seq<int>, ys: seq<int>)
    ensures Js(sh, xs + ys) == Js(sh, xs) + Js(sh, ys)
  {
    if xs != [] {
      assert (xs + ys)[1..] == xs[1..] + ys;
      JsAppend(sh, xs[1..], ys);
    } else {
      assert xs + ys == ys;
    }
  }

  /** What `cover`'s loops have unlinked once they have passed the first
      `p` nodes of the column and `t` nodes of the next row is a prefix of
      all it unlinks. */
  lemma CoverPrefix(sh: Shape, ns: seq<int>, p: int, t: int)
    requires 0 <= p < |ns| && 0 <= t <= |Others(sh, ns[p])|
    ensures var pre := Js(sh, ns[..p]) + Others(sh, ns[p])[..t];
      |pre| <= |Js(sh, ns)| && Js(sh, ns)[..|pre|] == pre
      && (t < |Others(sh, ns[p])| ==> |pre| < |Js(sh, ns)| && Js(sh, ns)[|pre|] == Others(sh, ns[p])[t])
    ensures Js(sh, ns[..p]) + Others(sh, ns[p]) == Js(sh, ns[..p + 1])
  {
    JsSplit(sh, ns, p);
    ConcatPrefix(Js(sh, ns[..p]), Others(sh, ns[p]), Js(sh, ns[p + 1..]), t);
  }

  /** `cover`'s order splits at row `p` of the column. */
  lemma JsSplit(sh: Shape, ns: seq<int>, p: int)
    requires 0 <= p < |ns|
    ensures Js(sh, ns) == Js(sh, ns[..p]) + Others(sh, ns[p]) + Js(sh, ns[p + 1..])
    ensures Js(sh, ns[..p]) + Others(sh, ns[p]) == Js(sh, ns[..p + 1])
  {
    var os := Others(sh, ns[p]);
    assert ns == ns[..p] + ([ns[p]] + ns[p + 1..]);
    JsAppend(sh, ns[..p], [ns[p]] + ns[p + 1..]);
    assert Js(sh, [ns[p]] + ns[p + 1..]) == os + Js(sh, ns[p + 1..]) by {
      assert ([ns[p]] + ns[p + 1..])[1..] == ns[p + 1..];
    }
    var A, C := Js(sh, ns[..p]), Js(sh, ns[p + 1..]);
    assert A + (os + C) == A + os + C;
    assert ns[..p + 1] == ns[..p] + [ns[p]];
    JsAppend(sh, ns[..p], [ns[p]]);
    assert Js(sh, [ns[p]]) == os by { assert [ns[p]][1..] == []; }
  }

  /** `i` is one of the nodes of the row its `rowIdx` names. */
  predicate InRow(sh: Shape, i: int) {
    0 <= i < |sh.rowIdx| && 0 <= sh.rowIdx[i] < |sh.rows| && i in sh.rows[sh.rowIdx[i]]
  }

  /** Position `u` of `Others(i)` is position `p + 1 + u` of the row,
      counted round the cycle, where `p` is `i`'s position. */
  lemma OthersAt(sh: Shape, i: int, u: int)
    requires InRow(sh, i) && 0 <= u < |Others(sh, i)|
    ensures var xs := sh.rows[sh.rowIdx[i]];
      var p := IndexOf(xs, i);
      |Others(sh, i)| == |xs| - 1
      && Others(sh, i)[u] == if p + 1 + u < |xs| then xs[p + 1 + u] else xs[p + 1 + u - |xs|]
  {
    var xs := sh.rows[sh.rowIdx[i]];
    var p := IndexOf(xs, i);
    assert Others(sh, i) == xs[p + 1..] + xs[..p];
  }

  /** Reading a row rightwards from one of its nodes `i` visits
      `Others(i)` and comes back to `i`. */
  lemma OthersWalkRight(sh: Shape, lr: Ptrs, i: int, t: int)
    requires InRow(sh, i) && Cycle(lr, sh.rows[sh.rowIdx[i]])
    requires 0 <= t < |Others(sh, i)|
    ensures 0 <= Others(sh, i)[t] < |lr.next|
    ensures lr.next[Others(sh, i)[t]] == if t + 1 < |Others(sh, i)| then Others(sh, i)[t + 1] else i
  {
    var xs := sh.rows[sh.rowIdx[i]];
    var n := |xs|;
    var p := IndexOf(xs, i);
    var o := Others(sh, i);
    OthersAt(sh, i, t);
    var q := if p + 1 + t < n then p + 1 + t else p + 1 + t - n;
    assert 0 <= q < n && o[t] == xs[q];
    var q' := if q == n - 1 then 0 else q + 1;
    CycleNext(lr, xs, q);
    if t + 1 < |o| {
      OthersAt(sh, i, t + 1);
      assert o[t + 1] == xs[q'];
    } else {
      assert q' == p;
    }
  }

  /** The first step right from `i` reaches the first of `Others(i)`. */
  lemma OthersRightStart(sh: Shape, lr: Ptrs, i: int)
    requires InRow(sh, i) && Cycle(lr, sh.rows[sh.rowIdx[i]])
    requires 0 < |Others(sh, i)|
    ensures 0 <= i < |lr.next|
    ensures lr.next[i] == Others(sh, i)[0]
  {
    var xs := sh.rows[sh.rowIdx[i]];
    var p := IndexOf(xs, i);
    OthersAt(sh, i, 0);
    CycleNext(lr, xs, p);
  }

  /** Reading it leftwards visits the same nodes in reverse. */
  lemma OthersWalkLeft(sh: Shape, lr: Ptrs, i: int, t: int)
    requires InRow(sh, i) && Cycle(lr, sh.rows[sh.rowIdx[i]])
    requires 0 <= t < |Others(sh, i)|
    ensures 0 <= Others(sh, i)[t] < |lr.next|
    ensures lr.prev[Others(sh, i)[t]] == if t > 0 then Others(sh, i)[t - 1] else i
  {
    var xs := sh.rows[sh.rowIdx[i]];
    var n := |xs|;
    var p := IndexOf(xs, i);
    OthersAt(sh, i, t);
    if t > 0 { OthersAt(sh, i, t - 1); }
    var q := if p + 1 + t < n then p + 1 + t else p + 1 + t - n;
    assert lr.prev[xs[q]] == xs[if q == 0 then n - 1 else q - 1];
  }

  lemma OthersLeftStart(sh: Shape, lr: Ptrs, i: int)
    requires InRow(sh, i) && Cycle(lr, sh.rows[sh.rowIdx[i]])
    requires 0 < |Others(sh, i)|
    ensures 0 <= i < |lr.next|
    ensures lr.prev[i] == Others(sh, i)[|Others(sh, i)| - 1]
  {
    var xs := sh.rows[sh.rowIdx[i]];
    var n := |xs|;
    var p := IndexOf(xs, i);
    OthersAt(sh, i, n - 2);
    assert lr.prev[xs[p]] == xs[if p == 0 then n - 1 else p - 1];
  }

  /** No other row nodes: the walk from `i` comes straight back. */
  lemma OthersWalkAlone(sh: Shape, lr: Ptrs, i: int)
    requires InRow(sh, i) && Cycle(lr, sh.rows[sh.rowIdx[i]])
    requires |Others(sh, i)| == 0
    ensures 0 <= i < |lr.next| && lr.next[i] == i && lr.prev[i] == i
  {
    var xs := sh.rows[sh.rowIdx[i]];
    var p := IndexOf(xs, i);
    assert Others(sh, i) == xs[p + 1..] + xs[..p];
    assert |xs| == 1;
  }

  /** The state `cover(c)` passes through after unlinking the first `k`
      nodes: column `c` is still intact, the header ring has lost `c`, and
      the next node to unlink is still linked. */
  lemma CoverMidway(sh: Shape, s: Links, a: Abs, c: int, k: int)
    requires Valid(sh, s, a) && c in a.live
    requires 0 <= k <= |Js(sh, a.cols[c])|
    ensures 0 <= c < sh.C
    ensures var s1 := s.(lr := Unlink(s.lr, c));
      var t := RemoveAll(s1, sh.col, Js(sh, a.cols[c])[..k]);
      Ring(t.ud, c, a.cols[c]) && UpDownInArena(sh, t) && t.lr == s1.lr
      && RowCycles(sh, t) && InArena(sh, t)
      && (k < |Js(sh, a.cols[c])| ==>
            var j := Js(sh, a.cols[c])[k];
            Removable(t, sh.col, j) && IsNode(sh, j) && 0 <= sh.col[j] < sh.C
            && t.ud.next[j] != j && t.ud.prev[j] != j)
  {
    var J := Js(sh, a.cols[c]);
    var pre := J[..k];
    var cols := DropAll(a.cols, sh.col, pre);
    var t := RemoveAll(s.(lr := Unlink(s.lr, c)), sh.col, pre);
    MidwayRings(sh, s, a, c, k);
    assert Ring(t.ud, c, a.cols[c]);
    if k < |J| {
      var j := J[k];
      CoverNodes(sh, s, a, c);
      assert j in J;
      assert j !in pre by {
        forall x | 0 <= x < k ensures pre[x] != j { assert J[x] != J[k]; }
      }
      var cj := sh.col[j];
      assert j in cols[cj];
      assert Ring(t.ud, cj, cols[cj]);
      RingLinked(t.ud, cj, cols[cj], j);
      RingNotSelf(t.ud, cj, cols[cj], j);
    }
  }

  /** After the first `k` removals of `cover(c)` every column is a ring of
      the nodes not yet removed, and column `c` is whole. */
  lemma MidwayRings(sh: Shape, s: Links, a: Abs, c: int, k: int)
    requires Valid(sh, s, a) && c in a.live
    requires 0 <= k <= |Js(sh, a.cols[c])|
    ensures 0 <= c < sh.C
    ensures var s1 := s.(lr := Unlink(s.lr, c));
      var pre := Js(sh, a.cols[c])[..k];
      var t := RemoveAll(s1, sh.col, pre);
      ColumnRings(sh, t, DropAll(a.cols, sh.col, pre)) && DropAll(a.cols, sh.col, pre)[c] == a.cols[c]
      && UpDownInArena(sh, t) && t.lr == s1.lr && RowCycles(sh, t) && InArena(sh, t)
      && forall x, n :: 0 <= x < sh.C ==> (n in DropAll(a.cols, sh.col, pre)[x] <==> n in a.cols[x] && n !in pre)
  {
    var J := Js(sh, a.cols[c]);
    CoverNodes(sh, s, a, c);
    var s1 := s.(lr := Unlink(s.lr, c));
    HideHeaderRows(sh, s, a.live, c);
    assert ColumnRings(sh, s1, a.cols);
    var pre := J[..k];
    forall x, y | 0 <= x < y < |pre| ensures pre[x] != pre[y] { assert J[x] != J[y]; }
    assert forall j :: j in pre ==> j in J;
    RemoveMany(sh, s1, a.cols, pre);
    DropAllElsewhere(a.cols, sh.col, pre, c);
  }

  /** Column `c` is live in the valid structure `s`, `a`. The loops of
      `cover` and `uncover` are proved under this one fact. */
  ghost predicate LiveColumn(sh: Shape, s: Links, a: Abs, c: int) {
    Valid(sh, s, a) && c in a.live && 0 <= c < |a.cols|
  }

  /** Before `cover(c)`'s loops: `c` is linked into the header ring and is
      not its own neighbour, unlinking it gives the loops' starting state,
      and relinking it restores the header ring. */
  lemma ColumnStart(sh: Shape, s: Links, a: Abs, c: int)
    requires Valid(sh, s, a) && c in a.live
    ensures 0 <= c < sh.C && |a.cols| == sh.C && LiveColumn(sh, s, a, c)
    ensures Linked(s.lr, c) && s.lr.next[c] != c && s.lr.prev[c] != c
    ensures forall u :: 0 <= u < |a.cols[c]| ==> a.cols[c][u] != c
    ensures var s1 := s.(lr := Unlink(s.lr, c));
      s1 == CoverF(s, sh.col, c, Js(sh, a.cols[c][..0]))
      && InArena(sh, s1) && Relink(s1.lr, c) == s.lr
      && s1.lr.next[c] == s.lr.next[c] && s1.lr.prev[c] == s.lr.prev[c]
      && s1.ud.next[c] == (if a.cols[c] == [] then c else a.cols[c][0])
  {
    CoverMidway(sh, s, a, c, 0);
    assert Ring(s.ud, c, a.cols[c]);
    RingLinked(s.lr, sh.C, a.live, c);
    RingNotSelf(s.lr, sh.C, a.live, c);
    RelinkUnlink(s.lr, c);
    assert a.cols[c][..0] == [];
    assert Js(sh, a.cols[c])[..0] == [];
  }

  /** After `cover(c)`'s loops: the state reached is `cover(c)`'s result,
      and `c.up` is the last node of the column. */
  lemma ColumnEnd(sh: Shape, s: Links, a: Abs, c: int)
    requires LiveColumn(sh, s, a, c)
    ensures 0 <= c < sh.C && |a.cols| == sh.C
    ensures var st := CoverF(s, sh.col, c, Js(sh, a.cols[c][..|a.cols[c]|]));
      st == AfterCover(sh, s, a, c) && |st.ud.prev| == |sh.col|
      && st.ud.prev[c] == (if a.cols[c] == [] then c else a.cols[c][|a.cols[c]| - 1])
    ensures forall u :: 0 <= u < |a.cols[c]| ==> a.cols[c][u] != c
  {
    var J := Js(sh, a.cols[c]);
    CoverMidway(sh, s, a, c, |J|);
    assert a.cols[c][..|a.cols[c]|] == a.cols[c];
    assert J[..|J|] == J;
  }

  /** While `cover(c)` unlinks nodes, column `c` itself stays intact. */
  lemma ColumnIntact(sh: Shape, s: Links, a: Abs, c: int, k: int)
    requires LiveColumn(sh, s, a, c)
    requires 0 <= k <= |Js(sh, a.cols[c])|
    ensures var t := CoverF(s, sh.col, c, Js(sh, a.cols[c])[..k]);
      Ring(t.ud, c, a.cols[c]) && |t.ud.prev| == |t.ud.next| == |t.lr.prev| == |t.lr.next| == |sh.col|
  {
    CoverMidway(sh, s, a, c, k);
  }

  /** Around row `p` of column `c`: the row's node `i`, the pointers the
      walk up and down the column goes on from, and how the unlinked prefix
      grows by `Others(i)`. */
  lemma ColumnStep(sh: Shape, s: Links, a: Abs, c: int, p: int)
    requires LiveColumn(sh, s, a, c)
    requires 0 <= p < |a.cols[c]|
    ensures var ns := a.cols[c];
      var i := ns[p];
      var os := Others(sh, i);
      var st := CoverF(s, sh.col, c, Js(sh, ns[..p]));
      var st' := CoverF(s, sh.col, c, Js(sh, ns[..p + 1]));
      |st.lr.next| == |st.lr.prev| == |st.ud.prev| == |sh.col| == |st'.ud.next|
      && Js(sh, ns[..p]) + os[..0] == Js(sh, ns[..p])
      && Js(sh, ns[..p]) + os[..|os|] == Js(sh, ns[..p + 1])
      && st.ud.prev[i] == Pred(c, ns, p)
      && st'.ud.next[i] == Succ(c, ns, p)
  {
    var ns := a.cols[c];
    var os := Others(sh, ns[p]);
    var J := Js(sh, ns);
    var done := Js(sh, ns[..p]);
    CoverPrefix(sh, ns, p, 0);
    assert os[..0] == [] && done + os[..0] == done;
    CoverPrefix(sh, ns, p, |os|);
    assert os[..|os|] == os;
    ColumnIntact(sh, s, a, c, |done|);
    assert J[..|done|] == done;
    var st := CoverF(s, sh.col, c, done);
    assert st.ud.prev[ns[p]] == Pred(c, ns, p);
    var k1 := |Js(sh, ns[..p + 1])|;
    ColumnIntact(sh, s, a, c, k1);
    assert J[..k1] == Js(sh, ns[..p + 1]);
    var st' := CoverF(s, sh.col, c, Js(sh, ns[..p + 1]));
    assert st'.ud.next[ns[p]] == Succ(c, ns, p);
  }

  /** The walks along the row of a node `i` of column `c` start from
      `i`'s right and left neighbours and never meet `i` on the way. */
  lemma RowEnds(sh: Shape, s: Links, a: Abs, c: int, i: int)
    requires LiveColumn(sh, s, a, c) && i in a.cols[c]
    ensures var os := Others(sh, i);
      var q := Unlink(s.lr, c);
      IsNode(sh, i) && i < |q.next| == |q.prev|
      && q.next[i] == (if os == [] then i else os[0])
      && q.prev[i] == (if os == [] then i else os[|os| - 1])
      && forall u :: 0 <= u < |os| ==> os[u] != i
  {
    assert IsNode(sh, i);
    OthersMembers(sh, i);
    HideHeaderRows(sh, s, a.live, c);
    var q := Unlink(s.lr, c);
    assert Cycle(q, sh.rows[sh.rowIdx[i]]);
    if Others(sh, i) == [] {
      OthersWalkAlone(sh, q, i);
    } else {
      OthersRightStart(sh, q, i);
      OthersLeftStart(sh, q, i);
    }
  }

  /** Step `k` of `cover(c)`'s unlinking: the node unlinked is linked
      into its column and is not its own neighbour there, and relinking it
      undoes the step. */
  lemma MidwayStep(sh: Shape, s: Links, a: Abs, c: int, k: int)
    requires LiveColumn(sh, s, a, c)
    requires 0 <= k < |Js(sh, a.cols[c])|
    ensures var J := Js(sh, a.cols[c]);
      var j := J[k];
      var st := CoverF(s, sh.col, c, J[..k]);
      var st' := Remove(st, sh.col, j);
      |st.ud.prev| == |st.ud.next| == |sh.col| && |st.size| == sh.C + 1
      && IsNode(sh, j) && 0 <= sh.col[j] < sh.C
      && Removable(st, sh.col, j) && st.ud.next[j] != j && st.ud.prev[j] != j
      && st'.ud.next[j] == st.ud.next[j] && st'.ud.prev[j] == st.ud.prev[j]
      && CoverF(s, sh.col, c, J[..k + 1]) == st'
      && Restore(st', sh.col, j) == st
  {
    var J := Js(sh, a.cols[c]);
    CoverMidway(sh, s, a, c, k);
    CoverMidway(sh, s, a, c, k + 1);
    var st := CoverF(s, sh.col, c, J[..k]);
    assert J[..k + 1][..k] == J[..k];
    RestoreRemove(st, sh.col, J[k]);
    RemoveKeepsOwn(st, sh.col, J[k]);
  }

  /** Node `t` of `Others(i)` for the node `i` in row `p` of column `c` is
      step `|pre|` of the unlinking, where `pre` is what came before it. */
  lemma RowStep(sh: Shape, ns: seq<int>, p: int, t: int)
    requires 0 <= p < |ns| && 0 <= t < |Others(sh, ns[p])|
    ensures var os := Others(sh, ns[p]);
      var pre := Js(sh, ns[..p]) + os[..t];
      var J := Js(sh, ns);
      |pre| < |J| && J[..|pre|] == pre && J[|pre|] == os[t]
      && J[..|pre| + 1] == Js(sh, ns[..p]) + os[..t + 1]
  {
    var os := Others(sh, ns[p]);
    var done := Js(sh, ns[..p]);
    CoverPrefix(sh, ns, p, t);
    SliceGrows(done, os, t);
    PrefixGrows(Js(sh, ns), done + os[..t]);
  }

  /** ... and its row neighbours are the nodes the walks along the row
      visit next. */
  lemma RowNeighbours(sh: Shape, s: Links, a: Abs, c: int, p: int, t: int)
    requires LiveColumn(sh, s, a, c)
    requires 0 <= p < |a.cols[c]| && 0 <= t < |Others(sh, a.cols[c][p])|
    ensures var i := a.cols[c][p];
      var os := Others(sh, i);
      var q := Unlink(s.lr, c);
      0 <= os[t] < |q.next| && |q.prev| == |q.next|
      && q.next[os[t]] == (if t + 1 < |os| then os[t + 1] else i)
      && q.prev[os[t]] == (if t > 0 then os[t - 1] else i)
  {
    var i := a.cols[c][p];
    assert i in a.cols[c];
    assert IsNode(sh, i);
    HideHeaderRows(sh, s, a.live, c);
    var q := Unlink(s.lr, c);
    assert Cycle(q, sh.rows[sh.rowIdx[i]]);
    OthersWalkRight(sh, q, i, t);
    OthersWalkLeft(sh, q, i, t);
  }

  /** What one turn of `cover`'s inner loop needs: the node `os[t]` it
      unlinks is linked into its column, unlinking it extends the prefix by
      one node, and the walk goes on to the next node of the row. */
  lemma HideStep(sh: Shape, s: Links, a: Abs, c: int, p: int, t: int)
    requires LiveColumn(sh, s, a, c)
    requires 0 <= p < |a.cols[c]| && 0 <= t < |Others(sh, a.cols[c][p])|
    ensures var ns := a.cols[c];
      var os := Others(sh, ns[p]);
      var j := os[t];
      var st := CoverF(s, sh.col, c, Js(sh, ns[..p]) + os[..t]);
      Removable(st, sh.col, j) && st.ud.next[j] != j && st.ud.prev[j] != j
      && |st.ud.prev| == |sh.col|
      && CoverF(s, sh.col, c, Js(sh, ns[..p]) + os[..t + 1]) == Remove(st, sh.col, j)
      && Unlink(s.lr, c).next[j] == (if t + 1 < |os| then os[t + 1] else ns[p])
  {
    var ns := a.cols[c];
    var os := Others(sh, ns[p]);
    var J := Js(sh, ns);
    var pre := Js(sh, ns[..p]) + os[..t];
    var k := |pre|;
    RowStep(sh, ns, p, t);
    assert J[..k] == pre && J[k] == os[t] && J[..k + 1] == Js(sh, ns[..p]) + os[..t + 1];
    MidwayStep(sh, s, a, c, k);
    var st := CoverF(s, sh.col, c, J[..k]);
    assert CoverF(s, sh.col, c, J[..k + 1]) == Remove(st, sh.col, J[k]);
    RowNeighbours(sh, s, a, c, p, t);
  }

  /** What one turn of `uncover`'s inner loop needs: the node `os[t]` it
      relinks is not its own neighbour in its column, relinking it shortens
      the prefix by one node, and the walk goes on leftwards. */
  lemma UnhideStep(sh: Shape, s: Links, a: Abs, c: int, p: int, t: int)
    requires LiveColumn(sh, s, a, c)
    requires 0 <= p < |a.cols[c]| && 0 <= t < |Others(sh, a.cols[c][p])|
    ensures var ns := a.cols[c];
      var os := Others(sh, ns[p]);
      var j := os[t];
      var st := CoverF(s, sh.col, c, Js(sh, ns[..p]) + os[..t]);
      var st' := Remove(st, sh.col, j);
      CoverF(s, sh.col, c, Js(sh, ns[..p]) + os[..t + 1]) == st'
      && Points(st'.ud, j) && st'.ud.next[j] != j && st'.ud.prev[j] != j
      && |st'.ud.prev| == |sh.col| && 0 <= sh.col[j] < |st'.size|
      && Restore(st', sh.col, j) == st
      && Unlink(s.lr, c).prev[j] == (if t > 0 then os[t - 1] else ns[p])
  {
    var ns := a.cols[c];
    var os := Others(sh, ns[p]);
    HideStep(sh, s, a, c, p, t);
    RemoveThenRestore(CoverF(s, sh.col, c, Js(sh, ns[..p]) + os[..t]), sh.col, os[t]);
    RowNeighbours(sh, s, a, c, p, t);
  }
}
