/** What `search` promises, stated on the input matrix, and the sequences
    of covers it goes through.

    A solution is read as the source rows of the nodes `search` writes into
    its buffer. `Hits` counts how many chosen rows hold a 1 in a column;
    `ExactCover` says that every column still to be covered is hit exactly
    once and no other column is hit. `CoverCols` and `CoverColsS` describe
    the abstract state and the snapshot after covering several columns one
    after the other, which is what the row loop of `search` does. */
module Solving {
  import opened Rings
  import opened Moves
  import opened Dlx
  import opened Covering

  datatype Option<T> = None | Some(value: T)

  /** Row `r` of `m` holds a 1 in column `x`. */
  predicate Hit(m: seq<seq<int>>, r: int, x: int) {
    0 <= r < |m| && 0 <= x < |m[r]| && m[r][x] == 1
  }

  /** The number of chosen rows `rs` that hold a 1 in column `x`. */
  function Hits(m: seq<seq<int>>, rs: seq<int>, x: int): (n: nat)
    ensures n <= |rs|
  {
    if rs == [] then 0 else (if Hit(m, rs[0], x) then 1 else 0) + Hits(m, rs[1..], x)
  }

  /** The rows `rs` of `m` cover each column of `live` exactly once and no
      other column at all. */
  ghost predicate ExactCover(m: seq<seq<int>>, live: seq<int>, rs: seq<int>) {
    (forall t :: 0 <= t < |rs| ==> 0 <= rs[t] < |m|)
    && forall x :: Hits(m, rs, x) == if x in live then 1 else 0
  }

  /** The source row of each node of `ns` (`node.rowIdx`). */
  function RowsOfNodes(sh: Shape, ns: seq<int>): (rs: seq<int>)
    ensures |rs| == |ns|
  {
    seq(|ns|, t requires 0 <= t < |ns| => if 0 <= ns[t] < |sh.rowIdx| then sh.rowIdx[ns[t]] else -1)
  }

  /** The column of each node of `os` (`j.column`). */
  function ColumnsOf(sh: Shape, os: seq<int>): (cs: seq<int>)
    ensures |cs| == |os|
  {
    seq(|os|, u requires 0 <= u < |os| => if 0 <= os[u] < |sh.col| then sh.col[os[u]] else -1)
  }

  /** The abstract state after `cover` of each of `cs` in turn. */
  function CoverCols(sh: Shape, a: Abs, cs: seq<int>): Abs {
    if cs == [] then a else CoverAbs(sh, CoverCols(sh, a, cs[..|cs| - 1]), cs[|cs| - 1])
  }

  /** The snapshot after `cover` of each of `cs` in turn. */
  function CoverColsS(sh: Shape, s: Links, a: Abs, cs: seq<int>): Links {
    if cs == [] then s
    else
      var n := |cs| - 1;
      var b := CoverCols(sh, a, cs[..n]);
      if 0 <= cs[n] < |b.cols| then AfterCover(sh, CoverColsS(sh, s, a, cs[..n]), b, cs[n])
      else CoverColsS(sh, s, a, cs[..n])
  }

  /** The index of the first smallest element of `xs`: what the running
      minimum with a strict `<` ends on. */
  predicate FirstMin(xs: seq<int>, b: int) {
    0 <= b < |xs|
    && (forall t :: 0 <= t < |xs| ==> xs[b] <= xs[t])
    && (forall t :: 0 <= t < b ==> xs[t] > xs[b])
  }

  /** After reading `zs[..t]`, `b` is the first position of the smallest
      of them. */
  predicate LeastSoFar(zs: seq<int>, b: int, t: int) {
    0 <= b < |zs| && 0 <= t <= |zs|
    && (forall u :: 0 <= u < t ==> zs[b] <= zs[u])
    && (forall u :: 0 <= u < b ==> zs[u] > zs[b])
  }

  /** One step of the running minimum: a strictly smaller element takes
      over, an equal one does not. */
  lemma LeastSoFarStep(zs: seq<int>, b: int, t: int)
    requires LeastSoFar(zs, b, t) && t < |zs|
    ensures zs[t] < zs[b] ==> LeastSoFar(zs, t, t + 1)
    ensures zs[t] >= zs[b] ==> LeastSoFar(zs, b, t + 1)
  {
  }

  /** The sizes of the live columns, in header-ring order. */
  function LiveSizes(a: Abs): (zs: seq<int>)
    ensures |zs| == |a.live|
  {
    seq(|a.live|, t requires 0 <= t < |a.live| =>
      if 0 <= a.live[t] < |a.cols| then |a.cols[a.live[t]]| else 0)
  }

  /** When some live column holds no node, the first smallest live column
      holds none either. */
  lemma FirstMinEmpty(a: Abs, b: int, x: int)
    requires FirstMin(LiveSizes(a), b) && 0 <= a.live[b] < |a.cols|
    requires x in a.live && 0 <= x < |a.cols| && a.cols[x] == []
    ensures a.cols[a.live[b]] == []
  {
    var t :| 0 <= t < |a.live| && a.live[t] == x;
    assert LiveSizes(a)[t] == 0;
  }

  // ---- exact covers ----

  /** Adding a row in front of an exact cover of what that row leaves
      uncovered gives an exact cover of everything, when the row meets only
      live columns. */
  lemma CoverExtend(m: seq<seq<int>>, live: seq<int>, live': seq<int>, row: int, rest: seq<int>)
    requires 0 <= row < |m|
    requires forall x :: Hit(m, row, x) ==> x in live
    requires forall x :: x in live' <==> x in live && !Hit(m, row, x)
    requires ExactCover(m, live', rest)
    ensures ExactCover(m, live, [row] + rest)
  {
    var rs := [row] + rest;
    assert rs[1..] == rest;
    forall x ensures Hits(m, rs, x) == if x in live then 1 else 0 {
      assert Hits(m, rs, x) == (if Hit(m, row, x) then 1 else 0) + Hits(m, rest, x);
    }
  }

  /** No chosen row can be taken twice when the rows cover exactly once:
      a row appearing twice hits each of its columns twice. */
  lemma {:induction false} HitsAtLeast(m: seq<seq<int>>, rs: seq<int>, t: int, x: int)
    requires 0 <= t < |rs| && Hit(m, rs[t], x)
    ensures Hits(m, rs, x) >= 1
  {
    if t > 0 {
      HitsAtLeast(m, rs[1..], t - 1, x);
    }
  }

  lemma {:induction false} HitsTwice(m: seq<seq<int>>, rs: seq<int>, t: int, u: int, x: int)
    requires 0 <= t < u < |rs| && Hit(m, rs[t], x) && Hit(m, rs[u], x)
    ensures Hits(m, rs, x) >= 2
  {
    if t > 0 {
      HitsTwice(m, rs[1..], t - 1, u - 1, x);
    } else {
      HitsAtLeast(m, rs[1..], u - 1, x);
    }
  }

  /** The rows of an exact cover are pairwise disjoint: no column has a 1
      in two of them. */
  lemma ExactCoverDisjoint(m: seq<seq<int>>, live: seq<int>, rs: seq<int>, t: int, u: int, x: int)
    requires ExactCover(m, live, rs) && 0 <= t < u < |rs|
    ensures !(Hit(m, rs[t], x) && Hit(m, rs[u], x))
  {
    if Hit(m, rs[t], x) && Hit(m, rs[u], x) {
      HitsTwice(m, rs, t, u, x);
      assert false;
    }
  }

  // ---- covering the columns of a row one after another ----

  /** Covering `cs[t]` after the columns before it; `n` is `t + 1`. */
  lemma CoverColsStep(sh: Shape, s: Links, a: Abs, cs: seq<int>, t: int, n: int)
    requires 0 <= t < |cs| && n == t + 1 && 0 <= cs[t] < |CoverCols(sh, a, cs[..t]).cols|
    ensures CoverCols(sh, a, cs[..n]) == CoverAbs(sh, CoverCols(sh, a, cs[..t]), cs[t])
    ensures CoverColsS(sh, s, a, cs[..n])
         == AfterCover(sh, CoverColsS(sh, s, a, cs[..t]), CoverCols(sh, a, cs[..t]), cs[t])
  {
    assert cs[..n][..t] == cs[..t];
  }

  /** Covering distinct live columns one after another keeps the structure
      valid, and takes exactly those columns out of the live ones. */
  lemma {:induction false} CoverColsValid(sh: Shape, s: Links, a: Abs, cs: seq<int>, t: int)
    requires Valid(sh, s, a) && Distinct(cs)
    requires forall u :: 0 <= u < |cs| ==> cs[u] in a.live
    requires 0 <= t <= |cs|
    ensures Valid(sh, CoverColsS(sh, s, a, cs[..t]), CoverCols(sh, a, cs[..t]))
    ensures forall x :: x in CoverCols(sh, a, cs[..t]).live <==> x in a.live && x !in cs[..t]
    ensures |CoverCols(sh, a, cs[..t]).live| == |a.live| - t
  {
    if t == 0 {
      assert cs[..0] == [];
    } else {
      CoverColsValid(sh, s, a, cs, t - 1);
      var b := CoverCols(sh, a, cs[..t - 1]);
      var c := cs[t - 1];
      DistinctLast(cs, t);
      CoverOneMore(sh, s, a, cs, t, b, CoverColsS(sh, s, a, cs[..t - 1]));
    }
  }

  lemma DistinctLast(cs: seq<int>, t: int)
    requires Distinct(cs) && 0 < t <= |cs|
    ensures cs[t - 1] !in cs[..t - 1]
    ensures cs[..t] == cs[..t - 1] + [cs[t - 1]]
  {
  }

  /** The step of `CoverColsValid`: covering the `t`-th column. */
  lemma CoverOneMore(sh: Shape, s: Links, a: Abs, cs: seq<int>, t: int, b: Abs, st: Links)
    requires 0 < t <= |cs| && b == CoverCols(sh, a, cs[..t - 1]) && st == CoverColsS(sh, s, a, cs[..t - 1])
    requires Valid(sh, st, b) && cs[t - 1] in b.live
    ensures Valid(sh, CoverColsS(sh, s, a, cs[..t]), CoverCols(sh, a, cs[..t]))
    ensures forall x :: x in CoverCols(sh, a, cs[..t]).live <==> x in b.live && x != cs[t - 1]
    ensures |CoverCols(sh, a, cs[..t]).live| == |b.live| - 1
  {
    var c := cs[t - 1];
    CoverKeepsValid(sh, st, b, c);
    assert |b.cols| == sh.C;
    CoverColsStep(sh, s, a, cs, t - 1, t);
  }

  // ---- the row `search` tries ----

  /** The node `r` of live column `c` belongs to a row whose other nodes
      lie in distinct live columns other than `c`; those columns together
      with `c` are exactly where the row's input holds a 1. */
  lemma RowColumns(sh: Shape, s: Links, a: Abs, c: int, r: int)
    requires Valid(sh, s, a) && c in a.live && 0 <= c < |a.cols| && r in a.cols[c]
    ensures IsNode(sh, r) && InRow(sh, r) && sh.col[r] == c && 0 <= sh.rowIdx[r] < |sh.m|
    ensures Distinct(ColumnsOf(sh, Others(sh, r)))
    ensures forall u :: 0 <= u < |Others(sh, r)| ==>
              ColumnsOf(sh, Others(sh, r))[u] in a.live && ColumnsOf(sh, Others(sh, r))[u] != c
    ensures forall x :: Hit(sh.m, sh.rowIdx[r], x) <==> x == c || x in ColumnsOf(sh, Others(sh, r))
    ensures forall x :: Hit(sh.m, sh.rowIdx[r], x) ==> x in a.live
  {
    var os := Others(sh, r);
    var cs := ColumnsOf(sh, os);
    assert IsNode(sh, r) && sh.col[r] == c;
    RowHits(sh, r);
    forall u | 0 <= u < |os| ensures cs[u] in a.live && cs[u] != c {
      assert os[u] in os;
      OtherNodeLive(sh, s, a, c, r, os[u]);
    }
  }

  /** The columns of a node's row: the node's own column and those of the
      other nodes, all distinct, are where the row's input holds a 1. */
  lemma RowHits(sh: Shape, r: int)
    requires ShapeOk(sh) && IsNode(sh, r)
    ensures InRow(sh, r) && 0 <= sh.rowIdx[r] < |sh.m|
    ensures Distinct(ColumnsOf(sh, Others(sh, r)))
    ensures forall x :: Hit(sh.m, sh.rowIdx[r], x) <==> x == sh.col[r] || x in ColumnsOf(sh, Others(sh, r))
  {
    var row := sh.rowIdx[r];
    OthersMembers(sh, r);
    RowHitsDistinct(sh, r);
    forall x ensures Hit(sh.m, row, x) ==> x == sh.col[r] || x in ColumnsOf(sh, Others(sh, r)) {
      if Hit(sh.m, row, x) { HitHasNode(sh, r, x); }
    }
    forall x | x == sh.col[r] || x in ColumnsOf(sh, Others(sh, r)) ensures Hit(sh.m, row, x) {
      if x == sh.col[r] {
        NodeHits(sh, row, r);
      } else {
        var u :| 0 <= u < |Others(sh, r)| && ColumnsOf(sh, Others(sh, r))[u] == x;
        assert Others(sh, r)[u] in Others(sh, r);
        NodeHits(sh, row, Others(sh, r)[u]);
      }
    }
  }

  lemma RowHitsDistinct(sh: Shape, r: int)
    requires ShapeOk(sh) && IsNode(sh, r)
    ensures Distinct(ColumnsOf(sh, Others(sh, r)))
  {
    var row := sh.rowIdx[r];
    var os := Others(sh, r);
    var cs := ColumnsOf(sh, os);
    OthersMembers(sh, r);
    forall u, v | 0 <= u < v < |os| ensures cs[u] != cs[v] {
      assert os[u] in os && os[v] in os;
      RowMember(sh, row, os[u]);
      RowMember(sh, row, os[v]);
      if cs[u] == cs[v] { SameCell(sh, os[u], os[v]); }
    }
  }

  /** A node of row `row` sits in a column where that row holds a 1. */
  lemma NodeHits(sh: Shape, row: int, n: int)
    requires ShapeOk(sh) && 0 <= row < |sh.rows| && n in sh.rows[row]
    ensures IsNode(sh, n) && Hit(sh.m, row, sh.col[n])
  {
    var xs := sh.rows[row];
    assert RowOk(sh, row);
    var i := IndexOf(xs, n);
    assert sh.col[xs[i]] == Ones(sh.m[row])[i];
    assert Ones(sh.m[row])[i] in Ones(sh.m[row]);
  }

  /** A 1 of `r`'s row sits in `r`'s column or in one of the other nodes'. */
  lemma HitHasNode(sh: Shape, r: int, x: int)
    requires ShapeOk(sh) && IsNode(sh, r) && Hit(sh.m, sh.rowIdx[r], x)
    ensures x == sh.col[r] || x in ColumnsOf(sh, Others(sh, r))
  {
    var row := sh.rowIdx[r];
    var xs := sh.rows[row];
    var os := Others(sh, r);
    OthersMembers(sh, r);
    assert RowOk(sh, row);
    assert x in Ones(sh.m[row]);
    var i := IndexOf(Ones(sh.m[row]), x);
    var n := xs[i];
    assert n in xs && sh.col[n] == x;
    if n != r {
      var u := IndexOf(os, n);
      assert ColumnsOf(sh, os)[u] == x;
    }
  }

  /** Taking the row of node `r` of the chosen column `c`, and then an
      exact cover of the columns left live after covering `c` and the row's
      other columns, gives an exact cover of the columns live before. */
  lemma TakeRow(sh: Shape, s: Links, a: Abs, c: int, r: int, rest: seq<int>)
    requires Valid(sh, s, a) && c in a.live && 0 <= c < |a.cols| && r in a.cols[c]
    requires ExactCover(sh.m, CoverCols(sh, CoverAbs(sh, a, c), ColumnsOf(sh, Others(sh, r))).live, rest)
    ensures ExactCover(sh.m, a.live, [sh.rowIdx[r]] + rest)
  {
    RowColumns(sh, s, a, c, r);
    RowLeavesLive(sh, s, a, c, r);
    CoverExtend(sh.m, a.live, CoverCols(sh, CoverAbs(sh, a, c), ColumnsOf(sh, Others(sh, r))).live,
                sh.rowIdx[r], rest);
  }

  /** The columns left live after covering `c` and the other columns of
      the row of `r` are the live ones that row does not hit. */
  lemma RowLeavesLive(sh: Shape, s: Links, a: Abs, c: int, r: int)
    requires Valid(sh, s, a) && c in a.live && 0 <= c < |a.cols| && r in a.cols[c]
    ensures 0 <= r < |sh.rowIdx|
    ensures forall x :: x in CoverCols(sh, CoverAbs(sh, a, c), ColumnsOf(sh, Others(sh, r))).live
                        <==> x in a.live && !Hit(sh.m, sh.rowIdx[r], x)
  {
    var cs := ColumnsOf(sh, Others(sh, r));
    var a1 := CoverAbs(sh, a, c);
    RowColumns(sh, s, a, c, r);
    CoverKeepsValid(sh, s, a, c);
    CoverColsValid(sh, AfterCover(sh, s, a, c), a1, cs, |cs|);
    assert cs[..|cs|] == cs;
    LiveMinusRow(sh.m, sh.rowIdx[r], c, cs, a.live, a1.live, CoverCols(sh, a1, cs).live);
  }

  lemma LiveMinusRow(m: seq<seq<int>>, row: int, c: int, cs: seq<int>,
                     live: seq<int>, live1: seq<int>, live2: seq<int>)
    requires forall x :: Hit(m, row, x) <==> x == c || x in cs
    requires forall x :: x in live1 <==> x in live && x != c
    requires forall x :: x in live2 <==> x in live1 && x !in cs
    ensures forall x :: x in live2 <==> x in live && !Hit(m, row, x)
  {
  }

  lemma RowsOfNodesCons(sh: Shape, ns: seq<int>)
    requires ns != [] && 0 <= ns[0] < |sh.rowIdx|
    ensures RowsOfNodes(sh, ns) == [sh.rowIdx[ns[0]]] + RowsOfNodes(sh, ns[1..])
  {
  }

  /** What the scan of the header ring reads: `h.right` is the first live
      column, each live column's `right` is the next one (`h` after the
      last), and each live column's `size` is its number of nodes. */
  ghost predicate HeadersRead(sh: Shape, s: Links, a: Abs) {
    |s.size| == sh.C + 1 && |s.lr.next| == |sh.col| > sh.C
    && s.lr.next[sh.C] == (if a.live == [] then sh.C else a.live[0])
    && forall t :: 0 <= t < |a.live| ==>
         0 <= a.live[t] < sh.C && s.size[a.live[t]] == LiveSizes(a)[t]
         && s.lr.next[a.live[t]] == Succ(sh.C, a.live, t)
  }

  lemma LiveFacts(sh: Shape, s: Links, a: Abs)
    requires Valid(sh, s, a)
    ensures HeadersRead(sh, s, a)
  {
  }

  /** Everything the two row loops of `search` need about the node `r` of
      the chosen column, in the state `s1`, `a1` right after the column was
      covered. */
  ghost predicate RowReady(sh: Shape, s1: Links, a1: Abs, r: int) {
    Valid(sh, s1, a1) && IsNode(sh, r) && InRow(sh, r)
    && Distinct(ColumnsOf(sh, Others(sh, r)))
    && forall u :: 0 <= u < |Others(sh, r)| ==> ColumnsOf(sh, Others(sh, r))[u] in a1.live
  }

  lemma RowReadyAfterChoose(sh: Shape, s0: Links, a: Abs, c: int, r: int)
    requires LiveColumn(sh, s0, a, c) && r in a.cols[c]
    ensures RowReady(sh, AfterCover(sh, s0, a, c), CoverAbs(sh, a, c), r)
    ensures 0 <= r < |sh.col| && sh.col[r] == c
    ensures |CoverAbs(sh, a, c).live| == |a.live| - 1
  {
    RowColumns(sh, s0, a, c, r);
    CoverKeepsValid(sh, s0, a, c);
  }

  /** After `cover(c)`, column `c` itself reads downwards as before. */
  lemma ColumnOpen(sh: Shape, s0: Links, a: Abs, c: int)
    requires LiveColumn(sh, s0, a, c)
    ensures var s1 := AfterCover(sh, s0, a, c);
      var ns := a.cols[c];
      |s1.ud.next| == |sh.col| && 0 <= c < |sh.col|
      && s1.ud.next[c] == (if ns == [] then c else ns[0])
      && forall p :: 0 <= p < |ns| ==> ns[p] != c && 0 <= ns[p] < |sh.col| && s1.ud.next[ns[p]] == Succ(c, ns, p)
  {
    CoverKeepsValid(sh, s0, a, c);
    var a1 := CoverAbs(sh, a, c);
    assert Ring(AfterCover(sh, s0, a, c).ud, c, a1.cols[c]);
  }

  /** `TakeRow` read on the buffer: the node at `xs[k]` followed by an
      exact cover read from `xs[k + 1 .. d)`. */
  lemma TakeRowAt(sh: Shape, s: Links, a: Abs, c: int, xs: seq<int>, k: int, d: int)
    requires Valid(sh, s, a) && c in a.live && 0 <= c < |a.cols|
    requires 0 <= k < d <= |xs| && xs[k] in a.cols[c]
    requires ExactCover(sh.m, CoverCols(sh, CoverAbs(sh, a, c), ColumnsOf(sh, Others(sh, xs[k]))).live,
                        RowsOfNodes(sh, xs[k + 1..d]))
    ensures ExactCover(sh.m, a.live, RowsOfNodes(sh, xs[k..d]))
  {
    TakeRow(sh, s, a, c, xs[k], RowsOfNodes(sh, xs[k + 1..d]));
    RowColumns(sh, s, a, c, xs[k]);
    assert xs[k..d][1..] == xs[k + 1..d];
    RowsOfNodesCons(sh, xs[k..d]);
  }

  /** After the row loop of `search` has covered the other columns of
      `r`'s row, the structure is valid again with that many fewer live
      columns. */
  lemma RowCovered(sh: Shape, s1: Links, a1: Abs, r: int)
    requires RowReady(sh, s1, a1, r)
    ensures var cs := ColumnsOf(sh, Others(sh, r));
      Valid(sh, CoverColsS(sh, s1, a1, cs), CoverCols(sh, a1, cs))
      && |CoverCols(sh, a1, cs).live| == |a1.live| - |cs|
  {
    var cs := ColumnsOf(sh, Others(sh, r));
    CoverColsValid(sh, s1, a1, cs, |cs|);
    assert cs[..|cs|] == cs;
  }

  /** A prefix one longer than `k` fixes element `k` and the prefix of
      length `k`. */
  lemma PrefixParts(xs: seq<int>, pre: seq<int>, k: int)
    requires 0 <= k < |xs| && xs[..k + 1] == pre
    ensures xs[k] == pre[k] && xs[..k] == pre[..k]
  {
  }
}
