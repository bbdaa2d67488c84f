/** The search of `dlx.py`: Knuth's Algorithm X on the linked matrix,
    choosing the live column with the fewest nodes and backtracking with
    `uncover`. */
module Solver {
  import opened Rings
  import opened Moves
  import opened Dlx
  import opened Covering
  import opened Build
  import opened Matrices
  import opened Solving

  class DancingLinks {
    const matrix: Matrix
    /** The root header `h` of the matrix. */
    const h: int
    /** The solution buffer: `s[k]` holds the node tried at depth `k`. */
    const s: array<int>

    ghost predicate Ready() {
      matrix.Separate() && h == matrix.h && s.Length == matrix.C
      && s != matrix.U && s != matrix.D && s != matrix.L && s != matrix.R && s != matrix.size
    }

    /** `DancingLinks(matrix)`: one buffer slot per column, all 0. */
    constructor (matrix: Matrix)
      requires matrix.Separate()
      ensures this.matrix == matrix && Ready() && fresh(s)
      ensures s[..] == seq(matrix.C, _ => 0)
    {
      this.matrix := matrix;
      h := matrix.h;
      s := new int[matrix.C](_ => 0);
    }

    /** The scan of `choose_column_object`: walks the header ring from
        `h.right` and keeps the first column whose size is smallest (a later
        column replaces it only when strictly smaller). */
    method MostConstrained(ghost a: Abs) returns (ideal: int, ghost b: int)
      requires Ready() && HeadersRead(matrix.Sh(), matrix.Snap(), a) && a.live != []
      ensures FirstMin(LiveSizes(a), b) && ideal == a.live[b]
    {
      ghost var live := a.live;
      ghost var zs := LiveSizes(a);
      var j := matrix.R[h];
      ideal := j;
      b := 0;
      ghost var t := 0;
      while j != h
        invariant 0 <= t <= |live| && j == if t < |live| then live[t] else h
        invariant LeastSoFar(zs, b, t) && ideal == live[b]
        decreases |live| - t
      {
        assert matrix.size[j] == zs[t] && matrix.size[ideal] == zs[b];
        LeastSoFarStep(zs, b, t);
        if matrix.size[j] < matrix.size[ideal] {
          ideal := j;
          b := t;
        }
        j := matrix.R[j];
        t := t + 1;
      }
    }

    /** `choose_column_object(h)`: the first live column of smallest size,
        covered before it is returned. */
    method ChooseColumnObject(ghost a: Abs) returns (c: int, ghost b: int)
      requires Ready() && Valid(matrix.Sh(), matrix.Snap(), a) && a.live != []
      modifies matrix.U, matrix.D, matrix.L, matrix.R, matrix.size
      ensures FirstMin(LiveSizes(a), b) && c == a.live[b]
      ensures matrix.Snap() == AfterCover(matrix.Sh(), old(matrix.Snap()), a, c)
      ensures Valid(matrix.Sh(), matrix.Snap(), CoverAbs(matrix.Sh(), a, c))
    {
      LiveFacts(matrix.Sh(), matrix.Snap(), a);
      c, b := MostConstrained(a);
      matrix.Cover(c, a);
    }

    /** `search(k)`: when no column is live, the buffer is the answer;
        otherwise the column with the fewest nodes is chosen and covered,
        and its rows are tried (`SearchColumn`). On success the rows of
        `s[k .. d)` are an exact cover of the columns live on entry; on
        failure every pointer and size is as it was on entry. */
    method Search(k: int, ghost a: Abs) returns (found: Option<seq<int>>, ghost d: int)
      requires Ready() && Valid(matrix.Sh(), matrix.Snap(), a)
      requires 0 <= k && k + |a.live| <= s.Length
      modifies matrix.U, matrix.D, matrix.L, matrix.R, matrix.size, s
      decreases |a.live|, 2
      ensures s[..k] == old(s[..k])
      ensures a.live == [] ==> found == Some(old(s[..])) && d == k
      ensures (exists x :: x in a.live && 0 <= x < |a.cols| && a.cols[x] == []) ==> found.None?
      ensures found.None? ==> matrix.Snap() == old(matrix.Snap())
      ensures found.Some? ==>
                found.value == s[..] && k <= d <= s.Length
                && ExactCover(matrix.input, a.live, RowsOfNodes(matrix.Sh(), s[k..d]))
    {
      LiveFacts(matrix.Sh(), matrix.Snap(), a);
      if matrix.R[h] == h {
        assert a.live == [] && s[k..k] == [];
        return Some(s[..]), k;
      }
      ghost var s0 := matrix.Snap();
      ghost var b;
      var c;
      c, b := ChooseColumnObject(a);
      ColumnStart(matrix.Sh(), s0, a, c);
      if exists x :: x in a.live && 0 <= x < |a.cols| && a.cols[x] == [] {
        ghost var x :| x in a.live && 0 <= x < |a.cols| && a.cols[x] == [];
        FirstMinEmpty(a, b, x);
      }
      found, d := SearchColumn(k, c, s0, a);
    }

    /** The rest of `search(k)` once column `c` is covered: each node `r`
        of `c`, from the top, is tried (`TryRow`); after a failure the row
        is read back from `s[k]`, its columns are uncovered right to left
        and the walk goes on at `r.down`. When every row has failed, `c`
        is uncovered. */
    method SearchColumn(k: int, c: int, ghost s0: Links, ghost a: Abs) returns (found: Option<seq<int>>, ghost d: int)
      requires Ready() && LiveColumn(matrix.Sh(), s0, a, c)
      requires matrix.Snap() == AfterCover(matrix.Sh(), s0, a, c)
      requires 0 <= k && k + |a.live| <= s.Length
      modifies matrix.U, matrix.D, matrix.L, matrix.R, matrix.size, s
      decreases |a.live|, 1
      ensures s[..k] == old(s[..k])
      ensures a.cols[c] == [] ==> found.None?
      ensures found.None? ==> matrix.Snap() == s0
      ensures found.Some? ==>
                found.value == s[..] && k <= d <= s.Length
                && ExactCover(matrix.input, a.live, RowsOfNodes(matrix.Sh(), s[k..d]))
    {
      d := k;
      ghost var sh := matrix.Sh();
      ghost var ns := a.cols[c];
      ghost var s1 := AfterCover(sh, s0, a, c);
      ColumnOpen(sh, s0, a, c);
      var c' := c;
      var r := matrix.D[c'];
      ghost var p := 0;
      while r != c'
        invariant 0 <= p <= |ns| && r == if p < |ns| then ns[p] else c
        invariant c' == c && matrix.Snap() == s1
        invariant s[..k] == old(s[..k])
        decreases |ns| - p
      {
        ghost var r0 := r;
        assert r in ns;
        RowReadyAfterChoose(sh, s0, a, c, r);
        found, d := TryRow(k, r, s0, a, c);
        if found.Some? {
          return;
        }
        r := s[k];
        c' := matrix.col[r];
        assert r == r0 && c' == c;
        UncoverRow(r, s1, CoverAbs(sh, a, c));
        r := matrix.D[r];
        p := p + 1;
      }
      matrix.Uncover(c', s0, a);
      found := None;
    }

    /** One pass of `search`'s row loop up to the recursive call: puts the
        node `r` of the covered column `c` into `s[k]`, covers the
        other columns of its row from left to right and searches one level
        deeper. */
    method TryRow(k: int, r: int, ghost s0: Links, ghost a: Abs, ghost c: int)
      returns (found: Option<seq<int>>, ghost d: int)
      requires Ready() && LiveColumn(matrix.Sh(), s0, a, c) && r in a.cols[c]
      requires RowReady(matrix.Sh(), AfterCover(matrix.Sh(), s0, a, c), CoverAbs(matrix.Sh(), a, c), r)
      requires |CoverAbs(matrix.Sh(), a, c).live| == |a.live| - 1
      requires matrix.Snap() == AfterCover(matrix.Sh(), s0, a, c)
      requires 0 <= k && k + |a.live| <= s.Length
      modifies matrix.U, matrix.D, matrix.L, matrix.R, matrix.size, s
      decreases |a.live|, 0
      ensures s[..k] == old(s[..k]) && s[k] == r
      ensures found.None? ==>
                matrix.Snap() == CoverColsS(matrix.Sh(), AfterCover(matrix.Sh(), s0, a, c), CoverAbs(matrix.Sh(), a, c),
                                            ColumnsOf(matrix.Sh(), Others(matrix.Sh(), r)))
      ensures found.Some? ==>
                found.value == s[..] && k < d <= s.Length
                && ExactCover(matrix.input, a.live, RowsOfNodes(matrix.Sh(), s[k..d]))
    {
      ghost var sh := matrix.Sh();
      ghost var s1 := AfterCover(sh, s0, a, c);
      ghost var a1 := CoverAbs(sh, a, c);
      s[k] := r;
      ghost var pre := s[..k + 1];
      assert pre[k] == r && pre[..k] == old(s[..k]);
      CoverRow(r, s1, a1);
      RowCovered(sh, s1, a1, r);
      found, d := Search(k + 1, CoverCols(sh, a1, ColumnsOf(sh, Others(sh, r))));
      PrefixParts(s[..], pre, k);
      if found.Some? {
        TakeRowAt(sh, s0, a, c, s[..], k, d);
      }
    }

    /** `j = r.right; while j != r: cover(j.column); j = j.right`. */
    method CoverRow(r: int, ghost s1: Links, ghost a1: Abs)
      requires Ready() && RowReady(matrix.Sh(), s1, a1, r) && matrix.Snap() == s1
      modifies matrix.U, matrix.D, matrix.L, matrix.R, matrix.size
      ensures matrix.Snap() == CoverColsS(matrix.Sh(), s1, a1, ColumnsOf(matrix.Sh(), Others(matrix.Sh(), r)))
    {
      ghost var sh := matrix.Sh();
      ghost var os := Others(sh, r);
      ghost var cs := ColumnsOf(sh, os);
      OthersMembers(sh, r);
      if |os| == 0 {
        OthersWalkAlone(sh, s1.lr, r);
      } else {
        OthersRightStart(sh, s1.lr, r);
      }
      assert cs[..0] == [];
      var j := matrix.R[r];
      ghost var t := 0;
      while j != r
        invariant 0 <= t <= |os| && j == if t < |os| then os[t] else r
        invariant matrix.Snap() == CoverColsS(sh, s1, a1, cs[..t])
        decreases |os| - t
      {
        assert os[t] in os;
        j := CoverNext(j, r, s1, a1, t);
        t := t + 1;
      }
      assert cs[..t] == cs;
    }

    /** One pass of the loop above: covers the column of `j`, the `t`-th
        node right of `r`, and steps to `j.right`. */
    method CoverNext(j: int, r: int, ghost s1: Links, ghost a1: Abs, ghost t: int) returns (next: int)
      requires Ready() && RowReady(matrix.Sh(), s1, a1, r)
      requires 0 <= t < |Others(matrix.Sh(), r)| && j == Others(matrix.Sh(), r)[t]
      requires matrix.Snap() == CoverColsS(matrix.Sh(), s1, a1, ColumnsOf(matrix.Sh(), Others(matrix.Sh(), r))[..t])
      modifies matrix.U, matrix.D, matrix.L, matrix.R, matrix.size
      ensures matrix.Snap() == CoverColsS(matrix.Sh(), s1, a1, ColumnsOf(matrix.Sh(), Others(matrix.Sh(), r))[..t + 1])
      ensures next == if t + 1 < |Others(matrix.Sh(), r)| then Others(matrix.Sh(), r)[t + 1] else r
    {
      ghost var sh := matrix.Sh();
      ghost var cs := ColumnsOf(sh, Others(sh, r));
      CoverColsValid(sh, s1, a1, cs, t);
      DistinctLast(cs, t + 1);
      ghost var b := CoverCols(sh, a1, cs[..t]);
      assert cs[t] in b.live;
      CoverOneMore(sh, s1, a1, cs, t + 1, b, matrix.Snap());
      matrix.Cover(matrix.col[j], b);
      CoverColsStep(sh, s1, a1, cs, t, t + 1);
      OthersWalkRight(sh, matrix.Snap().lr, r, t);
      next := matrix.R[j];
    }

    /** `j = r.left; while j != r: uncover(j.column); j = j.left`, on the
        state `CoverRow` left. */
    method UncoverRow(r: int, ghost s1: Links, ghost a1: Abs)
      requires Ready() && RowReady(matrix.Sh(), s1, a1, r)
      requires matrix.Snap() == CoverColsS(matrix.Sh(), s1, a1, ColumnsOf(matrix.Sh(), Others(matrix.Sh(), r)))
      modifies matrix.U, matrix.D, matrix.L, matrix.R, matrix.size
      ensures matrix.Snap() == s1
    {
      ghost var sh := matrix.Sh();
      ghost var os := Others(sh, r);
      ghost var cs := ColumnsOf(sh, os);
      OthersMembers(sh, r);
      CoverColsValid(sh, s1, a1, cs, |cs|);
      assert cs[..|cs|] == cs;
      if |os| == 0 {
        OthersWalkAlone(sh, matrix.Snap().lr, r);
      } else {
        OthersLeftStart(sh, matrix.Snap().lr, r);
      }
      var j := matrix.L[r];
      ghost var t := |os|;
      while j != r
        invariant 0 <= t <= |os| && j == if t > 0 then os[t - 1] else r
        invariant matrix.Snap() == CoverColsS(sh, s1, a1, cs[..t])
        decreases t
      {
        assert os[t - 1] in os;
        j := UncoverNext(j, r, s1, a1, t);
        t := t - 1;
      }
      assert cs[..t] == [];
    }

    /** One pass of the loop above: uncovers the column of `j`, the last of
        the first `t` nodes right of `r`, and steps to `j.left`. */
    method UncoverNext(j: int, r: int, ghost s1: Links, ghost a1: Abs, ghost t: int) returns (next: int)
      requires Ready() && RowReady(matrix.Sh(), s1, a1, r)
      requires 0 < t <= |Others(matrix.Sh(), r)| && j == Others(matrix.Sh(), r)[t - 1]
      requires matrix.Snap() == CoverColsS(matrix.Sh(), s1, a1, ColumnsOf(matrix.Sh(), Others(matrix.Sh(), r))[..t])
      modifies matrix.U, matrix.D, matrix.L, matrix.R, matrix.size
      ensures matrix.Snap() == CoverColsS(matrix.Sh(), s1, a1, ColumnsOf(matrix.Sh(), Others(matrix.Sh(), r))[..t - 1])
      ensures next == if t > 1 then Others(matrix.Sh(), r)[t - 2] else r
    {
      ghost var sh := matrix.Sh();
      ghost var cs := ColumnsOf(sh, Others(sh, r));
      CoverColsValid(sh, s1, a1, cs, t - 1);
      DistinctLast(cs, t);
      ghost var b := CoverCols(sh, a1, cs[..t - 1]);
      ghost var st := CoverColsS(sh, s1, a1, cs[..t - 1]);
      assert cs[t - 1] in b.live;
      CoverKeepsValid(sh, st, b, cs[t - 1]);
      CoverColsStep(sh, s1, a1, cs, t - 1, t);
      matrix.Uncover(matrix.col[j], st, b);
      OthersWalkLeft(sh, matrix.Snap().lr, r, t - 1);
      next := matrix.L[j];
    }
  }

  /** The search `compute` runs on the rows `m`: the matrix built from
      `m`, a `DancingLinks` on it and `search(0)`. When a result comes back,
      the rows of its first `d` nodes hold a 1 in every column of `m`
      exactly once. */
  method Solve(m: seq<seq<int>>) returns (found: Option<seq<int>>, ghost d: int)
    requires Rect(m) && NoEmptyColumn(m)
    ensures found.Some? ==>
              0 <= d <= |found.value| == |m[0]|
              && ExactCover(m, Range(0, |m[0]|), RowsOfNodes(ShapeOf(m), found.value[..d]))
  {
    var matrix := new Matrix(m);
    BuiltValid(m, matrix.Snap());
    var dlx := new DancingLinks(matrix);
    found, d := dlx.Search(0, InitAbs(m));
    if found.Some? {
      assert dlx.s[0..d] == found.value[..d];
    }
  }
}
