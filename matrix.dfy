/** The sparse matrix of `dlx.py`: an arena of header and node records
    whose `up`, `down`, `left`, `right` fields are indices into the arrays
    `U`, `D`, `L`, `R`, with the column counters in `size`. */
module Matrices {
  import opened Rings
  import opened Moves
  import opened Dlx
  import opened Covering
  import opened Build

  class Matrix {
    /** Number of columns; the headers are `0 .. C-1` and the root `h` is `C`. */
    const C: nat
    const h: int
    const U: array<int>
    const D: array<int>
    const L: array<int>
    const R: array<int>
    const size: array<int>
    /** `node.column` and `node.rowIdx`, fixed once the matrix is built. */
    const col: seq<int>
    const rowIdx: seq<int>
    /** The 0/1 rows the matrix was built from, and each row's nodes. */
    ghost const input: seq<seq<int>>
    ghost const rows: seq<seq<int>>

    ghost predicate Separate() {
      h == C
      && U != D && U != L && U != R && U != size && D != L && D != R && D != size
      && L != R && L != size && R != size
    }

    ghost function Sh(): Shape {
      Shape(C, col, rowIdx, input, rows)
    }

    ghost function Snap(): Links
      reads U, D, L, R, size
    {
      Links(Ptrs(U[..], D[..]), Ptrs(L[..], R[..]), size[..])
    }

    /** `Matrix(rows)`: one header per column and the root, one node per
        1-cell of `m` (row by row, left to right), then the header ring,
        every row's left/right cycle and every column's up/down ring.
        Nodes get their column and row index as they are numbered; the
        source assigns `node.column` in the column loop, to the same value,
        since every node lies in the column of its own cell. */
    constructor (m: seq<seq<int>>)
      requires Rect(m)
      ensures Separate() && Sh() == ShapeOf(m) && Built(m, Snap())
      ensures fresh(U) && fresh(D) && fresh(L) && fresh(R) && fresh(size)
    {
      var colLength := |m[0]|;
      var n := Total(m, colLength);
      var up := new int[n](_ => -1);
      var down := new int[n](_ => -1);
      var left := new int[n](_ => -1);
      var right := new int[n](_ => -1);
      var sizes := new int[colLength + 1](_ => 0);
      LinkHeaders(left, right, colLength);
      LinkRows(left, right, m);
      LinkColumns(up, down, sizes, m);
      C := colLength;
      h := colLength;
      U := up;
      D := down;
      L := left;
      R := right;
      size := sizes;
      col := ColSeq(m, colLength);
      rowIdx := RowIdxSeq(m, colLength);
      input := m;
      rows := RowsOf(m, colLength);
    }

    /** `cover(c)`: takes column `c` out of the header ring and every row
        that meets `c` out of the other columns it meets, decrementing their
        sizes. */
    method Cover(c: int, ghost a: Abs)
      requires Separate() && Valid(Sh(), Snap(), a) && c in a.live
      modifies U, D, L, R, size
      ensures Snap() == AfterCover(Sh(), old(Snap()), a, c)
      ensures Valid(Sh(), Snap(), CoverAbs(Sh(), a, c))
      ensures forall x :: 0 <= x < size.Length ==>
                size[x] == old(size[x]) - InColumn(col, Js(Sh(), a.cols[c]), x)
    {
      CoverKeepsValid(Sh(), Snap(), a, c);
      CoverSizes(Sh(), Snap(), a, c);
      ColumnStart(Sh(), Snap(), a, c);
      ghost var s0 := Snap();
      HideHeader(c);
      HideColumn(c, s0, a);
    }

    /** The outer loop of `cover(c)`: every row met by column `c`, read top
        to bottom, is unlinked from the other columns it meets. */
    method HideColumn(c: int, ghost s0: Links, ghost a: Abs)
      requires Separate() && LiveColumn(Sh(), s0, a, c)
      requires Snap() == s0.(lr := Unlink(s0.lr, c))
      modifies U, D, size
      ensures Snap() == AfterCover(Sh(), s0, a, c)
    {
      ghost var sh := Sh();
      ghost var ns := a.cols[c];
      ColumnStart(sh, s0, a, c);
      var i := D[c];
      ghost var p := 0;
      while i != c
        invariant 0 <= p <= |ns|
        invariant i == if p < |ns| then ns[p] else c
        invariant Snap() == CoverF(s0, col, c, Js(sh, ns[..p]))
        decreases |ns| - p
      {
        HideRow(i, s0, a, c, p);
        i := D[i];
        p := p + 1;
      }
      ColumnEnd(sh, s0, a, c);
      assert p == |ns|;
      assert ns[..p] == ns;
    }

    /** The inner loop of `cover(c)` for the node `i` in row `p` of the
        column: walks right from `i` and unlinks every other node of `i`'s
        row from its column. */
    method HideRow(i: int, ghost s0: Links, ghost a: Abs, ghost c: int, ghost p: int)
      requires Separate() && LiveColumn(Sh(), s0, a, c)
      requires 0 <= p < |a.cols[c]| && i == a.cols[c][p]
      requires Snap() == CoverF(s0, col, c, Js(Sh(), a.cols[c][..p]))
      modifies U, D, size
      ensures Snap() == CoverF(s0, col, c, Js(Sh(), a.cols[c][..p + 1]))
      ensures 0 <= i < D.Length && D[i] == if p == |a.cols[c]| - 1 then c else a.cols[c][p + 1]
    {
      ghost var sh := Sh();
      ghost var ns := a.cols[c];
      ghost var os := Others(sh, i);
      ghost var done := Js(sh, ns[..p]);
      ColumnStep(sh, s0, a, c, p);
      RowEnds(sh, s0, a, c, i);
      var j := R[i];
      ghost var t := 0;
      while j != i
        invariant 0 <= t <= |os|
        invariant j == if t < |os| then os[t] else i
        invariant Snap() == CoverF(s0, col, c, done + os[..t])
        decreases |os| - t
      {
        j := HideOne(j, s0, a, c, p, t);
        t := t + 1;
      }
      assert t == |os|;
      assert done + os[..t] == Js(sh, ns[..p + 1]);
    }
  
    /** One pass of `cover`'s inner loop: unlinks node `j`, the `t`-th node
        right of `i` in its row, and steps to `j.right`. */
    method HideOne(j: int, ghost s0: Links, ghost a: Abs, ghost c: int, ghost p: int, ghost t: int)
      returns (next: int)
      requires Separate() && LiveColumn(Sh(), s0, a, c)
      requires 0 <= p < |a.cols[c]| && 0 <= t < |Others(Sh(), a.cols[c][p])|
      requires j == Others(Sh(), a.cols[c][p])[t]
      requires Snap() == CoverF(s0, col, c, Js(Sh(), a.cols[c][..p]) + Others(Sh(), a.cols[c][p])[..t])
      modifies U, D, size
      ensures Snap() == CoverF(s0, col, c, Js(Sh(), a.cols[c][..p]) + Others(Sh(), a.cols[c][p])[..t + 1])
      ensures next == if t + 1 < |Others(Sh(), a.cols[c][p])| then Others(Sh(), a.cols[c][p])[t + 1]
                      else a.cols[c][p]
    {
      HideStep(Sh(), s0, a, c, p, t);
      HideNode(j);
      next := R[j];
    }

    /** The body of `cover`'s inner loop: `j.down.up = j.up`,
        `j.up.down = j.down`, `j.column.size -= 1`. */
    method HideNode(j: int)
      requires Separate() && |col| == U.Length == D.Length
      requires Removable(Snap(), col, j) && D[j] != j && U[j] != j
      modifies U, D, size
      ensures Snap() == Remove(old(Snap()), col, j)
    {
      U[D[j]] := U[j];
      D[U[j]] := D[j];
      size[col[j]] := size[col[j]] - 1;
    }
  
    /** `uncover(c)`, called on the state `cover(c)` left: walks the column
        upwards and each row leftwards, relinking nodes and incrementing
        sizes, then puts `c` back into the header ring. The result is the
        state before `cover(c)`, pointer for pointer. */
    method Uncover(c: int, ghost s: Links, ghost a: Abs)
      requires Separate() && Valid(Sh(), s, a) && c in a.live
      requires Snap() == AfterCover(Sh(), s, a, c)
      modifies U, D, L, R, size
      ensures Snap() == s
      ensures Snap() == UncoverF(old(Snap()), col, c, Ks(Sh(), a.cols[c]))
    {
      CoverThenUncover(Sh(), s, a, c);
      ColumnStart(Sh(), s, a, c);
      ColumnEnd(Sh(), s, a, c);
      UnhideColumn(c, s, a);
      UnhideHeader(c);
    }

    /** The two loops of `uncover(c)`: every row met by column `c`, read
        bottom to top, is relinked into the other columns it meets. */
    method UnhideColumn(c: int, ghost s: Links, ghost a: Abs)
      requires Separate() && LiveColumn(Sh(), s, a, c)
      requires Snap() == CoverF(s, col, c, Js(Sh(), a.cols[c][..|a.cols[c]|]))
      modifies U, D, size
      ensures Snap() == s.(lr := Unlink(s.lr, c))
    {
      ghost var sh := Sh();
      ghost var ns := a.cols[c];
      ColumnEnd(sh, s, a, c);
      var i := U[c];
      ghost var q := |ns|;
      while i != c
        invariant 0 <= q <= |ns|
        invariant i == if q > 0 then ns[q - 1] else c
        invariant Snap() == CoverF(s, col, c, Js(sh, ns[..q]))
        decreases q
      {
        UnhideRow(i, s, a, c, q);
        i := U[i];
        q := q - 1;
      }
      assert q == 0;
      assert ns[..q] == [];
      assert Snap() == CoverF(s, col, c, []);
    }

    /** The inner loop of `uncover(c)` for the node `i`, the last of the
        first `q` rows of the column: walks left from `i` and relinks every
        other node of `i`'s row into its column. */
    method UnhideRow(i: int, ghost s0: Links, ghost a: Abs, ghost c: int, ghost q: int)
      requires Separate() && LiveColumn(Sh(), s0, a, c)
      requires 0 < q <= |a.cols[c]| && i == a.cols[c][q - 1]
      requires Snap() == CoverF(s0, col, c, Js(Sh(), a.cols[c][..q]))
      modifies U, D, size
      ensures Snap() == CoverF(s0, col, c, Js(Sh(), a.cols[c][..q - 1]))
      ensures 0 <= i < U.Length && U[i] == if q == 1 then c else a.cols[c][q - 2]
    {
      ghost var sh := Sh();
      ghost var ns := a.cols[c];
      ghost var os := Others(sh, i);
      ghost var p := q - 1;
      ghost var done := Js(sh, ns[..p]);
      ColumnStep(sh, s0, a, c, p);
      RowEnds(sh, s0, a, c, i);
      var j := L[i];
      ghost var t := |os|;
      while j != i
        invariant 0 <= t <= |os|
        invariant j == if t > 0 then os[t - 1] else i
        invariant Snap() == CoverF(s0, col, c, done + os[..t])
        decreases t
      {
        j := UnhideOne(j, s0, a, c, p, t);
        t := t - 1;
      }
      assert t == 0;
      assert done + os[..t] == done;
    }

    /** One pass of `uncover`'s inner loop: relinks node `j`, the last of
        the first `t` nodes right of `i` in its row, and steps to `j.left`. */
    method UnhideOne(j: int, ghost s0: Links, ghost a: Abs, ghost c: int, ghost p: int, ghost t: int)
      returns (next: int)
      requires Separate() && LiveColumn(Sh(), s0, a, c)
      requires 0 <= p < |a.cols[c]| && 0 < t <= |Others(Sh(), a.cols[c][p])|
      requires j == Others(Sh(), a.cols[c][p])[t - 1]
      requires Snap() == CoverF(s0, col, c, Js(Sh(), a.cols[c][..p]) + Others(Sh(), a.cols[c][p])[..t])
      modifies U, D, size
      ensures Snap() == CoverF(s0, col, c, Js(Sh(), a.cols[c][..p]) + Others(Sh(), a.cols[c][p])[..t - 1])
      ensures next == if t > 1 then Others(Sh(), a.cols[c][p])[t - 2] else a.cols[c][p]
    {
      UnhideStep(Sh(), s0, a, c, p, t - 1);
      UnhideNode(j);
      next := L[j];
    }

    /** The body of `uncover`'s inner loop: `j.column.size += 1`,
        `j.down.up = j`, `j.up.down = j`. */
    method UnhideNode(j: int)
      requires Separate() && |col| == U.Length == D.Length
      requires Points(Snap().ud, j) && D[j] != j && U[j] != j && 0 <= col[j] < size.Length
      modifies U, D, size
      ensures Snap() == Restore(old(Snap()), col, j)
    {
      size[col[j]] := size[col[j]] + 1;
      U[D[j]] := j;
      D[U[j]] := j;
    }
  
    /** The first two lines of `cover(c)`: `c.right.left = c.left`,
        `c.left.right = c.right`. */
    method HideHeader(c: int)
      requires Separate() && L.Length == R.Length
      requires Points(Snap().lr, c) && R[c] != c && L[c] != c
      modifies L, R
      ensures Snap() == old(Snap()).(lr := Unlink(old(Snap()).lr, c))
    {
      L[R[c]] := L[c];
      R[L[c]] := R[c];
    }

    /** The last two lines of `uncover(c)`: `c.right.left = c`,
        `c.left.right = c`. */
    method UnhideHeader(c: int)
      requires Separate() && L.Length == R.Length
      requires Points(Snap().lr, c) && R[c] != c && L[c] != c
      modifies L, R
      ensures Snap() == old(Snap()).(lr := Relink(old(Snap()).lr, c))
    {
      L[R[c]] := c;
      R[L[c]] := c;
    }
  }

  /** The header loop of `Matrix(rows)`: `columnList` is the headers then
      the root, linked left to right, and the root closes the ring back to
      header 0. */
  method LinkHeaders(left: array<int>, right: array<int>, C: nat)
    requires left != right && left.Length == right.Length > C
    modifies left, right
    ensures forall i :: 0 <= i <= C ==>
      right[i] == (if i == C then 0 else i + 1) && left[i] == (if i == 0 then C else i - 1)
    ensures forall n :: C < n < left.Length ==> left[n] == old(left[n]) && right[n] == old(right[n])
  {
    var prev := 0;
    var current := 0;
    while current <= C
      invariant 0 <= current <= C + 1
      invariant prev == (if current == 0 then 0 else current - 1)
      invariant forall i :: 0 < i < current ==> left[i] == i - 1
      invariant current > 0 ==> left[0] == 0
      invariant forall i :: 0 <= i < current - 1 ==> right[i] == i + 1
      invariant forall n :: C < n < left.Length ==> left[n] == old(left[n]) && right[n] == old(right[n])
    {
      right[prev] := current;
      left[current] := prev;
      prev := current;
      current := current + 1;
    }
    right[C] := 0;
    left[0] := C;
  }

  /** The row loop of `Matrix(rows)`: every row holding a 1 becomes a
      left/right cycle of its nodes. */
  method LinkRows(left: array<int>, right: array<int>, m: seq<seq<int>>)
    requires Rect(m) && left != right && left.Length == right.Length == Total(m, |m[0]|)
    modifies left, right
    ensures forall r :: 0 <= r < |m| ==> Cycle(Ptrs(left[..], right[..]), RowNodes(m, |m[0]|, r))
    ensures forall n :: 0 <= n <= |m[0]| ==> left[n] == old(left[n]) && right[n] == old(right[n])
  {
    var row := 0;
    while row < |m|
      invariant 0 <= row <= |m|
      invariant forall r :: 0 <= r < row ==> Cycle(Ptrs(left[..], right[..]), RowNodes(m, |m[0]|, r))
      invariant forall n :: 0 <= n <= |m[0]| ==> left[n] == old(left[n]) && right[n] == old(right[n])
    {
      if Ones(m[row]) != [] {
        ghost var p0 := Ptrs(left[..], right[..]);
        forall n | 0 <= n <= |m[0]| ensures n !in RowNodes(m, |m[0]|, row) { }
        LinkRow(left, right, m, row);
        RowsKept(m, p0, Ptrs(left[..], right[..]), row);
      }
      row := row + 1;
    }
  }

  /** One pass of the row loop: the nodes of row `rr`, left to right, each
      linked after the previous one, starting after the last. */
  method LinkRow(left: array<int>, right: array<int>, m: seq<seq<int>>, rr: int)
    requires Rect(m) && 0 <= rr < |m| && Ones(m[rr]) != []
    requires left != right && left.Length == right.Length == Total(m, |m[0]|)
    modifies left, right
    ensures Cycle(Ptrs(left[..], right[..]), RowNodes(m, |m[0]|, rr))
    ensures forall n :: 0 <= n < left.Length && n !in RowNodes(m, |m[0]|, rr) ==>
      left[n] == old(left[n]) && right[n] == old(right[n])
  {
    var C := |m[0]|;
    ghost var xs := RowNodes(m, C, rr);
    StartLe(m, C, rr + 1, |m|);
    var colIdx := Ones(m[rr]);
    var k := |colIdx|;
    forall i | 0 <= i < k ensures 0 <= colIdx[i] < |m[rr]| && NodeOf(m, C, rr, colIdx[i]) == xs[i] {
      NodeOfRow(m, rr, i);
    }
    var prev := NodeOf(m, C, rr, colIdx[k - 1]);
    var current := prev;
    var i := 0;
    while i < k
      invariant 0 <= i <= k
      invariant prev == current == (if i == 0 then xs[k - 1] else xs[i - 1])
      invariant RowPrefixLinked(left[..], right[..], xs, i)
      invariant forall n :: 0 <= n < left.Length && n !in xs ==> left[n] == old(left[n]) && right[n] == old(right[n])
    {
      current := NodeOf(m, C, rr, colIdx[i]);
      LinkRowStep(left, right, xs, i, prev, current);
      prev := current;
      i := i + 1;
    }
    var first := NodeOf(m, C, rr, colIdx[0]);
    CloseRow(left, right, xs, current, first);
  }

  /** The body of the row loop: `prev.right = current; current.left = prev`. */
  method LinkRowStep(left: array<int>, right: array<int>, ghost xs: seq<int>, ghost i: int, prev: int, current: int)
    requires left != right && left.Length == right.Length && Distinct(xs) && 0 <= i < |xs|
    requires RowPrefixLinked(left[..], right[..], xs, i)
    requires prev == (if i == 0 then xs[|xs| - 1] else xs[i - 1]) && current == xs[i]
    modifies left, right
    ensures RowPrefixLinked(left[..], right[..], xs, i + 1)
    ensures forall n :: 0 <= n < left.Length && n !in xs ==> left[n] == old(left[n]) && right[n] == old(right[n])
  {
    right[prev] := current;
    left[current] := prev;
  }

  /** After the row loop: `current.right = first; first.left = current`
      closes the cycle (the first pass already stored these values). */
  method CloseRow(left: array<int>, right: array<int>, ghost xs: seq<int>, current: int, first: int)
    requires left != right && left.Length == right.Length && xs != [] && Distinct(xs)
    requires RowPrefixLinked(left[..], right[..], xs, |xs|)
    requires current == xs[|xs| - 1] && first == xs[0]
    modifies left, right
    ensures Cycle(Ptrs(left[..], right[..]), xs)
    ensures forall n :: 0 <= n < left.Length && n !in xs ==> left[n] == old(left[n]) && right[n] == old(right[n])
  {
    right[current] := first;
    left[first] := current;
    RowClosed(left[..], right[..], xs);
  }

  /** The column loop of `Matrix(rows)`: every column holding a 1 gets its
      size and becomes an up/down ring of its header and its nodes. */
  method LinkColumns(up: array<int>, down: array<int>, sizes: array<int>, m: seq<seq<int>>)
    requires Rect(m) && up != down && up.Length == down.Length == Total(m, |m[0]|)
    requires sizes.Length == |m[0]| + 1
    requires forall i :: 0 <= i <= |m[0]| ==> up[i] == -1 && down[i] == -1 && sizes[i] == 0
    modifies up, down, sizes
    ensures forall x :: 0 <= x < |m[0]| ==>
      sizes[x] == |ColNodes(m, |m[0]|, x)|
      && (ColNodes(m, |m[0]|, x) == [] ==> up[x] == -1 && down[x] == -1)
      && (ColNodes(m, |m[0]|, x) != [] ==> Ring(Ptrs(up[..], down[..]), x, ColNodes(m, |m[0]|, x)))
    ensures sizes[|m[0]|] == 0 && up[|m[0]|] == -1 && down[|m[0]|] == -1
  {
    var C := |m[0]|;
    var x := 0;
    while x < C
      invariant ColumnsLinked(m, up[..], down[..], sizes[..], x)
    {
      VisitColumn(up, down, sizes, m, x);
      x := x + 1;
    }
  }

  /** One turn of the column loop: only a column holding a 1 is linked. */
  method VisitColumn(up: array<int>, down: array<int>, sizes: array<int>, m: seq<seq<int>>, x: int)
    requires Rect(m) && 0 <= x < |m[0]| && up != down
    requires ColumnsLinked(m, up[..], down[..], sizes[..], x)
    modifies up, down, sizes
    ensures ColumnsLinked(m, up[..], down[..], sizes[..], x + 1)
  {
    ghost var u0, d0, s0 := up[..], down[..], sizes[..];
    if RowsWith(m, x, |m|) != [] {
      LinkColumn(up, down, sizes, m, x);
      ColumnLinked(m, u0, d0, s0, up[..], down[..], sizes[..], x);
    } else {
      ColumnSkipped(m, up[..], down[..], sizes[..], x);
    }
  }

  /** One pass of the column loop: column `x`'s nodes, top to bottom, each
      linked below the previous one, then the header closes the ring. */
  method LinkColumn(up: array<int>, down: array<int>, sizes: array<int>, m: seq<seq<int>>, x: int)
    requires Rect(m) && 0 <= x < |m[0]| && RowsWith(m, x, |m|) != []
    requires up != down && up.Length == down.Length == Total(m, |m[0]|) && sizes.Length == |m[0]| + 1
    modifies up, down, sizes
    ensures Ring(Ptrs(up[..], down[..]), x, ColNodes(m, |m[0]|, x)) && sizes[x] == |ColNodes(m, |m[0]|, x)|
    ensures forall n :: 0 <= n < up.Length && n != x && n !in ColNodes(m, |m[0]|, x) ==>
      up[n] == old(up[n]) && down[n] == old(down[n])
    ensures forall y :: 0 <= y < sizes.Length && y != x ==> sizes[y] == old(sizes[y])
  {
    var rowIdx := RowsWith(m, x, |m|);
    sizes[x] := |rowIdx|;
    LinkColumnNodes(up, down, m, x, rowIdx);
  }

  /** The nodes of column `x` (in the rows `rowIdx`, top to bottom), each
      linked below the previous one, and the header closing the ring. */
  method LinkColumnNodes(up: array<int>, down: array<int>, m: seq<seq<int>>, x: int, rowIdx: seq<int>)
    requires Rect(m) && 0 <= x < |m[0]| && rowIdx == RowsWith(m, x, |m|) && rowIdx != []
    requires up != down && up.Length == down.Length == Total(m, |m[0]|)
    modifies up, down
    ensures Ring(Ptrs(up[..], down[..]), x, ColNodes(m, |m[0]|, x))
    ensures forall n :: 0 <= n < up.Length && n != x && n !in ColNodes(m, |m[0]|, x) ==>
      up[n] == old(up[n]) && down[n] == old(down[n])
  {
    var C := |m[0]|;
    ghost var ns := ColNodes(m, C, x);
    ColNodesSpan(m, x);
    var k := |rowIdx|;
    forall t | 0 <= t < k ensures 0 <= rowIdx[t] < |m| && 0 <= x < |m[rowIdx[t]]| && NodeOf(m, C, rowIdx[t], x) == ns[t] {
      assert rowIdx[t] in rowIdx;
    }
    var prev := NodeOf(m, C, rowIdx[k - 1], x);
    var current := prev;
    var t := 0;
    while t < k
      invariant 0 <= t <= k
      invariant prev == current == (if t == 0 then ns[k - 1] else ns[t - 1])
      invariant ColumnPrefixLinked(up[..], down[..], ns, t)
      invariant forall n :: 0 <= n < up.Length && n != x && n !in ns ==> up[n] == old(up[n]) && down[n] == old(down[n])
    {
      current := NodeOf(m, C, rowIdx[t], x);
      assert current == ns[t];
      LinkColumnStep(up, down, ns, t, prev, current);
      prev := current;
      t := t + 1;
    }
    var first := NodeOf(m, C, rowIdx[0], x);
    CloseColumn(up, down, x, ns, current, first);
  }

  /** The body of the column loop: `prev.down = current; current.up = prev`. */
  method LinkColumnStep(up: array<int>, down: array<int>, ghost ns: seq<int>, ghost t: int, prev: int, current: int)
    requires up != down && up.Length == down.Length && Distinct(ns) && 0 <= t < |ns|
    requires ColumnPrefixLinked(up[..], down[..], ns, t)
    requires prev == (if t == 0 then ns[|ns| - 1] else ns[t - 1]) && current == ns[t]
    modifies up, down
    ensures ColumnPrefixLinked(up[..], down[..], ns, t + 1)
    ensures forall n :: 0 <= n < up.Length && n !in ns ==> up[n] == old(up[n]) && down[n] == old(down[n])
  {
    down[prev] := current;
    up[current] := prev;
  }

  /** After the column loop: the header goes above the first node and
      below the last one. */
  method CloseColumn(up: array<int>, down: array<int>, x: int, ghost ns: seq<int>, current: int, first: int)
    requires up != down && up.Length == down.Length && 0 <= x < up.Length && ns != [] && Distinct(ns)
    requires forall i :: 0 <= i < |ns| ==> ns[i] != x
    requires ColumnPrefixLinked(up[..], down[..], ns, |ns|)
    requires current == ns[|ns| - 1] && first == ns[0]
    modifies up, down
    ensures Ring(Ptrs(up[..], down[..]), x, ns)
    ensures forall n :: 0 <= n < up.Length && n != x && n !in ns ==> up[n] == old(up[n]) && down[n] == old(down[n])
  {
    up[x] := current;
    down[current] := x;
    down[x] := first;
    up[first] := x;
  }
}
