/** What `Matrix.__init__` builds from a rectangular 0/1 matrix.

    The nodes are numbered in the order the node dictionary creates them:
    row by row, and within a row by increasing column. Row `r`'s nodes are
    therefore the consecutive indices `Start(r) .. Start(r + 1) - 1`, and
    the node of the 1-cell `(r, x)` is `NodeOf(r, x)`. `Built` states the
    links, sizes and `None` fields the constructor leaves behind;
    `BuiltValid` proves that, when every column holds a 1, this is the
    structure `cover`, `uncover` and `search` work on. */
module Build {
  import opened Rings
  import opened Moves
  import opened Dlx

  /** A non-empty list of rows of equal length (`rows[0]` must exist). */
  predicate Rect(m: seq<seq<int>>) {
    |m| > 0 && forall r :: 0 <= r < |m| ==> |m[r]| == |m[0]|
  }

  /** The number of 1-cells in the rows before `R`. */
  function Before(m: seq<seq<int>>, R: int): nat
    requires 0 <= R <= |m|
  {
    if R == 0 then 0 else Before(m, R - 1) + |Ones(m[R - 1])|
  }

  /** The index of the first node of row `r`. */
  function Start(m: seq<seq<int>>, C: int, r: int): int
    requires 0 <= r <= |m|
  {
    C + 1 + Before(m, r)
  }

  /** The size of the arena: headers, root and one node per 1-cell. */
  function Total(m: seq<seq<int>>, C: int): int {
    Start(m, C, |m|)
  }

  function Range(lo: int, hi: int): (r: seq<int>)
    requires lo <= hi
    ensures |r| == hi - lo
    ensures forall i :: 0 <= i < |r| ==> r[i] == lo + i
  {
    seq(hi - lo, i => lo + i)
  }

  /** Row `r`'s nodes, left to right. */
  function RowNodes(m: seq<seq<int>>, C: int, r: int): (xs: seq<int>)
    requires 0 <= r < |m|
    ensures |xs| == |Ones(m[r])|
  {
    Range(Start(m, C, r), Start(m, C, r + 1))
  }

  /** `nodeDict[(r, x)]`: the node of the 1-cell in row `r`, column `x`. */
  function NodeOf(m: seq<seq<int>>, C: int, r: int, x: int): int
    requires 0 <= r < |m| && 0 <= x <= |m[r]|
  {
    Start(m, C, r) + |Ones(m[r][..x])|
  }

  /** The rows before `R` with a 1 in column `x`, in increasing order. */
  function RowsWith(m: seq<seq<int>>, x: int, R: int): (rs: seq<int>)
    requires 0 <= R <= |m|
    ensures forall i, j :: 0 <= i < j < |rs| ==> rs[i] < rs[j]
    ensures forall r :: r in rs <==> 0 <= r < R && 0 <= x < |m[r]| && m[r][x] == 1
  {
    if R == 0 then []
    else
      var front := RowsWith(m, x, R - 1);
      assert forall t :: 0 <= t < |front| ==> front[t] < R - 1 by {
        forall t | 0 <= t < |front| ensures front[t] < R - 1 { assert front[t] in front; }
      }
      front + (if 0 <= x < |m[R - 1]| && m[R - 1][x] == 1 then [R - 1] else [])
  }

  /** Column `x`'s nodes, top to bottom. */
  function ColNodes(m: seq<seq<int>>, C: int, x: int): (ns: seq<int>)
    ensures |ns| == |RowsWith(m, x, |m|)|
  {
    var rs := RowsWith(m, x, |m|);
    seq(|rs|, t requires 0 <= t < |rs| => assert rs[t] in rs; NodeOf(m, C, rs[t], x))
  }

  /** The column of every index: `None` for headers and the root. */
  function ColSeq(m: seq<seq<int>>, C: nat): seq<int> {
    seq(C + 1, _ => -1) + Cols(m, |m|)
  }

  /** The source row of every index: `None` for headers and the root. */
  function RowIdxSeq(m: seq<seq<int>>, C: nat): seq<int> {
    seq(C + 1, _ => -1) + Tags(m, |m|)
  }

  function Cols(m: seq<seq<int>>, R: int): (r: seq<int>)
    requires 0 <= R <= |m|
    ensures |r| == Before(m, R)
  {
    if R == 0 then [] else Cols(m, R - 1) + Ones(m[R - 1])
  }

  function Tags(m: seq<seq<int>>, R: int): (r: seq<int>)
    requires 0 <= R <= |m|
    ensures |r| == Before(m, R)
  {
    if R == 0 then [] else Tags(m, R - 1) + seq(|Ones(m[R - 1])|, _ => R - 1)
  }

  function RowsOf(m: seq<seq<int>>, C: nat): seq<seq<int>> {
    seq(|m|, r requires 0 <= r < |m| => RowNodes(m, C, r))
  }

  /** The fixed part of the matrix built from `m`. */
  function ShapeOf(m: seq<seq<int>>): Shape
    requires Rect(m)
  {
    var C := |m[0]|;
    Shape(C, ColSeq(m, C), RowIdxSeq(m, C), m, RowsOf(m, C))
  }

  /** The pointers and sizes `Matrix.__init__` leaves: the header ring
      `h, 0, 1, ..., C-1, h`; every row a left/right cycle of its nodes;
      every column with a 1 an up/down ring through its header, sized by
      its count; every column without one, and the root, with `size` 0 and
      `up`/`down` still `None`. */
  ghost predicate Built(m: seq<seq<int>>, s: Links) {
    Rect(m)
    && var C := |m[0]|;
    |s.lr.prev| == |s.lr.next| == |s.ud.prev| == |s.ud.next| == Total(m, C) && |s.size| == C + 1
    && (forall i :: 0 <= i <= C ==>
          s.lr.next[i] == (if i == C then 0 else i + 1) && s.lr.prev[i] == (if i == 0 then C else i - 1))
    && (forall r :: 0 <= r < |m| ==> Cycle(s.lr, RowNodes(m, C, r)))
    && (forall x :: 0 <= x < C ==>
          s.size[x] == |ColNodes(m, C, x)|
          && (ColNodes(m, C, x) == [] ==> s.ud.prev[x] == -1 && s.ud.next[x] == -1)
          && (ColNodes(m, C, x) != [] ==> Ring(s.ud, x, ColNodes(m, C, x))))
    && s.size[C] == 0 && s.ud.prev[C] == -1 && s.ud.next[C] == -1
  }

  /** Every column holds a 1 in some row. */
  predicate NoEmptyColumn(m: seq<seq<int>>)
    requires Rect(m)
  {
    forall x :: 0 <= x < |m[0]| ==> RowsWith(m, x, |m|) != []
  }

  /** The abstract state right after construction: every column live, in
      index order, each holding its nodes top to bottom. */
  function InitAbs(m: seq<seq<int>>): Abs
    requires Rect(m)
  {
    var C := |m[0]|;
    Abs(Range(0, C), seq(C, x => ColNodes(m, C, x)))
  }

  // ---- counting ----

  lemma {:induction false} BeforeMono(m: seq<seq<int>>, r: int, r': int)
    requires 0 <= r < r' <= |m|
    ensures Before(m, r) + |Ones(m[r])| <= Before(m, r')
  {
    if r' > r + 1 {
      BeforeMono(m, r, r' - 1);
    }
  }

  /** Position `Before(r) + i` of the flattened column and row tags is the
      `i`-th 1-cell of row `r`. */
  lemma FlatAt(m: seq<seq<int>>, R: int, r: int, i: int)
    requires 0 <= r < R <= |m| && 0 <= i < |Ones(m[r])|
    ensures Before(m, r) + i < Before(m, R)
    ensures Cols(m, R)[Before(m, r) + i] == Ones(m[r])[i]
    ensures Tags(m, R)[Before(m, r) + i] == r
  {
    FlatCols(m, R, r, i);
    FlatTags(m, R, r, i);
  }

  lemma {:induction false} FlatCols(m: seq<seq<int>>, R: int, r: int, i: int)
    requires 0 <= r < R <= |m| && 0 <= i < |Ones(m[r])|
    ensures Before(m, r) + i < Before(m, R)
    ensures Cols(m, R)[Before(m, r) + i] == Ones(m[r])[i]
  {
    if r < R - 1 {
      FlatCols(m, R - 1, r, i);
      AppendLeft(Cols(m, R - 1), Ones(m[R - 1]), Before(m, r) + i);
    } else {
      AppendRight(Cols(m, R - 1), Ones(m[R - 1]), i);
    }
  }

  lemma {:induction false} FlatTags(m: seq<seq<int>>, R: int, r: int, i: int)
    requires 0 <= r < R <= |m| && 0 <= i < |Ones(m[r])|
    ensures Before(m, r) + i < Before(m, R)
    ensures Tags(m, R)[Before(m, r) + i] == r
  {
    if r < R - 1 {
      FlatTags(m, R - 1, r, i);
      AppendLeft(Tags(m, R - 1), seq(|Ones(m[R - 1])|, _ => R - 1), Before(m, r) + i);
    } else {
      AppendRight(Tags(m, R - 1), seq(|Ones(m[R - 1])|, _ => R - 1), i);
    }
  }

  lemma AppendLeft(a: seq<int>, b: seq<int>, k: int)
    requires 0 <= k < |a|
    ensures (a + b)[k] == a[k]
  {
  }

  lemma AppendRight(a: seq<int>, b: seq<int>, k: int)
    requires 0 <= k < |b|
    ensures (a + b)[|a| + k] == b[k]
  {
  }

  /** The `i`-th node of row `r` carries row `r` and the column of the
      row's `i`-th 1. */
  lemma NodeTags(m: seq<seq<int>>, r: int, i: int, n: int)
    requires Rect(m) && 0 <= r < |m| && 0 <= i < |Ones(m[r])| && n == Start(m, |m[0]|, r) + i
    ensures |m[0]| < n < Total(m, |m[0]|) && n < Start(m, |m[0]|, r + 1)
    ensures |ColSeq(m, |m[0]|)| == |RowIdxSeq(m, |m[0]|)| == Total(m, |m[0]|)
    ensures ColSeq(m, |m[0]|)[n] == Ones(m[r])[i] && RowIdxSeq(m, |m[0]|)[n] == r
    ensures 0 <= Ones(m[r])[i] < |m[0]|
  {
    FlatAt(m, |m|, r, i);
    if r + 1 < |m| {
      BeforeMono(m, r + 1, |m|);
    }
    assert Ones(m[r])[i] in Ones(m[r]);
  }

  /** Every node index lies in exactly one row's block. */
  lemma {:induction false} NodeRow(m: seq<seq<int>>, C: int, n: int, R: int)
    requires 0 <= R <= |m| && C < n < Start(m, C, R)
    ensures exists r :: 0 <= r < R && Start(m, C, r) <= n < Start(m, C, r + 1)
  {
    if n < Start(m, C, R - 1) {
      NodeRow(m, C, n, R - 1);
    }
  }

  lemma StartLe(m: seq<seq<int>>, C: int, a: int, b: int)
    requires 0 <= a <= b <= |m|
    ensures Start(m, C, a) <= Start(m, C, b)
  {
    if a < b {
      BeforeMono(m, a, b);
    }
  }

  /** Linking row `rr` leaves the rows above it as they were. */
  lemma RowsKept(m: seq<seq<int>>, p: Ptrs, q: Ptrs, rr: int)
    requires Rect(m) && 0 <= rr < |m|
    requires |q.prev| == |q.next| == |p.prev| == |p.next|
    requires forall r :: 0 <= r < rr ==> Cycle(p, RowNodes(m, |m[0]|, r))
    requires forall n :: 0 <= n < |p.next| && n !in RowNodes(m, |m[0]|, rr) ==>
      q.prev[n] == p.prev[n] && q.next[n] == p.next[n]
    ensures forall r :: 0 <= r < rr ==> Cycle(q, RowNodes(m, |m[0]|, r))
  {
    var C := |m[0]|;
    forall r | 0 <= r < rr ensures Cycle(q, RowNodes(m, C, r)) {
      BeforeMono(m, r, rr);
      var xs := RowNodes(m, C, r);
      forall n | n in Elems(xs) && 0 <= n < |p.next| ensures q.prev[n] == p.prev[n] && q.next[n] == p.next[n] {
        var t := ElemsIndex(xs, n);
      }
      CycleFrame(p, q, xs);
    }
  }

  /** Linking column `x` leaves the columns before it as they were. */
  lemma ColumnsKept(m: seq<seq<int>>, p: Ptrs, q: Ptrs, x: int)
    requires Rect(m) && 0 <= x < |m[0]|
    requires |q.prev| == |q.next| == |p.prev| == |p.next|
    requires forall y :: 0 <= y < x && ColNodes(m, |m[0]|, y) != [] ==> Ring(p, y, ColNodes(m, |m[0]|, y))
    requires forall n :: 0 <= n < |p.next| && n != x && n !in ColNodes(m, |m[0]|, x) ==>
      q.prev[n] == p.prev[n] && q.next[n] == p.next[n]
    ensures forall y :: 0 <= y < x && ColNodes(m, |m[0]|, y) != [] ==> Ring(q, y, ColNodes(m, |m[0]|, y))
  {
    var C := |m[0]|;
    ColNodesFacts(m, x);
    forall y | 0 <= y < x && ColNodes(m, C, y) != [] ensures Ring(q, y, ColNodes(m, C, y)) {
      var ys := ColNodes(m, C, y);
      ColNodesFacts(m, y);
      forall n | n in Elems(ys) + {y} && 0 <= n < |p.next|
        ensures q.prev[n] == p.prev[n] && q.next[n] == p.next[n]
      {
        if n != y {
          var t := ElemsIndex(ys, n);
        }
      }
      RingFrame(p, q, y, ys);
    }
  }

  /** The column loop has handled the columns before `x`: each has its
      size and, when it holds a 1, its ring; the rest are untouched. */
  ghost predicate ColumnsLinked(m: seq<seq<int>>, up: seq<int>, down: seq<int>, sizes: seq<int>, x: int)
    requires Rect(m)
  {
    var C := |m[0]|;
    0 <= x <= C && |up| == |down| == Total(m, C) && |sizes| == C + 1
    && (forall y :: 0 <= y < x ==> sizes[y] == |ColNodes(m, C, y)|)
    && (forall y :: 0 <= y < x && ColNodes(m, C, y) == [] ==> up[y] == -1 && down[y] == -1)
    && (forall y :: 0 <= y < x && ColNodes(m, C, y) != [] ==> Ring(Ptrs(up, down), y, ColNodes(m, C, y)))
    && (forall y :: x <= y <= C ==> up[y] == -1 && down[y] == -1 && sizes[y] == 0)
  }

  /** A column without a 1 is skipped by the column loop. */
  lemma ColumnSkipped(m: seq<seq<int>>, up: seq<int>, down: seq<int>, sizes: seq<int>, x: int)
    requires Rect(m) && 0 <= x < |m[0]| && ColumnsLinked(m, up, down, sizes, x)
    requires RowsWith(m, x, |m|) == []
    ensures ColumnsLinked(m, up, down, sizes, x + 1)
  {
  }

  /** Linking column `x` extends `ColumnsLinked` by column `x`. */
  lemma ColumnLinked(m: seq<seq<int>>, u0: seq<int>, d0: seq<int>, s0: seq<int>,
                     u1: seq<int>, d1: seq<int>, s1: seq<int>, x: int)
    requires Rect(m) && 0 <= x < |m[0]| && ColumnsLinked(m, u0, d0, s0, x)
    requires |u1| == |u0| && |d1| == |d0| && |s1| == |s0|
    requires RowsWith(m, x, |m|) != []
    requires Ring(Ptrs(u1, d1), x, ColNodes(m, |m[0]|, x)) && s1[x] == |ColNodes(m, |m[0]|, x)|
    requires forall n :: 0 <= n < |u0| && n != x && n !in ColNodes(m, |m[0]|, x) ==> u1[n] == u0[n] && d1[n] == d0[n]
    requires forall y :: 0 <= y < |s0| && y != x ==> s1[y] == s0[y]
    ensures ColumnsLinked(m, u1, d1, s1, x + 1)
  {
    var C := |m[0]|;
    ColNodesSpan(m, x);
    ColumnsKept(m, Ptrs(u0, d0), Ptrs(u1, d1), x);
    HeadersKept(m, u0, d0, s0, u1, d1, s1, x);
    HeadersAfter(m, u0, d0, s0, u1, d1, s1, x);
  }

  /** The header conjuncts of `ColumnsLinked` after column `x` is linked. */
  lemma HeadersAfter(m: seq<seq<int>>, u0: seq<int>, d0: seq<int>, s0: seq<int>,
                     u1: seq<int>, d1: seq<int>, s1: seq<int>, x: int)
    requires Rect(m) && 0 <= x < |m[0]| && |s0| == |s1| == |m[0]| + 1 && |u0| == |u1| == |d0| == |d1| > |m[0]|
    requires forall y :: 0 <= y < x ==> s0[y] == |ColNodes(m, |m[0]|, y)|
    requires forall y :: 0 <= y < x && ColNodes(m, |m[0]|, y) == [] ==> u0[y] == -1 && d0[y] == -1
    requires forall y :: x <= y <= |m[0]| ==> u0[y] == -1 && d0[y] == -1 && s0[y] == 0
    requires RowsWith(m, x, |m|) != [] && s1[x] == |ColNodes(m, |m[0]|, x)|
    requires forall y :: 0 <= y <= |m[0]| && y != x ==> u1[y] == u0[y] && d1[y] == d0[y] && s1[y] == s0[y]
    ensures forall y :: 0 <= y < x + 1 ==> s1[y] == |ColNodes(m, |m[0]|, y)|
    ensures forall y :: 0 <= y < x + 1 && ColNodes(m, |m[0]|, y) == [] ==> u1[y] == -1 && d1[y] == -1
    ensures forall y :: x + 1 <= y <= |m[0]| ==> u1[y] == -1 && d1[y] == -1 && s1[y] == 0
  {
    assert |ColNodes(m, |m[0]|, x)| == |RowsWith(m, x, |m|)|;
  }

  lemma HeadersKept(m: seq<seq<int>>, u0: seq<int>, d0: seq<int>, s0: seq<int>,
                    u1: seq<int>, d1: seq<int>, s1: seq<int>, x: int)
    requires Rect(m) && 0 <= x < |m[0]| && |u0| == |u1| == |d0| == |d1| > |m[0]| && |s0| == |s1| == |m[0]| + 1
    requires forall n :: n in ColNodes(m, |m[0]|, x) ==> |m[0]| < n
    requires forall n :: 0 <= n < |u0| && n != x && n !in ColNodes(m, |m[0]|, x) ==> u1[n] == u0[n] && d1[n] == d0[n]
    requires forall y :: 0 <= y < |s0| && y != x ==> s1[y] == s0[y]
    ensures forall y :: 0 <= y <= |m[0]| && y != x ==> u1[y] == u0[y] && d1[y] == d0[y] && s1[y] == s0[y]
  {
  }

  // ---- partly linked rows and columns ----

  /** The row loop has linked the first `i` nodes of `xs`: each one's
      `left` is the node before it (the last node for the first), and each
      but the newest has its `right` set; the first pass also set the last
      node's `right` to the first. */
  ghost predicate RowPrefixLinked(left: seq<int>, right: seq<int>, xs: seq<int>, i: int) {
    0 <= i <= |xs|
    && (forall t :: 0 <= t < |xs| ==> 0 <= xs[t] < |left| && xs[t] < |right|)
    && (i > 0 ==> left[xs[0]] == xs[|xs| - 1] && right[xs[|xs| - 1]] == xs[0])
    && (forall t :: 0 < t < i ==> left[xs[t]] == xs[t - 1])
    && (forall t :: 0 <= t < i - 1 ==> right[xs[t]] == xs[t + 1])
  }

  lemma RowClosed(left: seq<int>, right: seq<int>, xs: seq<int>)
    requires |left| == |right| && xs != [] && Distinct(xs) && RowPrefixLinked(left, right, xs, |xs|)
    ensures Cycle(Ptrs(left, right), xs)
  {
  }

  /** The column loop has linked the first `t` nodes of `ns` downwards:
      each but the first has its `up` set to the node above it, and each
      but the newest has its `down` set to the node below it. */
  ghost predicate ColumnPrefixLinked(up: seq<int>, down: seq<int>, ns: seq<int>, t: int) {
    0 <= t <= |ns|
    && (forall i :: 0 <= i < |ns| ==> 0 <= ns[i] < |up| && ns[i] < |down|)
    && (forall i :: 0 < i < t ==> up[ns[i]] == ns[i - 1])
    && (forall i :: 0 <= i < t - 1 ==> down[ns[i]] == ns[i + 1])
  }

  // ---- the 1-cells of a row ----

  lemma OnesGrow(row: seq<int>, y: int)
    requires 0 <= y < |row|
    ensures Ones(row[..y + 1]) == Ones(row[..y]) + (if row[y] == 1 then [y] else [])
  {
    assert row[..y + 1][..y] == row[..y];
  }

  lemma {:induction false} OnesPrefix(row: seq<int>, y: int)
    requires 0 <= y <= |row|
    ensures |Ones(row[..y])| <= |Ones(row)| && Ones(row)[..|Ones(row[..y])|] == Ones(row[..y])
    decreases |row| - y
  {
    if y == |row| {
      assert row[..y] == row;
    } else {
      OnesPrefix(row, y + 1);
      OnesGrow(row, y);
    }
  }

  /** A 1 at column `x` is the row's `k`-th 1, `k` the number of 1s
      before it. */
  lemma OnesRank(row: seq<int>, x: int)
    requires 0 <= x < |row| && row[x] == 1
    ensures |Ones(row[..x])| < |Ones(row)| && Ones(row)[|Ones(row[..x])|] == x
  {
    OnesPrefix(row, x + 1);
    OnesGrow(row, x);
  }

  lemma OnesRankOf(row: seq<int>, i: int)
    requires 0 <= i < |Ones(row)|
    ensures 0 <= Ones(row)[i] < |row| && row[Ones(row)[i]] == 1 && |Ones(row[..Ones(row)[i]])| == i
  {
    var x := Ones(row)[i];
    assert x in Ones(row);
    OnesRank(row, x);
  }

  /** `nodeDict[(r, x)]` is the node the row loop reaches at `x`. */
  lemma NodeOfRow(m: seq<seq<int>>, r: int, i: int)
    requires Rect(m) && 0 <= r < |m| && 0 <= i < |Ones(m[r])|
    ensures 0 <= Ones(m[r])[i] < |m[r]|
    ensures NodeOf(m, |m[0]|, r, Ones(m[r])[i]) == RowNodes(m, |m[0]|, r)[i]
  {
    OnesRankOf(m[r], i);
  }

  // ---- columns ----

  /** The `t`-th node of column `x` is a node of the arena, in the block
      of its row, carrying column `x`. */
  lemma ColNodeAt(m: seq<seq<int>>, x: int, t: int) returns (r: int, i: int)
    requires Rect(m) && 0 <= x < |m[0]| && 0 <= t < |ColNodes(m, |m[0]|, x)|
    ensures r == RowsWith(m, x, |m|)[t] && 0 <= r < |m| && 0 <= i < |Ones(m[r])|
    ensures ColNodes(m, |m[0]|, x)[t] == Start(m, |m[0]|, r) + i
    ensures Start(m, |m[0]|, r) + i < Start(m, |m[0]|, r + 1)
    ensures |m[0]| < Start(m, |m[0]|, r) + i < Total(m, |m[0]|)
    ensures ColSeq(m, |m[0]|)[Start(m, |m[0]|, r) + i] == x
  {
    var C := |m[0]|;
    var rs := RowsWith(m, x, |m|);
    r := rs[t];
    assert r in rs;
    i := |Ones(m[r][..x])|;
    assert ColNodes(m, C, x)[t] == NodeOf(m, C, r, x) == Start(m, C, r) + i;
    OnesRank(m[r], x);
    NodeTags(m, r, i, Start(m, C, r) + i);
  }

  /** Column `x`'s nodes lie strictly below each other, are nodes of the
      arena and carry column `x`. */
  lemma ColNodesFacts(m: seq<seq<int>>, x: int)
    requires Rect(m) && 0 <= x < |m[0]|
    ensures var C := |m[0]|; var ns := ColNodes(m, C, x);
      (forall t :: 0 <= t < |ns| ==> C < ns[t] < Total(m, C) && ColSeq(m, C)[ns[t]] == x)
      && Increasing(ns) && Distinct(ns)
  {
    ColNodesIn(m, x);
    ColNodesIncreasing(m, x);
  }

  lemma ColNodesIn(m: seq<seq<int>>, x: int)
    requires Rect(m) && 0 <= x < |m[0]|
    ensures forall t :: 0 <= t < |ColNodes(m, |m[0]|, x)| ==>
      |m[0]| < ColNodes(m, |m[0]|, x)[t] < Total(m, |m[0]|) && ColSeq(m, |m[0]|)[ColNodes(m, |m[0]|, x)[t]] == x
  {
    forall t | 0 <= t < |ColNodes(m, |m[0]|, x)|
      ensures |m[0]| < ColNodes(m, |m[0]|, x)[t] < Total(m, |m[0]|) && ColSeq(m, |m[0]|)[ColNodes(m, |m[0]|, x)[t]] == x
    {
      var r, i := ColNodeAt(m, x, t);
    }
  }

  lemma ColNodesIncreasing(m: seq<seq<int>>, x: int)
    requires Rect(m) && 0 <= x < |m[0]|
    ensures Increasing(ColNodes(m, |m[0]|, x)) && Distinct(ColNodes(m, |m[0]|, x))
  {
    var ns := ColNodes(m, |m[0]|, x);
    forall a, b | 0 <= a < b < |ns| ensures ns[a] < ns[b] {
      var ra, ia := ColNodeAt(m, x, a);
      var rb, ib := ColNodeAt(m, x, b);
      BeforeMono(m, ra, rb);
    }
  }

  /** Column `x`'s nodes are distinct nodes of the arena. */
  lemma ColNodesSpan(m: seq<seq<int>>, x: int)
    requires Rect(m) && 0 <= x < |m[0]|
    ensures var ns := ColNodes(m, |m[0]|, x);
      Distinct(ns) && (forall n :: n in ns ==> |m[0]| < n < Total(m, |m[0]|))
      && (forall t :: 0 <= t < |ns| ==> |m[0]| < ns[t] < Total(m, |m[0]|))
  {
    ColNodesFacts(m, x);
  }

  /** Every node lies in the column its `column` field names. */
  lemma NodeInColumn(m: seq<seq<int>>, r: int, i: int, n: int)
    requires Rect(m) && 0 <= r < |m| && 0 <= i < |Ones(m[r])| && n == Start(m, |m[0]|, r) + i
    ensures n in ColNodes(m, |m[0]|, Ones(m[r])[i])
  {
    var C := |m[0]|;
    var x := Ones(m[r])[i];
    OnesRankOf(m[r], i);
    var rs := RowsWith(m, x, |m|);
    assert r in rs;
    var t :| 0 <= t < |rs| && rs[t] == r;
    assert ColNodes(m, C, x)[t] == Start(m, C, r) + i;
  }

  // ---- what construction establishes ----

  /** One node per 1-cell: the cell `(r, x)` holding a 1 has the node
      `NodeOf(r, x)`, which carries row `r` and column `x`; and every node
      is the node of such a cell. */
  lemma BuiltNodes(m: seq<seq<int>>)
    requires Rect(m)
    ensures var C := |m[0]|; var sh := ShapeOf(m);
      (forall r, x :: 0 <= r < |m| && 0 <= x < C && m[r][x] == 1 ==>
         IsNode(sh, NodeOf(m, C, r, x)) && sh.rowIdx[NodeOf(m, C, r, x)] == r && sh.col[NodeOf(m, C, r, x)] == x)
      && (forall n :: IsNode(sh, n) ==>
            0 <= sh.rowIdx[n] < |m| && 0 <= sh.col[n] < C && m[sh.rowIdx[n]][sh.col[n]] == 1
            && n == NodeOf(m, C, sh.rowIdx[n], sh.col[n]))
  {
    var C := |m[0]|;
    var sh := ShapeOf(m);
    forall r, x | 0 <= r < |m| && 0 <= x < C && m[r][x] == 1
      ensures IsNode(sh, NodeOf(m, C, r, x)) && sh.rowIdx[NodeOf(m, C, r, x)] == r && sh.col[NodeOf(m, C, r, x)] == x
    {
      OnesRank(m[r], x);
      NodeTags(m, r, |Ones(m[r][..x])|, NodeOf(m, C, r, x));
    }
    forall n | IsNode(sh, n)
      ensures 0 <= sh.rowIdx[n] < |m| && 0 <= sh.col[n] < C && m[sh.rowIdx[n]][sh.col[n]] == 1
      ensures n == NodeOf(m, C, sh.rowIdx[n], sh.col[n])
    {
      NodeRow(m, C, n, |m|);
      var r :| 0 <= r < |m| && Start(m, C, r) <= n < Start(m, C, r + 1);
      var i := n - Start(m, C, r);
      NodeTags(m, r, i, n);
      OnesRankOf(m[r], i);
    }
  }

  /** Row `r` of the built matrix holds its nodes in column order. */
  lemma BuiltRow(m: seq<seq<int>>, r: int)
    requires Rect(m) && 0 <= r < |m|
    ensures var sh := ShapeOf(m); |sh.rowIdx| == |sh.col| && RowOk(sh, r)
  {
    var sh := ShapeOf(m);
    var xs := RowNodes(m, |m[0]|, r);
    assert sh.rows[r] == xs;
    forall i | 0 <= i < |xs|
      ensures IsNode(sh, xs[i]) && sh.rowIdx[xs[i]] == r && sh.col[xs[i]] == Ones(m[r])[i]
    {
      NodeTags(m, r, i, xs[i]);
    }
  }

  /** Every node of the built matrix lies in the row its row index names. */
  lemma BuiltNodeRow(m: seq<seq<int>>, n: int)
    requires Rect(m) && IsNode(ShapeOf(m), n)
    ensures var sh := ShapeOf(m); 0 <= sh.rowIdx[n] < |sh.rows| && n in sh.rows[sh.rowIdx[n]]
  {
    var C := |m[0]|;
    NodeRow(m, C, n, |m|);
    var r :| 0 <= r < |m| && Start(m, C, r) <= n < Start(m, C, r + 1);
    NodeTags(m, r, n - Start(m, C, r), n);
    assert RowNodes(m, C, r)[n - Start(m, C, r)] == n;
    assert ShapeOf(m).rows[r] == RowNodes(m, C, r);
  }

  /** The fixed part of the built matrix is well formed. */
  lemma BuiltShape(m: seq<seq<int>>)
    requires Rect(m)
    ensures ShapeOk(ShapeOf(m))
  {
    var sh := ShapeOf(m);
    SeqLengths(m);
    forall r | 0 <= r < |sh.rows| ensures RowOk(sh, r) {
      BuiltRow(m, r);
    }
    forall n | IsNode(sh, n) ensures 0 <= sh.rowIdx[n] < |sh.rows| && n in sh.rows[sh.rowIdx[n]] {
      BuiltNodeRow(m, n);
    }
  }

  /** The column and row-index sequences span the whole arena. */
  lemma SeqLengths(m: seq<seq<int>>)
    requires Rect(m)
    ensures var C := |m[0]|; |ColSeq(m, C)| == |RowIdxSeq(m, C)| == Total(m, C) > C
  {
  }

  /** The ring `h, 0, 1, ..., C-1, h` that the header loop links. */
  lemma HeaderRingFrom(p: Ptrs, C: nat)
    requires |p.prev| == |p.next| > C
    requires forall i :: 0 <= i <= C ==>
      p.next[i] == (if i == C then 0 else i + 1) && p.prev[i] == (if i == 0 then C else i - 1)
    ensures Ring(p, C, Range(0, C))
    ensures forall x :: 0 <= x <= C ==> Linked(p, x)
  {
    var xs := Range(0, C);
    forall i | 0 <= i < |xs| ensures p.prev[xs[i]] == Pred(C, xs, i) && p.next[xs[i]] == Succ(C, xs, i) {
      assert xs[i] == i;
    }
    forall x | 0 <= x <= C ensures Linked(p, x) {
      assert p.next[p.prev[x]] == x;
    }
  }

  /** Read rightwards from `h`, the built header ring is `h, 0, 1, ...,
      C-1, h`, every header linked both ways. */
  lemma BuiltHeaderRing(m: seq<seq<int>>, s: Links)
    requires Built(m, s)
    ensures HeaderRing(ShapeOf(m), s, Range(0, |m[0]|))
    ensures forall x :: 0 <= x <= |m[0]| ==> Linked(s.lr, x)
  {
    HeaderRingFrom(s.lr, |m[0]|);
  }

  /** Every column ring of the built matrix, when every column holds a 1. */
  lemma BuiltColumns(m: seq<seq<int>>, s: Links)
    requires Built(m, s) && NoEmptyColumn(m)
    ensures ColumnRings(ShapeOf(m), s, InitAbs(m).cols)
  {
    var C := |m[0]|;
    var sh := ShapeOf(m);
    var cols := InitAbs(m).cols;
    forall x | 0 <= x < C
      ensures Ring(s.ud, x, cols[x]) && s.size[x] == |cols[x]|
      ensures forall n :: n in cols[x] ==> IsNode(sh, n) && sh.col[n] == x
    {
      ColNodesFacts(m, x);
      assert cols[x] == ColNodes(m, C, x);
      forall n | n in cols[x] ensures IsNode(sh, n) && sh.col[n] == x {
        var t :| 0 <= t < |cols[x]| && cols[x][t] == n;
      }
    }
  }

  /** The cell a node stands for: its row, its place in the row, and the
      column list it belongs to. */
  lemma NodeCell(m: seq<seq<int>>, n: int) returns (r: int, k: int)
    requires Rect(m) && |m[0]| < n < Total(m, |m[0]|)
    ensures 0 <= r < |m| && 0 <= k < |Ones(m[r])| && RowNodes(m, |m[0]|, r)[k] == n
    ensures 0 <= Ones(m[r])[k] < |m[0]| && n in ColNodes(m, |m[0]|, Ones(m[r])[k])
    ensures n == Start(m, |m[0]|, r) + k
    ensures ColSeq(m, |m[0]|)[n] == Ones(m[r])[k] && RowIdxSeq(m, |m[0]|)[n] == r
  {
    var C := |m[0]|;
    NodeRow(m, C, n, |m|);
    r :| 0 <= r < |m| && Start(m, C, r) <= n < Start(m, C, r + 1);
    k := n - Start(m, C, r);
    NodeTags(m, r, k, n);
    NodeInColumn(m, r, k, n);
  }

  /** A node of the built matrix is linked into its row and its column. */
  lemma BuiltNodePoints(m: seq<seq<int>>, s: Links, n: int)
    requires Built(m, s) && NoEmptyColumn(m)
    requires |m[0]| < n < Total(m, |m[0]|)
    ensures Points(s.ud, n) && Points(s.lr, n)
  {
    var C := |m[0]|;
    var r, k := NodeCell(m, n);
    var x := Ones(m[r])[k];
    var xs := RowNodes(m, C, r);
    assert RowsWith(m, x, |m|) != [];
    assert Ring(s.ud, x, ColNodes(m, C, x));
    assert Cycle(s.lr, xs);
    PointsFrom(s.ud, s.lr, x, ColNodes(m, C, x), xs, k);
  }

  lemma PointsFrom(ud: Ptrs, lr: Ptrs, x: int, ns: seq<int>, xs: seq<int>, k: int)
    requires Ring(ud, x, ns) && Cycle(lr, xs) && 0 <= k < |xs| && xs[k] in ns
    ensures Points(ud, xs[k]) && Points(lr, xs[k])
  {
    RingLinked(ud, x, ns, xs[k]);
    CycleNext(lr, xs, k);
    CyclePrev(lr, xs, k);
  }

  /** Every pointer field of the built matrix except the root's `up` and
      `down` names an index of the arena, when every column holds a 1. */
  lemma BuiltInArena(m: seq<seq<int>>, s: Links)
    requires Built(m, s) && NoEmptyColumn(m)
    ensures InArena(ShapeOf(m), s)
  {
    var C := |m[0]|;
    var sh := ShapeOf(m);
    SeqLengths(m);
    BuiltHeaderRing(m, s);
    forall i | 0 <= i < |sh.col| && i != C ensures Points(s.ud, i) && Points(s.lr, i) {
      if i < C {
        RingLinked(s.ud, i, ColNodes(m, C, i), i);
      } else {
        BuiltNodePoints(m, s, i);
      }
    }
    assert Linked(s.lr, C);
  }

  /** A node of the built matrix lies in the initial list of its column. */
  lemma InitColumnOf(m: seq<seq<int>>, j: int) returns (x: int)
    requires Rect(m) && |m[0]| < j < Total(m, |m[0]|)
    ensures x == ColSeq(m, |m[0]|)[j] && 0 <= x < |m[0]|
    ensures x in InitAbs(m).live && j in InitAbs(m).cols[x]
  {
    var C := |m[0]|;
    var r, k := NodeCell(m, j);
    x := Ones(m[r])[k];
    assert InitAbs(m).cols[x] == ColNodes(m, C, x);
    assert InitAbs(m).live[x] == x;
  }

  /** Right after construction every row stays inside live columns. */
  lemma BuiltCoherent(m: seq<seq<int>>)
    requires Rect(m)
    ensures Coherent(ShapeOf(m), InitAbs(m))
  {
    var sh := ShapeOf(m);
    var a := InitAbs(m);
    forall x, n, j |
      x in a.live && 0 <= x < |a.cols| && n in a.cols[x] && 0 <= n < |sh.rowIdx|
      && 0 <= sh.rowIdx[n] < |sh.rows| && j in sh.rows[sh.rowIdx[n]]
      ensures 0 <= j < |sh.col| && sh.col[j] in a.live && 0 <= sh.col[j] < |a.cols| && j in a.cols[sh.col[j]]
    {
      var r := sh.rowIdx[n];
      BuiltRow(m, r);
      var k :| 0 <= k < |sh.rows[r]| && sh.rows[r][k] == j;
      var y := InitColumnOf(m, j);
    }
  }

  /** When every column holds a 1, the built matrix is the valid structure
      with every column live and each holding its nodes top to bottom. */
  lemma BuiltValid(m: seq<seq<int>>, s: Links)
    requires Built(m, s)
    requires NoEmptyColumn(m)
    ensures Valid(ShapeOf(m), s, InitAbs(m))
  {
    var C := |m[0]|;
    BuiltShape(m);
    BuiltHeaderRing(m, s);
    BuiltColumns(m, s);
    BuiltInArena(m, s);
    BuiltCoherent(m);
  }
}
