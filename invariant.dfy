/** The structure Dancing Links keeps between operations, and what one
    `cover` does to it.

    The arena has the column headers at indices `0 .. C-1`, the root `h` at
    index `C` and one node per 1-cell of the input after it. A `Shape` holds
    what never changes once the matrix is built (each node's column and
    source row, the input matrix, and the nodes of each row in column
    order). An `Abs` value is the ghost reading of the mutable part: the
    live column headers in ring order and, for every column, the nodes
    currently linked into it from top to bottom. `Valid` ties a snapshot of
    the pointer arrays to both. */
module Dlx {
  import opened Rings
  import opened Moves

  /** The columns where `row` holds a 1, in increasing order (the
      `sorted(set(...))` of column indices taken per row). */
  function Ones(row: seq<int>): (r: seq<int>)
    ensures forall i, j :: 0 <= i < j < |r| ==> r[i] < r[j]
    ensures forall x :: x in r <==> 0 <= x < |row| && row[x] == 1
  {
    if row == [] then []
    else
      var front := Ones(row[..|row| - 1]);
      assert forall t :: 0 <= t < |front| ==> front[t] < |row| - 1 by {
        forall t | 0 <= t < |front| ensures front[t] < |row| - 1 { assert front[t] in front; }
      }
      front + (if row[|row| - 1] == 1 then [|row| - 1] else [])
  }

  datatype Shape = Shape(C: nat, col: seq<int>, rowIdx: seq<int>, m: seq<seq<int>>, rows: seq<seq<int>>)

  datatype Abs = Abs(live: seq<int>, cols: seq<seq<int>>)

  predicate IsNode(sh: Shape, n: int) {
    sh.C < n < |sh.col|
  }

  /** Row `r`'s nodes carry row index `r` and sit in the columns where row
      `r` of the input holds a 1, in increasing column order. */
  ghost predicate RowOk(sh: Shape, r: int)
    requires 0 <= r < |sh.rows| && r < |sh.m| && |sh.rowIdx| == |sh.col|
  {
    |sh.rows[r]| == |Ones(sh.m[r])|
    && forall i :: 0 <= i < |sh.rows[r]| ==>
         IsNode(sh, sh.rows[r][i]) && sh.rowIdx[sh.rows[r][i]] == r && sh.col[sh.rows[r][i]] == Ones(sh.m[r])[i]
  }

  ghost predicate ShapeOk(sh: Shape) {
    |sh.rowIdx| == |sh.col| > sh.C
    && |sh.rows| == |sh.m|
    && (forall r :: 0 <= r < |sh.m| ==> |sh.m[r]| == sh.C)
    && (forall r :: 0 <= r < |sh.rows| ==> RowOk(sh, r))
    && (forall n :: IsNode(sh, n) ==> 0 <= sh.rowIdx[n] < |sh.rows| && n in sh.rows[sh.rowIdx[n]])
  }

  predicate Increasing(xs: seq<int>) {
    forall i, j :: 0 <= i < j < |xs| ==> xs[i] < xs[j]
  }

  /** Every pointer field that is not `None` names an index of the arena:
      all `left`/`right` fields, and `up`/`down` of every header and node
      (the root is never in a column). */
  ghost predicate InArena(sh: Shape, s: Links) {
    |s.ud.prev| == |s.ud.next| == |s.lr.prev| == |s.lr.next| == |sh.col|
    && |s.size| == sh.C + 1
    && (forall i :: 0 <= i < |sh.col| && i != sh.C ==> Points(s.ud, i))
    && (forall i :: 0 <= i < |sh.col| ==> Points(s.lr, i))
  }

  /** The header ring reads `h, live..., h`, in increasing column order. */
  ghost predicate HeaderRing(sh: Shape, s: Links, live: seq<int>) {
    Ring(s.lr, sh.C, live) && Increasing(live)
    && forall t :: 0 <= t < |live| ==> 0 <= live[t] < sh.C
  }

  /** Every column, live or covered, is a ring through its header of nodes
      of that column, and its `size` is the length of that ring. */
  ghost predicate ColumnRings(sh: Shape, s: Links, cols: seq<seq<int>>) {
    |cols| == sh.C && |s.size| == sh.C + 1
    && forall x :: 0 <= x < sh.C ==>
         Ring(s.ud, x, cols[x]) && s.size[x] == |cols[x]|
         && forall n :: n in cols[x] ==> IsNode(sh, n) && sh.col[n] == x
  }

  /** Every row is a left/right cycle of its nodes. */
  ghost predicate RowCycles(sh: Shape, s: Links) {
    forall r :: 0 <= r < |sh.rows| ==> Cycle(s.lr, sh.rows[r])
  }

  /** A node linked into a live column belongs to a row all of whose nodes
      are linked into live columns. */
  ghost predicate Coherent(sh: Shape, a: Abs) {
    forall x, n, j ::
      x in a.live && 0 <= x < |a.cols| && n in a.cols[x] && 0 <= n < |sh.rowIdx|
      && 0 <= sh.rowIdx[n] < |sh.rows| && j in sh.rows[sh.rowIdx[n]]
      ==> 0 <= j < |sh.col| && sh.col[j] in a.live && 0 <= sh.col[j] < |a.cols| && j in a.cols[sh.col[j]]
  }

  ghost predicate Valid(sh: Shape, s: Links, a: Abs) {
    ShapeOk(sh) && InArena(sh, s) && HeaderRing(sh, s, a.live)
    && ColumnRings(sh, s, a.cols) && RowCycles(sh, s) && Coherent(sh, a)
  }

  /** The other nodes of `i`'s row, read rightwards from `i`: the nodes the
      inner loop of `cover` visits for `i`. */
  function Others(sh: Shape, i: int): seq<int> {
    if 0 <= i < |sh.rowIdx| && 0 <= sh.rowIdx[i] < |sh.rows| && i in sh.rows[sh.rowIdx[i]] then
      var xs := sh.rows[sh.rowIdx[i]];
      var p := IndexOf(xs, i);
      xs[p + 1..] + xs[..p]
    else []
  }

  /** The nodes `cover` unlinks, in order, when its column holds `ns`. */
  function Js(sh: Shape, ns: seq<int>): seq<int> {
    if ns == [] then [] else Others(sh, ns[0]) + Js(sh, ns[1..])
  }

  /** The nodes `uncover` relinks, in order, when its column holds `ns`:
      the column read upwards, each row read leftwards. */
  function Ks(sh: Shape, ns: seq<int>): seq<int> {
    if ns == [] then [] else Ks(sh, ns[1..]) + Reverse(Others(sh, ns[0]))
  }

  /** Column lists after node `j` is unlinked from its column. */
  function Drop(cols: seq<seq<int>>, col: seq<int>, j: int): (r: seq<seq<int>>)
    ensures |r| == |cols|
  {
    if 0 <= j < |col| && 0 <= col[j] < |cols| && j in cols[col[j]] then
      cols[col[j] := Without(cols[col[j]], IndexOf(cols[col[j]], j))]
    else cols
  }

  function DropAll(cols: seq<seq<int>>, col: seq<int>, js: seq<int>): (r: seq<seq<int>>)
    ensures |r| == |cols|
  {
    if js == [] then cols else Drop(DropAll(cols, col, js[..|js| - 1]), col, js[|js| - 1])
  }

  /** The abstract state after `cover(c)`. */
  function CoverAbs(sh: Shape, a: Abs, c: int): Abs {
    if c in a.live && 0 <= c < |a.cols| then
      Abs(Without(a.live, IndexOf(a.live, c)), DropAll(a.cols, sh.col, Js(sh, a.cols[c])))
    else a
  }

  /** `cover(c)` on a snapshot, with the node order its loops follow. */
  function AfterCover(sh: Shape, s: Links, a: Abs, c: int): Links
    requires 0 <= c < |a.cols|
  {
    CoverF(s, sh.col, c, Js(sh, a.cols[c]))
  }
}
