/** The one-hot encoding of a pair of coordinates that the Sudoku glue uses
    to build the rows of the exact-cover matrix (`constraintList`), and its
    decoding (`unpackList`). `N` is the side of the grid, a global of the
    program, here a parameter. */
module Constraints {
  import opened Solving

  /** Python's `[0] * n`: `n` zeros, none when `n` is not positive. */
  function Zeros(n: int): (z: seq<int>)
    ensures |z| == if n > 0 then n else 0
    ensures forall i :: 0 <= i < |z| ==> z[i] == 0
  {
    if n > 0 then seq(n, _ => 0) else []
  }

  /** `constraintList(x, y)`: zeros with a single 1 at `x * N + y`. */
  function ConstraintList(N: nat, x: int, y: int): (l: seq<int>)
    ensures var p := if x * N + y > 0 then x * N + y else 0;
      p < |l| && l[p] == 1 && forall i :: 0 <= i < |l| && i != p ==> l[i] == 0
  {
    Zeros(x * N + y) + [1] + Zeros(N * N - (x * N + y) - 1)
  }

  /** `list.index(v)`: the first position holding `v`, or nothing (the
      `ValueError` of Python) when `v` does not occur. */
  function FirstIndex(l: seq<int>, v: int): (r: Option<nat>)
    ensures r.Some? ==> r.value < |l| && l[r.value] == v
                        && forall j :: 0 <= j < r.value ==> l[j] != v
    ensures r.None? <==> v !in l
  {
    if l == [] then None
    else if l[0] == v then Some(0)
    else match FirstIndex(l[1..], v)
      case None => None
      case Some(p) => Some(p + 1)
  }

  /** `unpackList(l)`: the position of the first 1, split into the quotient
      and the remainder by `N`. There is no result when `l` holds no 1 or
      when `N` is 0 (Python raises). `N` is never negative, so Python's
      floor division and modulo agree with Dafny's. */
  function UnpackList(N: nat, l: seq<int>): (r: Option<(int, int)>)
    ensures r.Some? <==> 1 in l && N > 0
    ensures r.Some? ==>
              var (q, m) := r.value;
              0 <= q && 0 <= m < N && q * N + m < |l| && l[q * N + m] == 1
              && forall j :: 0 <= j < q * N + m ==> l[j] != 1
  {
    match FirstIndex(l, 1)
      case None => None
      case Some(p) => if N == 0 then None else DivMod(p, N); Some((p / N, p % N))
  }

  /** Euclidean division by a positive `N` splits `p` into a quotient and
      a remainder below `N`. */
  lemma DivMod(p: nat, N: nat)
    requires N > 0
    ensures 0 <= p / N && 0 <= p % N < N && (p / N) * N + p % N == p
  {
  }

  /** `l` has length `N * N` and exactly one 1, at `pos`. */
  predicate OneHotAt(N: nat, l: seq<int>, pos: int) {
    |l| == N * N && 0 <= pos < |l|
    && forall i :: 0 <= i < |l| ==> l[i] == if i == pos then 1 else 0
  }

  /** Row `x` column `y` of an `N` by `N` grid has the index `x * N + y`
      in the row-major order, below `N * N`. */
  lemma CellIndex(N: nat, x: int, y: int)
    requires 0 <= x < N && 0 <= y < N
    ensures 0 <= x * N + y < N * N
  {
    assert x * N <= (N - 1) * N;
  }

  /** For coordinates inside the grid, `constraintList` is one-hot at the
      row-major index of the cell. */
  lemma ConstraintListOneHot(N: nat, x: int, y: int)
    requires 0 <= x < N && 0 <= y < N
    ensures OneHotAt(N, ConstraintList(N, x, y), x * N + y)
  {
    CellIndex(N, x, y);
    var pos := x * N + y;
    var l := ConstraintList(N, x, y);
    assert |l| == N * N;
    forall i | 0 <= i < |l| ensures l[i] == if i == pos then 1 else 0 {
      if i < pos {
        assert l[i] == Zeros(pos)[i];
      } else if i > pos {
        assert l[i] == Zeros(N * N - pos - 1)[i - pos - 1];
      }
    }
  }

  /** A one-hot list decodes to the quotient and remainder of its 1's
      position. */
  lemma UnpackOneHot(N: nat, l: seq<int>, pos: int)
    requires OneHotAt(N, l, pos)
    ensures UnpackList(N, l) == Some((pos / N, pos % N))
  {
    assert l[pos] == 1;
    var r := FirstIndex(l, 1);
    assert r.Some? && r.value == pos;
  }

  /** Multiplying by `N` keeps the order. */
  lemma {:induction false} MulMono(a: nat, b: nat, N: nat)
    requires a <= b
    ensures a * N <= b * N
  {
    if a < b {
      MulMono(a, b - 1, N);
      assert b * N == (b - 1) * N + N;
    }
  }

  /** Division of `x * N + y` by `N` gives back `x` and `y`. */
  lemma DivModCell(N: nat, x: int, y: int)
    requires 0 <= x < N && 0 <= y < N
    ensures (x * N + y) / N == x && (x * N + y) % N == y
  {
    var p := x * N + y;
    var q, r := p / N, p % N;
    assert p == q * N + r && 0 <= r < N;
    if q > x {
      MulMono(x + 1, q, N);
    } else if q < x {
      MulMono(q + 1, x, N);
    }
  }

  /** `unpackList(constraintList(x, y)) == (x, y)` for every cell of the
      grid. */
  lemma UnpackConstraintList(N: nat, x: int, y: int)
    requires 0 <= x < N && 0 <= y < N
    ensures UnpackList(N, ConstraintList(N, x, y)) == Some((x, y))
  {
    ConstraintListOneHot(N, x, y);
    UnpackOneHot(N, ConstraintList(N, x, y), x * N + y);
    DivModCell(N, x, y);
  }

  /** The other way round: every one-hot list of length `N * N` is the
      `constraintList` of the cell it decodes to. */
  lemma ConstraintListOfUnpack(N: nat, l: seq<int>, pos: int)
    requires OneHotAt(N, l, pos)
    ensures UnpackList(N, l).Some?
    ensures var (x, y) := UnpackList(N, l).value;
      0 <= x < N && 0 <= y < N && ConstraintList(N, x, y) == l
  {
    UnpackOneHot(N, l, pos);
    var x, y := pos / N, pos % N;
    assert pos == x * N + y;
    assert 0 <= x < N by {
      if x >= N {
        MulMono(N, x, N);
      }
    }
    ConstraintListOneHot(N, x, y);
    var l' := ConstraintList(N, x, y);
    assert |l'| == |l|;
    forall i | 0 <= i < |l| ensures l'[i] == l[i] {
    }
  }
}
