# Dancing Links exact-cover engine, modelled in Dafny

`dlx.py` solves Sudoku by turning the puzzle into an exact-cover matrix.
It then runs Knuth's Algorithm X over that matrix, stored as a toroidal
doubly linked list ("Dancing Links"). This project models the engine:

- the `Node`/`ColumnNode` records;
- the construction of the linked matrix (`Matrix.__init__`);
- `cover` and `uncover`;
- the `DancingLinks` class with `choose_column_object` and the recursive
  `search`;
- the one-hot helpers `constraintList` and `unpackList`.

Layout of the model:

- **Arena.** The records live in an arena. Indices `0 .. C-1` are the column
  headers (`columnList`), index `C` is the root `h`, and one node follows for
  every 1-cell of the input, row by row, left to right (the key order of
  `nodeDict`). `up`, `down`, `left` and `right` are the integer arrays `U`,
  `D`, `L` and `R`; `None` is `-1`. `size` holds the column counters, and
  `node.column` and `node.rowIdx` are the fixed sequences `col` and `rowIdx`.
- **Classes.** `Matrix` and `DancingLinks` are classes whose methods update
  these arrays in place, loop by loop as the source does.
- **Snapshots.** A `Links` value is a snapshot of the pointer arrays and the
  sizes. `Moves.CoverF` and `Moves.UncoverF` describe what `cover` and
  `uncover` do to a snapshot.
- **Abstract state.** An `Abs` value is the ghost reading of the structure:
  the live headers in ring order, and the nodes currently linked into each
  column. `Dlx.Valid` ties a snapshot to an `Abs` value. It requires:
  - a header ring in increasing column order;
  - every column a ring through its header, with `size` equal to its length;
  - every row a left/right cycle;
  - every node of a live column belonging to a row whose nodes are all in
    live columns.
- **What is proved.**
  - Construction produces the pointers described by `Build.Built`, which
    satisfy `Valid` when every column holds a 1.
  - `cover` keeps `Valid`, and `uncover` right after `cover` restores every
    pointer and size.
  - `choose_column_object` picks the first live column of smallest size.
  - When `search` returns a buffer, the source rows of the nodes written
    from depth `k` on cover every column live at depth `k` exactly once.
  - When `search` fails, every pointer and size is back as it was.
  - `search` fails whenever a live column holds no node.

The model is faithful to two quirks of the source, and the contracts state
them explicitly:

- **A column without a 1 keeps `up`/`down` as `None`** (the column loop
  of `__init__` only visits columns that occur in `nodeDict`). `cover` of
  such a column would dereference `None`, so `Valid`, and with it
  `search`, require every column to hold a 1 (`Build.NoEmptyColumn`).
- **`search` returns the whole buffer `self.s`**, not the solution's
  prefix. Its results are stated as `found.value == s[..]`, and the
  solution is the slice `s[k..d)` for a ghost depth `d`.

## Model

| member | source | states |
|---|---|---|
| Dlx.Ones | dlx.py:75 | the column indices of a row's 1-cells, strictly increasing, and exactly the columns holding a 1 (`sorted(set(...))`) |
| Build.RowsWith | dlx.py:95 | the rows holding a 1 in a column, strictly increasing, and exactly those rows |
| Matrices.Matrix.constructor | dlx.py:46-116 | builds the arena of `Build.Built`: header ring `h, 0, ..., C-1, h`, every row a left/right cycle of its nodes, every column with a 1 an up/down ring through its header with `size` its count, every other column and the root with `size` 0 and `up`/`down` `None` |
| Matrices.LinkHeaders | dlx.py:57-69 | after the header loop, `right[i]` is `i+1` (the root's is header 0) and `left[i]` is `i-1` (header 0's is the root), and no node is touched |
| Matrices.LinkRows | dlx.py:71-89 | every row of the input becomes a left/right cycle of its nodes, and no header is touched |
| Matrices.LinkRow | dlx.py:75-89 | one row's nodes form a left/right cycle in column order, and no other record changes |
| Matrices.LinkRowStep | dlx.py:83-84 | `prev.right = current; current.left = prev` extends the linked prefix of the row by one node and touches nothing outside the row |
| Matrices.CloseRow | dlx.py:88-89 | linking the last node to the first closes the row's chain into a left/right cycle, and nothing outside the row changes |
| Matrices.LinkColumns | dlx.py:91-116 | every column with a 1 becomes an up/down ring through its header of its nodes top to bottom, with `size` the number of nodes; a column without a 1 keeps `up`/`down` `None` and `size` 0 |
| Matrices.VisitColumn | dlx.py:93-116 | one pass of the column loop extends the linked prefix of columns by one, visiting only columns that hold a 1 |
| Matrices.LinkColumn | dlx.py:95-116 | a column with a 1 becomes a ring through its header, and `size` is set to its node count |
| Matrices.LinkColumnNodes | dlx.py:100-116 | the column's nodes are linked each below the previous one and closed through the header into a ring; nothing outside the column changes |
| Matrices.LinkColumnStep | dlx.py:107-108 | `prev.down = current; current.up = prev` extends the linked prefix of the column by one node and touches nothing outside the column |
| Matrices.CloseColumn | dlx.py:112-116 | linking the header above the first node and below the last closes the column's chain into a ring |
| Build.BuiltNodes | dlx.py:55 | there is exactly one node per 1-cell, and it carries that cell's row (`rowIdx`) and column (`column`) |
| Build.BuiltRow | dlx.py:73-89 | a row's nodes carry that row's index and sit in that row's 1-columns, in increasing order |
| Build.BuiltShape | dlx.py:55-89 | the fixed part of the built matrix (node columns, row indices, row node lists) is consistent for every row and node |
| Build.BuiltHeaderRing | dlx.py:57-69 | the built header ring reads `h, 0, 1, ..., C-1, h` and every header is linked both ways |
| Build.BuiltColumns | dlx.py:91-116 | when every column holds a 1, every column is an up/down ring of exactly its nodes, each of that column, with `size` equal to the ring's length |
| Build.BuiltInArena | dlx.py:46-116 | when every column holds a 1, every left/right pointer and every up/down pointer of headers and nodes names a record of the arena |
| Build.BuiltCoherent | dlx.py:73-116 | a node of a live column lies in a row all of whose nodes are in live columns |
| Build.BuiltValid | dlx.py:46-116 | the structure built from a matrix whose every column holds a 1 satisfies the invariant, with all columns live in index order |
| Matrices.Matrix.Cover | dlx.py:118-138 | `cover(c)` of a live column leaves exactly the snapshot `AfterCover`, and the invariant holds with `c` removed from the ring and every row meeting `c` removed from its other columns; every column's `size` drops by the number of nodes, other than those in `c`, of the rows of `c` lying in it (so `c`'s own `size` is unchanged) |
| Covering.CoverSizes | dlx.py:124-138 | after `cover(c)`, the `size` of each column is its old size minus the number of nodes, other than those in `c`, of the rows of `c` lying in that column |
| Moves.RemoveAllSizes | dlx.py:132-134 | removing a sequence of nodes one after the other decrements each column's `size` once per removed node in that column |
| Matrices.Matrix.HideHeader | dlx.py:122-123 | `c.right.left = c.left; c.left.right = c.right` unlinks `c` from the header ring and changes nothing else |
| Matrices.Matrix.HideColumn | dlx.py:124-138 | the outer loop of `cover` unlinks the other nodes of every row of `c`, column top to bottom, each row rightwards |
| Matrices.Matrix.HideRow | dlx.py:128-136 | the inner loop unlinks the other nodes of the row of `i` from their columns, and ends with `i.down` the next row of `c` or `c` itself |
| Matrices.Matrix.HideOne | dlx.py:130-136 | one pass of `cover`'s inner loop unlinks the next node of the row, extending the removed sequence by that node, and steps to `j.right` (the row's start after its last node) |
| Matrices.Matrix.HideNode | dlx.py:132-134 | one inner step unlinks `j` vertically and decrements its column's size |
| Matrices.Matrix.Uncover | dlx.py:140-162 | `uncover(c)` on the state `cover(c)` left restores every pointer and every size exactly |
| Matrices.Matrix.UnhideColumn | dlx.py:144-159 | the two loops of `uncover` relink every row of `c`, column bottom to top, each row leftwards, leaving only `c` out of the header ring |
| Matrices.Matrix.UnhideRow | dlx.py:148-157 | the inner loop relinks the other nodes of the row of `i`, and ends with `i.up` the row above or `c` |
| Matrices.Matrix.UnhideOne | dlx.py:150-157 | one pass of `uncover`'s inner loop relinks the last removed node of the row, shortening the removed sequence by that node, and steps to `j.left` |
| Matrices.Matrix.UnhideNode | dlx.py:152-155 | one inner step increments `j`'s column size and relinks `j` vertically |
| Matrices.Matrix.UnhideHeader | dlx.py:161-162 | `c.right.left = c; c.left.right = c` relinks `c` into the header ring |
| Covering.CoverKeepsValid | dlx.py:118-138 | `cover` of a live column keeps the invariant; the live columns lose exactly `c`, and every column loses exactly the nodes of the rows meeting `c` |
| Covering.CoverThenUncover | dlx.py:118-162 | for any valid state and live column, `uncover` after `cover` gives back the state, pointer for pointer and size for size |
| Moves.CoverUncover | dlx.py:118-162 | uncovering the removed nodes in reverse order and relinking the header undoes `cover`, when no node is removed twice |
| Moves.RestoreAllRemoveAll | dlx.py:126-159 | relinking nodes in the reverse order of their unlinking restores the pointers and sizes |
| Moves.RestoreRemove | dlx.py:132-155 | relinking a node right after unlinking it, with the size increment, undoes the unlink and the decrement |
| Solver.DancingLinks.constructor | dlx.py:166-170 | the solver holds the matrix and its root, and a buffer of one 0 per column |
| Solver.DancingLinks.MostConstrained | dlx.py:177-186 | the scan of the header ring ends on the first live column of smallest size, since only a strictly smaller size replaces `ideal` |
| Solving.FirstMinEmpty | dlx.py:177-190 | when some live column holds no node, the first smallest live column, which `choose_column_object` returns, holds none either |
| Solving.LeastSoFarStep | dlx.py:182-184 | one step of the running minimum with strict `<` keeps the first position of the smallest size read so far |
| Solver.DancingLinks.ChooseColumnObject | dlx.py:172-190 | returns the first live column of smallest size, and leaves the structure covered on it, valid for the remaining columns |
| Solver.DancingLinks.Search | dlx.py:192-235 | the buffer below depth `k` is untouched; when no column is live (`h.right == h`) the result is the buffer as it was, with `d == k`; when some live column holds no node, the search fails; on failure every pointer and size is restored; on success the result is the whole buffer and the rows of its nodes from `k` to some `d` are an exact cover of the columns live on entry |
| Solver.DancingLinks.SearchColumn | dlx.py:202-235 | trying the rows of the chosen column in turn and uncovering after each failure ends, on failure, in the state before the column was chosen; on success it yields an exact cover; when the chosen column holds no node, the row loop is skipped and the result is a failure |
| Solver.DancingLinks.TryRow | dlx.py:207-219 | `s[k] = r`, covering the row's other columns and searching deeper yields an exact cover from `k`, or leaves the state with the row's columns covered |
| Solver.DancingLinks.CoverRow | dlx.py:209-215 | covering the other columns of the row, left to right, yields the snapshot of covering them one after the other |
| Solver.DancingLinks.CoverNext | dlx.py:211-215 | one pass covers the column of the next node rightwards and steps to `j.right` |
| Solver.DancingLinks.UncoverRow | dlx.py:223-231 | uncovering the row's other columns right to left restores the state right after the chosen column was covered |
| Solver.DancingLinks.UncoverNext | dlx.py:227-231 | one pass uncovers the column of the next node leftwards and steps to `j.left` |
| Solving.RowColumns | dlx.py:209-215 | the columns of the other nodes of a row in the chosen column are distinct, live and not the chosen one, and together with it they are exactly the row's 1-columns |
| Solving.CoverColsValid | dlx.py:211-215 | covering distinct live columns one after the other keeps the invariant, and removes exactly those columns from the live set |
| Solving.RowLeavesLive | dlx.py:209-215 | after covering the chosen column and the row's other columns, the live columns are exactly those the row does not hit |
| Solving.CoverExtend | dlx.py:207-219 | a row meeting only live columns, followed by an exact cover of what it leaves, is an exact cover of all live columns |
| Solving.TakeRow | dlx.py:207-219 | the node chosen at depth `k`, followed by an exact cover found one level deeper, is an exact cover at depth `k` |
| Solving.ExactCoverDisjoint | dlx.py:192-219 | no two rows of an exact cover share a 1 |
| Solver.Solve | dlx.py:292 | `DancingLinks(Matrix(m)).search(0)` on a matrix whose every column holds a 1: any result holds one slot per column, and the rows of its first `d` nodes cover every column exactly once |
| Constraints.ConstraintList | dlx.py:245 | `constraintList(x, y)`: a single 1 at `x*N+y` (at 0 when that is negative, as Python's `[0] * n` is empty for `n <= 0`) and 0 everywhere else |
| Constraints.UnpackList | dlx.py:249 | `unpackList(l)`: a result exactly when `l` holds a 1 and `N > 0`; the pair `(q, m)` has `0 <= m < N` and locates the first 1 of `l` at `q*N+m` |
| Constraints.FirstIndex | dlx.py:249 | `list.index(v)`: the first position holding `v`, or none exactly when `v` does not occur |
| Constraints.ConstraintListOneHot | dlx.py:245 | for `0 <= x, y < N`, `constraintList(x, y)` has length `N*N`, a 1 at `x*N+y` and 0 everywhere else |
| Constraints.UnpackOneHot | dlx.py:249 | a one-hot list decodes to the quotient and remainder of its 1's position by `N` |
| Constraints.DivModCell | dlx.py:249 | `(x*N+y) // N == x` and `(x*N+y) % N == y` for a cell of the grid |
| Constraints.UnpackConstraintList | dlx.py:245-249 | `unpackList(constraintList(x, y)) == (x, y)` for every cell |
| Constraints.ConstraintListOfUnpack | dlx.py:245-249 | every one-hot list of length `N*N` is the `constraintList` of the cell it decodes to |

## Left out

- Reading the puzzle file, `setGlobals`, `checkSum`, `main`, timing and
  printing are I/O and reporting around the engine.
- `compute`, which encodes the Sudoku grid as rows of four
  `constraintList`s and decodes the chosen rows back into a grid, is
  puzzle-specific glue. Only its one-hot helpers and its call
  `DancingLinks(Matrix(dlinks)).search(0)` (`Solver.Solve`) are modelled.
  Its filter `node != 0` keeps every buffer slot ever written. For a
  general matrix, that can include nodes left from failed deeper branches
  past the solution's depth `d`. For Sudoku, no slot past `d` is ever
  written: every row of the encoding holds exactly four 1s, so at depth `k`
  there are `4N² − 4k` live columns, and `s[k]` is written only while
  `k < N² = d`.
- Solver.DancingLinks.Search: completeness is not stated. The model proves that any
  returned solution is exact and that a failure restores the structure,
  not that failure implies no exact cover exists.
- Solver.DancingLinks.Search, Build.BuiltValid: require every column to hold a 1
  (`NoEmptyColumn`). In the source, `cover` of a column without a 1
  dereferences `None` (its header's `down` stays `None`), so the source
  does not handle that input either.
- Matrices.Matrix.constructor: requires a non-empty list of rows of equal
  length (`Rect`). The source reads `rows[0]` and then only the first
  `len(rows[0])` entries of every row, so it also accepts longer rows and
  fails on shorter ones.
- Matrices.Matrix.constructor: sets `node.column` when the node is numbered,
  not in the column loop. The value is the same, since a node always lies
  in the column of its own cell.
- Node identity: Python objects are modelled as arena indices. The buffer's
  placeholder `0` is header 0, never a node, so it cannot be mistaken for a
  node written by `search`.
- The tuple of `unpackList` is the pair `(quotient, remainder)`. A list with
  no 1, and `N == 0`, raise in Python; both give no result in the model.
  `N` is the square root of the puzzle length, so it is never negative and
  Python's floor division agrees with Dafny's.
