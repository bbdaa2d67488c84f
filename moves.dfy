/** The moves of `cover` and `uncover` on a snapshot of the whole arena.

    A `Links` value holds the `up`/`down` pointers (`ud`), the
    `left`/`right` pointers (`lr`) and the column `size` counters. Covering
    a column takes its header out of the header ring and then removes the
    nodes `js` from their columns one after the other; uncovering relinks
    nodes in a given order and then puts the header back. The main result,
    `CoverUncover`, is that uncovering the reverse of the removed nodes gives
    back the snapshot exactly. */
module Moves {
  import opened Rings

  datatype Links = Links(ud: Ptrs, lr: Ptrs, size: seq<int>)

  /** `j.column.size += d`. */
  function Bump(size: seq<int>, col: seq<int>, j: int, d: int): (r: seq<int>)
    ensures |r| == |size|
  {
    if 0 <= j < |col| && 0 <= col[j] < |size| then size[col[j] := size[col[j]] + d] else size
  }

  /** The inner step of `cover`: unlink `j` vertically and decrement the
      size of its column. */
  function Remove(s: Links, col: seq<int>, j: int): Links {
    Links(Unlink(s.ud, j), s.lr, Bump(s.size, col, j, -1))
  }

  /** The inner step of `uncover`: increment the size of `j`'s column and
      relink `j` vertically. */
  function Restore(s: Links, col: seq<int>, j: int): Links {
    Links(Relink(s.ud, j), s.lr, Bump(s.size, col, j, 1))
  }

  /** `Remove` applied to `js` from first to last. */
  function RemoveAll(s: Links, col: seq<int>, js: seq<int>): (r: Links)
    ensures r.lr == s.lr
  {
    if js == [] then s else Remove(RemoveAll(s, col, js[..|js| - 1]), col, js[|js| - 1])
  }

  /** `Restore` applied to `ks` from first to last. */
  function RestoreAll(s: Links, col: seq<int>, ks: seq<int>): (r: Links)
    ensures r.lr == s.lr
  {
    if ks == [] then s else Restore(RestoreAll(s, col, ks[..|ks| - 1]), col, ks[|ks| - 1])
  }

  /** The number of nodes of `js` in column `x`. */
  function InColumn(col: seq<int>, js: seq<int>, x: int): (n: nat)
    ensures n <= |js|
  {
    if js == [] then 0
    else InColumn(col, js[..|js| - 1], x) + (if 0 <= js[|js| - 1] < |col| && col[js[|js| - 1]] == x then 1 else 0)
  }

  /** Removals keep one counter per column. */
  lemma {:induction false} RemoveAllLength(s: Links, col: seq<int>, js: seq<int>)
    ensures |RemoveAll(s, col, js).size| == |s.size|
  {
    if js != [] {
      RemoveAllLength(s, col, js[..|js| - 1]);
    }
  }

  /** Each removal decrements the size of the removed node's column, so
      column `x` loses one for every node of `js` in it. */
  lemma {:induction false} RemoveAllSizes(s: Links, col: seq<int>, js: seq<int>, x: int)
    requires 0 <= x < |s.size|
    ensures |RemoveAll(s, col, js).size| == |s.size|
    ensures RemoveAll(s, col, js).size[x] == s.size[x] - InColumn(col, js, x)
  {
    RemoveAllLength(s, col, js);
    if js != [] {
      RemoveAllSizes(s, col, js[..|js| - 1], x);
    }
  }

  /** `cover(c)` when the nodes reached by its two loops are `js`. */
  function CoverF(s: Links, col: seq<int>, c: int, js: seq<int>): Links {
    RemoveAll(s.(lr := Unlink(s.lr, c)), col, js)
  }

  /** `uncover(c)` when the nodes reached by its two loops are `ks`. */
  function UncoverF(s: Links, col: seq<int>, c: int, ks: seq<int>): Links {
    var t := RestoreAll(s, col, ks);
    t.(lr := Relink(t.lr, c))
  }

  /** `j` is linked in its column and its column has a counter. */
  predicate Removable(s: Links, col: seq<int>, j: int) {
    Linked(s.ud, j) && 0 <= j < |col| && 0 <= col[j] < |s.size|
  }

  lemma RestoreRemove(s: Links, col: seq<int>, j: int)
    requires Removable(s, col, j)
    ensures Restore(Remove(s, col, j), col, j) == s
  {
    RelinkUnlink(s.ud, j);
    var t := Remove(s, col, j);
    assert t.size[col[j]] == s.size[col[j]] - 1;
    assert Restore(t, col, j).size == s.size;
  }

  lemma RemoveKeepsRemovable(s: Links, col: seq<int>, j: int, x: int)
    requires Removable(s, col, j) && Removable(s, col, x) && x != j
    ensures Removable(Remove(s, col, j), col, x)
  {
    UnlinkKeepsLinked(s.ud, j, x);
  }

  lemma {:induction false} RemoveAllKeepsRemovable(s: Links, col: seq<int>, js: seq<int>, x: int)
    requires Distinct(js)
    requires forall j :: j in js ==> Removable(s, col, j)
    requires Removable(s, col, x) && x !in js
    ensures Removable(RemoveAll(s, col, js), col, x)
  {
    if js != [] {
      var n := |js| - 1;
      assert js == js[..n] + [js[n]];
      assert js[n] !in js[..n];
      RemoveAllKeepsRemovable(s, col, js[..n], x);
      RemoveAllKeepsRemovable(s, col, js[..n], js[n]);
      RemoveKeepsRemovable(RemoveAll(s, col, js[..n]), col, js[n], x);
    }
  }

  lemma {:induction false} RestoreAllCons(s: Links, col: seq<int>, j: int, ks: seq<int>)
    ensures RestoreAll(s, col, [j] + ks) == RestoreAll(Restore(s, col, j), col, ks)
  {
    if ks != [] {
      var n := |ks| - 1;
      assert ([j] + ks)[..n + 1] == [j] + ks[..n];
      RestoreAllCons(s, col, j, ks[..n]);
    } else {
      assert ([j] + ks)[..0] == [];
    }
  }

  /** Restoring the removed nodes in reverse order undoes the removals. */
  lemma {:induction false} RestoreAllRemoveAll(s: Links, col: seq<int>, js: seq<int>)
    requires Distinct(js)
    requires forall j :: j in js ==> Removable(s, col, j)
    ensures RestoreAll(RemoveAll(s, col, js), col, Reverse(js)) == s
  {
    if js != [] {
      var n := |js| - 1;
      var front := js[..n];
      assert js == front + [js[n]];
      assert js[n] !in front;
      ReverseAppend(front, [js[n]]);
      assert Reverse(js) == [js[n]] + Reverse(front);
      var mid := RemoveAll(s, col, front);
      RemoveAllKeepsRemovable(s, col, front, js[n]);
      RestoreAllCons(Remove(mid, col, js[n]), col, js[n], Reverse(front));
      RestoreRemove(mid, col, js[n]);
      RestoreAllRemoveAll(s, col, front);
    }
  }

  /** `uncover(c)` right after `cover(c)` restores every pointer and every
      size, provided the header and the removed nodes were linked and no node
      is removed twice. */
  lemma CoverUncover(s: Links, col: seq<int>, c: int, js: seq<int>)
    requires Linked(s.lr, c)
    requires Distinct(js)
    requires forall j :: j in js ==> Removable(s, col, j)
    ensures UncoverF(CoverF(s, col, c, js), col, c, Reverse(js)) == s
  {
    var h := s.(lr := Unlink(s.lr, c));
    RestoreAllRemoveAll(h, col, js);
    RelinkUnlink(s.lr, c);
  }

  /** Unlinking `j` leaves `j`'s own pointers as they were, unless `j` was
      its own neighbour. */
  lemma RemoveKeepsOwn(s: Links, col: seq<int>, j: int)
    requires Points(s.ud, j) && s.ud.next[j] != j && s.ud.prev[j] != j
    ensures Remove(s, col, j).ud.next[j] == s.ud.next[j]
    ensures Remove(s, col, j).ud.prev[j] == s.ud.prev[j]
  {
  }

  /** After unlinking `j`, relinking it is possible and undoes the unlink. */
  lemma RemoveThenRestore(s: Links, col: seq<int>, j: int)
    requires Removable(s, col, j) && s.ud.next[j] != j && s.ud.prev[j] != j
    ensures var t := Remove(s, col, j);
      Points(t.ud, j) && t.ud.next[j] != j && t.ud.prev[j] != j
      && |t.ud.prev| == |s.ud.prev| && 0 <= col[j] < |t.size|
      && Restore(t, col, j) == s
  {
    RemoveKeepsOwn(s, col, j);
    RestoreRemove(s, col, j);
  }
}
