/** How a table paragraph is cut into cells: one half-open range per consecutive pair of
    boundary positions, filled row-major, each cell taking the fragments whose embedded
    marker falls in its range. */
module TileTable {
  import opened EditorTypes

  /** The TABLE_SEPARATOR property of a fragment, -1 when it has none. */
  function Marker(n: Node): int {
    match n.tableMarker
    case Some(p) => p
    case None => -1
  }

  /** The fragments of the cell [lo, hi), in document order. */
  function CellFragments(fragments: seq<Node>, lo: int, hi: int): (r: seq<Node>)
    ensures forall n :: n in r <==> n in fragments && lo <= Marker(n) < hi
    ensures |r| <= |fragments|
  {
    if fragments == [] then []
    else
      var rest := CellFragments(fragments[1..], lo, hi);
      if lo <= Marker(fragments[0]) < hi then [fragments[0]] + rest else rest
  }

  /** A cell's fragments keep the document order: filtering works piece by piece. */
  lemma {:induction false} CellFragmentsAppend(a: seq<Node>, b: seq<Node>, lo: int, hi: int)
    ensures CellFragments(a + b, lo, hi) == CellFragments(a, lo, hi) + CellFragments(b, lo, hi)
  {
    if a != [] {
      assert (a + b)[0] == a[0];
      assert (a + b)[1..] == a[1..] + b;
      CellFragmentsAppend(a[1..], b, lo, hi);
    } else {
      assert a + b == b;
    }
  }

  /** One fragment: kept exactly when its marker lies in the cell's range. */
  lemma CellFragmentsSingle(n: Node, lo: int, hi: int)
    ensures CellFragments([n], lo, hi) == if lo <= Marker(n) < hi then [n] else []
  {
    assert [n][1..] == [];
  }

  /** The number of cells the grid build creates: rows * columns, but never more than the
      position list describes (one fewer than its length). */
  function CellCount(rows: int, columns: int, positionCount: nat): (n: nat)
    ensures n <= Max(positionCount - 1, 0)
    ensures rows > 0 && columns > 0 ==> n == Min(rows * columns, Max(positionCount - 1, 0))
    ensures rows <= 0 || columns <= 0 ==> n == 0
  {
    if rows <= 0 || columns <= 0 then 0 else Min(rows * columns, Max(positionCount - 1, 0))
  }

  ghost predicate NonDecreasing(positions: seq<int>) {
    forall i, j :: 0 <= i < j < |positions| ==> positions[i] <= positions[j]
  }

  /** With non-decreasing boundaries, a fragment belongs to at most one cell. */
  lemma {:induction false} AtMostOneCell(fragments: seq<Node>, positions: seq<int>, n: Node, k1: int, k2: int)
    requires NonDecreasing(positions)
    requires 0 <= k1 < k2 && k2 + 1 < |positions|
    requires n in CellFragments(fragments, positions[k1], positions[k1 + 1])
    ensures n !in CellFragments(fragments, positions[k2], positions[k2 + 1])
  {
    assert positions[k1 + 1] <= positions[k2];
  }

  /** With non-decreasing boundaries, a fragment whose marker lies between the first and
      the last boundary belongs to some cell; returns that cell. */
  lemma {:induction false} SomeCell(fragments: seq<Node>, positions: seq<int>, n: Node) returns (k: int)
    requires NonDecreasing(positions)
    requires n in fragments && |positions| >= 2
    requires positions[0] <= Marker(n) < positions[|positions| - 1]
    ensures 0 <= k && k + 1 < |positions|
    ensures n in CellFragments(fragments, positions[k], positions[k + 1])
    decreases |positions|
  {
    if Marker(n) < positions[1] {
      k := 0;
    } else {
      var tail := positions[1..];
      assert NonDecreasing(tail) by {
        forall i, j | 0 <= i < j < |tail| ensures tail[i] <= tail[j] {
          assert tail[i] == positions[i + 1] && tail[j] == positions[j + 1];
        }
      }
      var k' := SomeCell(fragments, tail, n);
      k := k' + 1;
      assert positions[k] == tail[k'] && positions[k + 1] == tail[k' + 1];
    }
  }

  /** A fragment whose marker lies outside the boundary list (including one without a
      marker, read as -1) belongs to no cell. */
  lemma MalformedMarkerInNoCell(fragments: seq<Node>, positions: seq<int>, n: Node, k: int)
    requires NonDecreasing(positions) && |positions| >= 1
    requires Marker(n) < positions[0] || positions[|positions| - 1] <= Marker(n)
    requires 0 <= k && k + 1 < |positions|
    ensures n !in CellFragments(fragments, positions[k], positions[k + 1])
  {
    assert positions[0] <= positions[k] && positions[k + 1] <= positions[|positions| - 1];
  }
}
