/**
 * The two neighbourhood providers: the one-hop neighbourhood of a node in an
 * adjacency-list graph (`get_1_neighbours`), and the L1 ball of radius c on a
 * grid graph whose nodes are numbered row by row (`get_c_neighbours`). The
 * grid provider never looks at the graph's edges, only at the grid's
 * dimensions: `right + 1` columns and `upper + 1` rows.
 */
module Neighbourhoods {
  import opened Vectors

  /** `get_1_neighbours(graph, i)`: the out-neighbours of `i`, in the graph's order, then `i` itself. */
  function Get1Neighbours(graph: seq<seq<nat>>, i: nat): (r: seq<nat>)
    requires i < |graph|
    ensures |r| == |graph[i]| + 1
    ensures r[..|graph[i]|] == graph[i] && r[|graph[i]|] == i
    ensures forall j :: j in r <==> j == i || j in graph[i]
  {
    graph[i] + [i]
  }

  /** Row-major coordinate (x, y) of node `i` on a grid `right + 1` columns wide. */
  function GridCoord(i: nat, right: nat): (xy: (nat, nat))
    ensures xy.0 <= right
    ensures xy.1 * (right + 1) + xy.0 == i
  {
    (i % (right + 1), i / (right + 1))
  }

  lemma MulLe(a: nat, b: nat, w: nat)
    requires a <= b
    ensures a * w <= b * w
  {
    assert b * w == a * w + (b - a) * w;
  }

  lemma RowGap(y: nat, y': nat, w: nat)
    requires y < y'
    ensures y * w + w <= y' * w
  {
    MulLe(y + 1, y', w);
    assert (y + 1) * w == y * w + w;
  }

  /** Rows are `right + 1` apart: a row-major index determines its column and row. */
  lemma RowMajorUnique(x: nat, y: nat, x': nat, y': nat, right: nat)
    requires x <= right && x' <= right
    requires y * (right + 1) + x == y' * (right + 1) + x'
    ensures x == x' && y == y'
  {
    if y < y' {
      RowGap(y, y', right + 1);
      assert false;
    } else if y' < y {
      RowGap(y', y, right + 1);
      assert false;
    }
  }

  /** A node index lies in the first `upper + 1` rows iff it is below (upper + 1) * (right + 1). */
  lemma RowInGrid(j: nat, upper: nat, right: nat)
    ensures GridCoord(j, right).1 <= upper <==> j < (upper + 1) * (right + 1)
  {
    var y := GridCoord(j, right).1;
    assert (upper + 1) * (right + 1) == upper * (right + 1) + (right + 1);
    if y <= upper {
      MulLe(y, upper, right + 1);
    } else {
      MulLe(upper + 1, y, right + 1);
    }
  }

  /** The node at in-grid column `x` and row `y`: `y * (right + 1) + x`. */
  function NodeIndex(x: nat, y: nat, right: nat): (i: nat)
    requires x <= right
    ensures GridCoord(i, right) == (x, y)
  {
    var i := y * (right + 1) + x;
    RowMajorUnique(x, y, GridCoord(i, right).0, GridCoord(i, right).1, right);
    i
  }

  function Abs(v: int): nat {
    if v < 0 then -v else v
  }

  /**
   * The filter of `get_c_neighbours`: coordinate (cx, cy) is within L1
   * distance `c` of (x, y) and inside [0, right] x [0, upper].
   */
  predicate InDisc(cx: int, cy: int, x: int, y: int, c: int, upper: nat, right: nat) {
    && Abs(cx - x) + Abs(cy - y) <= c
    && cx <= right
    && cy <= upper
    && cx >= 0
    && cy >= 0
  }

  /** Coordinates in x-major order: ascending in x, and in y where x is equal. */
  predicate LexLess(a: (int, int), b: (int, int)) {
    a.0 < b.0 || (a.0 == b.0 && a.1 < b.1)
  }

  predicate LexSorted(s: seq<(int, int)>) {
    forall k, l :: 0 <= k < l < |s| ==> LexLess(s[k], s[l])
  }

  predicate StrictlyIncreasing(s: seq<int>) {
    forall k, l :: 0 <= k < l < |s| ==> s[k] < s[l]
  }

  /** The pairs (a, ys[0]), (a, ys[1]), ...: one row of `product`. */
  function Row(a: int, ys: seq<int>): (r: seq<(int, int)>)
    ensures |r| == |ys|
    ensures forall k :: 0 <= k < |ys| ==> r[k] == (a, ys[k])
  {
    seq(|ys|, k requires 0 <= k < |ys| => (a, ys[k]))
  }

  /** `list(product(xs, ys))`: every pair, with `xs` outer and `ys` inner. */
  function Product(xs: seq<int>, ys: seq<int>): (r: seq<(int, int)>)
    ensures |r| == |xs| * |ys|
  {
    if xs == [] then [] else Row(xs[0], ys) + Product(xs[1..], ys)
  }

  /** `product` lists every pair of an element of `xs` with one of `ys`, and nothing else. */
  lemma {:induction false} ProductMembers(xs: seq<int>, ys: seq<int>)
    ensures forall e :: e in Product(xs, ys) <==> e.0 in xs && e.1 in ys
  {
    if xs != [] {
      ProductMembers(xs[1..], ys);
      assert forall v :: v in xs <==> v == xs[0] || v in xs[1..];
    }
  }

  lemma {:induction false} ProductSorted(xs: seq<int>, ys: seq<int>)
    requires StrictlyIncreasing(xs) && StrictlyIncreasing(ys)
    ensures LexSorted(Product(xs, ys))
  {
    if xs != [] {
      var rest := Product(xs[1..], ys);
      ProductSorted(xs[1..], ys);
      ProductMembers(xs[1..], ys);
      forall e | e in rest
        ensures xs[0] < e.0
      {
        var k :| 0 <= k < |xs[1..]| && xs[1..][k] == e.0;
        assert xs[0] < xs[k + 1];
      }
      var row := Row(xs[0], ys);
      var r := row + rest;
      forall k, l | 0 <= k < l < |r|
        ensures LexLess(r[k], r[l])
      {
        if l >= |row| && k < |row| {
          assert r[l] == rest[l - |row|];
          assert r[l] in rest;
        }
      }
    }
  }

  /** The list comprehension of `get_c_neighbours`: keep the coordinates inside the disc. */
  function Keep(coords: seq<(int, int)>, x: int, y: int, c: int, upper: nat, right: nat): (r: seq<(int, int)>)
    ensures |r| <= |coords|
  {
    if coords == [] then []
    else
      var head := coords[0];
      (if InDisc(head.0, head.1, x, y, c, upper, right) then [head] else [])
        + Keep(coords[1..], x, y, c, upper, right)
  }

  /** The comprehension keeps exactly the coordinates inside the disc. */
  lemma {:induction false} KeepMembers(coords: seq<(int, int)>, x: int, y: int, c: int, upper: nat, right: nat)
    ensures forall e :: e in Keep(coords, x, y, c, upper, right) <==>
              e in coords && InDisc(e.0, e.1, x, y, c, upper, right)
  {
    if coords != [] {
      KeepMembers(coords[1..], x, y, c, upper, right);
      assert forall e :: e in coords <==> e == coords[0] || e in coords[1..];
    }
  }

  lemma {:induction false} KeepSorted(coords: seq<(int, int)>, x: int, y: int, c: int, upper: nat, right: nat)
    requires LexSorted(coords)
    ensures LexSorted(Keep(coords, x, y, c, upper, right))
  {
    if coords != [] {
      KeepSorted(coords[1..], x, y, c, upper, right);
      KeepMembers(coords[1..], x, y, c, upper, right);
      var rest := Keep(coords[1..], x, y, c, upper, right);
      forall e | e in rest
        ensures LexLess(coords[0], e)
      {
        var k :| 0 <= k < |coords[1..]| && coords[1..][k] == e;
        assert coords[k + 1] == e;
      }
      var r := Keep(coords, x, y, c, upper, right);
      if InDisc(coords[0].0, coords[0].1, x, y, c, upper, right) {
        forall k, l | 0 <= k < l < |r|
          ensures LexLess(r[k], r[l])
        {
          if k == 0 {
            assert r[l] == rest[l - 1];
            assert r[l] in rest;
          } else {
            assert r[k] == rest[k - 1] && r[l] == rest[l - 1];
          }
        }
      }
    }
  }

  lemma ArangeIncreasing(lo: int, hi: int)
    ensures StrictlyIncreasing(Arange(lo, hi))
  {
  }

  /**
   * The coordinates of the box [x-c, x+c] x [y-c, y+c], enumerated x-major
   * (`product(xids, yids)`), that the filter keeps.
   */
  function DiscCoords(x: nat, y: nat, c: int, upper: nat, right: nat): (coords: seq<(int, int)>)
    ensures forall k :: 0 <= k < |coords| ==> InDisc(coords[k].0, coords[k].1, x, y, c, upper, right)
    ensures forall e :: e in coords <==> InDisc(e.0, e.1, x, y, c, upper, right)
  {
    var xids := Arange(x - c, x + c + 1);  // x + np.arange(-c, c + 1)
    var yids := Arange(y - c, y + c + 1);  // y + np.arange(-c, c + 1)
    var coords := Keep(Product(xids, yids), x, y, c, upper, right);
    ProductMembers(xids, yids);
    KeepMembers(Product(xids, yids), x, y, c, upper, right);
    assert forall k :: 0 <= k < |coords| ==> coords[k] in coords;
    coords
  }

  lemma DiscCoordsSorted(x: nat, y: nat, c: int, upper: nat, right: nat)
    ensures LexSorted(DiscCoords(x, y, c, upper, right))
  {
    var xids := Arange(x - c, x + c + 1);
    var yids := Arange(y - c, y + c + 1);
    ArangeIncreasing(x - c, x + c + 1);
    ArangeIncreasing(y - c, y + c + 1);
    ProductSorted(xids, yids);
    KeepSorted(Product(xids, yids), x, y, c, upper, right);
  }

  /** The coordinates `get_c_neighbours` keeps around node `i`. */
  function CNeighbourCoords(i: nat, c: int, upper: nat, right: nat): seq<(int, int)> {
    DiscCoords(GridCoord(i, right).0, GridCoord(i, right).1, c, upper, right)
  }

  /** `get_c_neighbours(graph, i, c, upper, right)`; the graph argument is unused and left out. */
  function GetCNeighbours(i: nat, c: int, upper: nat, right: nat): (r: seq<nat>)
    ensures |r| == |CNeighbourCoords(i, c, upper, right)|
    ensures forall k :: 0 <= k < |r| ==> GridCoord(r[k], right) == CNeighbourCoords(i, c, upper, right)[k]
  {
    var coords := CNeighbourCoords(i, c, upper, right);
    seq(|coords|, k requires 0 <= k < |coords| => NodeIndex(coords[k].0, coords[k].1, right))
  }

  /**
   * Soundness and completeness: node `j` is returned iff its grid coordinate
   * lies inside [0, right] x [0, upper] at L1 distance at most `c` from that
   * of `i`. (The row constraint is what keeps `j` a node of the grid.)
   */
  lemma CNeighboursMembers(i: nat, c: int, upper: nat, right: nat)
    ensures forall j: nat :: j in GetCNeighbours(i, c, upper, right) <==>
              InDisc(GridCoord(j, right).0, GridCoord(j, right).1,
                     GridCoord(i, right).0, GridCoord(i, right).1, c, upper, right)
  {
    var x := GridCoord(i, right).0;
    var y := GridCoord(i, right).1;
    var coords := CNeighbourCoords(i, c, upper, right);
    var r := GetCNeighbours(i, c, upper, right);
    forall j: nat | InDisc(GridCoord(j, right).0, GridCoord(j, right).1, x, y, c, upper, right)
      ensures j in r
    {
      var e := GridCoord(j, right);
      var e': (int, int) := (e.0, e.1);
      assert e' in coords;
      var k :| 0 <= k < |coords| && coords[k] == e';
      assert GridCoord(r[k], right) == e;
      assert r[k] == j;
    }
  }

  /** The nodes come in x-major coordinate order, so each one is returned exactly once. */
  lemma CNeighboursOrdered(i: nat, c: int, upper: nat, right: nat)
    ensures forall k, l :: 0 <= k < l < |GetCNeighbours(i, c, upper, right)| ==>
              LexLess(GridCoord(GetCNeighbours(i, c, upper, right)[k], right),
                      GridCoord(GetCNeighbours(i, c, upper, right)[l], right))
    ensures forall k, l :: 0 <= k < l < |GetCNeighbours(i, c, upper, right)| ==>
              GetCNeighbours(i, c, upper, right)[k] != GetCNeighbours(i, c, upper, right)[l]
  {
    var coords := CNeighbourCoords(i, c, upper, right);
    var r := GetCNeighbours(i, c, upper, right);
    DiscCoordsSorted(GridCoord(i, right).0, GridCoord(i, right).1, c, upper, right);
    forall k, l | 0 <= k < l < |r|
      ensures LexLess(GridCoord(r[k], right), GridCoord(r[l], right))
      ensures r[k] != r[l]
    {
      assert GridCoord(r[k], right) == coords[k];
      assert GridCoord(r[l], right) == coords[l];
      assert LexLess(coords[k], coords[l]);
    }
  }

  /** Every returned index is a node of the (upper + 1) x (right + 1) grid. */
  lemma CNeighboursInGrid(i: nat, c: int, upper: nat, right: nat)
    ensures forall k :: 0 <= k < |GetCNeighbours(i, c, upper, right)| ==>
              GetCNeighbours(i, c, upper, right)[k] < (upper + 1) * (right + 1)
  {
    var r := GetCNeighbours(i, c, upper, right);
    forall k | 0 <= k < |r|
      ensures r[k] < (upper + 1) * (right + 1)
    {
      assert GridCoord(r[k], right) == CNeighbourCoords(i, c, upper, right)[k];
      RowInGrid(r[k], upper, right);
    }
  }

  /** A node of the grid lies in its own neighbourhood whenever the radius is non-negative. */
  lemma CNeighboursContainsSelf(i: nat, c: int, upper: nat, right: nat)
    requires 0 <= c && i < (upper + 1) * (right + 1)
    ensures i in GetCNeighbours(i, c, upper, right)
  {
    CNeighboursMembers(i, c, upper, right);
    RowInGrid(i, upper, right);
  }

  /** Radius zero on a node of the grid gives exactly that node. */
  lemma CNeighboursRadiusZero(i: nat, upper: nat, right: nat)
    requires i < (upper + 1) * (right + 1)
    ensures GetCNeighbours(i, 0, upper, right) == [i]
  {
    var x := GridCoord(i, right).0;
    var y := GridCoord(i, right).1;
    RowInGrid(i, upper, right);
    assert Arange(x - 0, x + 0 + 1) == [x];
    assert Arange(y - 0, y + 0 + 1) == [y];
    assert Product([x], [y]) == [(x, y)];
    assert Keep([(x, y)], x, y, 0, upper, right) == [(x, y)];
    assert CNeighbourCoords(i, 0, upper, right) == [(x, y)];
  }

  /** A larger radius never drops a node. */
  lemma CNeighboursMonotoneInRadius(i: nat, c1: int, c2: int, upper: nat, right: nat)
    requires c1 <= c2
    ensures forall j :: j in GetCNeighbours(i, c1, upper, right) ==> j in GetCNeighbours(i, c2, upper, right)
  {
    CNeighboursMembers(i, c1, upper, right);
    CNeighboursMembers(i, c2, upper, right);
  }

  lemma {:induction false} KeepAppend(a: seq<(int, int)>, b: seq<(int, int)>, x: int, y: int, c: int, upper: nat, right: nat)
    ensures Keep(a + b, x, y, c, upper, right) == Keep(a, x, y, c, upper, right) + Keep(b, x, y, c, upper, right)
  {
    if a == [] {
      assert a + b == b;
    } else {
      assert (a + b)[0] == a[0] && (a + b)[1..] == a[1..] + b;
      var head := if InDisc(a[0].0, a[0].1, x, y, c, upper, right) then [a[0]] else [];
      calc {
        Keep(a + b, x, y, c, upper, right);
        head + Keep(a[1..] + b, x, y, c, upper, right);
        { KeepAppend(a[1..], b, x, y, c, upper, right); }
        head + (Keep(a[1..], x, y, c, upper, right) + Keep(b, x, y, c, upper, right));
        (head + Keep(a[1..], x, y, c, upper, right)) + Keep(b, x, y, c, upper, right);
        Keep(a, x, y, c, upper, right) + Keep(b, x, y, c, upper, right);
      }
    }
  }

  /**
   * The comprehension on one row of the 3 x 3 box around (1, 1). The row and
   * the kept run are passed in as requires, so that each row is worked out on
   * its own, without the other rows' terms in view.
   */
  lemma KeepRow(a: int, y: int, upper: nat, right: nat, kept: seq<(int, int)>)
    requires 0 <= a <= 2 && y == 1 && upper == 2 && right == 2
    requires kept == if a == 1 then [(1, 0), (1, 1), (1, 2)] else [(a, 1)]
    ensures Keep(Row(a, [0, 1, 2]), 1, y, 1, upper, right) == kept
  {
    var row := Row(a, [0, 1, 2]);
    assert row == [(a, 0)] + [(a, 1)] + [(a, 2)];
    KeepAppend([(a, 0)] + [(a, 1)], [(a, 2)], 1, 1, 1, 2, 2);
    KeepAppend([(a, 0)], [(a, 1)], 1, 1, 1, 2, 2);
  }

  lemma ArangeZeroToThree()
    ensures Arange(0, 3) == [0, 1, 2]
  {
    assert Arange(3, 3) == [];
    assert Arange(2, 3) == [2];
    assert Arange(1, 3) == [1, 2];
  }

  /**
   * The box [0, 2] x [0, 2], enumerated x-major, row by row. The id list is a
   * parameter fixed by the requires, so the recursion of `Product` unfolds on
   * a single term.
   */
  lemma BoxRows(ys: seq<int>)
    requires ys == [0, 1, 2]
    ensures Product(ys, ys) == Row(0, ys) + (Row(1, ys) + Row(2, ys))
  {
    assert ys[1..] == [1, 2] && ys[1..][1..] == [2] && ys[1..][1..][1..] == [];
    assert Product([2], ys) == Row(2, ys) + Product([], ys);
    assert Product([1, 2], ys) == Row(1, ys) + Product([2], ys);
  }

  /** The disc of radius 1 around the centre (1, 1) of the 3 x 3 grid, one kept run per row of the box. */
  lemma PlusShapeRows()
    ensures DiscCoords(1, 1, 1, 2, 2) == [(0, 1)] + ([(1, 0), (1, 1), (1, 2)] + [(2, 1)])
  {
    var ys := [0, 1, 2];
    ArangeZeroToThree();
    assert DiscCoords(1, 1, 1, 2, 2) == Keep(Product(ys, ys), 1, 1, 1, 2, 2);
    BoxRows(ys);
    var r0, r1, r2 := Row(0, ys), Row(1, ys), Row(2, ys);
    KeepAppend(r0, r1 + r2, 1, 1, 1, 2, 2);
    KeepAppend(r1, r2, 1, 1, 1, 2, 2);
    KeepRow(0, 1, 2, 2, [(0, 1)]);
    KeepRow(1, 1, 2, 2, [(1, 0), (1, 1), (1, 2)]);
    KeepRow(2, 1, 2, 2, [(2, 1)]);
  }

  /** The disc of radius 1 around the centre (1, 1) of the 3 x 3 grid. */
  lemma PlusShapeCoords()
    ensures DiscCoords(1, 1, 1, 2, 2) == [(0, 1), (1, 0), (1, 1), (1, 2), (2, 1)]
  {
    PlusShapeRows();
    FlattenPlus(DiscCoords(1, 1, 1, 2, 2));
  }

  /** Flattening the plus shape's three runs, on a sequence given by the requires rather than by `DiscCoords`. */
  lemma FlattenPlus(s: seq<(int, int)>)
    requires s == [(0, 1)] + ([(1, 0), (1, 1), (1, 2)] + [(2, 1)])
    ensures s == [(0, 1), (1, 0), (1, 1), (1, 2), (2, 1)]
  {
  }

  /**
   * The row-major nodes of the plus shape's coordinates on a grid three
   * columns wide. The coordinates and the nodes are passed as parameters, so
   * that each node is decoded from its coordinate alone.
   */
  lemma PlusShapeNodes(coords: seq<(int, int)>, r: seq<nat>)
    requires coords == [(0, 1), (1, 0), (1, 1), (1, 2), (2, 1)]
    requires |r| == |coords|
    requires forall k :: 0 <= k < |r| ==> GridCoord(r[k], 2) == coords[k]
    ensures r == [3, 1, 4, 7, 5]
  {
    assert GridCoord(r[0], 2) == (0, 1);
    assert GridCoord(r[1], 2) == (1, 0);
    assert GridCoord(r[2], 2) == (1, 1);
    assert GridCoord(r[3], 2) == (1, 2);
    assert GridCoord(r[4], 2) == (2, 1);
  }

  /** The centre of the 3 x 3 grid at radius 1: the plus shape, listed x-major. */
  lemma CNeighboursPlusShape()
    ensures GetCNeighbours(4, 1, 2, 2) == [3, 1, 4, 7, 5]
  {
    assert GridCoord(4, 2) == (1, 1);
    PlusShapeCoords();
    PlusShapeNodes(CNeighbourCoords(4, 1, 2, 2), GetCNeighbours(4, 1, 2, 2));
  }
}
