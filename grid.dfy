// Grid coordinates, bounds, the neighbour rule, the edge-weight metric and the
// world-to-cell mapping of the flow-field engine (src/flowfield/mod.rs).

module Grid {

  datatype Option<T> = None | Some(value: T)

  /** Width and height of one grid cell, in pixels. */
  const BlockSizeWidth: nat := 5
  const BlockSizeHeight: nat := 5

  /** The cost of a diagonal step: sqrt(2.0) rounded to the nearest f32, written out exactly. */
  const Sqrt2: real := 1.41421353816986083984375

  /** A cell address; both coordinates are `usize` in the source. */
  datatype GridPos = GridPos(x: nat, y: nat)

  /** A point of the window in pixels (`Vec2`). */
  datatype Vec2 = Vec2(x: real, y: real)

  /** `usize::div_ceil`: the number of started blocks of size `d` in `n`. */
  function CeilDiv(n: nat, d: nat): (r: nat)
    requires d > 0
    ensures n <= r * d
    ensures r == 0 || (r - 1) * d < n
    ensures r == 0 <==> n == 0
  {
    (n + d - 1) / d
  }

  /** `FlowField::in_bound`: the cell indexes the `size_x` by `size_y` grid. */
  predicate InBound(sizeX: nat, sizeY: nat, p: GridPos) {
    p.x < sizeX && p.y < sizeY
  }

  /** Each coordinate differs by at most one. */
  predicate Adjacent(a: GridPos, b: GridPos) {
    -1 <= a.x - b.x <= 1 && -1 <= a.y - b.y <= 1
  }

  /** `usize::saturating_sub(1)`: one less, except that 0 stays 0. */
  function SatSub1(n: nat): (r: nat)
    ensures r <= n <= r + 1
    ensures r == n <==> n == 0
  {
    if n == 0 then 0 else n - 1
  }

  /** The eight candidates of `FlowField::neighbors`, in the order the source lists them. */
  function Candidates(pos: GridPos): (c: seq<GridPos>)
    ensures |c| == 8
  {
    var xm, ym := SatSub1(pos.x), SatSub1(pos.y);
    [GridPos(xm, ym), GridPos(pos.x, ym), GridPos(pos.x + 1, ym),
     GridPos(xm, pos.y), GridPos(pos.x + 1, pos.y),
     GridPos(xm, pos.y + 1), GridPos(pos.x, pos.y + 1), GridPos(pos.x + 1, pos.y + 1)]
  }

  /** Every candidate is at most one step from `pos` in each coordinate. */
  lemma CandidatesAdjacent(pos: GridPos)
    ensures forall k :: 0 <= k < 8 ==> Adjacent(pos, Candidates(pos)[k])
  {
  }

  lemma {:induction false} SeqImageCard<T>(s: seq<T>)
    ensures |set k | 0 <= k < |s| :: s[k]| <= |s|
  {
    if |s| > 0 {
      var init := s[..|s| - 1];
      SeqImageCard(init);
      assert (set k | 0 <= k < |s| :: s[k]) == (set k | 0 <= k < |init| :: init[k]) + {s[|s| - 1]};
    }
  }

  /** `FlowField::neighbors`: the in-bounds Moore neighbours of `pos`. Because of the
      saturating subtraction, `pos` itself is one of them when it lies on the x = 0 or
      y = 0 edge. */
  function Neighbors(sizeX: nat, sizeY: nat, pos: GridPos): (r: set<GridPos>)
    ensures forall q :: q in r <==>
              InBound(sizeX, sizeY, q) && Adjacent(pos, q) && (q != pos || pos.x == 0 || pos.y == 0)
    ensures |r| <= 8
  {
    var c := Candidates(pos);
    SeqImageCard(c);
    var all := set k | 0 <= k < |c| :: c[k];
    var r := set k | 0 <= k < 8 && InBound(sizeX, sizeY, c[k]) :: c[k];
    assert all == r + (all - r);
    assert forall q :: Adjacent(pos, q) && (q != pos || pos.x == 0 || pos.y == 0) ==>
      exists k :: 0 <= k < 8 && c[k] == q by {
      forall q | Adjacent(pos, q) && (q != pos || pos.x == 0 || pos.y == 0)
        ensures exists k :: 0 <= k < 8 && c[k] == q
      {
        var xm := SatSub1(pos.x);
        if q.y + 1 == pos.y || (q.y == 0 && pos.y == 0) {
          if q.x == xm { assert c[0] == q; }
          else if q.x == pos.x { assert c[1] == q; }
          else { assert c[2] == q; }
        } else if q.y == pos.y {
          if q.x == xm { assert c[3] == q; }
          else { assert c[4] == q; }
        } else {
          if q.x == xm { assert c[5] == q; }
          else if q.x == pos.x { assert c[6] == q; }
          else { assert c[7] == q; }
        }
      }
    }
    r
  }

  /** Squared Euclidean distance between two cells. */
  function DistSq(a: GridPos, b: GridPos): nat {
    (a.x - b.x) * (a.x - b.x) + (a.y - b.y) * (a.y - b.y)
  }

  /** `GridPos::distance` for the cell pairs the engine measures: at most one step
      apart in each coordinate. */
  function Distance(a: GridPos, b: GridPos): (r: real)
    requires Adjacent(a, b)
    ensures 0.0 <= r
    ensures r == 0.0 <==> a == b
    ensures a != b ==> 1.0 <= r < 2.0
  {
    if a == b then 0.0
    else if a.x == b.x || a.y == b.y then 1.0
    else Sqrt2
  }

  /** The edge weight is the Euclidean distance of the two cells, to within the rounding
      of an f32 square root: its square is their squared distance. */
  lemma DistanceIsEuclidean(a: GridPos, b: GridPos)
    requires Adjacent(a, b)
    ensures -0.000001 < Distance(a, b) * Distance(a, b) - DistSq(a, b) as real < 0.000001
  {
  }

  /** `f32 as usize`: truncation toward zero, saturating at zero for negative values. */
  function Truncate(v: real): (r: nat)
    ensures v <= 0.0 ==> r == 0
    ensures 0.0 < v ==> r as real <= v < r as real + 1.0
  {
    if v <= 0.0 then 0 else v.Floor
  }

  /** The cell index `size * p / window` of one axis (integer division). */
  function Scale(size: nat, p: nat, window: nat): (r: nat)
    requires window > 0
    ensures r * window <= size * p < (r + 1) * window
  {
    size * p / window
  }

  lemma DivBelow(a: nat, w: nat, s: nat)
    requires w > 0
    ensures a / w < s <==> a < s * w
  {
    var q := a / w;
    assert q * w <= a < q * w + w;
    if q < s {
      assert (q + 1) * w <= s * w;
    } else {
      assert q * w >= s * w;
    }
  }

  lemma ScaleBelow(size: nat, p: nat, window: nat)
    requires window > 0
    ensures size > 0 ==> (Scale(size, p, window) < size <==> p < window)
  {
    DivBelow(size * p, window, size);
    if p < window {
      assert size * window - size * p == size * (window - p);
    } else {
      assert size * p - size * window == size * (p - window);
    }
  }

  lemma TruncateBelow(v: real, n: nat)
    ensures Truncate(v) < n <==> (n > 0 && v < n as real)
  {
  }

  /** One axis of `trans_to_grid`: the index brackets the scaled coordinate, and it is
      below `size` exactly when the point is below the window edge. */
  lemma AxisCell(size: nat, v: real, window: nat)
    requires window > 0
    ensures var q := Scale(size, Truncate(v), window);
            q * window <= size * Truncate(v) < (q + 1) * window &&
            (size > 0 ==> (q < size <==> v < window as real))
  {
    var p := Truncate(v);
    var q := Scale(size, p, window);
    ScaleBelow(size, p, window);
    TruncateBelow(v, window);
    DivBelow(size * p, window, q + 1);
    DivBelow(size * p, window, q);
  }

  /** `FlowField::trans_to_grid`: the cell of a window point, or `None` when that cell
      falls outside the grid. */
  function TransToGrid(windowWidth: nat, windowHeight: nat, sizeX: nat, sizeY: nat, point: Vec2): (r: Option<GridPos>)
    requires windowWidth > 0 && windowHeight > 0
    ensures r.Some? ==> InBound(sizeX, sizeY, r.value)
    ensures sizeX > 0 && sizeY > 0 ==>
              (r.Some? <==> point.x < windowWidth as real && point.y < windowHeight as real)
    ensures r.Some? ==>
              r.value.x * windowWidth <= sizeX * Truncate(point.x) < (r.value.x + 1) * windowWidth &&
              r.value.y * windowHeight <= sizeY * Truncate(point.y) < (r.value.y + 1) * windowHeight
  {
    var px, py := Truncate(point.x), Truncate(point.y);
    var p := GridPos(Scale(sizeX, px, windowWidth), Scale(sizeY, py, windowHeight));
    AxisCell(sizeX, point.x, windowWidth);
    AxisCell(sizeY, point.y, windowHeight);
    if InBound(sizeX, sizeY, p) then Some(p) else None
  }

  /** A grid stored as `size_x` rows (indexed by x) of `size_y` entries (indexed by y). */
  predicate IsGrid<T>(g: seq<seq<T>>, sizeX: nat, sizeY: nat) {
    |g| == sizeX && forall x :: 0 <= x < sizeX ==> |g[x]| == sizeY
  }

  /** `vec![vec![v; size_y]; size_x]`. */
  function Filled<T>(sizeX: nat, sizeY: nat, v: T): (g: seq<seq<T>>)
    ensures IsGrid(g, sizeX, sizeY)
    ensures forall x, y :: 0 <= x < sizeX && 0 <= y < sizeY ==> g[x][y] == v
  {
    seq(sizeX, _ => seq(sizeY, _ => v))
  }

  /** The cell `(x, y)` of every cell of a set lies in the grid, so the set has at most
      `size_x * size_y` members. */
  lemma {:induction false} CellSetBound(s: set<GridPos>, sizeX: nat, sizeY: nat)
    requires forall p :: p in s ==> InBound(sizeX, sizeY, p)
    ensures |s| <= sizeX * sizeY
    decreases sizeX
  {
    if sizeX == 0 {
      assert s == {};
    } else {
      var left := set p | p in s && p.x < sizeX - 1;
      var column := s - left;
      CellSetBound(left, sizeX - 1, sizeY);
      ColumnBound(column, sizeX - 1, sizeY);
      assert s == left + column;
      assert (sizeX - 1) * sizeY + sizeY == sizeX * sizeY;
    }
  }

  lemma {:induction false} ColumnBound(s: set<GridPos>, x: nat, n: nat)
    requires forall p :: p in s ==> p.x == x && p.y < n
    ensures |s| <= n
    decreases n
  {
    if n == 0 {
      assert s == {};
    } else {
      var rest := s - {GridPos(x, n - 1)};
      ColumnBound(rest, x, n - 1);
    }
  }
}
