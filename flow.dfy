// Flow derivation: the last phase of `FlowField::build` (src/flowfield/mod.rs:152-182).
// Each cell gets the offset of its lowest positive-heat neighbour among six directions.

module Flow {
  import opened Grid
  import opened Heat

  /** The direction `(i, j)` stored for a cell; the source normalises it to a unit
      `Vec2`, which is not modelled. */
  datatype Offset = Offset(i: int, j: int)

  /** `Vec2::ZERO`: no direction. */
  const Zero: Offset := Offset(0, 0)

  /** `f32::MAX`, the initial `min_heat`, written out exactly. */
  const F32Max: real := 340282346638528859811704183484516925440.0

  /** The heat of the cell at offset `o` from `(x, y)`; a target left of or below the
      grid reads as the sentinel. */
  function TargetHeat(heat: seq<seq<real>>, x: nat, y: nat, o: Offset): real {
    if x + o.i >= 0 && y + o.j >= 0 then HeatAt(heat, GridPos(x + o.i, y + o.j)) else Unreached
  }

  /** An offset the inner loops may pick: both components in -1..=1 but not equal, the
      target in the grid and its heat strictly positive. */
  predicate Eligible(sizeX: nat, sizeY: nat, heat: seq<seq<real>>, x: nat, y: nat, o: Offset) {
    -1 <= o.i <= 1 && -1 <= o.j <= 1 && o.i != o.j &&
    0 <= x + o.i < sizeX && 0 <= y + o.j < sizeY &&
    TargetHeat(heat, x, y, o) > 0.0
  }

  /** `c` comes before `o` in the loop order: `i` outer, `j` inner, both ascending. */
  predicate Before(c: Offset, o: Offset) {
    c.i < o.i || (c.i == o.i && c.j < o.j)
  }

  /** What the loops have computed once every offset before `bound` has been examined:
      either no examined offset beat `f32::MAX` and the flow is zero, or the flow is an
      examined eligible offset whose target heat is below `f32::MAX`, no larger than that
      of any examined eligible offset, and strictly smaller than that of every examined
      eligible offset before it (ties go to the first). */
  ghost predicate BestBefore(sizeX: nat, sizeY: nat, heat: seq<seq<real>>, x: nat, y: nat, o: Offset, bound: Offset) {
    if o == Zero then
      forall c :: Eligible(sizeX, sizeY, heat, x, y, c) && Before(c, bound) ==> TargetHeat(heat, x, y, c) >= F32Max
    else
      Eligible(sizeX, sizeY, heat, x, y, o) && Before(o, bound) && TargetHeat(heat, x, y, o) < F32Max &&
      forall c :: Eligible(sizeX, sizeY, heat, x, y, c) && Before(c, bound) ==>
        TargetHeat(heat, x, y, o) <= TargetHeat(heat, x, y, c) &&
        (Before(c, o) ==> TargetHeat(heat, x, y, o) < TargetHeat(heat, x, y, c))
  }

  /** The flow the source assigns to cell `(x, y)`: the best offset once all of them have
      been examined (every offset with `i <= 1` comes before `(2, -1)`). */
  ghost predicate IsBestOffset(sizeX: nat, sizeY: nat, heat: seq<seq<real>>, x: nat, y: nat, o: Offset) {
    BestBefore(sizeX, sizeY, heat, x, y, o, Offset(2, -1))
  }

  /** The loop variable `min_heat` that goes with a flow. */
  function MinHeat(heat: seq<seq<real>>, x: nat, y: nat, o: Offset): real {
    if o == Zero then F32Max else TargetHeat(heat, x, y, o)
  }

  /** Once `j` has run past 1, the offsets examined for this `i` are all of them, which
      are exactly the ones before the start of the next `i`. */
  lemma NextRow(sizeX: nat, sizeY: nat, heat: seq<seq<real>>, x: nat, y: nat, o: Offset, i: int)
    requires BestBefore(sizeX, sizeY, heat, x, y, o, Offset(i, 2))
    ensures BestBefore(sizeX, sizeY, heat, x, y, o, Offset(i + 1, -1))
  {
    forall c | Eligible(sizeX, sizeY, heat, x, y, c) ensures Before(c, Offset(i, 2)) <==> Before(c, Offset(i + 1, -1)) {
    }
  }

  /** The body of `for (y, value) in line`: the loops over `i` and `j` for cell `(x, y)`,
      keeping the first offset whose positive target heat is strictly below `min_heat`. */
  method CellFlow(sizeX: nat, sizeY: nat, heat: seq<seq<real>>, x: nat, y: nat) returns (flow: Offset)
    requires IsGrid(heat, sizeX, sizeY)
    ensures IsBestOffset(sizeX, sizeY, heat, x, y, flow)
    ensures flow == Zero || (flow.i != flow.j && -1 <= flow.i <= 1 && -1 <= flow.j <= 1)
  {
    flow := Zero;
    var minHeat := F32Max;
    for i := -1 to 2
      invariant BestBefore(sizeX, sizeY, heat, x, y, flow, Offset(i, -1))
      invariant minHeat == MinHeat(heat, x, y, flow)
    {
      flow, minHeat := ScanRow(sizeX, sizeY, heat, x, y, i, flow, minHeat);
    }
  }

  /** One pass of the `j` loop for a fixed `i`: every offset `(i, j)` is examined in turn,
      and `flow` and `min_heat` move to it when it is eligible and strictly beats `min_heat`. */
  method ScanRow(sizeX: nat, sizeY: nat, heat: seq<seq<real>>, x: nat, y: nat, i: int, flow0: Offset, minHeat0: real)
    returns (flow: Offset, minHeat: real)
    requires IsGrid(heat, sizeX, sizeY) && -1 <= i <= 1
    requires BestBefore(sizeX, sizeY, heat, x, y, flow0, Offset(i, -1))
    requires minHeat0 == MinHeat(heat, x, y, flow0)
    ensures BestBefore(sizeX, sizeY, heat, x, y, flow, Offset(i + 1, -1))
    ensures minHeat == MinHeat(heat, x, y, flow)
  {
    flow, minHeat := flow0, minHeat0;
    for j := -1 to 2
      invariant BestBefore(sizeX, sizeY, heat, x, y, flow, Offset(i, j))
      invariant minHeat == MinHeat(heat, x, y, flow)
    {
      ghost var before := flow;
      if i != j {
        var posX, posY := x + i, y + j;
        if posX >= 0 && posX < sizeX && posY >= 0 && posY < sizeY {
          var h := heat[posX][posY];
          assert h == TargetHeat(heat, x, y, Offset(i, j));
          if h > 0.0 {
            if h < minHeat {
              flow := Offset(i, j);
              minHeat := h;
            }
          }
        }
      }
      CellStep(sizeX, sizeY, heat, x, y, before, flow, i, j);
    }
    NextRow(sizeX, sizeY, heat, x, y, flow, i);
  }

  /** One pass of the inner loop body keeps the loop invariant: examining offset `(i, j)`
      either keeps the flow or replaces it by `(i, j)` when that offset is eligible and
      strictly beats the current `min_heat`. */
  lemma CellStep(sizeX: nat, sizeY: nat, heat: seq<seq<real>>, x: nat, y: nat, o: Offset, o': Offset, i: int, j: int)
    requires -1 <= i <= 1 && -1 <= j <= 1
    requires BestBefore(sizeX, sizeY, heat, x, y, o, Offset(i, j))
    requires var c := Offset(i, j);
             if Eligible(sizeX, sizeY, heat, x, y, c) && TargetHeat(heat, x, y, c) < MinHeat(heat, x, y, o)
             then o' == c else o' == o
    ensures BestBefore(sizeX, sizeY, heat, x, y, o', Offset(i, j + 1))
  {
    var c := Offset(i, j);
    forall d | Before(d, Offset(i, j + 1)) ensures Before(d, Offset(i, j)) || d == c {
    }
    if o' != o {
      assert o' == c && c != Zero;
    }
  }

  /** The flow loops of `build`: a fresh zero grid, then `CellFlow` for every cell, row
      by row. */
  method DeriveFlow(sizeX: nat, sizeY: nat, heat: seq<seq<real>>) returns (flow: seq<seq<Offset>>)
    requires IsGrid(heat, sizeX, sizeY)
    ensures IsGrid(flow, sizeX, sizeY)
    ensures forall x, y :: 0 <= x < sizeX && 0 <= y < sizeY ==> IsBestOffset(sizeX, sizeY, heat, x, y, flow[x][y])
  {
    flow := Filled(sizeX, sizeY, Zero);
    for x := 0 to sizeX
      invariant IsGrid(flow, sizeX, sizeY)
      invariant forall x', y' :: 0 <= x' < x && 0 <= y' < sizeY ==> IsBestOffset(sizeX, sizeY, heat, x', y', flow[x'][y'])
    {
      for y := 0 to sizeY
        invariant IsGrid(flow, sizeX, sizeY)
        invariant forall x', y' :: 0 <= x' < x && 0 <= y' < sizeY ==> IsBestOffset(sizeX, sizeY, heat, x', y', flow[x'][y'])
        invariant forall y' :: 0 <= y' < y ==> IsBestOffset(sizeX, sizeY, heat, x, y', flow[x][y'])
      {
        var o := CellFlow(sizeX, sizeY, heat, x, y);
        flow := flow[x := flow[x][y := o]];
      }
    }
  }

  /** The flow of a cell is determined by the heat grid: two offsets that both satisfy
      the loops' outcome are the same offset. */
  lemma BestOffsetUnique(sizeX: nat, sizeY: nat, heat: seq<seq<real>>, x: nat, y: nat, o1: Offset, o2: Offset)
    requires IsBestOffset(sizeX, sizeY, heat, x, y, o1)
    requires IsBestOffset(sizeX, sizeY, heat, x, y, o2)
    ensures o1 == o2
  {
    if o1 != Zero && o2 != Zero {
      assert Before(o1, Offset(2, -1)) && Before(o2, Offset(2, -1));
    }
  }

  /** The flow is zero exactly when no eligible offset has a target heat below
      `f32::MAX`; otherwise it points at an eligible target with positive heat. */
  lemma ZeroFlowIff(sizeX: nat, sizeY: nat, heat: seq<seq<real>>, x: nat, y: nat, o: Offset)
    requires IsBestOffset(sizeX, sizeY, heat, x, y, o)
    ensures o == Zero <==>
              forall c :: Eligible(sizeX, sizeY, heat, x, y, c) ==> TargetHeat(heat, x, y, c) >= F32Max
    ensures o != Zero ==> Eligible(sizeX, sizeY, heat, x, y, o) && TargetHeat(heat, x, y, o) > 0.0
  {
    if o != Zero {
      assert Eligible(sizeX, sizeY, heat, x, y, o) && TargetHeat(heat, x, y, o) < F32Max;
    } else {
      forall c | Eligible(sizeX, sizeY, heat, x, y, c) ensures TargetHeat(heat, x, y, c) >= F32Max {
        assert Before(c, Offset(2, -1));
      }
    }
  }

  /** A source, whose heat is 0, is never the target of a flow. */
  lemma SourceNeverTarget(sizeX: nat, sizeY: nat, heat: seq<seq<real>>, x: nat, y: nat, o: Offset, s: GridPos)
    requires IsBestOffset(sizeX, sizeY, heat, x, y, o) && o != Zero
    requires HeatAt(heat, s) == 0.0
    ensures s != GridPos(x + o.i, y + o.j)
  {
    assert TargetHeat(heat, x, y, o) > 0.0;
  }

  /** A cell the wavefront never reached, and that is not a wall, has zero flow: any
      neighbour with a positive heat would have reached it, because it is that
      neighbour's neighbour. */
  lemma UnreachedFlowIsZero(sizeX: nat, sizeY: nat, walls: set<GridPos>, heat: seq<seq<real>>,
                            x: nat, y: nat, o: Offset)
    requires HeatClosed(sizeX, sizeY, walls, heat)
    requires InBound(sizeX, sizeY, GridPos(x, y)) && GridPos(x, y) !in walls
    requires HeatAt(heat, GridPos(x, y)) == Unreached
    requires IsBestOffset(sizeX, sizeY, heat, x, y, o)
    ensures o == Zero
  {
    var p := GridPos(x, y);
    forall c: Offset | -1 <= c.i <= 1 && -1 <= c.j <= 1 && c != Zero && 0 <= x + c.i < sizeX && 0 <= y + c.j < sizeY
      ensures TargetHeat(heat, x, y, c) == Unreached
    {
      assert p in Neighbors(sizeX, sizeY, GridPos(x + c.i, y + c.j));
    }
  }

  /** Only six offsets are examined: a corner cell whose one reached neighbour lies at
      offset `(1, 1)` gets no flow, although that neighbour has positive heat. */
  lemma DiagonalOneOneIgnored(o: Offset)
    requires IsBestOffset(2, 2, [[Unreached, Unreached], [Unreached, 1.0]], 0, 0, o)
    ensures o == Zero
  {
  }

  /** The flow is the eligible offset of least heat, not the first eligible one: from the
      middle of a 3 by 1 strip with heats 5 and 1 on either side, the flow points at the
      heat-1 cell although `(-1, 0)` comes first. */
  lemma LeastHeatNotFirst(o: Offset)
    requires IsBestOffset(3, 1, [[5.0], [Unreached], [1.0]], 1, 0, o)
    ensures o == Offset(1, 0)
  {
    var heat := [[5.0], [Unreached], [1.0]];
    assert TargetHeat(heat, 1, 0, Offset(1, 0)) == 1.0;
    assert TargetHeat(heat, 1, 0, Offset(-1, 0)) == 5.0;
    assert Eligible(3, 1, heat, 1, 0, Offset(1, 0)) && Before(Offset(1, 0), Offset(2, -1));
  }
}
