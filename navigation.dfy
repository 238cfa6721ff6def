// The `FlowField` resource (src/flowfield/mod.rs:38-220): window and grid sizes, the
// heat grid and the flow grid, with `new`, `reset` and `build`.

module Navigation {
  import opened Grid
  import opened Walls
  import opened Heat
  import opened Flow

  class FlowField {
    var windowWidth: nat
    var windowHeight: nat
    var sizeX: nat
    var sizeY: nat
    var heatGrid: seq<seq<real>>
    var flowGrid: seq<seq<Offset>>

    /** The sizes follow the window, and both grids are `size_x` rows of `size_y` entries. */
    ghost predicate Valid()
      reads this
    {
      sizeX == CeilDiv(windowWidth, BlockSizeWidth) &&
      sizeY == CeilDiv(windowHeight, BlockSizeHeight) &&
      IsGrid(heatGrid, sizeX, sizeY) && IsGrid(flowGrid, sizeX, sizeY)
    }

    /** `FlowField::new`: the grid covers the window, every heat is the sentinel and
        every flow is zero. */
    constructor (windowWidth: nat, windowHeight: nat)
      ensures Valid()
      ensures this.windowWidth == windowWidth && this.windowHeight == windowHeight
      ensures heatGrid == Filled(sizeX, sizeY, Unreached)
      ensures flowGrid == Filled(sizeX, sizeY, Zero)
    {
      this.windowWidth := windowWidth;
      this.windowHeight := windowHeight;
      sizeX := CeilDiv(windowWidth, BlockSizeWidth);
      sizeY := CeilDiv(windowHeight, BlockSizeHeight);
      new;
      flowGrid := Filled(sizeX, sizeY, Zero);
      heatGrid := Filled(sizeX, sizeY, Unreached);
    }

    /** `FlowField::reset`: the same state as a new field for the given window. */
    method Reset(windowWidth: nat, windowHeight: nat)
      modifies this
      ensures Valid()
      ensures this.windowWidth == windowWidth && this.windowHeight == windowHeight
      ensures heatGrid == Filled(sizeX, sizeY, Unreached)
      ensures flowGrid == Filled(sizeX, sizeY, Zero)
    {
      this.windowWidth := windowWidth;
      this.windowHeight := windowHeight;
      sizeX := CeilDiv(windowWidth, BlockSizeWidth);
      sizeY := CeilDiv(windowHeight, BlockSizeHeight);
      flowGrid := Filled(sizeX, sizeY, Zero);
      heatGrid := Filled(sizeX, sizeY, Unreached);
    }

    /** `FlowField::build`: clear both grids, rasterise the walls, run the heat wavefront
        from the sources and derive the flow of every cell. The source indexes the heat
        grid with every source, so each must lie in the grid. */
    method Build(sources: set<GridPos>, intersects: Intersects, colliders: seq<(Collider, Transform)>)
      requires Valid()
      requires forall s :: s in sources ==> InBound(sizeX, sizeY, s)
      modifies this
      ensures Valid()
      ensures windowWidth == old(windowWidth) && windowHeight == old(windowHeight)
      ensures sizeX == old(sizeX) && sizeY == old(sizeY)
      ensures forall x, y :: 0 <= x < sizeX && 0 <= y < sizeY ==> IsBestOffset(sizeX, sizeY, heatGrid, x, y, flowGrid[x][y])
      ensures forall x, y ::
                (0 <= x < sizeX && 0 <= y < sizeY && HeatAt(heatGrid, GridPos(x, y)) == Unreached &&
                 GridPos(x, y) !in WallCells(sizeX, sizeY, intersects, colliders)) ==> flowGrid[x][y] == Zero
      ensures forall s :: s in sources ==> HeatAt(heatGrid, s) == 0.0
      ensures forall p :: InBound(sizeX, sizeY, p) ==> HeatAt(heatGrid, p) == Unreached || HeatAt(heatGrid, p) >= 0.0
      ensures forall p :: p in WallCells(sizeX, sizeY, intersects, colliders) && p !in sources ==>
                HeatAt(heatGrid, p) == Unreached
      ensures forall p :: InBound(sizeX, sizeY, p) ==>
                (HeatAt(heatGrid, p) != Unreached <==>
                 Reachable(sizeX, sizeY, WallCells(sizeX, sizeY, intersects, colliders), sources, p))
      ensures HeatClosed(sizeX, sizeY, WallCells(sizeX, sizeY, intersects, colliders), heatGrid)
      ensures HeatIsWalkCost(sizeX, sizeY, WallCells(sizeX, sizeY, intersects, colliders), sources, heatGrid)
    {
      flowGrid := Filled(sizeX, sizeY, Zero);
      heatGrid := Filled(sizeX, sizeY, Unreached);
      var walls := RasterizeWalls(sizeX, sizeY, intersects, colliders);
      var heat, pushes, rounds := PropagateHeat(sizeX, sizeY, walls, sources, heatGrid);
      var flow := DeriveFlow(sizeX, sizeY, heat);
      forall x, y | 0 <= x < sizeX && 0 <= y < sizeY && HeatAt(heat, GridPos(x, y)) == Unreached && GridPos(x, y) !in walls
        ensures flow[x][y] == Zero
      {
        UnreachedFlowIsZero(sizeX, sizeY, walls, heat, x, y, flow[x][y]);
      }
      heatGrid, flowGrid := heat, flow;
    }
  }

  /** The single source `initialize_flow_field` places at `(size_x / 2, size_y / 2)` lies
      in the grid exactly when the window has a positive width and height. */
  lemma StartSourceInBound(windowWidth: nat, windowHeight: nat)
    ensures var sizeX, sizeY := CeilDiv(windowWidth, BlockSizeWidth), CeilDiv(windowHeight, BlockSizeHeight);
            InBound(sizeX, sizeY, GridPos(sizeX / 2, sizeY / 2)) <==> windowWidth > 0 && windowHeight > 0
  {
  }
}
