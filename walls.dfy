// Obstacle rasterisation: the first phase of `FlowField::build`
// (src/flowfield/mod.rs:85-114).

module Walls {
  import opened Grid

  /** The collision layer whose colliders block the flow field. */
  const FlowFieldLayer: nat := 0

  /** The shape of a collider. Only the cuboids built here are spelled out; every other
      shape the collision library offers is an opaque tag. */
  datatype Shape = Cuboid(halfExtentX: real, halfExtentY: real) | OtherShape(tag: nat)

  /** The planar part of a Bevy `Transform`: translation and rotation angle. */
  datatype Transform = Transform(x: real, y: real, angle: real)

  /** A collider (src/physics/collider.rs): a shape and a collision layer. */
  datatype Collider = Collider(shape: Shape, layer: nat)

  /** The collision library's proximity test: do the two shapes, each placed by its
      transform, intersect? Supplied by the caller; the geometry is not modelled. */
  type Intersects = (Transform, Shape, Transform, Shape) -> bool

  /** `Collider::overlap(self, self_trans, other, other_trans)`. */
  function Overlap(intersects: Intersects, a: Collider, aTrans: Transform, b: Collider, bTrans: Transform): bool {
    intersects(aTrans, a.shape, bTrans, b.shape)
  }

  /** The probe collider of one cell: a cuboid the size of a block, on layer 0. */
  function Block(): (b: Collider)
    ensures b.layer == FlowFieldLayer && b.shape.Cuboid?
    ensures 2.0 * b.shape.halfExtentX == BlockSizeWidth as real && 2.0 * b.shape.halfExtentY == BlockSizeHeight as real
  {
    Collider(Cuboid(BlockSizeWidth as real / 2.0, BlockSizeHeight as real / 2.0), 0)
  }

  /** The transform of the probe of cell `(x, y)`: translated to `(5x, 5y)`, not rotated. */
  function BlockTransform(x: nat, y: nat): (t: Transform)
    ensures t.angle == 0.0
    ensures t.x == (x * BlockSizeWidth) as real && t.y == (y * BlockSizeHeight) as real
  {
    Transform((x * BlockSizeWidth) as real, (y * BlockSizeHeight) as real, 0.0)
  }

  /** The test the source performs for one collider and one cell:
      `block.overlap(trans, col, &block_trans)`. The probe is passed the collider's
      transform and the collider the probe's, in that order. */
  predicate BlockHit(intersects: Intersects, col: Collider, trans: Transform, p: GridPos) {
    Overlap(intersects, Block(), trans, col, BlockTransform(p.x, p.y))
  }

  /** Some collider of the flow-field layer hits cell `p`. */
  predicate HitBy(intersects: Intersects, colliders: seq<(Collider, Transform)>, p: GridPos) {
    exists k :: 0 <= k < |colliders| && colliders[k].0.layer == FlowFieldLayer &&
                BlockHit(intersects, colliders[k].0, colliders[k].1, p)
  }

  /** The wall set the rasteriser is meant to produce: every in-bounds cell hit by a
      collider of the flow-field layer. */
  ghost function WallCells(sizeX: nat, sizeY: nat, intersects: Intersects, colliders: seq<(Collider, Transform)>): (w: set<GridPos>)
    ensures forall p :: p in w <==> InBound(sizeX, sizeY, p) && HitBy(intersects, colliders, p)
  {
    set x: nat, y: nat | x < sizeX && y < sizeY && HitBy(intersects, colliders, GridPos(x, y)) :: GridPos(x, y)
  }

  /** The rasterisation loops of `build`: for each collider of the flow-field layer,
      every cell of the grid is probed and the hit cells are added to `walls`. */
  method RasterizeWalls(sizeX: nat, sizeY: nat, intersects: Intersects, colliders: seq<(Collider, Transform)>)
    returns (walls: set<GridPos>)
    ensures walls == WallCells(sizeX, sizeY, intersects, colliders)
  {
    walls := {};
    for k := 0 to |colliders|
      invariant forall p :: p in walls <==> InBound(sizeX, sizeY, p) && HitBy(intersects, colliders[..k], p)
    {
      var (col, trans) := colliders[k];
      ghost var before := walls;
      if col.layer == FlowFieldLayer {
        for x := 0 to sizeX
          invariant forall p :: p in walls <==>
            p in before || (InBound(sizeX, sizeY, p) && p.x < x && BlockHit(intersects, col, trans, p))
        {
          for y := 0 to sizeY
            invariant forall p :: p in walls <==>
              p in before || (InBound(sizeX, sizeY, p) && (p.x < x || (p.x == x && p.y < y)) &&
                              BlockHit(intersects, col, trans, p))
          {
            if BlockHit(intersects, col, trans, GridPos(x, y)) {
              walls := walls + {GridPos(x, y)};
            }
          }
        }
      }
      HitByStep(intersects, colliders, k);
    }
    assert colliders[..|colliders|] == colliders;
  }

  /** A cell is hit by the first `k + 1` colliders exactly when it is hit by the first `k`
      or by collider `k`. */
  lemma HitByStep(intersects: Intersects, colliders: seq<(Collider, Transform)>, k: nat)
    requires k < |colliders|
    ensures forall p :: HitBy(intersects, colliders[..k + 1], p) <==>
              HitBy(intersects, colliders[..k], p) ||
              (colliders[k].0.layer == FlowFieldLayer && BlockHit(intersects, colliders[k].0, colliders[k].1, p))
  {
    forall p ensures HitBy(intersects, colliders[..k + 1], p) <==>
              HitBy(intersects, colliders[..k], p) ||
              (colliders[k].0.layer == FlowFieldLayer && BlockHit(intersects, colliders[k].0, colliders[k].1, p))
    {
      if HitBy(intersects, colliders[..k + 1], p) {
        var j :| 0 <= j < k + 1 && colliders[..k + 1][j].0.layer == FlowFieldLayer &&
                 BlockHit(intersects, colliders[..k + 1][j].0, colliders[..k + 1][j].1, p);
        if j < k { assert colliders[..k][j] == colliders[j]; }
      }
      if HitBy(intersects, colliders[..k], p) {
        var j :| 0 <= j < k && colliders[..k][j].0.layer == FlowFieldLayer &&
                 BlockHit(intersects, colliders[..k][j].0, colliders[..k][j].1, p);
        assert colliders[..k + 1][j] == colliders[j];
      }
      if colliders[k].0.layer == FlowFieldLayer && BlockHit(intersects, colliders[k].0, colliders[k].1, p) {
        assert colliders[..k + 1][k] == colliders[k];
      }
    }
  }

  /** Colliders of other layers never add walls: dropping them leaves the wall set as it is. */
  lemma {:induction false} OtherLayersIgnored(sizeX: nat, sizeY: nat, intersects: Intersects,
                                             colliders: seq<(Collider, Transform)>, col: Collider, trans: Transform)
    requires col.layer != FlowFieldLayer
    ensures WallCells(sizeX, sizeY, intersects, colliders + [(col, trans)]) == WallCells(sizeX, sizeY, intersects, colliders)
  {
    var more := colliders + [(col, trans)];
    HitByStep(intersects, more, |colliders|);
    assert more[..|colliders|] == colliders;
    assert more[..|colliders| + 1] == more;
  }
}
