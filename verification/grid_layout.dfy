/** Which decoded element each display cell shows. The screen is drawn row by
    row (`y` outer, `x` inner), and cell (x, y) reads element
    `(8 - y - 1) * 8 + 8 - x - 1`: both axes are mirrored relative to the
    order in which the sensor delivers its pixels. */
module GridLayout {

  /** Cells per side of the 8x8 grid. */
  const Side: int := 8
  /** Cells in the grid. */
  const Cells: nat := Side * Side

  /** A display cell, column `x` and row `y`. */
  datatype Position = Position(x: int, y: int)
  {
    predicate Valid() { 0 <= x < Side && 0 <= y < Side }
  }

  /** The element of the decoded frame shown at cell (x, y). */
  function SourceIndex(p: Position): (i: int)
    requires p.Valid()
    ensures 0 <= i < Cells
  {
    (Side - p.y - 1) * Side + Side - p.x - 1
  }

  /** The cell that shows element `i`: the inverse of `SourceIndex`. */
  function CellOf(i: int): (p: Position)
    requires 0 <= i < Cells
    ensures p.Valid() && SourceIndex(p) == i
  {
    Position(Side - 1 - i % Side, Side - 1 - i / Side)
  }

  /** The position the `k`-th drawn cell occupies (row-major, `y` outer). */
  function RasterPosition(k: int): (p: Position)
    requires 0 <= k < Cells
    ensures p.Valid() && p.y * Side + p.x == k
  {
    Position(k % Side, k / Side)
  }

  /** Cell (0, 0) shows the last element and (7, 7) the first. */
  lemma Corners()
    ensures SourceIndex(Position(0, 0)) == 63
    ensures SourceIndex(Position(7, 7)) == 0
  {
  }

  /** Mirroring both axes is the same as reversing the raster order: the
      `k`-th cell drawn shows element `63 - k`. */
  lemma SourceIndexReversesRaster(k: int)
    requires 0 <= k < Cells
    ensures SourceIndex(RasterPosition(k)) == Cells - 1 - k
  {
  }

  /** No two cells show the same element. */
  lemma SourceIndexInjective(p1: Position, p2: Position)
    requires p1.Valid() && p2.Valid()
    requires SourceIndex(p1) == SourceIndex(p2)
    ensures p1 == p2
  {
  }

  /** Every element is shown by some cell. */
  lemma SourceIndexSurjective(i: int)
    requires 0 <= i < Cells
    ensures exists p: Position :: p.Valid() && SourceIndex(p) == i
  {
    var p := CellOf(i);
    assert p.Valid() && SourceIndex(p) == i;
  }

  /** `CellOf` undoes `SourceIndex`, so together the two are a bijection
      between the grid and the element indices. */
  lemma CellOfSourceIndex(p: Position)
    requires p.Valid()
    ensures CellOf(SourceIndex(p)) == p
  {
    SourceIndexInjective(CellOf(SourceIndex(p)), p);
  }
}
