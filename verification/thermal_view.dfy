/** One refresh of `loop()` without the bus and the screen: the decoded frame
    is walked in drawing order, and every cell gets the colour level its
    element maps to and the whole-degree label printed over it. */
module ThermalView {
  import opened FrameDecoder
  import opened GridLayout
  import opened Rescale

  /** What the sketch draws at one position: `level` is the 0..100 value
      whose hundredth is passed to `heat`, `caption` is `(int)t`, the whole
      degrees printed in the cell. */
  datatype Cell = Cell(pos: Position, level: int, caption: int)

  /** The cell drawn at `p` for a decoded frame. */
  function CellAt(temps: seq<int>, p: Position): (c: Cell)
    requires |temps| == Elements && p.Valid()
    ensures c.pos == p && 0 <= c.level <= FullScale
  {
    var t := temps[SourceIndex(p)];
    Cell(p, Level(t), Degrees(t))
  }

  /** The 64 cells of one refresh in drawing order (`y` outer, `x` inner). */
  function RenderPlan(raw: seq<Byte>): (cells: seq<Cell>)
    requires |raw| == FrameBytes
    ensures |cells| == Cells
    ensures forall k :: 0 <= k < Cells ==>
              cells[k].pos.Valid() && cells[k].pos.y * Side + cells[k].pos.x == k
    ensures forall k :: 0 <= k < Cells ==> 0 <= cells[k].level <= FullScale
  {
    var temps := DecodeFrame(raw);
    seq(Cells, k requires 0 <= k < Cells => CellAt(temps, RasterPosition(k)))
  }

  /** Cell `k` of the plan shows the element read from bytes
      `2 * (63 - k)` and `2 * (63 - k) + 1`: the mirrored grid is the raw
      buffer drawn back to front. */
  lemma RenderPlanReversesFrame(raw: seq<Byte>, k: int)
    requires |raw| == FrameBytes && 0 <= k < Cells
    ensures var q := DecodeWord(Word(raw[2 * (Cells - 1 - k)], raw[2 * (Cells - 1 - k) + 1]));
            RenderPlan(raw)[k].level == Level(q) && RenderPlan(raw)[k].caption == Degrees(q)
  {
    SourceIndexReversesRaster(k);
  }

  /** Every element of the frame is drawn in exactly one cell. */
  lemma RenderPlanShowsEachElementOnce(raw: seq<Byte>, i: int)
    requires |raw| == FrameBytes && 0 <= i < Elements
    ensures exists k :: 0 <= k < Cells && SourceIndex(RenderPlan(raw)[k].pos) == i
    ensures forall k1, k2 ::
              (0 <= k1 < Cells && 0 <= k2 < Cells &&
               SourceIndex(RenderPlan(raw)[k1].pos) == i &&
               SourceIndex(RenderPlan(raw)[k2].pos) == i) ==> k1 == k2
  {
    var cells := RenderPlan(raw);
    var k := Cells - 1 - i;
    SourceIndexReversesRaster(k);
    assert SourceIndex(cells[k].pos) == i;
    forall k1, k2 | 0 <= k1 < Cells && 0 <= k2 < Cells &&
                    SourceIndex(cells[k1].pos) == i && SourceIndex(cells[k2].pos) == i
      ensures k1 == k2
    {
      SourceIndexInjective(cells[k1].pos, cells[k2].pos);
    }
  }

  /** An all-zero buffer draws every cell at level 0 captioned 0. */
  lemma RenderPlanZeroFrame(raw: seq<Byte>)
    requires |raw| == FrameBytes
    requires forall j :: 0 <= j < |raw| ==> raw[j] == 0
    ensures forall k :: 0 <= k < Cells ==>
              RenderPlan(raw)[k].level == 0 && RenderPlan(raw)[k].caption == 0
  {
    DecodeZeroFrame(raw);
  }
}
