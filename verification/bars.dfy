/** The bar layout of `visualizeArray` (src/main.go:135-143): element `i` becomes a column of
    filled cells at `x = i * 4`, growing up from the bottom row, clipped to the surface height. */
module Bars {
  import Config

  /** A surface coordinate passed to `SetContent`; row 0 is the top. */
  datatype Cell = Cell(x: int, y: int)

  /** The number of cells drawn for a value: none for a value below 1, the value itself up to
      the surface height, and the surface height above it. */
  function BarHeight(value: int): (h: int)
    ensures 0 <= h <= Config.ScreenHeight
    ensures h <= value || h == 0
    ensures h < value ==> h == Config.ScreenHeight
  {
    if value <= 0 then 0
    else if value <= Config.ScreenHeight then value
    else Config.ScreenHeight
  }

  /** `c` is filled by the bar of some element: its column is a multiple of the bar spacing
      naming an element, and its row is one of the bottom `BarHeight` rows. */
  predicate InBar(arr: seq<int>, c: Cell) {
    && c.x % Config.BarSpacing == 0
    && 0 <= c.x / Config.BarSpacing < |arr|
    && Config.ScreenHeight - BarHeight(arr[c.x / Config.BarSpacing]) <= c.y < Config.ScreenHeight
  }

  /** Drawing order: bars left to right, each from the bottom row up. */
  predicate DrawnBefore(c: Cell, d: Cell) {
    c.x < d.x || (c.x == d.x && c.y > d.y)
  }

  /** Total number of cells of all bars. */
  function TotalHeight(arr: seq<int>): (n: nat)
    ensures n <= |arr| * Config.ScreenHeight
  {
    if |arr| == 0 then 0 else TotalHeight(arr[..|arr| - 1]) + BarHeight(arr[|arr| - 1])
  }

  /** The cells the two nested loops of `visualizeArray` fill, in call order. Exactly the bar
      cells are filled, each once and in drawing order, and every row written lies on the
      surface (the clip at `screenHeight` keeps `screenHeight - j - 1` from going negative). */
  method BarCells(arr: seq<int>) returns (cells: seq<Cell>)
    ensures forall c :: c in cells <==> InBar(arr, c)
    ensures forall p, q :: 0 <= p < q < |cells| ==> DrawnBefore(cells[p], cells[q])
    ensures |cells| == TotalHeight(arr)
    ensures forall c :: c in cells ==> 0 <= c.y < Config.ScreenHeight
  {
    cells := [];
    var i := 0;
    while i < |arr|
      invariant 0 <= i <= |arr|
      invariant forall c :: c in cells <==> InBar(arr[..i], c)
      invariant forall p, q :: 0 <= p < q < |cells| ==> DrawnBefore(cells[p], cells[q])
      invariant |cells| == TotalHeight(arr[..i])
    {
      var value := arr[i];
      var j := 0;
      while j < value
        invariant 0 <= j <= BarHeight(value)
        invariant forall c :: c in cells <==>
          InBar(arr[..i], c) || (c.x == i * Config.BarSpacing && Config.ScreenHeight - j <= c.y < Config.ScreenHeight)
        invariant forall p, q :: 0 <= p < q < |cells| ==> DrawnBefore(cells[p], cells[q])
        invariant |cells| == TotalHeight(arr[..i]) + j
      {
        if j >= Config.ScreenHeight {
          break;
        }
        cells := cells + [Cell(i * Config.BarSpacing, Config.ScreenHeight - j - 1)];
        j := j + 1;
      }
      assert j == BarHeight(value);
      assert arr[..i + 1][..i] == arr[..i];
      i := i + 1;
    }
    assert arr[..i] == arr;
  }
}
