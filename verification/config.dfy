/** The compile-time constants of the bogosort visualiser (src/main.go:37-41, 80). */
module Config {

  /** Width of the drawing surface in cells; the bar layout does not consult it. */
  const ScreenWidth: int := 20

  /** Height of the drawing surface in cells: the largest generated value and the bar clip height. */
  const ScreenHeight: int := 20

  /** Length of the slice that is bogosorted. */
  const ArraySize: int := 15

  /** Loop iterations between two throttled redraws while the slice is unsorted. */
  const RenderThreshold: int := 150000

  /** Horizontal distance, in cells, between two neighbouring bars. */
  const BarSpacing: int := 4
}
