/** The element records of src/types/index.ts shared by the rule-based
    generator and the pairwise deadlock checker: an element sits at grid
    column `x`, row `y` and spans `width` columns and `height` rows. */
module Elements {
  import opened Geometry

  datatype Element = Element(id: string, kind: string, direction: Direction,
                             width: int, height: int, x: int, y: int)

  /** `LevelConfig` of src/types/index.ts: a generated level. */
  datatype Layout = Layout(id: int, rows: int, cols: int, elements: seq<Element>)

  /** Cell (row, col) lies in the element's rectangle. */
  predicate InRect(e: Element, row: int, col: int)
  {
    e.y <= row < e.y + e.height && e.x <= col < e.x + e.width
  }
}
