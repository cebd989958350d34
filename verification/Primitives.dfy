/** Drawing on a pixel surface: filled rectangles, the pointer shape and lines. */
module Primitives {
  import opened Bytes

  type Color = u32

  datatype Rect = Rect(x: int, y: int, width: int, height: int)

  predicate InRect(r: Rect, x: int, y: int) {
    r.x <= x < r.x + r.width && r.y <= y < r.y + r.height
  }

  predicate OnSurface(s: array2<Color>, x: int, y: int) {
    0 <= y < s.Length0 && 0 <= x < s.Length1
  }

  function Max(a: int, b: int): int {
    if a > b then a else b
  }

  function Min(a: int, b: int): int {
    if a < b then a else b
  }

  /** The part of the rectangle that lies on a surface of this size. */
  function Clipped(r: Rect, width: nat, height: nat): Rect {
    var left, top := Max(r.x, 0), Max(r.y, 0);
    var right, bottom := Min(r.x + r.width, width), Min(r.y + r.height, height);
    if r.width <= 0 || r.height <= 0 || left >= right || top >= bottom then Rect(0, 0, 0, 0)
    else Rect(left, top, right - left, bottom - top)
  }

  lemma ClippedCovers(r: Rect, width: nat, height: nat)
    ensures forall x, y :: InRect(Clipped(r, width, height), x, y) <==>
            InRect(r, x, y) && 0 <= x < width && 0 <= y < height
  {}

  method FillRow(s: array2<Color>, y: int, left: int, right: int, color: Color)
    requires 0 <= y < s.Length0 && 0 <= left <= right <= s.Length1
    modifies s
    ensures forall v, u :: 0 <= v < s.Length0 && 0 <= u < s.Length1 ==>
            s[v, u] == if v == y && left <= u < right then color else old(s[v, u])
  {
    for x := left to right
      invariant forall v, u :: 0 <= v < s.Length0 && 0 <= u < s.Length1 ==>
                s[v, u] == if v == y && left <= u < x then color else old(s[v, u])
    {
      s[y, x] := color;
    }
  }

  /** Fills the part of the rectangle that lies on the surface, and nothing else. */
  method FillRect(s: array2<Color>, r: Rect, color: Color)
    modifies s
    ensures forall v, u :: 0 <= v < s.Length0 && 0 <= u < s.Length1 ==>
            s[v, u] == if InRect(r, u, v) then color else old(s[v, u])
  {
    var part := Clipped(r, s.Length1, s.Length0);
    ClippedCovers(r, s.Length1, s.Length0);
    if part.width == 0 {
      return;
    }
    for y := part.y to part.y + part.height
      invariant forall v, u :: 0 <= v < s.Length0 && 0 <= u < s.Length1 ==>
                s[v, u] == if InRect(part, u, v) && v < y then color else old(s[v, u])
    {
      FillRow(s, y, part.x, part.x + part.width, color);
    }
  }

  const POINTER_WIDTH := 8
  const POINTER_HEIGHT := 12
  const POINTER_ROWS: seq<nat> := [1, 2, 3, 4, 5, 6, 7, 8, 5, 3, 3, 2]

  /** The pixels of the pointer with its tip at `px`, `py`. */
  predicate PointerCovers(px: int, py: int, x: int, y: int) {
    0 <= y - py < POINTER_HEIGHT && 0 <= x - px < POINTER_ROWS[y - py]
  }

  lemma PointerInBounds(px: int, py: int, x: int, y: int)
    requires PointerCovers(px, py, x, y)
    ensures InRect(Rect(px, py, POINTER_WIDTH, POINTER_HEIGHT), x, y)
  {}

  method DrawPointer(s: array2<Color>, px: int, py: int, color: Color)
    modifies s
    ensures forall v, u :: 0 <= v < s.Length0 && 0 <= u < s.Length1 ==>
            s[v, u] == if PointerCovers(px, py, u, v) then color else old(s[v, u])
  {
    for row := 0 to POINTER_HEIGHT
      invariant forall v, u :: 0 <= v < s.Length0 && 0 <= u < s.Length1 ==>
                s[v, u] == if PointerCovers(px, py, u, v) && v - py < row then color else old(s[v, u])
    {
      FillRect(s, Rect(px, py + row, POINTER_ROWS[row], 1), color);
    }
  }
}
