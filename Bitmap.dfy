/**
 * Pillow images as the pipeline uses them: rectangular grids of RGBA pixels
 * (mode "RGBA") or of 8-bit grey levels (mode "L"), indexed by column `x`
 * and row `y`; and the in-place `paste` of one image into another.
 */
module Bitmap {

  type byte = x: int | 0 <= x < 256

  datatype Rgba = Rgba(r: byte, g: byte, b: byte, a: byte)

  const Transparent := Rgba(0, 0, 0, 0)

  datatype Grid<T> = Grid(width: nat, height: nat, rows: seq<seq<T>>)

  /** `height` rows of `width` pixels each. */
  predicate Shaped<T>(g: Grid<T>) {
    |g.rows| == g.height && forall y | 0 <= y < g.height :: |g.rows[y]| == g.width
  }

  type Raster<T> = g: Grid<T> | Shaped(g) witness Grid(0, 0, [])

  predicate SameSize<T, U>(a: Raster<T>, b: Raster<U>) {
    a.width == b.width && a.height == b.height
  }

  predicate InBounds<T>(g: Raster<T>, x: int, y: int) {
    0 <= x < g.width && 0 <= y < g.height
  }

  function At<T>(g: Raster<T>, x: int, y: int): T
    requires InBounds(g, x, y)
  {
    g.rows[y][x]
  }

  /** Two rasters of one size with the same pixels are the same raster. */
  lemma Extensionality<T>(a: Raster<T>, b: Raster<T>)
    requires SameSize(a, b)
    requires forall x, y | InBounds(a, x, y) :: At(a, x, y) == At(b, x, y)
    ensures a == b
  {
    forall y | 0 <= y < a.height
      ensures a.rows[y] == b.rows[y]
    {
      assert forall x | 0 <= x < a.width :: a.rows[y][x] == At(a, x, y) == At(b, x, y) == b.rows[y][x];
    }
  }

  /** `Image.new(mode, (w, h), fill)`. */
  function Filled<T>(w: nat, h: nat, fill: T): (r: Raster<T>)
    ensures r.width == w && r.height == h
    ensures forall x, y | InBounds(r, x, y) :: At(r, x, y) == fill
  {
    Grid(w, h, seq(h, _ => seq(w, _ => fill)))
  }

  /** `src` pasted into `dst` with its top-left corner at (ox, oy), clipped to `dst`. */
  predicate Covers<T, U>(src: Raster<T>, dst: Raster<U>, ox: int, oy: int, x: int, y: int) {
    InBounds(dst, x, y) && InBounds(src, x - ox, y - oy)
  }

  function Pasted<T>(dst: Raster<T>, src: Raster<T>, ox: int, oy: int): (r: Raster<T>)
    ensures SameSize(r, dst)
    ensures forall x, y | InBounds(r, x, y) ::
      At(r, x, y) == if Covers(src, dst, ox, oy, x, y) then At(src, x - ox, y - oy) else At(dst, x, y)
  {
    Grid(dst.width, dst.height, seq(dst.height, y requires 0 <= y < dst.height => PastedRow(dst, src, ox, oy, y)))
  }

  function PastedRow<T>(dst: Raster<T>, src: Raster<T>, ox: int, oy: int, y: int): (row: seq<T>)
    requires 0 <= y < dst.height
    ensures |row| == dst.width
  {
    seq(dst.width, x requires 0 <= x < dst.width =>
      if Covers(src, dst, ox, oy, x, y) then At(src, x - ox, y - oy) else At(dst, x, y))
  }

  /** Pillow's pixel buffer, row-major: `a[y, x]`. */
  method ToArray<T>(g: Raster<T>) returns (a: array2<T>)
    ensures fresh(a)
    ensures a.Length0 == g.height && a.Length1 == g.width
    ensures forall y, x | 0 <= y < a.Length0 && 0 <= x < a.Length1 :: a[y, x] == At(g, x, y)
  {
    a := new T[g.height, g.width]((y: int, x: int) requires 0 <= y < g.height && 0 <= x < g.width => At(g, x, y));
  }

  method FromArray<T>(a: array2<T>) returns (g: Raster<T>)
    ensures g.height == a.Length0 && g.width == a.Length1
    ensures forall x, y | InBounds(g, x, y) :: At(g, x, y) == a[y, x]
  {
    var rows := seq(a.Length0, y reads a requires 0 <= y < a.Length0 =>
      seq(a.Length1, x reads a requires 0 <= x < a.Length1 => a[y, x]));
    g := Grid(a.Length1, a.Length0, rows);
  }

  /** `dst.paste(src, (ox, oy))` on the pixel buffer: the covered pixels take `src`'s values, the rest stay. */
  method Paste<T>(dst: array2<T>, src: Raster<T>, ox: int, oy: int)
    modifies dst
    ensures forall y, x | 0 <= y < dst.Length0 && 0 <= x < dst.Length1 ::
      dst[y, x] == if InBounds(src, x - ox, y - oy) then At(src, x - ox, y - oy) else old(dst[y, x])
  {
    var y := 0;
    while y < dst.Length0
      invariant 0 <= y <= dst.Length0
      invariant forall j, x | 0 <= j < dst.Length0 && 0 <= x < dst.Length1 ::
        dst[j, x] == if j < y && InBounds(src, x - ox, j - oy) then At(src, x - ox, j - oy) else old(dst[j, x])
    {
      var x := 0;
      while x < dst.Length1
        invariant 0 <= x <= dst.Length1
        invariant forall j, i | 0 <= j < dst.Length0 && 0 <= i < dst.Length1 ::
          dst[j, i] == if (j < y || (j == y && i < x)) && InBounds(src, i - ox, j - oy) then At(src, i - ox, j - oy) else old(dst[j, i])
      {
        if InBounds(src, x - ox, y - oy) {
          dst[y, x] := At(src, x - ox, y - oy);
        }
        x := x + 1;
      }
      y := y + 1;
    }
  }

  /** Pasting through the pixel buffer computes `Pasted`. */
  method PasteImage<T>(dst: Raster<T>, src: Raster<T>, ox: int, oy: int) returns (r: Raster<T>)
    ensures r == Pasted(dst, src, ox, oy)
  {
    var a := ToArray(dst);
    Paste(a, src, ox, oy);
    r := FromArray(a);
    Extensionality(r, Pasted(dst, src, ox, oy));
  }
}
