/** The grid the ant walks on: a w × h pixel surface with pygame's
    bounds-checked get_at and colour-checked set_at. */
module Surfaces {
  import opened Results
  import opened Colour

  /** A pixel coordinate; x grows to the right, y grows down the screen. */
  datatype Pos = Pos(x: int, y: int)

  /** A w × h surface stored row by row: rows[y][x] is the pixel at (x, y). */
  datatype Surface = Surface(w: nat, h: nat, rows: seq<seq<Rgba>>) {
    predicate Valid() {
      |rows| == h && forall y :: 0 <= y < |rows| ==> |rows[y]| == w
    }

    predicate Contains(p: Pos) {
      0 <= p.x < w && 0 <= p.y < h
    }

    function At(p: Pos): Rgba
      requires Valid() && Contains(p)
    {
      rows[p.y][p.x]
    }
  }

  /** A surface whose rows all have the stated width: every pygame surface is one. */
  type Grid = s: Surface | s.Valid() witness Surface(0, 0, [])

  /** surface.fill(c): every pixel of a fresh w × h surface holds c. */
  function Fill(w: nat, h: nat, c: Rgba): (s: Grid)
    ensures s.w == w && s.h == h
    ensures forall p :: s.Contains(p) ==> s.At(p) == c
  {
    Surface(w, h, seq(h, _ => seq(w, _ => c)))
  }

  /** get_at: the pixel at p, or None where pygame raises IndexError. */
  function GetAt(s: Grid, p: Pos): (r: Option<Rgba>)
    ensures r.Some? <==> s.Contains(p)
    ensures r.Some? ==> r.value == s.At(p)
  {
    if s.Contains(p) then Some(s.At(p)) else None
  }

  /** set_at: a pixel outside the surface is silently not written, before
      the colour is looked at; inside it, None where pygame rejects the
      colour, otherwise exactly pixel p changes. */
  function SetAt(s: Grid, p: Pos, c: Rgba): (r: Option<Grid>)
    ensures r.None? <==> s.Contains(p) && !Paintable(c)
    ensures !s.Contains(p) ==> r == Some(s)
    ensures r.Some? ==> r.value.w == s.w && r.value.h == s.h
    ensures r.Some? ==> forall q :: s.Contains(q) ==>
              r.value.At(q) == if q == p then c else s.At(q)
  {
    if !s.Contains(p) then Some(s)
    else if !Paintable(c) then None
    else Some(s.(rows := s.rows[p.y := s.rows[p.y][p.x := c]]))
  }
}
