/** The ant and its single simulation step (Ant.move). */
module Turmite {
  import opened Results
  import opened Seqs
  import opened Headings
  import opened Colour
  import opened Surfaces

  /** The ant: where it stands and which way it faces. */
  datatype Ant = Ant(pos: Pos, dir: Heading)

  /** What a simulation step works on: the ant and the surface under it. */
  datatype State = State(ant: Ant, surface: Grid)

  /** Why a step raised. OffGrid is get_at's IndexError; UnknownColour is
      index's ValueError; NoRule and NoColour are the IndexErrors of rules[i]
      and colours[k]; BadColour is set_at's ValueError. */
  datatype StepError =
    | OffGrid
    | UnknownColour(c: Rgba)
    | NoRule(index: nat)
    | NoColour(index: nat)
    | BadColour(c: Rgba)

  /** Ant(x, y): a new ant at (x, y) facing north. */
  function NewAnt(x: int, y: int): (a: Ant)
    ensures a.pos.x == x && a.pos.y == y
    ensures a.dir == Dirs[0]
  {
    Ant(Pos(x, y), 'N')
  }

  /** Obey one rule symbol: 'R' turns right, 'L' turns left, anything else goes straight. */
  function Turn(d: Heading, symbol: char): (r: Heading)
    ensures symbol == 'R' ==> r == Clockwise(d)
    ensures symbol == 'L' ==> Clockwise(r) == d
    ensures symbol != 'R' && symbol != 'L' ==> r == d
  {
    if symbol == 'R' then TurnRight(d)
    else if symbol == 'L' then TurnLeft(d)
    else d
  }

  function Abs(n: int): nat { if n < 0 then -n else n }

  /** One unit forward: north is y - 1, east x + 1, south y + 1, west x - 1. */
  function Advance(p: Pos, d: Heading): (q: Pos)
    ensures Abs(q.x - p.x) + Abs(q.y - p.y) == 1
    ensures (d == 'N' || d == 'S') <==> q.x == p.x
    ensures q.y < p.y <==> d == 'N'
    ensures q.x > p.x <==> d == 'E'
  {
    if d == 'N' then Pos(p.x, p.y - 1)
    else if d == 'E' then Pos(p.x + 1, p.y)
    else if d == 'S' then Pos(p.x, p.y + 1)
    else Pos(p.x - 1, p.y)
  }

  /** st' is st with the ant's cell repainted to c, every other cell as it
      was, and the ant facing d one unit further on in heading d. */
  ghost predicate Moved(st: State, st': State, d: Heading, c: Rgba) {
    && st'.ant.dir == d
    && st'.ant.pos == Advance(st.ant.pos, d)
    && st'.surface.w == st.surface.w && st'.surface.h == st.surface.h
    && forall q :: st.surface.Contains(q) ==>
         st'.surface.At(q) == if q == st.ant.pos then c else st.surface.At(q)
  }

  /** The outcome of a step on a cell whose colour first appears at palette position i. */
  ghost predicate Obeys(st: State, rules: string, colours: seq<Rgba>, i: nat, r: Result<State, StepError>) {
    if i >= |rules| then r == Err(NoRule(i))
    else
      var k := (i + 1) % |rules|;
      if k >= |colours| then r == Err(NoColour(k))
      else if !Paintable(colours[k]) then r == Err(BadColour(colours[k]))
      else r.Ok? && Moved(st, r.value, Turn(st.ant.dir, rules[i]), colours[k])
  }

  /** Ant.move: read the cell, find its colour's first palette position i,
      turn by rules[i], repaint the cell with colours[(i + 1) % |rules|],
      then advance one unit in the new heading. */
  function Step(st: State, rules: string, colours: seq<Rgba>): (r: Result<State, StepError>)
    ensures r == Err(OffGrid) <==> !st.surface.Contains(st.ant.pos)
    ensures st.surface.Contains(st.ant.pos) && st.surface.At(st.ant.pos) !in colours ==>
              r == Err(UnknownColour(st.surface.At(st.ant.pos)))
    // At most one i is a first match (Seqs.FirstMatchUnique), so this pins the outcome.
    ensures forall i :: st.surface.Contains(st.ant.pos) && FirstMatch(colours, st.surface.At(st.ant.pos), i) ==>
              Obeys(st, rules, colours, i, r)
  {
    var p := st.ant.pos;
    match GetAt(st.surface, p)
    case None => Err(OffGrid)
    case Some(colour) =>
      match IndexOf(colours, colour)
      case None => Err(UnknownColour(colour))
      case Some(i) =>
        if i >= |rules| then Err(NoRule(i))
        else
          var dir := Turn(st.ant.dir, rules[i]);
          var k := (i + 1) % |rules|;
          if k >= |colours| then Err(NoColour(k))
          else match SetAt(st.surface, p, colours[k])
            case None => Err(BadColour(colours[k]))
            case Some(s') => Ok(State(Ant(Advance(p, dir), dir), s'))
  }

  /** Rules and palette agree: at least one rule, no more rules than colours,
      and every colour the cycle can paint is one pygame accepts. */
  predicate Consistent(rules: string, colours: seq<Rgba>) {
    1 <= |rules| <= |colours| && forall i :: 0 <= i < |rules| ==> Paintable(colours[i])
  }

  /** Every cell of s holds one of the first n palette colours. */
  ghost predicate PaintedFrom(s: Grid, colours: seq<Rgba>, n: nat)
    requires n <= |colours|
  {
    forall q :: s.Contains(q) ==> s.At(q) in colours[..n]
  }

  /** With consistent rules and palette, a surface painted from the first
      |rules| colours stays so, and the only way the step can fail is by
      reading off the grid. */
  lemma StepKeepsPalette(st: State, rules: string, colours: seq<Rgba>)
    requires Consistent(rules, colours) && PaintedFrom(st.surface, colours, |rules|)
    ensures Step(st, rules, colours).Ok? || Step(st, rules, colours) == Err(OffGrid)
    ensures Step(st, rules, colours).Ok? ==>
              PaintedFrom(Step(st, rules, colours).value.surface, colours, |rules|)
  {
    var p := st.ant.pos;
    if st.surface.Contains(p) {
      var c := st.surface.At(p);
      var j :| 0 <= j < |rules| && colours[..|rules|][j] == c;
      assert colours[j] == c;
      var i := IndexOf(colours, c).value;
      assert FirstMatch(colours, c, i);
      assert i <= j;
      var k := (i + 1) % |rules|;
      assert Obeys(st, rules, colours, i, Step(st, rules, colours));
      var st' := Step(st, rules, colours).value;
      assert colours[..|rules|][k] == colours[k];
      forall q | st'.surface.Contains(q)
        ensures st'.surface.At(q) in colours[..|rules|]
      {
        assert st.surface.Contains(q);
      }
    }
  }
}
