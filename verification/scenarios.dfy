/** Hand-computed runs of the simulation, proved to match the model. */
module Scenarios {
  import opened Results
  import opened Headings
  import opened Colour
  import opened Surfaces
  import opened Turmite
  import opened Runner

  const White := Rgba(255, 255, 255, 255)
  const Black := Rgba(0, 0, 0, 255)

  /** On a 1 × 1 surface with Langton's rules the ant repaints its only cell
      black, turns east and walks off: the first frame ends after one step
      with an off-grid read. */
  lemma OneCellHalts()
    ensures var o := Frames(Move("RL", Pal2), Initial(1, 1, White), 1000, [false]);
              o.taken == 1 && o.stop == Some(Fault(OffGrid)) &&
              o.state.surface.At(Pos(0, 0)) == Black && o.state.ant == Ant(Pos(1, 0), 'E')
  {
  }

  /** The two-colour palette decodes to opaque white and black. */
  lemma WhiteBlackPalette()
    ensures ParsePalette(["#ffffff", "#000000"]) == Ok([White, Black])
  {
    HexToRgbWellFormed("#ffffff");
    HexToRgbWellFormed("#000000");
    assert PairValue("#ffffff", 1) == 255 && PairValue("#ffffff", 3) == 255 && PairValue("#ffffff", 5) == 255;
    assert PairValue("#000000", 1) == 0 && PairValue("#000000", 3) == 0 && PairValue("#000000", 5) == 0;
    var parsed := ParsePalette(["#ffffff", "#000000"]);
    assert parsed.value[0] == White && parsed.value[1] == Black;
    assert parsed.value == [White, Black];
  }

  const Rules3 := "RRL"
  const Pal2 := [White, Black]

  /** The ant at (x, y) facing d on a 3 × 3 surface whose rows are given. */
  function On3x3(x: int, y: int, d: Heading, rows: seq<seq<Rgba>>): State
    requires |rows| == 3 && forall r :: 0 <= r < 3 ==> |rows[r]| == 3
  {
    State(Ant(Pos(x, y), d), Surface(3, 3, rows))
  }

  const WWW := [White, White, White]

  lemma InitialIsWhite()
    ensures Initial(3, 3, White) == On3x3(1, 1, 'N', [WWW, WWW, WWW])
  {
    var s := Initial(3, 3, White).surface;
    assert s.rows[0] == WWW && s.rows[1] == WWW && s.rows[2] == WWW;
  }

  lemma Square1()
    ensures Step(On3x3(1, 1, 'N', [WWW, WWW, WWW]), Rules3, Pal2)
         == Ok(On3x3(2, 1, 'E', [WWW, [White, Black, White], WWW]))
  {
    assert WWW[1 := Black] == [White, Black, White];
    assert [WWW, WWW, WWW][1 := [White, Black, White]] == [WWW, [White, Black, White], WWW];
  }

  lemma Square2()
    ensures Step(On3x3(2, 1, 'E', [WWW, [White, Black, White], WWW]), Rules3, Pal2)
         == Ok(On3x3(2, 2, 'S', [WWW, [White, Black, Black], WWW]))
  {
    assert [White, Black, White][2 := Black] == [White, Black, Black];
    assert [WWW, [White, Black, White], WWW][1 := [White, Black, Black]] == [WWW, [White, Black, Black], WWW];
  }

  lemma Square3()
    ensures Step(On3x3(2, 2, 'S', [WWW, [White, Black, Black], WWW]), Rules3, Pal2)
         == Ok(On3x3(1, 2, 'W', [WWW, [White, Black, Black], [White, White, Black]]))
  {
    assert WWW[2 := Black] == [White, White, Black];
    assert [WWW, [White, Black, Black], WWW][2 := [White, White, Black]]
        == [WWW, [White, Black, Black], [White, White, Black]];
  }

  lemma Square4()
    ensures Step(On3x3(1, 2, 'W', [WWW, [White, Black, Black], [White, White, Black]]), Rules3, Pal2)
         == Ok(On3x3(1, 1, 'N', [WWW, [White, Black, Black], [White, Black, Black]]))
  {
    assert [White, White, Black][1 := Black] == [White, Black, Black];
    assert [WWW, [White, Black, Black], [White, White, Black]][2 := [White, Black, Black]]
        == [WWW, [White, Black, Black], [White, Black, Black]];
  }

  /** Back on its start, now black (palette position 1), the ant finds rule
      'R' but the successor position (1 + 1) % 3 = 2 is past the palette. */
  lemma Square5()
    ensures Step(On3x3(1, 1, 'N', [WWW, [White, Black, Black], [White, Black, Black]]), Rules3, Pal2)
         == Err(NoColour(2))
  {
  }

  const Square := On3x3(1, 1, 'N', [WWW, [White, Black, Black], [White, Black, Black]])

  /** The first frame of the square run: four steps, then NoColour(2). */
  lemma SquareWalk()
    ensures Walk(Move(Rules3, Pal2), On3x3(1, 1, 'N', [WWW, WWW, WWW]), 1000) == Walked(Square, 4, Some(NoColour(2)))
  {
    Square1();
    Square2();
    Square3();
    Square4();
    Square5();
    var next := Move(Rules3, Pal2);
    var s1 := On3x3(2, 1, 'E', [WWW, [White, Black, White], WWW]);
    var s2 := On3x3(2, 2, 'S', [WWW, [White, Black, Black], WWW]);
    var s3 := On3x3(1, 2, 'W', [WWW, [White, Black, Black], [White, White, Black]]);
    assert Walk(next, Square, 996) == Walked(Square, 0, Some(NoColour(2)));
    assert Walk(next, s3, 997) == Walked(Square, 1, Some(NoColour(2)));
    assert Walk(next, s2, 998) == Walked(Square, 2, Some(NoColour(2)));
    assert Walk(next, s1, 999) == Walked(Square, 3, Some(NoColour(2)));
  }

  /** Four right turns on white take the ant round the 2 × 2 block (1, 1),
      (2, 1), (2, 2), (1, 2) back to its start, which it has painted black;
      the fifth step raises and the frame ends there. */
  lemma SquareThenNoColour()
    ensures var o := Frames(Move(Rules3, Pal2), Initial(3, 3, White), 1000, [false]);
              o.taken == 4 && o.stop == Some(Fault(NoColour(2))) && o.state == Square
  {
    InitialIsWhite();
    SquareWalk();
  }

  /** More rules than colours: do_play starts, and its bare except turns the
      missing successor colour into an ordinary stop after four steps. */
  lemma RulesOutrunPalette()
    ensures var r := Play(Config(3, 3, 1000, "RRL", ["#ffffff", "#000000"]), [false]);
              r.Ok? && r.value.taken == 4 && r.value.stop == Some(Fault(NoColour(2)))
  {
    WhiteBlackPalette();
    SquareThenNoColour();
  }

  /** One colour and the single rule 'R' on a 3 × 3 surface: the ant turns
      before it moves, so its first step goes east to (2, 1) and its second
      south to (2, 2); repainting with colours[(0 + 1) % 1] keeps every cell white. */
  lemma OneColourTrace()
    ensures Steps(Move("R", [White]), Initial(3, 3, White), 1) == Ok(On3x3(2, 1, 'E', [WWW, WWW, WWW]))
    ensures Steps(Move("R", [White]), Initial(3, 3, White), 2) == Ok(On3x3(2, 2, 'S', [WWW, WWW, WWW]))
  {
    InitialIsWhite();
    assert WWW[1 := White] == WWW && WWW[2 := White] == WWW;
    assert [WWW, WWW, WWW][1 := WWW] == [WWW, WWW, WWW];
    assert [WWW, WWW, WWW][2 := WWW] == [WWW, WWW, WWW];
    assert Step(On3x3(1, 1, 'N', [WWW, WWW, WWW]), "R", [White]) == Ok(On3x3(2, 1, 'E', [WWW, WWW, WWW]));
    assert Step(On3x3(2, 1, 'E', [WWW, WWW, WWW]), "R", [White]) == Ok(On3x3(2, 2, 'S', [WWW, WWW, WWW]));
  }
}
