/** The ant's heading: one letter of the clockwise compass string "NESW". */
module Headings {
  import opened Seqs

  /** The cardinal directions in clockwise order. */
  const Dirs: string := "NESW"

  type Heading = c: char | c in Dirs witness 'N'

  /** The next heading clockwise, written out as a table. */
  function Clockwise(d: Heading): Heading {
    if d == 'N' then 'E' else if d == 'E' then 'S' else if d == 'S' then 'W' else 'N'
  }

  /** Rotate right: one position forward through Dirs, modulo 4. */
  function TurnRight(d: Heading): (r: Heading)
    ensures r == Clockwise(d)
    ensures r != d
  {
    Dirs[(IndexOf(Dirs, d).value + 1) % 4]
  }

  /** Rotate left: one position back through Dirs; from N the index is -1,
      which Python's indexing reads as the last letter, W. */
  function TurnLeft(d: Heading): (r: Heading)
    ensures TurnRight(r) == d
    ensures Clockwise(r) == d
  {
    var i := IndexOf(Dirs, d).value - 1;
    if i >= 0 then Dirs[i] else Dirs[|Dirs| + i]
  }

  /** A left turn undoes a right turn. */
  lemma LeftUndoesRight(d: Heading)
    ensures TurnLeft(TurnRight(d)) == d
  {
  }

  /** Four turns the same way bring the ant back to its heading. */
  lemma FourTurnsIdentity(d: Heading)
    ensures TurnRight(TurnRight(TurnRight(TurnRight(d)))) == d
    ensures TurnLeft(TurnLeft(TurnLeft(TurnLeft(d)))) == d
  {
    FourRights(d);
    FourLefts(d);
  }

  lemma FourRights(d: Heading)
    ensures TurnRight(TurnRight(TurnRight(TurnRight(d)))) == d
  {
    var r1 := TurnRight(d);
    var r2 := TurnRight(r1);
    var r3 := TurnRight(r2);
    assert TurnRight(r3) == Clockwise(Clockwise(Clockwise(Clockwise(d))));
  }

  lemma FourLefts(d: Heading)
    ensures TurnLeft(TurnLeft(TurnLeft(TurnLeft(d)))) == d
  {
    var l1 := TurnLeft(d);
    var l2 := TurnLeft(l1);
    var l3 := TurnLeft(l2);
    assert d == Clockwise(Clockwise(Clockwise(Clockwise(TurnLeft(l3)))));
  }
}
