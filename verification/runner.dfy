/** The simulation run of App.do_play: set-up, then frames of `steps` steps
    each until a step raises or the window is closed. The frame loop is
    written for any transition, and the turmite run plugs Step into it. */
module Runner {
  import opened Results
  import opened Headings
  import opened Colour
  import opened Surfaces
  import opened Turmite

  /** The session fields do_play reads: the surface size, the steps per frame,
      the rule string and the palette as hex strings. */
  datatype Config = Config(width: nat, height: nat, steps: int, rules: string, colours: seq<string>)

  /** Why do_play stopped before its loop began: a palette entry hex_to_rgb
      rejects (its position), an empty palette, or a background colour that
      surface.fill rejects. */
  datatype SetupError = BadHex(index: nat) | NoColours | BadFill(c: Rgba)

  /** How the loop ended: a window-close event, or a step that raised. */
  datatype Stop<+E> = Quit | Fault(e: E)

  /** Steps of one frame: how many completed, the state they left, and the
      error of the step that ended the frame early, if any. */
  datatype Walked<+S, +E> = Walked(state: S, taken: nat, fault: Option<E>)

  /** The state after the frames given, the total number of completed steps,
      and why the loop stopped (None while it is still running). */
  datatype Outcome<+S, +E> = Outcome(state: S, taken: nat, stop: Option<Stop<E>>)

  /** k transitions in a row; the error of the first that fails. */
  function Steps<S, E>(next: S -> Result<S, E>, st: S, k: nat): Result<S, E>
    decreases k
  {
    if k == 0 then Ok(st)
    else match next(st)
      case Err(e) => Err(e)
      case Ok(s) => Steps(next, s, k - 1)
  }

  /** The frame's `for i in range(n)` loop: up to n steps, abandoned at the
      first step that raises. */
  function Walk<S, E>(next: S -> Result<S, E>, st: S, n: nat): (w: Walked<S, E>)
    ensures w.taken <= n
    ensures w.fault.None? <==> w.taken == n
    decreases n
  {
    if n == 0 then Walked(st, 0, None)
    else match next(st)
      case Err(e) => Walked(st, 0, Some(e))
      case Ok(s) =>
        var w := Walk(next, s, n - 1);
        w.(taken := w.taken + 1)
  }

  /** range(steps) is empty for steps <= 0. */
  function PerFrame(steps: int): nat {
    if steps > 0 then steps else 0
  }

  /** The `while True` loop over frames; quits[f] says whether a window-close
      event is pending at the start of frame f. The bare except catches both
      a step's error and the SystemExit of a close. */
  function Frames<S, E>(next: S -> Result<S, E>, st: S, steps: int, quits: seq<bool>): (o: Outcome<S, E>)
    ensures o.taken <= |quits| * PerFrame(steps)
    ensures o.stop == Some(Quit) ==> true in quits
    ensures o.stop.None? ==> true !in quits
    decreases |quits|
  {
    if |quits| == 0 then Outcome(st, 0, None)
    else if quits[0] then Outcome(st, 0, Some(Quit))
    else
      var w := Walk(next, st, PerFrame(steps));
      if w.fault.Some? then
        MulSucc(|quits| - 1, PerFrame(steps));
        Outcome(w.state, w.taken, Some(Fault(w.fault.value)))
      else
        var o := Frames(next, w.state, steps, quits[1..]);
        MulSucc(|quits| - 1, PerFrame(steps));
        assert quits == [quits[0]] + quits[1..];
        o.(taken := o.taken + w.taken)
  }

  // ------------------------------------------------- the loop, for any step

  /** a + b steps are a steps followed by b more. */
  lemma {:induction false} StepsAppend<S, E>(next: S -> Result<S, E>, st: S, a: nat, b: nat)
    ensures Steps(next, st, a + b) ==
              match Steps(next, st, a)
              case Err(e) => Err(e)
              case Ok(mid) => Steps(next, mid, b)
    decreases a
  {
    if a > 0 {
      match next(st)
      case Err(e) =>
      case Ok(s) =>
        StepsAppend(next, s, a - 1, b);
        assert a + b - 1 == (a - 1) + b;
    }
  }

  /** A frame completes the steps that succeed and stops at the first that
      fails: its state is reached by exactly `taken` steps, and the next step
      from there raises the reported error. */
  lemma {:induction false} WalkStopsAtFirstFailure<S, E>(next: S -> Result<S, E>, st: S, n: nat)
    ensures var w := Walk(next, st, n);
              Steps(next, st, w.taken) == Ok(w.state) &&
              (w.fault.Some? ==> next(w.state) == Err(w.fault.value))
    decreases n
  {
    if n > 0 {
      match next(st)
      case Err(e) =>
      case Ok(s) =>
        WalkStopsAtFirstFailure(next, s, n - 1);
    }
  }

  /** The frame loop is the step sequence cut short: the state reached is
      that of `taken` consecutive steps, and a Fault stop is the error of the
      very next step. */
  lemma {:induction false} FramesFollowSteps<S, E>(next: S -> Result<S, E>, st: S, steps: int, quits: seq<bool>)
    ensures var o := Frames(next, st, steps, quits);
              && Steps(next, st, o.taken) == Ok(o.state)
              && (o.stop.Some? && o.stop.value.Fault? ==> next(o.state) == Err(o.stop.value.e))
    decreases |quits|
  {
    if |quits| > 0 && !quits[0] {
      var w := Walk(next, st, PerFrame(steps));
      WalkStopsAtFirstFailure(next, st, PerFrame(steps));
      if w.fault.None? {
        var o := Frames(next, w.state, steps, quits[1..]);
        FramesFollowSteps(next, w.state, steps, quits[1..]);
        StepsAppend(next, st, w.taken, o.taken);
        assert o.taken + w.taken == w.taken + o.taken;
      }
    }
  }

  /** A run that has not stopped has taken exactly `steps` steps (none when
      steps <= 0) in each of its frames. */
  lemma {:induction false} FramesCountSteps<S, E>(next: S -> Result<S, E>, st: S, steps: int, quits: seq<bool>)
    ensures var o := Frames(next, st, steps, quits);
              o.stop.None? ==> o.taken == |quits| * PerFrame(steps)
    decreases |quits|
  {
    if |quits| > 0 && !quits[0] {
      var w := Walk(next, st, PerFrame(steps));
      if w.fault.None? {
        FramesCountSteps(next, w.state, steps, quits[1..]);
        MulSucc(|quits| - 1, PerFrame(steps));
      }
    }
  }

  /** The loop stops where `do_play`'s loop does. A Fault comes from a step
      of the first frame that does not complete, and every frame before it
      had no close pending and completed its steps. A Quit comes at the first
      frame with a close pending, after full frames. */
  lemma FramesStopAtFirst<S, E>(next: S -> Result<S, E>, st: S, steps: int, quits: seq<bool>)
    ensures var o := Frames(next, st, steps, quits);
              o.stop.Some? && o.stop.value.Fault? ==> o.taken < |quits| * PerFrame(steps)
    ensures var o := Frames(next, st, steps, quits);
              o.stop.Some? && o.stop.value.Fault? ==>
                exists f :: 0 <= f < |quits| && !quits[f] && OpenBefore(quits, f) &&
                            f * PerFrame(steps) <= o.taken < (f + 1) * PerFrame(steps)
    ensures var o := Frames(next, st, steps, quits);
              o.stop == Some(Quit) ==>
                exists f :: 0 <= f < |quits| && quits[f] && OpenBefore(quits, f) && o.taken == f * PerFrame(steps)
  {
    FaultAtFirst(next, st, steps, quits);
    QuitAtFirst(next, st, steps, quits);
  }

  /** No close is pending in frames 0 .. f - 1. */
  predicate OpenBefore(quits: seq<bool>, f: int) {
    forall g :: 0 <= g < f && g < |quits| ==> !quits[g]
  }

  /** The frames before f + 1 of quits are those before f of its tail, after frame 0. */
  lemma OpenBeforeTail(quits: seq<bool>, f: nat)
    requires |quits| > 0 && !quits[0] && OpenBefore(quits[1..], f)
    ensures OpenBefore(quits, f + 1)
  {
    forall g | 0 <= g < f + 1 && g < |quits|
      ensures !quits[g]
    {
      if g > 0 {
        assert quits[g] == quits[1..][g - 1];
      }
    }
  }

  lemma {:induction false} FaultAtFirst<S, E>(next: S -> Result<S, E>, st: S, steps: int, quits: seq<bool>)
    ensures var o := Frames(next, st, steps, quits);
              o.stop.Some? && o.stop.value.Fault? ==> o.taken < |quits| * PerFrame(steps)
    ensures var o := Frames(next, st, steps, quits);
              o.stop.Some? && o.stop.value.Fault? ==>
                exists f :: 0 <= f < |quits| && !quits[f] && OpenBefore(quits, f) &&
                            f * PerFrame(steps) <= o.taken < (f + 1) * PerFrame(steps)
    decreases |quits|
  {
    var p := PerFrame(steps);
    if |quits| > 0 && !quits[0] {
      var w := Walk(next, st, p);
      MulSucc(|quits| - 1, p);
      if w.fault.Some? {
        assert 0 * p == 0 && 1 * p == p;
        assert OpenBefore(quits, 0);
      } else {
        var o := Frames(next, w.state, steps, quits[1..]);
        FaultAtFirst(next, w.state, steps, quits[1..]);
        if o.stop.Some? && o.stop.value.Fault? {
          var f :| 0 <= f < |quits| - 1 && !quits[1..][f] && OpenBefore(quits[1..], f) &&
                   f * p <= o.taken < (f + 1) * p;
          MulSucc(f, p);
          MulSucc(f + 1, p);
          assert quits[f + 1] == quits[1..][f];
          OpenBeforeTail(quits, f);
        }
      }
    }
  }

  lemma {:induction false} QuitAtFirst<S, E>(next: S -> Result<S, E>, st: S, steps: int, quits: seq<bool>)
    ensures var o := Frames(next, st, steps, quits);
              o.stop == Some(Quit) ==>
                exists f :: 0 <= f < |quits| && quits[f] && OpenBefore(quits, f) && o.taken == f * PerFrame(steps)
    decreases |quits|
  {
    var p := PerFrame(steps);
    if |quits| > 0 && quits[0] {
      assert 0 * p == 0;
      assert OpenBefore(quits, 0);
    } else if |quits| > 0 {
      var w := Walk(next, st, p);
      if w.fault.None? {
        var o := Frames(next, w.state, steps, quits[1..]);
        QuitAtFirst(next, w.state, steps, quits[1..]);
        if o.stop == Some(Quit) {
          var f :| 0 <= f < |quits| - 1 && quits[1..][f] && OpenBefore(quits[1..], f) && o.taken == f * p;
          MulSucc(f, p);
          assert quits[f + 1] == quits[1..][f];
          OpenBeforeTail(quits, f);
        }
      }
    }
  }

  lemma MulSucc(n: nat, p: nat)
    ensures (n + 1) * p == n * p + p
  {
  }

  // ------------------------------------------------------ the turmite run

  /** Ant.move with the session's rules and decoded palette, as a transition. */
  function Move(rules: string, colours: seq<Rgba>): State -> Result<State, StepError> {
    st => Step(st, rules, colours)
  }

  /** list(map(f, xs)) where f may raise: every entry mapped, or the position
      of the first entry on which f raises. */
  function MapAll<A, B>(f: A -> Option<B>, xs: seq<A>): (r: Result<seq<B>, nat>)
    ensures r.Ok? ==> |r.value| == |xs|
    ensures r.Ok? ==> forall i :: 0 <= i < |xs| ==> f(xs[i]) == Some(r.value[i])
    ensures r.Err? ==> r.error < |xs| && f(xs[r.error]).None?
    ensures r.Err? ==> forall j :: 0 <= j < r.error ==> f(xs[j]).Some?
    decreases |xs|
  {
    if |xs| == 0 then Ok([])
    else
      var head := f(xs[0]);
      if head.None? then Err(0)
      else
        var tail := MapAll(f, xs[1..]);
        assert forall i :: 1 <= i < |xs| ==> xs[i] == xs[1..][i - 1];
        if tail.Err? then Err(tail.error + 1)
        else
          var ys := [head.value] + tail.value;
          assert forall i :: 1 <= i < |ys| ==> ys[i] == tail.value[i - 1];
          Ok(ys)
  }

  /** list(map(hex_to_rgb, colours)): every entry decoded, or the position of
      the first entry that raises. */
  function ParsePalette(hexes: seq<string>): (r: Result<seq<Rgba>, nat>)
    ensures r.Ok? ==> |r.value| == |hexes|
    ensures r.Ok? ==> forall i :: 0 <= i < |hexes| ==> HexToRgb(hexes[i]) == Some(r.value[i])
    ensures r.Err? ==> r.error < |hexes| && HexToRgb(hexes[r.error]).None?
    ensures r.Err? ==> forall j :: 0 <= j < r.error ==> HexToRgb(hexes[j]).Some?
  {
    MapAll(HexToRgb, hexes)
  }

  /** The state do_play starts from: a w × h surface filled with the first
      colour, and a new ant at the centre (w // 2, h // 2). */
  function Initial(w: nat, h: nat, background: Rgba): (st: State)
    ensures st.ant.pos == Pos(w / 2, h / 2) && st.ant.dir == 'N'
    ensures st.surface.w == w && st.surface.h == h
    ensures forall q :: st.surface.Contains(q) ==> st.surface.At(q) == background
    ensures w > 0 && h > 0 ==> st.surface.Contains(st.ant.pos)
  {
    State(NewAnt(w / 2, h / 2), Fill(w, h, background))
  }

  /** App.do_play without the drawing: decode the palette, fill the surface,
      place the ant, and run the frames. */
  function Play(cfg: Config, quits: seq<bool>): (r: Result<Outcome<State, StepError>, SetupError>)
    ensures ParsePalette(cfg.colours).Err? ==> r == Err(BadHex(ParsePalette(cfg.colours).error))
    ensures ParsePalette(cfg.colours).Ok? && |cfg.colours| == 0 ==> r == Err(NoColours)
    ensures ParsePalette(cfg.colours).Ok? && |cfg.colours| > 0 && !Paintable(ParsePalette(cfg.colours).value[0]) ==>
              r == Err(BadFill(ParsePalette(cfg.colours).value[0]))
    ensures r.Ok? <==> ParsePalette(cfg.colours).Ok? && |cfg.colours| > 0 &&
                       Paintable(ParsePalette(cfg.colours).value[0])
    ensures r.Ok? ==> var colours := ParsePalette(cfg.colours).value;
              Steps(Move(cfg.rules, colours), Initial(cfg.width, cfg.height, colours[0]), r.value.taken) == Ok(r.value.state)
    ensures r.Ok? && r.value.stop.Some? && r.value.stop.value.Fault? ==>
              Step(r.value.state, cfg.rules, ParsePalette(cfg.colours).value) == Err(r.value.stop.value.e)
    ensures r.Ok? ==> r.value.taken <= |quits| * PerFrame(cfg.steps)
    ensures r.Ok? && r.value.stop.None? ==> true !in quits && r.value.taken == |quits| * PerFrame(cfg.steps)
    ensures r.Ok? && r.value.stop == Some(Quit) ==> true in quits
    ensures r.Ok? && r.value.stop.Some? && r.value.stop.value.Fault? ==> r.value.taken < |quits| * PerFrame(cfg.steps)
    ensures r.Ok? && r.value.stop.Some? && r.value.stop.value.Fault? ==>
              exists f :: 0 <= f < |quits| && !quits[f] && OpenBefore(quits, f) &&
                          f * PerFrame(cfg.steps) <= r.value.taken < (f + 1) * PerFrame(cfg.steps)
    ensures r.Ok? && r.value.stop == Some(Quit) ==>
              exists f :: 0 <= f < |quits| && quits[f] && OpenBefore(quits, f) &&
                          r.value.taken == f * PerFrame(cfg.steps)
    ensures r.Ok? ==> var colours := ParsePalette(cfg.colours).value;
              r.value == Frames(Move(cfg.rules, colours), Initial(cfg.width, cfg.height, colours[0]), cfg.steps, quits)
  {
    match ParsePalette(cfg.colours)
    case Err(i) => Err(BadHex(i))
    case Ok(colours) =>
      if |colours| == 0 then Err(NoColours)
      else if !Paintable(colours[0]) then Err(BadFill(colours[0]))
      else
        var next := Move(cfg.rules, colours);
        var st := Initial(cfg.width, cfg.height, colours[0]);
        FramesFollowSteps(next, st, cfg.steps, quits);
        FramesCountSteps(next, st, cfg.steps, quits);
        FramesStopAtFirst(next, st, cfg.steps, quits);
        Ok(Frames(next, st, cfg.steps, quits))
  }

  /** Consistent rules and palette keep every cell within the first |rules|
      colours over any number of steps, and only an off-grid read stops them. */
  lemma {:induction false} StepsKeepPalette(rules: string, colours: seq<Rgba>, st: State, k: nat)
    requires Consistent(rules, colours) && PaintedFrom(st.surface, colours, |rules|)
    ensures Steps(Move(rules, colours), st, k).Ok? || Steps(Move(rules, colours), st, k) == Err(OffGrid)
    ensures Steps(Move(rules, colours), st, k).Ok? ==>
              PaintedFrom(Steps(Move(rules, colours), st, k).value.surface, colours, |rules|)
    decreases k
  {
    if k > 0 {
      StepKeepsPalette(st, rules, colours);
      match Step(st, rules, colours)
      case Err(e) =>
      case Ok(s) =>
        StepsKeepPalette(rules, colours, s, k - 1);
    }
  }

  /** With at least one rule, no more rules than colours and valid colours,
      do_play starts, every cell always holds one of colours[0 .. |rules| - 1],
      and the loop ends only on a window-close event or an off-grid read,
      with the ant then standing outside the surface. */
  lemma ConsistentRunHaltsOnlyOffGrid(cfg: Config, quits: seq<bool>)
    requires ParsePalette(cfg.colours).Ok?
    requires Consistent(cfg.rules, ParsePalette(cfg.colours).value)
    ensures Play(cfg, quits).Ok?
    ensures var colours := ParsePalette(cfg.colours).value;
            var o := Play(cfg, quits).value;
              && PaintedFrom(o.state.surface, colours, |cfg.rules|)
              && o.stop in {None, Some(Quit), Some(Fault(OffGrid))}
              && (o.stop == Some(Fault(OffGrid)) ==> !o.state.surface.Contains(o.state.ant.pos))
  {
    var colours := ParsePalette(cfg.colours).value;
    var next := Move(cfg.rules, colours);
    var st := Initial(cfg.width, cfg.height, colours[0]);
    assert colours[..|cfg.rules|][0] == colours[0];
    assert PaintedFrom(st.surface, colours, |cfg.rules|);
    var o := Frames(next, st, cfg.steps, quits);
    FramesFollowSteps(next, st, cfg.steps, quits);
    StepsKeepPalette(cfg.rules, colours, st, o.taken);
    if o.stop.Some? && o.stop.value.Fault? {
      StepKeepsPalette(o.state, cfg.rules, colours);
    }
  }
}
