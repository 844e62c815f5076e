# Turmite stepping engine, modelled in Dafny

This project models the core of a generalised Langton's Ant ("turmite")
simulator. An ant stands on a `w × h` pixel surface, facing one of the compass
letters `NESW`. Each step it does four things. It reads the colour under itself
and finds that colour's first position `i` in the palette. It turns as
`rules[i]` says: `R` turns right, `L` turns left, any other symbol goes
straight. It repaints its cell with `colours[(i + 1) % len(rules)]`. Then it
moves one pixel in its new heading. `do_play` fills the surface with the first
colour, puts the ant at the centre facing north, and runs frames of `steps`
steps each. The run stops at the first step that raises, because a bare
`except` catches the error. Reading a pixel off the surface is the usual way
this happens.

Modules, leaf to root:

- `Results` (results.dfy): `Option` and `Result`, used for the source's exceptions.
- `Seqs` (seqs.dfy): first-match `IndexOf`, which models `list.index` and `str.index`.
- `Headings` (headings.dfy): the heading as a letter of `"NESW"`, plus `turn_left` and `turn_right`.
- `Colour` (colour.dfy): `Rgba`, `hex_to_rgb`, `rgb_to_hex`, and `int(_, 16)` on two-character fields.
- `Surfaces` (surfaces.dfy): the pygame surface as rows of pixels, with `fill`, `get_at` and `set_at`. A `Grid` is a surface whose rows all have the stated width.
- `Turmite` (turmite.dfy): the ant, `Ant.move` as `Step`, and the palette-prefix invariant.
- `Runner` (runner.dfy): `do_play`, covering palette decoding, the initial state, the frame loop and its halting. The frame loop is written for any transition function, and `Move` plugs `Step` into it.
- `RuleStrings` (rulestrings.dfy): the validation in `do_set_rules`.
- `Scenarios` (scenarios.dfy): hand-computed runs, each proved to match the model.

Behaviour worth noting:

- A palette position with no rule raises rather than going straight: `rules[i]` is an IndexError, and the run stops (`NoRule`).
- The bare `except` turns every step error into the same quiet stop, an off-grid read and a configuration error alike. The model still records which error it was (`Fault(e)`).
- The ant turns before it moves, so with rule `R` its first step from (1, 1) on a 3 × 3 surface goes east to (2, 1) (`Scenarios.OneColourTrace`).
- The palette does not have to be duplicate-free. The lookup takes the first match.
- `hex_to_rgb` clips its slices. A six-character string `#rrggb` is accepted, and its last field is the single digit `b`, so `"#fffff"` decodes to (255, 255, 15, 255). A string of five characters or fewer is rejected, because its last field is empty.
- A `'%02x'` field is exactly two characters for a channel in −15..255 (a negative channel is `-` and one digit) and longer otherwise. So `rgb_to_hex` gives seven characters exactly when every channel is in −15..255, the range `hex_to_rgb` produces.

## Model

| member | source | states |
|---|---|---|
| `Seqs.IndexOf` | main.py:39 | None exactly when the colour is not in the palette; otherwise the earliest position holding it |
| `Seqs.FirstMatchUnique` | main.py:39 | a colour has at most one first palette position, so the step's outcome is determined by the cell's colour |
| `Headings.TurnRight` | main.py:34-35 | moves one place forward through NESW modulo 4, which agrees with the clockwise table N→E→S→W→N; never keeps the heading |
| `Headings.TurnLeft` | main.py:31-32 | moves one place back through NESW (index −1 wraps N to W), so a right turn from the result gives back the original heading |
| `Headings.LeftUndoesRight` | main.py:31-35 | turn_left after turn_right is the identity |
| `Headings.FourTurnsIdentity` | main.py:25-35 | four right turns, or four left turns, return to the starting heading |
| `Headings.FourRights` | main.py:34-35 | four right turns return every heading to itself |
| `Headings.FourLefts` | main.py:31-32 | four left turns return every heading to itself |
| `Colour.ParseHex` | main.py:23 | int(f, 16) raises on a blank field. For a one-character field it succeeds exactly on a hex digit and gives that digit's value. For a two-character field it raises when the first character is neither whitespace, a sign nor a hex digit, and when the second is neither whitespace nor a hex digit; two hex digits give 16 × first + second, and a sign with one digit gives that digit, negated for `-` |
| `Colour.FieldRejects` | main.py:23 | a field of at most two characters holding a character that is not a hex digit, whitespace or a sign does not parse |
| `Colour.HexToRgb` | main.py:22-23 | any decoded colour has alpha 255 and each channel in −15..255, whatever the input string |
| `Colour.HexToRgbRejects` | main.py:22-23 | hex_to_rgb raises on every string of at most five characters, and on every string with such a stray character among positions 1 to 6 |
| `Colour.StrayRejects` | main.py:23 | a stray character at position i, for 1 ≤ i ≤ 6, makes the field holding it fail to parse |
| `Colour.HexToRgbWellFormed` | main.py:22-23 | a `#rrggbb` string decodes to the three pair values with alpha 255, all bytes |
| `Colour.FieldBound` | main.py:23 | int(f, 16) of a field of at most two characters is in −15..255 when it parses |
| `Colour.RgbToHex` | main.py:19-20 | the result starts with `#` and has at least seven characters, exactly seven when every channel is in −15..255; a negative red channel starts with a minus sign; for three bytes it is `#` followed by the high and low lower-case hex digit of red, green and blue, with the alpha ignored |
| `Colour.Format02xByte` | main.py:20 | `'%02x'` of a byte is exactly its two lower-case hex digits |
| `Colour.RgbToHexWellFormed` | main.py:19-20 | rgb_to_hex of three bytes is a lower-case `#rrggbb` string whose pairs encode the three channels |
| `Colour.BytesRoundTrip` | main.py:19-23 | hex_to_rgb(rgb_to_hex(r, g, b, a)) == (r, g, b, 255) for bytes r, g, b and any a |
| `Colour.StringRoundTrip` | main.py:19-23 | rgb_to_hex(*hex_to_rgb(s)) == s.lower() for every well-formed `#rrggbb` s |
| `Surfaces.Fill` | main.py:99 | the filled surface has the requested size and every pixel holds the fill colour |
| `Surfaces.GetAt` | main.py:38 | the read succeeds exactly inside 0 ≤ x < w, 0 ≤ y < h and returns that pixel |
| `Surfaces.SetAt` | main.py:49 | outside the surface nothing is written and nothing is refused; inside it the write is refused exactly for a non-byte channel, and otherwise only pixel p changes and the size stays the same |
| `Turmite.NewAnt` | main.py:27-29 | a new ant stands at (x, y) and faces the first heading of NESW, north |
| `Turmite.Turn` | main.py:42-45 | R gives the clockwise neighbour, L the heading whose clockwise neighbour is the old one, and any other symbol keeps the heading |
| `Turmite.Advance` | main.py:51-56 | the new position is one unit from the old; it goes up the screen exactly for N, right exactly for E, and keeps x exactly for N and S |
| `Turmite.Step` | main.py:37-56 | an off-grid read fails with OffGrid and nothing else does; a colour missing from the palette fails with UnknownColour; at the first match i, i ≥ len(rules) fails with NoRule and k = (i+1) % len(rules) ≥ len(colours) fails with NoColour; otherwise the heading is the turn by rules[i] of the old one, only the pre-move cell changes (to colours[k]), and the ant advances one unit in the new heading |
| `Turmite.StepKeepsPalette` | main.py:38-49 | if 1 ≤ len(rules) ≤ len(colours), colours[0 .. len(rules)−1] have byte channels, and every cell holds one of those colours, the step keeps that true and can only fail by reading off the grid |
| `Runner.Walk` | main.py:113-114 | a frame completes at most n steps, and it stops short exactly when a step raised |
| `Runner.WalkStopsAtFirstFailure` | main.py:112-119 | the frame's state is the one reached by its completed steps, and the error it reports is that of the very next step |
| `Runner.Frames` | main.py:105-121 | the loop takes at most `steps` steps per frame; it stops on a window close only if one was pending, and runs through every frame only if none was; where it stops is stated by `Runner.FramesStopAtFirst` |
| `Runner.FramesStopAtFirst` | main.py:105-121 | a Fault stop happens in the first frame f that does not complete: no close was pending in frames 0 .. f, and f full frames plus fewer than `steps` further steps were taken; a Quit stop comes at the first frame f with a close pending, after exactly f full frames of steps |
| `Runner.FaultAtFirst` | main.py:105-121 | a Fault stop comes in the first incomplete frame f, with no close pending in frames 0 .. f and between f and f + 1 frames of steps taken |
| `Runner.QuitAtFirst` | main.py:105-110 | a Quit stop comes at the first frame f with a close pending, after exactly f full frames |
| `Runner.FramesFollowSteps` | main.py:105-121 | the loop's final state is reached by exactly its count of consecutive steps, and a Fault stop is the error of the next step, so no step follows a failure |
| `Runner.FramesCountSteps` | main.py:106-114 | a run not yet stopped has taken `steps` steps in each frame (none when steps ≤ 0) |
| `Runner.StepsKeepPalette` | main.py:113-114 | over any number of steps with consistent rules and palette, cells stay within colours[0 .. len(rules)−1] and only an off-grid read stops the steps |
| `Runner.ParsePalette` | main.py:93 | every hex string is decoded in order, or the result is the position of the first one hex_to_rgb rejects |
| `Runner.MapAll` | main.py:93 | list(map(f, xs)) with a raising f: every entry mapped in order, or the position of the first entry on which f raises, all entries before it mapping |
| `Runner.Initial` | main.py:91-99 | the ant is at (w // 2, h // 2) facing N, every pixel holds the first colour, and on a non-empty surface the ant starts on it |
| `Runner.Play` | main.py:88-121 | a bad hex string is reported by its position, an empty palette as NoColours, and a first colour that fill rejects as BadFill; otherwise the run starts, its final state is reached from the initial state by exactly its count of consecutive steps, a Fault stop is the error the next step raises, a run not stopped took `steps` steps in each frame and saw no window close, a Fault stop happens in the first incomplete frame f, with no close pending in frames 0 .. f and between f and f + 1 frames of steps taken, and a Quit stop comes at the first frame f with a close pending, after f full frames |
| `Runner.ConsistentRunHaltsOnlyOffGrid` | main.py:88-121 | with 1 ≤ len(rules) ≤ len(colours) and valid colours, the run starts, every cell always holds a colour from colours[0 .. len(rules)−1], and the loop ends only on a window close or an off-grid read, with the ant then outside the surface |
| `RuleStrings.SetRules` | main.py:148-155 | the argument is accepted exactly when every character is r, R, l or L (the empty string included), and it is then stored as its upper-case form; on rejection the stored rules are unchanged |
| `RuleStrings.ValidRulesStoredVerbatim` | main.py:148-155 | a string of R and L is stored as given, and repeating the command changes nothing |
| `Scenarios.OneCellHalts` | main.py:37-56 | on a 1 × 1 surface with rules RL the ant paints its cell black, turns east and walks off; the frame ends after one step with OffGrid |
| `Scenarios.SquareWalk` | main.py:37-56 | with rules RRL and two colours, the first frame from the centre of a white 3 × 3 surface completes four steps and then raises NoColour(2) |
| `Scenarios.SquareThenNoColour` | main.py:37-56 | with rules RRL and two colours, the ant circles the 2 × 2 block (1, 1), (2, 1), (2, 2), (1, 2) of a 3 × 3 surface; the run stops after four steps with the ant back on (1, 1) facing N and those four cells black, because the successor index 2 has no colour and the fifth step fails |
| `Scenarios.RulesOutrunPalette` | main.py:88-121 | with the same configuration given as hex strings, do_play starts, and its bare except turns that failure into a stop after four steps |
| `Scenarios.OneColourTrace` | main.py:37-56 | with one colour and rule R the ant turns before moving: first step to (2, 1) facing E, second to (2, 2) facing S, and every cell stays white |

## Left out

- Window, display, scaling, blitting and the event loop (main.py:95-103, 108-110, 116-117, 122-132) are presentation only. A window-close event is a per-frame input flag (`quits`). The bare `except` catches the `SystemExit` that closing raises, so it is modelled as a `Quit` stop.
- `from_lospec` and its HTTP request (main.py:10-17, 195-202) are a network client and are not modelled.
- Pickle persistence (`do_save`, `do_del`, `do_load`, `do_list`, and the load at class creation) is file I/O around a plain dict and is not modelled. `do_load` and `do_new` store rule strings without validation, so `Step` accepts any rule string.
- The command shell, argument splitting, `int`/`float` parsing in `do_new`, `do_set_size`, `do_set_scale`, `do_set_steps` and `do_set_colours`, and the warning print in `postcmd` are REPL plumbing and are not modelled. `Config` takes the parsed width, height, steps, rules and colour strings.
- Config: `sim_scale` is a float, so the model uses the simulated surface size directly. Negative sizes are rejected by pygame's Surface constructor before the engine runs, so the width and height are `nat`.
- Step: when `colours[k]` or `set_at` raises, Python has already changed `ant.dir`. The model keeps the pre-step state instead. The ant is a local of `do_play` and is dropped once the loop stops, so the difference cannot be observed.
- Surfaces: the pygame behaviour assumed here is lossless 32-bit pixel storage, an IndexError from `get_at` off the surface, a ValueError from `fill` for a channel outside 0..255, and `set_at` returning without a write off the surface before it examines the colour, raising that ValueError only on the surface.
- Colour.HexToRgb: `int(_, 16)` is modelled for ASCII input. It strips space, tab, newline, carriage return, vertical tab and form feed, then takes an optional sign and hexadecimal digits. Unicode whitespace and non-ASCII digits are not modelled. Underscores and the `0x` prefix cannot form a valid two-character field.
- Colour.Lower and RuleStrings.Upper: only ASCII case mapping is modelled. Well-formed colour strings are ASCII. No other character upper-cases to `R` or `L`, so acceptance by `set_rules` is unaffected.
- A run that never stops loops for ever in the source. The model runs it for the finite number of frames given by `quits`.
- Determinism needs no lemma: every operation is a function of its inputs.
