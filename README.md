# ESPboy digital thermometer, modelled in Dafny

The ESPboy thermometer reads a DS18B20 probe twice a second and keeps the
readings in a `Graph`, a ring of `N` slots. Each slot holds the reading in °C
and in °F and a validity flag; a reading equal to the library's
"disconnected" sentinel is stored as a gap. Three counters run beside the
ring:

- `ti` is the write cursor;
- `tn` counts the samples written;
- `tnv` counts the valid samples added.

Both `tn` and `tnv` saturate at `N`. After each valid reading, `update`
recomputes the axis. It scans the window (the last `tn` slots, oldest first)
for the least and greatest reading in the active unit. It then rounds these
to whole degrees and picks a "nice" span: 1, the next even number, or the
next multiple of 3. That choice fixes eight or six divisions. Finally it
re-anchors the bottom so that the axis ends exactly at the top. `flipUnit`
toggles the unit and rescales.

The sketch `src/main.cpp` runs a three-state machine (IDLE, START,
MEASUREMENT):

- leaving IDLE and every acquisition are gated by `now_ms - last_ms`,
  computed in `uint32_t`;
- `start` allocates the graph;
- each MEASUREMENT pass first flips the unit if the button was pressed, then
  takes a reading if its period has elapsed.

The display then chooses between the waiting screen and the temperature
screen. On the temperature screen it classifies the last reading against the
thresholds as emoji 0, 1 or 2. Labels are drawn through `drawTinyFont` and
its glyph table.

The model has five modules, one per concern:

- `Temperature` (`temperature.dfy`): the two units and the conversions.
- `Ring` (`ring.dfy`): the ring as a value. This covers the index arithmetic
  (`Oldest`, `Slot`, `Next`), the window `Window`, the ring state
  `RingState` with its `Add`, and the extrema of a window.
- `Axis` (`axis.dfy`): the rounding and range choice of `update`, as
  functions on values.
- `GraphModel` (`graph.dfy`): the class `Graph`. It has the source's fields
  and three arrays, with methods that update them in place. The two loops of
  `update` (the first-valid search and the extrema scan) are methods with
  loop invariants.
- `Thermometer` (`thermometer.dfy`): the class `Machine` with the sketch's
  globals (`state`, `last_ms`, the graph), the screen and emoji decisions,
  and `drawTinyFont` as a loop proved against the function `Layout`.

Notes on how the model maps to the code:

- Temperatures are `real`. `floor` and `ceil` are exact, and the constants
  `1.8f`, `32.f`, `5.f`, `9.f` and `.1f` are taken as exact decimals.
- Storing a value into a `uint8_t` is written out as reduction modulo 256
  (`Axis.Uint8`). For `width` and `oy`, integer values converted to an
  unsigned type, this is what C++ does. `r1`, `r2` and `r3` are floating
  values, and C++ leaves an out-of-range floating-to-integer conversion
  undefined. The model assumes the modulo-256 wrap for them too; in range,
  which covers every span up to 254, the two agree.
- `n_min`, `n_max` and `range` are `float_t` in the source. They only ever
  hold whole numbers, so the model keeps them as `int`.
- The six derived fields of the scale (`n_min`, `n_max`, `range`, `dr`, `div`,
  `dy`) are one field `scale` of type `Axis.Scale`. The geometry set by
  `init` (`margin_x`, `margin_y`, `ox`, `oy`, `width`, `height`) is one field
  `geometry`. The four thresholds are `const`s, because only the constructor
  sets them. `temp[0]` and `temp[1]` are `tempC` and `tempF`.
- `add` is modelled as `Graph.Add`. It calls `Record`, which writes the slot
  (`Store`) and steps the counters (`Advance`), and then calls `Update` when
  the sample was valid. `Graph.Recorded` states what `add` does to the ring
  and to the last sample. `Ring.AddPushes` gives its effect on the window:
  the new sample is appended, and once the ring is full the oldest sample is
  evicted.
- The display size (`TFT_WIDTH`, `TFT_HEIGHT`) comes from the board library,
  which is not part of this model; it is a parameter. The disconnect sentinel
  `DEVICE_DISCONNECTED_C` is a parameter too. The probe reading, the button
  state and `millis()` are inputs of `Machine.Loop`.
- `update`'s first-valid search (include/Graph.h:107-108) never ends when
  `tnv >= 1` but no slot of the window is valid. Such a state is reachable.
  `GraphModel.HangAfterDisconnects` drives a graph there: one valid reading,
  then `N` disconnected ones, after which a `flipUnit` would hang. The model
  makes the search's termination a precondition (`Graph.SearchTerminates`)
  of `Update`, `FlipUnit` and, when the button is pressed, `Machine.Loop`.
  `Graph.WarmUpSearchTerminates` shows the precondition holds until the ring
  has wrapped. Inside `add`, `update` runs only right after a valid reading,
  so there it always holds.
- For the readings 20, gap, 22, 26 the code computes the span
  `ceil(26) - floor(20) = 6`, a tie between the two candidates, and so range
  6 with six divisions (`Axis.ScaleForExample`).
- A gap does not rescale (include/Graph.h:97). Once the ring is full, a gap can
  evict the reading that held `min` or `max`, and the scale is then stale.
  `Ring.GapLeavesStaleMinimum` shows such a window: a ring of 2 takes 10, then
  20, then a gap. `min` stays 10, yet the window's least reading is now 20. A
  double `flipUnit` from there rescales to the window and changes the scale;
  `FlipTwiceRestoresScale` is about a current scale only.

## Model

| member | source | states |
|---|---|---|
| Temperature.UnitOf | include/Graph.h:31 | the active unit is °F exactly when `is_fahrenheit` is set |
| Temperature.CToF | include/Graph.h:88 | the °C→°F conversion `tc*1.8+32` of `add` and of the constructor; `ConversionRoundTrip` proves it inverse to `FToC` and `CToFMonotone` that it keeps order |
| Temperature.FToC | include/Graph.h:56-58 | the °F→°C conversion `5*(t-32)/9` of the constructor; `ConversionRoundTrip` proves it inverse to `CToF` |
| Temperature.ConversionRoundTrip | include/Graph.h:56-62 | the °F→°C conversion of the constructor and the °C→°F one of `add` are inverse to each other |
| Temperature.CToFMonotone | include/Graph.h:88 | the conversion to °F preserves strict order and equality in both directions |
| Ring.Oldest | include/Graph.h:105 | the oldest slot `(ti - tn + N) % N` is a slot of the ring |
| Ring.Slot | include/Graph.h:105-119 | the `j`-th slot from the oldest is a slot of the ring |
| Ring.Next | include/Graph.h:95 | the cursor step `ti++; if (ti == N) ti = 0` stays in `[0, N)` |
| Ring.SourceIndexArithmetic | include/Graph.h:105-119 | the wrap-free `Oldest`, `Slot` and `Next` equal the source's modular expressions |
| Ring.NextSlot | include/Graph.h:119 | stepping the slot of the `j`-th sample reaches the slot of the `(j+1)`-th |
| Ring.SlotsDistinct | include/Graph.h:105-121 | the slots of the window are pairwise distinct, and the cursor is among them only when the ring is full, as its oldest slot |
| Ring.CountersAfterAdd | include/Graph.h:84-95 | one `add` keeps the counters consistent: `ti < N`, `tnv <= tn <= N`, `ti == tn` before the wrap, and a valid slot is held while `tnv > 0` before the wrap |
| Ring.Prev | include/Graph.h:95 | the slot before `k` is the one the cursor step takes to `k` |
| Ring.Window | include/Graph.h:105-121 | the window holds exactly `tn` samples |
| Ring.WindowSlots | include/Graph.h:105-121 | the `j`-th sample of the window is the slot `(ti - tn + N + j) % N`, read as a reading when valid and as a gap otherwise |
| Ring.Push | include/Graph.h:82-95 | after a push the window is one longer until it reaches `N`, ends with the new sample, and keeps the previous samples in order (dropping the oldest once full) |
| Ring.WindowAfterWrite | include/Graph.h:84-95 | writing the cursor slot and advancing `ti` and `tn` pushes the written sample onto the window |
| Ring.SampleAfterWrite | include/Graph.h:84-95 | the same, one sample of the window at a time |
| Ring.SlotAfterAdvance | include/Graph.h:95 | after the advance the newest window slot is the old cursor, and every other slot is the slot of the same sample before |
| Ring.RingState.History | include/Graph.h:105-121 | the window of a ring state has `tn` samples |
| Ring.RingState.Add | include/Graph.h:84-95 | the ring after one `add`; `AddKeepsValid`, `AddCounters`, `AddWritesCursorOnly` and `AddPushes` state what it does to the counters, the slots and the window |
| Ring.AddKeepsValid | include/Graph.h:82-95 | `add` keeps the buffer lengths and the counter invariant |
| Ring.AddCounters | include/Graph.h:90-95 | after `add`, `ti` is `(ti + 1) % N`, valid or not; `tn` and `tnv` only grow and saturate at `N`; `tnv` grows exactly for a valid sample below saturation; `tnv <= tn <= N` holds |
| Ring.AddWritesCursorOnly | include/Graph.h:84-93 | a valid `add` writes `tc` and `tc*1.8+32` at `ti` and sets the flag; an invalid one only clears the flag and leaves both temperature buffers as they were; no other slot changes |
| Ring.AddPushes | include/Graph.h:82-95 | `add` pushes onto the window a reading in both units, or a gap for the sentinel |
| Ring.GapLeavesStaleMinimum | include/Graph.h:84-97 | a ring of 2 that takes 10 °C, 20 °C and then a gap: before the gap the least reading is 10; after it, since a gap does not rescale, the window is `[20, gap]` and 10 is no longer its least reading |
| Ring.PushGap | include/Graph.h:91-95 | pushing a gap keeps the run of gaps, and once the ring is full it extends the run by one towards the oldest |
| Ring.ReadingSlots | include/Graph.h:113-114 | a window sample is a reading exactly when its slot is valid, and its value in the active unit is `temp[is_fahrenheit][k]` |
| Ring.ExtremaOfWindow | include/Graph.h:109-121 | slot-wise least and greatest values over the valid slots are the least and greatest readings of the window |
| Ring.ExtremaUnique | include/Graph.h:109-121 | the least and greatest readings of a window in a unit are unique, and least <= greatest |
| Axis.Floor | include/Graph.h:123 | `floor` gives the greatest whole number at or below `x` |
| Axis.Ceil | include/Graph.h:124 | `ceil` gives the least whole number at or above `x` |
| Axis.Uint8 | include/Graph.h:128-130 | a stored `uint8_t` is in `[0, 256)` and keeps values already in range; out of range the model assumes the modulo-256 wrap |
| Axis.RoundUp | include/Graph.h:129-130 | the candidates `k*(1+floor((r1-.1)/k))`; `RoundUpIsNextMultiple` proves each is the least multiple of `k` at or above `r1` |
| Axis.RoundUpIsNextMultiple | include/Graph.h:129-130 | for whole `r1 >= 0`, `k*(1+floor((r1-.1)/k))` is the least multiple of `k` at or above `r1` (k = 2, 3) |
| Axis.MultipleAbove | include/Graph.h:129-130 | a multiple of `k` above `q*k` is at least `(q+1)*k` |
| Axis.ChooseRange | include/Graph.h:132-147 | the range choice over 1, the even and the multiple-of-3 candidate; `ChooseRangeSpec` and `CandidatesAreNextMultiples` state its result |
| Axis.CandidatesAreNextMultiples | include/Graph.h:128-130 | for spans 1..254, `r2` is the least even number and `r3` the least multiple of 3 at or above `r1` |
| Axis.ChooseRangeSpec | include/Graph.h:132-147 | for spans 1..254 the range is the least of 1, even, multiple of 3 at or above `r1`; `r1 == 1` gives range 1 with 8 divisions; six divisions exactly when the range is a multiple of 3 (ties go to six); `div*dy == 48` and `dr*div == range` |
| Axis.ChooseRangeExamples | include/Graph.h:132-147 | spans 1, 4 and 6 give ranges 1, 4 and 6 with 8, 8 and 6 divisions |
| Axis.WideSpanCollapses | include/Graph.h:128-147 | at span 255 the even candidate is 256; under the assumed modulo-256 store it becomes 0, and so does the range chosen |
| Axis.ScaleFor | include/Graph.h:123-149 | the axis `update` computes from the extrema; `ScaleForSpec` proves it encloses them with the chosen range |
| Axis.ScaleForSpec | include/Graph.h:123-149 | for a span of at most 254, `n_max` is `ceil(max)` (one more when floor and ceiling meet), `n_max - n_min == range`, `n_min <= min <= max <= n_max`, `n_min` is at most one below `floor(min)`, and the graduation fills 48 pixels |
| Axis.BumpOnlyForFlatWholeWindow | include/Graph.h:123-126 | floor and ceiling meet exactly when min and max are the same whole number |
| Axis.ScaleForExample | include/Graph.h:123-149 | extrema 20 and 26 give `n_min = 20`, `n_max = 26`, range 6, `dr = 1`, 6 divisions of 8 pixels |
| GraphModel.Graph.History | include/Graph.h:105-121 | the window of the graph has `tn` samples |
| GraphModel.Graph.constructor | include/Graph.h:49-63 | the thresholds are stored in both units with °F = °C·1.8+32, in whichever unit they are given; the flag is kept; no sample yet |
| GraphModel.Graph.Init | include/Graph.h:67-80 | `N` and the geometry are set from the display size (margins 4 and 8, height 48, `N = width`), with three fresh buffers of `N` slots and an empty window |
| GraphModel.NewBuffers | include/Graph.h:76-78 | three fresh, distinct buffers of `N` slots |
| GraphModel.Graph.Recorded | include/Graph.h:84-95 | the state `add` leaves, as `old(Contents()).Add(tc, ok)` with the last sample; established by `Record` and `Add`, and `Ring.AddPushes` gives its effect on the window |
| GraphModel.Graph.Add | include/Graph.h:82-99 | `add` records the sample (`Recorded`); after a valid sample min, max and the scale are those of the new window; after a gap they are unchanged |
| GraphModel.Graph.Record | include/Graph.h:84-95 | the ring becomes `RingState.Add` of the old ring; `last_tv` is the validity; `last_tc` and `last_tf` take a valid reading and are kept for a gap |
| GraphModel.Graph.Store | include/Graph.h:84-93 | the slot at `ti` is flagged; a valid reading is written in both units and kept as the last one; nothing else in the buffers changes |
| GraphModel.Graph.Advance | include/Graph.h:90-95 | `ti` steps by one mod `N`; `tn` and `tnv` count up to `N`, `tnv` only for a valid sample |
| GraphModel.Graph.Update | include/Graph.h:101-151 | the ring is unchanged; with `tnv < 1` nothing changes; otherwise min and max are the window's least and greatest readings in the active unit, and the scale is `ScaleFor(min, max)` |
| GraphModel.Graph.Scan | include/Graph.h:103-121 | the two loops of `update` yield the least and greatest reading of the window in the active unit |
| GraphModel.FirstValid | include/Graph.h:107-108 | from the oldest slot the search stops at the first valid slot of the window |
| GraphModel.WindowExtrema | include/Graph.h:109-121 | the scan yields the least and greatest value over the valid slots of the window |
| GraphModel.Rescale | include/Graph.h:123-149 | the rounding, range choice and re-anchoring compute `ScaleFor(lo, hi)` |
| GraphModel.Graph.FlipUnit | include/Graph.h:65 | the unit toggles, the ring is unchanged, and the scale is that of the window in the new unit |
| GraphModel.FlipTwiceRestoresScale | include/Graph.h:65 | when the scale is current (`ScaleCurrent`), flipping twice restores the unit, min, max and the whole scale; after a gap has made the scale stale it need not (`Ring.GapLeavesStaleMinimum`) |
| GraphModel.Graph.ScaleEnclosesWindow | include/Graph.h:109-149 | with a current scale and a span of at most 254, every reading of the window in the active unit lies between `n_min` and `n_max`, and `n_max - n_min == range` |
| GraphModel.Graph.WarmUpSearchTerminates | include/Graph.h:107-108 | before the ring wraps, `tnv >= 1` implies the window holds a reading, so the search ends |
| GraphModel.HangAfterDisconnects | include/Graph.h:107-108 | one valid reading followed by `N` disconnected ones leaves `tnv = 1` with a window of gaps only: the search would never end |
| GraphModel.AddGaps | include/Graph.h:82-99 | `N` adds of the sentinel after one valid add fill the window with gaps and leave `tnv` at 1 |
| GraphModel.AddGap | include/Graph.h:82-99 | one add of the sentinel keeps `tnv`, counts `tn`, and extends the window's run of gaps once the ring is full |
| Thermometer.Elapsed | src/main.cpp:287 | `now_ms - last_ms` in `uint32_t`: the plain difference, or the difference plus 2^32 once the counter has wrapped |
| Thermometer.ElapsedAfter | src/main.cpp:301 | `d` milliseconds after `last` the elapsed time is `d`, across the wrap of the counter |
| Thermometer.Step | src/main.cpp:332-346 | one `loop` pass moves IDLE to IDLE or START, START to MEASUREMENT and keeps MEASUREMENT; `RunMonotone`, `StartAtMostOnce` and `MeasurementIsFinal` are proved about it |
| Thermometer.RunMonotone | src/main.cpp:332-346 | in any run of `loop` the state only moves forward along IDLE, START, MEASUREMENT |
| Thermometer.StartAtMostOnce | src/main.cpp:308-316 | START is held for one pass only, so `start` and `graph.init` run at most once |
| Thermometer.MeasurementIsFinal | src/main.cpp:342-346 | MEASUREMENT is never left |
| Thermometer.Emoji | src/main.cpp:208-217 | emoji 0 exactly below the low threshold, 2 exactly when not below low and above high, 1 otherwise |
| Thermometer.EmojiMonotone | src/main.cpp:208-217 | a warmer reading never gets a lower emoji class |
| Thermometer.EmojiSameInBothUnits | src/main.cpp:203-217 | classifying in °F against °F thresholds gives the class of °C against °C thresholds |
| Thermometer.Mood | src/main.cpp:192-217 | the emoji is drawn exactly when the last sample is valid, classified in the active unit against that unit's thresholds |
| Thermometer.MoodIgnoresUnit | src/main.cpp:201-217 | for a valid graph the emoji of the last reading is the same in both units |
| Thermometer.ChooseScreen | src/main.cpp:350-352 | the temperature screen is shown exactly in MEASUREMENT with `tn > 1`, and its graph exactly when `tnv > 1` (src/main.cpp:280) |
| Thermometer.Glyph | src/main.cpp:88-93 | the glyph index of `drawTinyFont`; `GlyphTable` states its table |
| Thermometer.GlyphTable | src/main.cpp:88-93 | `+`, `-`, `.` map to glyphs 0, 1, 2 and digit `d` to `3 + d`; these 13 characters get distinct glyphs below 13 |
| Thermometer.NextColumn | src/main.cpp:104 | `x += 5` on a `uint8_t` wraps modulo 256 |
| Thermometer.AdvanceTwice | src/main.cpp:87-104 | advancing the column `a` then `b` characters is advancing it `a + b` characters |
| Thermometer.Layout | src/main.cpp:84-106 | the blits `drawTinyFont` draws for a string; `LayoutStep`, `LayoutAppend`, `LayoutNoSpaces` and `DrawTinyFont` are proved about it |
| Thermometer.Cell | src/main.cpp:87-102 | one character draws its glyph at the column, or nothing for a space; used by `LayoutStep` |
| Thermometer.LayoutStep | src/main.cpp:84-106 | one character draws its glyph, or nothing for a space, and the rest are drawn from the next column |
| Thermometer.LayoutAppend | src/main.cpp:84-106 | drawing `s + t` draws `s`, then `t` from `5*|s|` columns further on (mod 256): every character, spaces included, advances by 5 |
| Thermometer.LayoutNoSpaces | src/main.cpp:84-106 | without spaces the `i`-th character is drawn as its glyph at column `x + 5i` (mod 256) |
| Thermometer.DrawTinyFont | src/main.cpp:79-108 | the glyphs drawn are the layout of the first `strlen % 256` characters |
| Thermometer.Machine.constructor | src/main.cpp:318-326 | the machine starts in IDLE with `last_ms = now`, and its graph has the customised thresholds and unit and no sample |
| Thermometer.Machine.Idle | src/main.cpp:297-306 | before the idle delay has elapsed nothing changes; once it has, the state is START and `last_ms = now` |
| Thermometer.Machine.Start | src/main.cpp:308-316 | the graph is initialised with capacity `width - 8`, zero counters and the geometry `init` fixes, the state is MEASUREMENT and `last_ms = now` |
| Thermometer.Machine.GetTemperature | src/main.cpp:284-295 | before the period has elapsed nothing changes; once it has, the graph records exactly one `add` and `last_ms = now`, whatever the reading's validity |
| Thermometer.Machine.Measure | src/main.cpp:342-344 | a press flips the unit exactly once, before the acquisition step (after a press and a gap the scale is the old window's in the new unit); the reading is added and `last_ms = now` if the period has elapsed; with no press and no reading the graph is unchanged, and with no reading the last sample stays |
| Thermometer.Machine.Loop | src/main.cpp:328-356 | one pass moves the state by `Step` and keeps the machine consistent; `last_ms` is reset to `now` exactly when the IDLE or MEASUREMENT gate fires, and always in START; a press in MEASUREMENT flips the unit; the screen is chosen from the new state |

## Left out

- Rendering is not modelled: `showWaiting`, the `drawThermometer` gauge and its easing, `drawGraph`'s pixel maths and reverse traversal, `framebuffer` and sprite calls, label formatting with `snprintf`, and the hue interpolation and `hsv2rgb565`. All of it is display output; the model keeps only the decisions of which screen, which emoji and which glyphs.
- Hardware and library calls are not modelled: `espboy.begin`/`update`, the MCP LED pin, the OneWire and DS18B20 calls, and button polling. The reading, the button state and `now` are parameters.
- IEEE float rounding is not modelled: temperatures are exact reals. A float stored into a `uint8_t` is taken modulo 256, which C++ leaves undefined out of range.
- GraphModel.Graph.Update: requires that the first-valid search terminates (`SearchTerminates`). The source executes the hang; the model instead exhibits it (`HangAfterDisconnects`).
- GraphModel.Graph.FlipUnit: requires `SearchTerminates`, for the same reason.
- Thermometer.Machine.Loop: requires `SearchTerminates` when the button is pressed in MEASUREMENT, for the same reason. It states the step of the state but not the graph's new contents; `Measure` and `GetTemperature` state those.
- Thermometer.Machine.Measure: requires `SearchTerminates` when pressed, for the same reason.
- GraphModel.FlipTwiceRestoresScale: requires a current scale (`ScaleCurrent`). After a gap has evicted an extremum the scale is stale, and two flips rescale it to the window (`Ring.GapLeavesStaleMinimum`).
- Axis.ChooseRangeSpec: is proved for spans 1..254 only. At 255 the even candidate does not fit a `uint8_t`, and C++ leaves that store undefined; `WideSpanCollapses` states what the assumed modulo-256 store gives there.
- Axis.ScaleForSpec: is proved for spans of at most 254 only, for the same reason.
- GraphModel.Graph.Init: states nothing about the contents of the new buffers, because `new float_t[N]` leaves them indeterminate. It requires `N == 0`: the model calls `init` once, on a fresh graph, as `start` does (`StartAtMostOnce`).
- Thermometer.Machine.Start: uses the same `now` for the `millis()` read after `graph.init`.
- Thermometer.DrawTinyFont: takes the characters before the terminating NUL as its input string.
- The value `showTemperature` passes to the gauge (`graph.min` when the last sample is a gap) only feeds the gauge drawing, which is left out.
