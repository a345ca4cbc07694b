/** The acquisition state machine of src/main.cpp and the small decisions the
    display makes: which screen, which emoji, which tiny-font glyph. */
module Thermometer {
  import opened Temperature
  import opened Axis
  import opened GraphModel

  // The customisation constants of the sketch.
  const LowTempThreshold: real := 25.0
  const HighTempThreshold: real := 30.0
  const TempIsFahrenheit: bool := false
  const MeasurePeriodMs: nat := 500
  const IdleDelayMs: nat := 1500

  const Pow32: int := 0x1_0000_0000

  /** A `uint32_t`, as `millis()` returns and `last_ms` holds. */
  type U32 = x: int | 0 <= x < 0x1_0000_0000

  /** A `uint8_t`, as the characters and coordinates of `drawTinyFont`. */
  type Byte = x: int | 0 <= x < 256

  datatype Option<T> = None | Some(value: T)

  /** `now_ms - last_ms` in `uint32_t` arithmetic: the time since `last` even
      when the millisecond counter has wrapped round in between. */
  function Elapsed(now: U32, last: U32): (d: U32)
    ensures last <= now ==> d == now - last
    ensures now < last ==> d == Pow32 - last + now
  {
    (now - last) % Pow32
  }

  /** Whatever the wrap-around, `d` milliseconds after `last` the elapsed time is `d`. */
  lemma ElapsedAfter(last: U32, d: U32)
    ensures Elapsed((last + d) % Pow32, last) == d
  {
    if last + d < Pow32 {
      assert (last + d) % Pow32 == last + d;
    } else {
      assert (last + d) % Pow32 == last + d - Pow32;
    }
  }

  /** The `State` enum of the sketch. */
  datatype State = Idle | Start | Measurement

  /** The moves one pass of `loop` can make: `idle` stays or moves to START once its
      delay has elapsed, `start` always moves on, MEASUREMENT is never left. */
  predicate Step(s: State, s': State)
  {
    match s
    case Idle => s' == Idle || s' == Start
    case Start => s' == Measurement
    case Measurement => s' == Measurement
  }

  function Rank(s: State): nat
  {
    match s
    case Idle => 0
    case Start => 1
    case Measurement => 2
  }

  /** A sequence of states, one per pass of `loop`. */
  predicate Run(r: seq<State>)
  {
    forall i :: 0 < i < |r| ==> Step(r[i - 1], r[i])
  }

  /** States only progress along IDLE, START, MEASUREMENT. */
  lemma {:induction false} RunMonotone(r: seq<State>, i: nat, j: nat)
    requires Run(r) && i <= j < |r|
    ensures Rank(r[i]) <= Rank(r[j])
    decreases j - i
  {
    if i < j {
      RunMonotone(r, i, j - 1);
      assert Step(r[j - 1], r[j]);
    }
  }

  /** START is held for a single pass, so `start` (and with it `graph.init`) runs
      at most once in any run. */
  lemma StartAtMostOnce(r: seq<State>, i: nat, j: nat)
    requires Run(r) && i < |r| && j < |r| && r[i] == Start && r[j] == Start
    ensures i == j
  {
    if i < j {
      assert Step(r[i], r[i + 1]);
      RunMonotone(r, i + 1, j);
    } else if j < i {
      assert Step(r[j], r[j + 1]);
      RunMonotone(r, j + 1, i);
    }
  }

  /** Once in MEASUREMENT a run stays there. */
  lemma MeasurementIsFinal(r: seq<State>, i: nat, j: nat)
    requires Run(r) && i <= j < |r| && r[i] == Measurement
    ensures r[j] == Measurement
  {
    RunMonotone(r, i, j);
  }

  /** The classification of `showTemperature`: emoji 0 below the low threshold,
      2 above the high one, 1 in between (thresholds included). */
  function Emoji(t: real, low: real, high: real): (e: nat)
    ensures e < 3
    ensures e == 0 <==> t < low
    ensures e == 2 <==> low <= t && high < t
  {
    if t < low then 0 else if t > high then 2 else 1
  }

  /** A warmer reading never shows an emoji of a lower class. */
  lemma EmojiMonotone(t: real, t': real, low: real, high: real)
    requires t <= t'
    ensures Emoji(t, low, high) <= Emoji(t', low, high)
  {
  }

  /** Comparing in °F what was stored in °C gives the same class. */
  lemma EmojiSameInBothUnits(t: real, low: real, high: real)
    ensures Emoji(CToF(t), CToF(low), CToF(high)) == Emoji(t, low, high)
  {
    CToFMonotone(t, low);
    CToFMonotone(high, t);
  }

  /** The emoji `showTemperature` draws for the last sample in the active unit, or
      none ("Sensor error") when the last sample was a gap. */
  function Mood(g: Graph): (m: Option<nat>)
    reads g
    ensures m.Some? <==> g.lastTv
    ensures m.Some? ==> m.value == Emoji(g.ActiveLast(), g.ActiveLow(), g.ActiveHigh())
  {
    if g.lastTv then Some(Emoji(g.ActiveLast(), g.ActiveLow(), g.ActiveHigh())) else None
  }

  /** The emoji does not depend on the active unit. */
  lemma MoodIgnoresUnit(g: Graph)
    requires g.Valid() && g.lastTv
    ensures Emoji(g.lastTf, g.tfLow, g.tfHigh) == Emoji(g.lastTc, g.tcLow, g.tcHigh)
  {
    EmojiSameInBothUnits(g.lastTc, g.tcLow, g.tcHigh);
  }

  /** What a pass of `loop` shows: the waiting screen, or the temperature screen
      with its emoji (none: sensor error) and, perhaps, the graph. */
  datatype Screen = WaitingScreen | TemperatureScreen(emoji: Option<nat>, withGraph: bool)

  /** The screen choice at the end of `loop`, and the graph choice of `showTemperature`. */
  function ChooseScreen(state: State, tn: nat, tnv: nat, emoji: Option<nat>): (s: Screen)
    ensures s.TemperatureScreen? <==> state == Measurement && 1 < tn
    ensures s.TemperatureScreen? ==> s.emoji == emoji && (s.withGraph <==> 1 < tnv)
  {
    if state == Measurement && tn > 1 then TemperatureScreen(emoji, tnv > 1) else WaitingScreen
  }

  /** The characters the tiny font holds: `+`, `-`, `.` and the ten digits. */
  predicate InTinyFont(c: Byte)
  {
    c == 0x2b || c == 0x2d || c == 0x2e || 0x30 <= c <= 0x39
  }

  /** The glyph index `drawTinyFont` picks for a character other than a space; the
      `uint8_t` index wraps for characters below `0`. */
  function Glyph(c: Byte): (k: Byte)
  {
    if c == 0x2b then 0
    else if c == 0x2d then 1
    else if c == 0x2e then 2
    else (3 + c - 0x30) % 256
  }

  /** The font holds `+`, `-`, `.`, then the digits in order, 13 glyphs in all, and
      distinct characters of the font get distinct glyphs. */
  lemma GlyphTable()
    ensures Glyph(0x2b) == 0 && Glyph(0x2d) == 1 && Glyph(0x2e) == 2
    ensures forall c: Byte :: 0x30 <= c <= 0x39 ==> Glyph(c) == 3 + (c - 0x30)
    ensures forall c: Byte :: InTinyFont(c) ==> Glyph(c) < 13
    ensures forall c: Byte, c': Byte :: InTinyFont(c) && InTinyFont(c') && Glyph(c) == Glyph(c') ==> c == c'
  {
  }

  /** One glyph drawn: at column `x`, row `y`, the bitmap of glyph `glyph`. */
  datatype Blit = Blit(x: Byte, y: Byte, glyph: Byte)

  /** `x += 5` on the `uint8_t` column, wrapping round at 256. */
  function NextColumn(x: Byte): (x': Byte)
    ensures x' == (x + 5) % 256
  {
    if x < 251 then x + 5 else x - 251
  }

  /** The 5-pixel advance of the `uint8_t` column, `count` times. */
  function Advance(x: Byte, count: nat): Byte
  {
    (x + 5 * count) % 256
  }

  /** The glyphs `drawTinyFont` draws for the characters `s` from column `x`: a space
      draws nothing, and every character advances the column by 5. */
  function Layout(s: seq<Byte>, x: Byte, y: Byte): seq<Blit>
    decreases |s|
  {
    if s == [] then [] else Cell(s[0], x, y) + Layout(s[1..], NextColumn(x), y)
  }

  /** What one character draws at column `x`: its glyph, or nothing for a space. */
  function Cell(c: Byte, x: Byte, y: Byte): seq<Blit>
  {
    if c == 0x20 then [] else [Blit(x, y, Glyph(c))]
  }

  lemma AdvanceTwice(x: Byte, a: nat, b: nat)
    ensures Advance(Advance(x, a), b) == Advance(x, a + b)
  {
    var m := x + 5 * a;
    assert m == (m / 256) * 256 + m % 256;
    assert Advance(x, a) + 5 * b == (x + 5 * (a + b)) - (m / 256) * 256;
    ModMultiple(x + 5 * (a + b), m / 256);
  }

  lemma ModMultiple(z: int, q: int)
    ensures (z - q * 256) % 256 == z % 256
    decreases if q < 0 then -q else q
  {
    if 0 <= q {
      if q > 0 {
        ModMultiple(z, q - 1);
        assert z - q * 256 == (z - (q - 1) * 256) - 256;
      }
    } else {
      ModMultiple(z, q + 1);
      assert z - q * 256 == (z - (q + 1) * 256) + 256;
    }
  }

  /** Drawing `s + t` draws `s`, then `t` from the column `s` leaves. */
  lemma {:induction false} LayoutAppend(s: seq<Byte>, t: seq<Byte>, x: Byte, y: Byte)
    ensures Layout(s + t, x, y) == Layout(s, x, y) + Layout(t, Advance(x, |s|), y)
    decreases |s|
  {
    if s == [] {
      assert s + t == t;
      assert Advance(x, 0) == x;
    } else {
      assert (s + t)[0] == s[0];
      assert (s + t)[1..] == s[1..] + t;
      LayoutAppend(s[1..], t, NextColumn(x), y);
      AdvanceTwice(x, 1, |s| - 1);
    }
  }

  /** Without spaces, the `i`-th character is drawn at column `x + 5 i` (mod 256). */
  lemma {:induction false} LayoutNoSpaces(s: seq<Byte>, x: Byte, y: Byte)
    requires forall i :: 0 <= i < |s| ==> s[i] != 0x20
    ensures |Layout(s, x, y)| == |s|
    ensures forall i :: 0 <= i < |s| ==> Layout(s, x, y)[i] == Blit(Advance(x, i), y, Glyph(s[i]))
    decreases |s|
  {
    if s != [] {
      LayoutNoSpaces(s[1..], NextColumn(x), y);
      forall i | 1 <= i < |s|
        ensures Layout(s, x, y)[i] == Blit(Advance(x, i), y, Glyph(s[i]))
      {
        AdvanceTwice(x, 1, i - 1);
        assert Layout(s, x, y)[i] == Layout(s[1..], NextColumn(x), y)[i - 1];
      }
    }
  }

  /** `drawTinyFont`: the glyphs drawn for the first `strlen` characters of `str`,
      `strlen` being kept in a `uint8_t`. */
  method DrawTinyFont(str: seq<Byte>, x0: Byte, y: Byte) returns (blits: seq<Blit>)
    ensures blits == Layout(str[..|str| % 256], x0, y)
  {
    var n := |str| % 256;
    ghost var s := str[..n];
    var x: Byte := x0;
    blits := [];
    assert s[0..] == s;
    for i := 0 to n
      invariant blits + Layout(s[i..], x, y) == Layout(s, x0, y)
    {
      LayoutStep(s, i, x, y, blits);
      var c := str[i];
      if c == 0x20 {
        assert blits + Cell(c, x, y) == blits;
      } else {
        blits := blits + [Blit(x, y, Glyph(c))];
      }
      x := NextColumn(x);
    }
  }

  /** One character of the layout after the glyphs `acc` already drawn. */
  lemma LayoutStep(s: seq<Byte>, i: nat, x: Byte, y: Byte, acc: seq<Blit>)
    requires i < |s|
    ensures acc + Layout(s[i..], x, y) == (acc + Cell(s[i], x, y)) + Layout(s[i + 1..], NextColumn(x), y)
  {
    assert s[i..][0] == s[i] && s[i..][1..] == s[i + 1..];
  }

  /** The globals of the sketch: the state, `last_ms` and the graph. */
  class Machine {
    var state: State
    var lastMs: U32
    const graph: Graph
    const tftWidth: int
    const tftHeight: int

    /** The graph exists in its own right, and its buffers exist exactly in
        MEASUREMENT: `start` is what allocates them. */
    ghost predicate Valid()
      reads this, graph, graph.tempC, graph.tempF, graph.valid
    {
      && graph.Valid()
      && 0 < Uint8(tftWidth - 2 * 4)
      && (state == State.Measurement <==> 0 < graph.n)
    }

    /** The static graph with the customised thresholds, then `setup`: IDLE, with
        `last_ms` the time of the call. The display size is a parameter. */
    constructor (now: U32, tftWidth: int, tftHeight: int)
      requires 0 < Uint8(tftWidth - 2 * 4)
      ensures Valid() && state == State.Idle && lastMs == now && fresh(graph)
      ensures graph.isFahrenheit == TempIsFahrenheit && !graph.lastTv
      ensures graph.tcLow == LowTempThreshold && graph.tcHigh == HighTempThreshold
    {
      this.tftWidth := tftWidth;
      this.tftHeight := tftHeight;
      graph := new Graph(LowTempThreshold, HighTempThreshold, TempIsFahrenheit);
      state := State.Idle;
      lastMs := now;
    }

    /** `idle`: wait until the idle delay has elapsed, then move to START. */
    method Idle(now: U32)
      modifies this`state, this`lastMs
      ensures Elapsed(now, old(lastMs)) < IdleDelayMs ==> state == old(state) && lastMs == old(lastMs)
      ensures Elapsed(now, old(lastMs)) >= IdleDelayMs ==> state == State.Start && lastMs == now
    {
      if Elapsed(now, lastMs) < IdleDelayMs { return; }
      state := State.Start;
      lastMs := now;
    }

    /** `start`: initialise the graph, move to MEASUREMENT and restart the clock. */
    method Start(now: U32)
      requires Valid() && state != State.Measurement
      modifies this`state, this`lastMs, graph`geometry, graph`n, graph`tempC, graph`tempF, graph`valid
      ensures Valid() && state == State.Measurement && lastMs == now
      ensures graph.n == Uint8(tftWidth - 2 * 4) && graph.tn == 0 && graph.tnv == 0
      ensures graph.geometry == Geometry(4, 8, 4, Uint8(tftHeight - 8 - 48), graph.n, 48)
    {
      graph.Init(tftWidth, tftHeight);
      state := State.Measurement;
      lastMs := now;
    }

    /** `getTemperature`: once the measurement period has elapsed, add the reading
        `tc` to the graph and restart the clock, whether or not the reading is valid. */
    method GetTemperature(now: U32, tc: real, disconnected: real)
      requires Valid() && state == State.Measurement
      modifies this`lastMs, graph`ti, graph`tn, graph`tnv, graph`lastTc, graph`lastTf, graph`lastTv,
               graph`min, graph`max, graph`scale, graph.tempC, graph.tempF, graph.valid
      ensures Valid()
      ensures Elapsed(now, old(lastMs)) < MeasurePeriodMs ==>
        lastMs == old(lastMs) && unchanged(graph, graph.tempC, graph.tempF, graph.valid)
      ensures Elapsed(now, old(lastMs)) >= MeasurePeriodMs ==>
        lastMs == now && graph.Recorded(tc, disconnected) && (graph.lastTv ==> graph.ScaleCurrent())
      ensures Elapsed(now, old(lastMs)) >= MeasurePeriodMs && !graph.lastTv ==>
        graph.min == old(graph.min) && graph.max == old(graph.max) && graph.scale == old(graph.scale)
    {
      if Elapsed(now, lastMs) < MeasurePeriodMs { return; }
      graph.Add(tc, disconnected);
      lastMs := now;
    }

    /** One pass of MEASUREMENT: flip the unit if the button was pressed, then take
        the acquisition step. */
    method Measure(now: U32, pressed: bool, tc: real, disconnected: real)
      requires Valid() && state == State.Measurement && (pressed ==> graph.SearchTerminates())
      modifies this`lastMs, graph, graph.tempC, graph.tempF, graph.valid
      ensures Valid() && state == State.Measurement
      ensures graph.isFahrenheit == (old(graph.isFahrenheit) != pressed)
      ensures Elapsed(now, old(lastMs)) < MeasurePeriodMs ==>
        lastMs == old(lastMs) && graph.Contents() == old(graph.Contents())
      ensures Elapsed(now, old(lastMs)) >= MeasurePeriodMs ==>
        lastMs == now && graph.Recorded(tc, disconnected) && (graph.lastTv ==> graph.ScaleCurrent())
      ensures pressed && Elapsed(now, old(lastMs)) < MeasurePeriodMs ==> graph.ScaleCurrent()
      ensures !pressed && Elapsed(now, old(lastMs)) >= MeasurePeriodMs && !graph.lastTv ==>
        graph.min == old(graph.min) && graph.max == old(graph.max) && graph.scale == old(graph.scale)
      ensures graph.geometry == old(graph.geometry)
      ensures !pressed && Elapsed(now, old(lastMs)) < MeasurePeriodMs ==> unchanged(graph)
      ensures Elapsed(now, old(lastMs)) < MeasurePeriodMs ==>
        graph.lastTv == old(graph.lastTv) && graph.lastTc == old(graph.lastTc) && graph.lastTf == old(graph.lastTf)
      ensures pressed && Elapsed(now, old(lastMs)) >= MeasurePeriodMs && !graph.lastTv ==>
        graph.ScaleMatches(old(graph.History()))
    {
      if pressed {
        graph.FlipUnit();
      }
      GetTemperature(now, tc, disconnected);
    }

    /** `loop`: dispatch on the state, then choose the screen. */
    method Loop(now: U32, pressed: bool, tc: real, disconnected: real) returns (screen: Screen)
      requires Valid() && (state == State.Measurement && pressed ==> graph.SearchTerminates())
      modifies this`state, this`lastMs, graph, graph.tempC, graph.tempF, graph.valid
      ensures Valid() && Step(old(state), state)
      ensures old(state) == State.Idle ==> (state == State.Start <==> Elapsed(now, old(lastMs)) >= IdleDelayMs)
      ensures old(state) == State.Measurement ==> graph.isFahrenheit == (old(graph.isFahrenheit) != pressed)
      ensures old(state) == State.Idle ==> lastMs == if state == State.Start then now else old(lastMs)
      ensures old(state) == State.Start ==> lastMs == now
      ensures old(state) == State.Measurement ==>
        lastMs == if Elapsed(now, old(lastMs)) >= MeasurePeriodMs then now else old(lastMs)
      ensures screen == ChooseScreen(state, graph.tn, graph.tnv, Mood(graph))
    {
      match state {
        case Idle => Idle(now);
        case Start => Start(now);
        case Measurement => Measure(now, pressed, tc, disconnected);
      }
      screen := ChooseScreen(state, graph.tn, graph.tnv, Mood(graph));
    }
  }
}
