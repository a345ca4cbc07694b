/** The `Graph` structure of include/Graph.h: a ring of dual-unit samples with
    validity flags, its counters, and the axis scale derived from its window. */
module GraphModel {
  import opened Temperature
  import opened Ring
  import opened Axis

  /** The placement of the graph on the display, in pixels: the margins, the
      origin of the axes, and the size of the plot. */
  datatype Geometry = Geometry(marginX: nat, marginY: nat, ox: nat, oy: nat, width: nat, height: nat)

  class Graph {
    // Ring of samples.
    var n: nat            // N, the capacity (a uint8_t)
    var tn: nat           // samples written, saturating at N
    var tnv: nat          // valid samples added, saturating at N
    var ti: nat           // write cursor
    var tempC: array<real>  // temp[0], history in °C
    var tempF: array<real>  // temp[1], history in °F
    var valid: array<bool>

    // Thresholds in both units, fixed by the constructor.
    const tcLow: real
    const tfLow: real
    const tcHigh: real
    const tfHigh: real

    // Last sample.
    var lastTc: real
    var lastTf: real
    var lastTv: bool

    var isFahrenheit: bool

    // Scale.
    var min: real
    var max: real
    var scale: Scale      // n_min, n_max, range, dr, div and dy

    var geometry: Geometry  // margin_x, margin_y, ox, oy, width and height, fixed by init

    /** The ring fields and the contents of the three buffers, as a value. */
    ghost function Contents(): RingState
      reads this`n, this`tn, this`tnv, this`ti, this`tempC, this`tempF, this`valid,
            tempC, tempF, valid
    {
      RingState(n, tn, tnv, ti, tempC[..], tempF[..], valid[..])
    }

    ghost predicate Valid()
      reads this`n, this`tn, this`tnv, this`ti, this`tempC, this`tempF, this`valid,
            this`lastTc, this`lastTf, this`lastTv, tempC, tempF, valid
    {
      && tempC != tempF
      && n < 256
      && Contents().Valid()
      && tfLow == CToF(tcLow) && tfHigh == CToF(tcHigh)
      && (lastTv ==> lastTf == CToF(lastTc))
    }

    function Unit(): Unit
      reads this
    {
      UnitOf(isFahrenheit)
    }

    /** The window of the ring, oldest sample first. */
    ghost function History(): (h: seq<Sample>)
      reads this`n, this`tn, this`tnv, this`ti, this`tempC, this`tempF, this`valid,
            this`lastTc, this`lastTf, this`lastTv, tempC, tempF, valid
      requires Valid()
      ensures |h| == tn
    {
      Contents().History()
    }

    /** The scale is the one `update` derives from window `h` in the active unit
        (vacuous while no valid sample was ever added). */
    ghost predicate ScaleMatches(h: seq<Sample>)
      reads this
    {
      1 <= tnv ==>
        && IsLeast(h, Unit(), min)
        && IsGreatest(h, Unit(), max)
        && scale == ScaleFor(min, max)
    }

    ghost predicate ScaleCurrent()
      reads this, tempC, tempF, valid
      requires Valid()
    {
      ScaleMatches(History())
    }

    /** The first-valid search of `update` ends: nothing was added validly, or the
        window holds a reading. Otherwise the source loops forever. */
    ghost predicate SearchTerminates()
      reads this, tempC, tempF, valid
      requires Valid()
    {
      tnv < 1 || HasReading(History())
    }

    /** The low and high thresholds and the last reading in the active unit. */
    function ActiveLow(): real
      reads this
    {
      if isFahrenheit then tfLow else tcLow
    }

    function ActiveHigh(): real
      reads this
    {
      if isFahrenheit then tfHigh else tcHigh
    }

    function ActiveLast(): real
      reads this
    {
      if isFahrenheit then lastTf else lastTc
    }

    /** The constructor: thresholds given in the unit the flag names are stored in
        both units. The other fields are zero, as for a static object. */
    constructor (tLow: real, tHigh: real, isFahrenheit: bool)
      ensures Valid() && n == 0
      ensures this.isFahrenheit == isFahrenheit && !lastTv
      ensures isFahrenheit ==> tfLow == tLow && tfHigh == tHigh
      ensures !isFahrenheit ==> tcLow == tLow && tcHigh == tHigh
      ensures tfLow == CToF(tcLow) && tfHigh == CToF(tcHigh)
    {
      this.isFahrenheit := isFahrenheit;
      if isFahrenheit {
        tfLow := tLow;  tcLow := FToC(tLow);
        tfHigh := tHigh; tcHigh := FToC(tHigh);
        ConversionRoundTrip(tLow);
        ConversionRoundTrip(tHigh);
      } else {
        tcLow := tLow;  tfLow := CToF(tLow);
        tcHigh := tHigh; tfHigh := CToF(tHigh);
      }
      n, tn, tnv, ti := 0, 0, 0, 0;
      tempC := new real[0];
      tempF := new real[0];
      valid := new bool[0];
      lastTc, lastTf, lastTv := 0.0, 0.0, false;
      min, max, scale := 0.0, 0.0, Scale(0, 0, 0, 0.0, 0, 0);
      geometry := Geometry(0, 0, 0, 0, 0, 0);
    }

    /** `init`: fix the geometry for a display of the given size and allocate the
        three arrays of N = width slots. Their contents are left unspecified. The
        counters are not reset: `init` runs once, on a fresh object. */
    method Init(tftWidth: int, tftHeight: int)
      requires Valid() && n == 0
      requires 0 < Uint8(tftWidth - 2 * 4)
      modifies this`geometry, this`n, this`tempC, this`tempF, this`valid
      ensures Valid()
      ensures n == Uint8(tftWidth - 2 * 4)
      ensures geometry == Geometry(4, 8, 4, Uint8(tftHeight - 8 - 48), n, 48)
      ensures fresh(tempC) && fresh(tempF) && fresh(valid)
      ensures tn == 0 && tnv == 0 && ti == 0
    {
      var marginX, marginY, height := 4, 8, 48;
      var width := Uint8(tftWidth - 2 * marginX);
      geometry := Geometry(marginX, marginY, marginX, Uint8(tftHeight - marginY - height), width, height);
      var c, f, v := NewBuffers(width);
      n, tempC, tempF, valid := width, c, f, v;
    }

    /** `add`: record a raw °C reading (a reading equal to the disconnect sentinel is
        a gap), advance the cursor and the counters, and rescale after a valid one. */
    method Add(tc: real, disconnected: real)
      requires Valid() && 0 < n
      modifies this`ti, this`tn, this`tnv, this`lastTc, this`lastTf, this`lastTv,
               this`min, this`max, this`scale, tempC, tempF, valid
      ensures Recorded(tc, disconnected)
      ensures lastTv ==> ScaleCurrent()
      ensures !lastTv ==> min == old(min) && max == old(max) && scale == old(scale)
    {
      Record(tc, disconnected);
      if lastTv {
        AddPushes(old(Contents()), tc, true);
        Update();
      }
    }

    /** What `add` does to the ring and to the last sample, from the state before
        the call to now; `AddPushes` gives the resulting window. */
    twostate predicate Recorded(tc: real, disconnected: real)
      reads this`n, this`tn, this`tnv, this`ti, this`tempC, this`tempF, this`valid,
            this`lastTc, this`lastTf, this`lastTv, tempC, tempF, valid
      requires old(Valid()) && old(0 < n)
    {
      && Valid()
      && lastTv == (tc != disconnected)
      && Contents() == old(Contents()).Add(tc, lastTv)
      && (lastTv ==> lastTc == tc && lastTf == CToF(tc))
      && (!lastTv ==> lastTc == old(lastTc) && lastTf == old(lastTf))
    }

    /** `add` up to the rescale: store the sample and advance the counters. */
    method Record(tc: real, disconnected: real)
      requires Valid() && 0 < n
      modifies this`ti, this`tn, this`tnv, this`lastTc, this`lastTf, this`lastTv,
               tempC, tempF, valid
      ensures Recorded(tc, disconnected)
    {
      Store(tc, disconnected);
      Advance(lastTv);
      AddKeepsValid(old(Contents()), tc, lastTv);
    }

    /** The write half of `add`: flag the sample at the cursor and, for a reading,
        store it in both units and keep it as the last sample. */
    method Store(tc: real, disconnected: real)
      requires ti < tempC.Length && tempC.Length == tempF.Length == valid.Length && tempC != tempF
      modifies this`lastTc, this`lastTf, this`lastTv, tempC, tempF, valid
      ensures lastTv == (tc != disconnected)
      ensures lastTv ==> lastTc == tc && lastTf == CToF(tc)
      ensures !lastTv ==> lastTc == old(lastTc) && lastTf == old(lastTf)
      ensures tempC[..] == if lastTv then old(tempC[..])[ti := tc] else old(tempC[..])
      ensures tempF[..] == if lastTv then old(tempF[..])[ti := CToF(tc)] else old(tempF[..])
      ensures valid[..] == old(valid[..])[ti := lastTv]
    {
      lastTv := tc != disconnected;
      if lastTv {
        tempC[ti] := tc;
        lastTc := tempC[ti];
        tempF[ti] := CToF(tc);
        lastTf := tempF[ti];
        valid[ti] := true;
      } else {
        valid[ti] := false;
      }
    }

    /** The counter half of `add`: count a valid sample, step the cursor round the
        ring and count the sample, both counts saturating at N. */
    method Advance(ok: bool)
      requires ti < n
      modifies this`ti, this`tn, this`tnv
      ensures ti == Next(old(ti), n)
      ensures tn == if old(tn) < n then old(tn) + 1 else old(tn)
      ensures tnv == if ok && old(tnv) < n then old(tnv) + 1 else old(tnv)
    {
      if ok && tnv < n { tnv := tnv + 1; }
      ti := ti + 1;
      if ti == n { ti := 0; }
      if tn < n { tn := tn + 1; }
    }

    /** `update`: a no-op while no valid sample was ever added; otherwise the extrema
        of the window's readings in the active unit, and the scale derived from them. */
    method Update()
      requires Valid() && 0 < n && SearchTerminates()
      modifies this`min, this`max, this`scale
      ensures Valid() && Contents() == old(Contents())
      ensures tnv < 1 ==> min == old(min) && max == old(max) && scale == old(scale)
      ensures ScaleCurrent()
    {
      if tnv < 1 { return; }
      var lo, hi := Scan();
      var s := Rescale(lo, hi);
      min, max, scale := lo, hi, s;
    }

    /** The two loops of `update`: find a valid slot of the window, then the least
        and greatest reading of the window in the active unit. */
    method Scan() returns (lo: real, hi: real)
      requires Valid() && 0 < n && 1 <= tnv && SearchTerminates()
      ensures IsLeast(History(), Unit(), lo) && IsGreatest(History(), Unit(), hi)
    {
      var t := if isFahrenheit then tempF else tempC;
      ghost var c, f, v := tempC[..], tempF[..], valid[..];
      ghost var w := Window(c, f, v, ti, tn);
      assert exists j :: 0 <= j < tn && valid[Slot(ti, tn, n, j)] by {
        ReadingSlots(c, f, v, ti, tn, Unit());
      }
      var k := Oldest(ti, tn, n);
      var m := FirstValid(valid, ti, tn, k);
      lo, hi := WindowExtrema(t, valid, ti, tn, k, m);
      assert IsLeast(w, Unit(), lo) && IsGreatest(w, Unit(), hi) by {
        assert t[..] == if Unit() == Fahrenheit then f else c;
        ExtremaOfWindow(c, f, v, ti, tn, Unit(), lo, hi);
      }
    }

    /** `flipUnit`: toggle the active unit and rescale. */
    method FlipUnit()
      requires Valid() && 0 < n && SearchTerminates()
      modifies this`isFahrenheit, this`min, this`max, this`scale
      ensures Valid() && Contents() == old(Contents())
      ensures isFahrenheit == !old(isFahrenheit)
      ensures tnv < 1 ==> min == old(min) && max == old(max) && scale == old(scale)
      ensures ScaleCurrent()
    {
      isFahrenheit := !isFahrenheit;
      Update();
    }

    /** With a current scale and a whole-degree span of at most 254, the axis
        encloses every reading of the window in the active unit, ending exactly at
        its top, and `n_max - n_min == range`. */
    lemma ScaleEnclosesWindow()
      requires Valid() && 1 <= tnv && ScaleCurrent() && Ceil(max) - Floor(min) <= 254
      ensures scale.nMin as real <= min <= max <= scale.nMax as real
      ensures scale.nMax - scale.nMin == scale.range
      ensures forall j :: 0 <= j < |History()| && History()[j].Reading? ==>
        scale.nMin as real <= History()[j].In(Unit()) <= scale.nMax as real
    {
      ExtremaUnique(History(), Unit(), min, max, min, max);
      ScaleForSpec(min, max);
    }

    /** While the ring has not wrapped, every valid add is still in the window, so
        the search of `update` cannot hang. */
    lemma WarmUpSearchTerminates()
      requires Valid() && 0 < n && tn < n
      ensures SearchTerminates()
    {
      if 1 <= tnv {
        var i :| 0 <= i < tn && valid[i];
        assert Slot(ti, tn, n, i) == i;
        WindowSlots(tempC[..], tempF[..], valid[..], ti, tn);
        assert History()[i].Reading?;
      }
    }
  }

  /** The three buffers of a ring of `n` slots, fresh and of unspecified contents. */
  method NewBuffers(n: nat) returns (c: array<real>, f: array<real>, v: array<bool>)
    ensures fresh(c) && fresh(f) && fresh(v) && c != f
    ensures c.Length == n && f.Length == n && v.Length == n
  {
    c := new real[n];
    f := new real[n];
    v := new bool[n];
  }

  /** The first-valid search of `update`: from the oldest slot `k`, step until a
      valid slot is met. It ends because the window holds a valid slot. */
  method FirstValid(valid: array<bool>, ti: nat, tn: nat, k: nat) returns (m: nat)
    requires ti < valid.Length && tn <= valid.Length && k == Oldest(ti, tn, valid.Length)
    requires exists j :: 0 <= j < tn && valid[Slot(ti, tn, valid.Length, j)]
    ensures exists s :: (0 <= s < tn && m == Slot(ti, tn, valid.Length, s) &&
                         forall j :: 0 <= j < s ==> !valid[Slot(ti, tn, valid.Length, j)])
    ensures m < valid.Length && valid[m]
  {
    var n := valid.Length;
    m := k;
    ghost var s := 0;
    while !valid[m]
      invariant 0 <= s < tn && m == Slot(ti, tn, n, s)
      invariant forall j :: 0 <= j < s ==> !valid[Slot(ti, tn, n, j)]
      invariant exists j :: s <= j < tn && valid[Slot(ti, tn, n, j)]
      decreases tn - s
    {
      m := m + 1;
      if m == n { m := 0; }
      NextSlot(ti, tn, n, s);
      s := s + 1;
    }
  }

  /** The scan of `update`: starting from the reading at slot `m`, visit the `tn`
      slots of the window oldest first and keep the least and greatest reading of
      `t` at a valid slot. */
  method WindowExtrema(t: array<real>, valid: array<bool>, ti: nat, tn: nat, k: nat, m: nat)
    returns (lo: real, hi: real)
    requires t.Length == valid.Length && ti < t.Length && tn <= t.Length
    requires k == Oldest(ti, tn, t.Length)
    requires exists s :: 0 <= s < tn && m == Slot(ti, tn, t.Length, s)
    requires m < t.Length && valid[m]
    ensures SlotExtrema(t[..], valid[..], ti, tn, lo, hi)
  {
    var n := t.Length;
    lo, hi := t[m], t[m];
    var k := k;
    for i := 0 to tn
      invariant k == Slot(ti, tn, n, i)
      invariant lo <= hi
      invariant exists j :: 0 <= j < tn && valid[Slot(ti, tn, n, j)] && t[Slot(ti, tn, n, j)] == lo
      invariant exists j :: 0 <= j < tn && valid[Slot(ti, tn, n, j)] && t[Slot(ti, tn, n, j)] == hi
      invariant forall j :: 0 <= j < i && valid[Slot(ti, tn, n, j)] ==> lo <= t[Slot(ti, tn, n, j)] <= hi
    {
      if valid[k] {
        var tk := t[k];
        if tk < lo {
          lo := tk;
        } else if tk > hi {
          hi := tk;
        }
      }
      k := k + 1;
      if k == n { k := 0; }
      NextSlot(ti, tn, n, i);
    }
  }

  /** The arithmetic of `update` after the scan, statement by statement as the
      source assigns its locals and fields: normalise the extrema to whole degrees
      with a non-empty span, choose the graduation and re-anchor the bottom. The
      value-level `Axis.ScaleFor` is its specification, and the properties of the
      scale are proved about that function (`Axis.ScaleForSpec`). */
  method Rescale(lo: real, hi: real) returns (s: Scale)
    ensures s == ScaleFor(lo, hi)
  {
    var nMin := Floor(lo);
    var nMax := Ceil(hi);
    if nMax == nMin { nMax := nMax + 1; }
    var r1 := Uint8(nMax - nMin);
    var r2 := Uint8(RoundUp(r1, 2));
    var r3 := Uint8(RoundUp(r1, 3));
    var range, dr, div, dy;
    if r1 == 1 {
      range, dr, div, dy := r1, r1 as real / 8.0, 8, 6;
    } else if r2 < r3 {
      range, dr, div, dy := r2, r2 as real / 8.0, 8, 6;
    } else {
      range, dr, div, dy := r3, r3 as real / 6.0, 6, 8;
    }
    nMin := nMax - range;
    s := Scale(nMin, nMax, range, dr, div, dy);
  }

  /** Flipping the unit twice restores the unit and, when the scale was current,
      reproduces the same scale. */
  method FlipTwiceRestoresScale(g: Graph)
    requires g.Valid() && 0 < g.n && g.SearchTerminates() && g.ScaleCurrent()
    modifies g
    ensures g.isFahrenheit == old(g.isFahrenheit)
    ensures g.min == old(g.min) && g.max == old(g.max) && g.scale == old(g.scale)
  {
    ghost var h := g.History();
    g.FlipUnit();
    g.FlipUnit();
    if 1 <= g.tnv {
      ExtremaUnique(h, g.Unit(), g.min, g.max, old(g.min), old(g.max));
    }
  }

  /** A run of N disconnected readings after a single valid one, once the ring has
      wrapped, leaves `tnv` at 1 with no valid slot: a following `flipUnit` would
      never return from the search of `update`. */
  method HangAfterDisconnects(tftWidth: int, tc: real, disconnected: real) returns (g: Graph)
    requires 0 < Uint8(tftWidth - 2 * 4) && tc != disconnected
    ensures g.Valid() && 0 < g.n && g.tnv == 1 && g.tn == g.n
    ensures !g.SearchTerminates()
  {
    g := new Graph(25.0, 30.0, false);
    g.Init(tftWidth, 128);
    g.Add(tc, disconnected);
    AddGaps(g, disconnected);
    assert !HasReading(g.History());
  }

  /** N adds of the disconnect sentinel after a single valid add leave the window
      full of gaps while `tnv` stays at 1. */
  method AddGaps(g: Graph, disconnected: real)
    requires g.Valid() && 0 < g.n && g.tn == 1 && g.tnv == 1
    modifies g, g.tempC, g.tempF, g.valid
    ensures g.Valid() && g.n == old(g.n) && g.tnv == 1 && g.tn == g.n
    ensures GapsFrom(g.History(), 0)
  {
    ghost var c, f, v := g.tempC, g.tempF, g.valid;
    var i := 0;
    while i < g.n
      invariant 0 <= i <= g.n == old(g.n)
      invariant g.tempC == c && g.tempF == f && g.valid == v
      invariant g.Valid() && g.tnv == 1
      invariant g.tn == if i + 1 < g.n then i + 1 else g.n
      invariant GapsFrom(g.History(), if i < g.n then 1 else 0)
    {
      AddGap(g, disconnected, 1);
      i := i + 1;
    }
  }

  /** One add of the disconnect sentinel keeps the gaps of the window, and once the
      ring is full extends them by one towards the front. */
  method AddGap(g: Graph, disconnected: real, k: nat)
    requires g.Valid() && 0 < g.n && GapsFrom(g.History(), k)
    modifies g, g.tempC, g.tempF, g.valid
    ensures g.tempC == old(g.tempC) && g.tempF == old(g.tempF) && g.valid == old(g.valid)
    ensures g.Valid() && g.n == old(g.n) && g.tnv == old(g.tnv)
    ensures g.tn == if old(g.tn) < g.n then old(g.tn) + 1 else g.n
    ensures GapsFrom(g.History(), if old(g.tn) == g.n && 0 < k then k - 1 else k)
  {
    ghost var r := g.Contents();
    g.Add(disconnected, disconnected);
    AddPushes(r, disconnected, false);
    PushGap(r.History(), g.n, k);
  }
}
