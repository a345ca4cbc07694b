/** The axis scaler of `Graph::update` (include/Graph.h:123-149), on values. */
module Axis {

  /** The source's `floor()` of a float, on reals. */
  function Floor(x: real): (r: int)
    ensures r as real <= x < r as real + 1.0
  {
    x.Floor
  }

  /** The source's `ceil()` of a float, on reals. */
  function Ceil(x: real): (r: int)
    ensures x <= r as real < x + 1.0
  {
    -((-x).Floor)
  }

  /** Storing a value into a `uint8_t`, taken modulo 256. For an integer source
      (`width`, `oy`) this is what C++ does; for the floating `r1`, `r2` and `r3`
      an out-of-range store is undefined in C++, and the model assumes the wrap. */
  function Uint8(x: int): (b: int)
    ensures 0 <= b < 256
    ensures 0 <= x < 256 ==> b == x
  {
    x % 256
  }

  /** `k * (1 + floor((r1 - .1f) / k))`: the source's `r2` (k = 2) and `r3` (k = 3)
      before they are stored into a `uint8_t`. */
  function RoundUp(r1: int, k: int): int
    requires k == 2 || k == 3
  {
    if k == 2 then 2 * (1 + Floor((r1 as real - 0.1) / 2.0))
    else 3 * (1 + Floor((r1 as real - 0.1) / 3.0))
  }

  /** For a whole `r1 >= 0`, RoundUp gives the least multiple of `k` at or above `r1`. */
  lemma RoundUpIsNextMultiple(r1: int, k: int)
    requires 0 <= r1 && (k == 2 || k == 3)
    ensures RoundUp(r1, k) % k == 0
    ensures r1 <= RoundUp(r1, k) < r1 + k
    ensures forall m :: r1 <= m && m % k == 0 ==> RoundUp(r1, k) <= m
  {
    var q := if k == 2 then Floor((r1 as real - 0.1) / 2.0) else Floor((r1 as real - 0.1) / 3.0);
    assert RoundUp(r1, k) == (q + 1) * k;
    assert q * k < r1 <= (q + 1) * k by {
      if k == 2 {
        assert q as real <= (r1 as real - 0.1) / 2.0 < q as real + 1.0;
      } else {
        assert q as real <= (r1 as real - 0.1) / 3.0 < q as real + 1.0;
      }
    }
    forall m | r1 <= m && m % k == 0
      ensures (q + 1) * k <= m
    {
      MultipleAbove(q, k, m);
    }
  }

  /** A multiple of `k` above `q * k` is at least `(q + 1) * k`. */
  lemma MultipleAbove(q: int, k: int, m: int)
    requires (k == 2 || k == 3) && q * k < m && m % k == 0
    ensures (q + 1) * k <= m
  {
  }

  /** How the axis is graduated: its span, the value of one division, the number
      of divisions and the height of one division in pixels. */
  datatype Graduation = Graduation(range: int, dr: real, div: nat, dy: nat)

  /** The source's choice of range and division count for a span `r1` (a `uint8_t`). */
  function ChooseRange(r1: int): Graduation
    requires 0 <= r1 < 256
  {
    var r2 := Uint8(RoundUp(r1, 2));
    var r3 := Uint8(RoundUp(r1, 3));
    if r1 == 1 then Graduation(r1, r1 as real / 8.0, 8, 6)
    else if r2 < r3 then Graduation(r2, r2 as real / 8.0, 8, 6)
    else Graduation(r3, r3 as real / 6.0, 6, 8)
  }

  /** A range a graduated axis can use: 1, or a multiple of 2 or of 3. */
  predicate Nice(r: int)
  {
    r == 1 || r % 2 == 0 || r % 3 == 0
  }

  /** For spans up to 254, the two candidates of the source fit in a `uint8_t` and
      are the least even number and the least multiple of 3 at or above `r1`. */
  lemma CandidatesAreNextMultiples(r1: int)
    requires 1 <= r1 <= 254
    ensures var r2 := Uint8(RoundUp(r1, 2));
      r2 % 2 == 0 && r1 <= r2 < r1 + 2
    ensures var r3 := Uint8(RoundUp(r1, 3));
      r3 % 3 == 0 && r1 <= r3 < r1 + 3
  {
    RoundUpIsNextMultiple(r1, 2);
    RoundUpIsNextMultiple(r1, 3);
  }

  /** For spans up to 254 the chosen range is the least nice number at or above the
      span, six divisions are used exactly when that range is a multiple of 3 (so a
      tie between the candidates goes to six), and the graduation always covers the
      48-pixel axis and the whole range. */
  lemma ChooseRangeSpec(r1: int)
    requires 1 <= r1 <= 254
    ensures var g := ChooseRange(r1);
      && r1 <= g.range <= r1 + 1
      && Nice(g.range)
      && (forall m :: r1 <= m < g.range ==> !Nice(m))
      && (r1 == 1 ==> g == Graduation(1, 0.125, 8, 6))
      && (r1 > 1 ==> (g.div == 6 <==> g.range % 3 == 0))
      && (g.div == 8 || g.div == 6)
      && g.div * g.dy == 48
      && g.dr * g.div as real == g.range as real
  {
    CandidatesAreNextMultiples(r1);
  }

  /** Spans 1, 4 and 6 take the three branches of the choice. */
  lemma ChooseRangeExamples()
    ensures ChooseRange(1) == Graduation(1, 0.125, 8, 6)
    ensures ChooseRange(4) == Graduation(4, 0.5, 8, 6)
    ensures ChooseRange(6) == Graduation(6, 1.0, 6, 8)
  {
    CandidatesAreNextMultiples(4);
    CandidatesAreNextMultiples(6);
  }

  /** At a span of 255 the even candidate is 256. Under the modulo-256 store that
      `Uint8` assumes, it becomes 0, and so does the range chosen. */
  lemma WideSpanCollapses()
    ensures ChooseRange(255).range == 0
  {
    RoundUpIsNextMultiple(255, 2);
    RoundUpIsNextMultiple(255, 3);
  }

  /** The derived scale of the axis. */
  datatype Scale = Scale(nMin: int, nMax: int, range: int, dr: real, div: nat, dy: nat)

  /** What `update` computes from the extrema `lo` and `hi` of the window:
      normalise to whole degrees with a non-empty span, pick the graduation and
      re-anchor the bottom so that the axis ends exactly at the top. */
  function ScaleFor(lo: real, hi: real): Scale
  {
    var nMin := Floor(lo);
    var nMax := if Ceil(hi) == nMin then Ceil(hi) + 1 else Ceil(hi);
    var g := ChooseRange(Uint8(nMax - nMin));
    Scale(nMax - g.range, nMax, g.range, g.dr, g.div, g.dy)
  }

  /** For extrema whose whole-degree span is at most 254, the axis encloses them,
      its top is the ceiling of the maximum (one more when floor and ceiling meet),
      its bottom lies at most one degree below the floor of the minimum, and its
      span is the chosen range. */
  lemma ScaleForSpec(lo: real, hi: real)
    requires lo <= hi && Ceil(hi) - Floor(lo) <= 254
    ensures var s := ScaleFor(lo, hi);
      && s.nMin as real <= lo && hi <= s.nMax as real
      && s.nMax == (if Ceil(hi) == Floor(lo) then Ceil(hi) + 1 else Ceil(hi))
      && Floor(lo) - 1 <= s.nMin <= Floor(lo)
      && s.nMin < s.nMax
      && s.nMax - s.nMin == s.range
      && Nice(s.range)
      && s.div * s.dy == 48
      && s.dr * s.div as real == s.range as real
  {
    var nMax := if Ceil(hi) == Floor(lo) then Ceil(hi) + 1 else Ceil(hi);
    ChooseRangeSpec(Uint8(nMax - Floor(lo)));
  }

  /** Floor and ceiling meet only when both extrema are the same whole number. */
  lemma BumpOnlyForFlatWholeWindow(lo: real, hi: real)
    requires lo <= hi
    ensures Ceil(hi) == Floor(lo) <==> lo == hi && lo == Floor(lo) as real
  {
  }

  /** Extrema 20 and 26 give a span of 6, a tie between the candidates 6 and 6,
      so the range is 6 with six divisions. */
  lemma ScaleForExample()
    ensures ScaleFor(20.0, 26.0) == Scale(20, 26, 6, 1.0, 6, 8)
  {
    assert Floor(20.0) == 20 && Ceil(26.0) == 26;
    CandidatesAreNextMultiples(6);
  }
}
