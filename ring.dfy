/** Index arithmetic of the sample ring and the window it holds (include/Graph.h). */
module Ring {
  import opened Temperature

  /** Slot of the oldest sample in the window: the source's `(ti - tn + N) % N`. */
  function Oldest(ti: nat, tn: nat, n: nat): (k: nat)
    requires ti < n && tn <= n
    ensures k < n
  {
    if tn <= ti then ti - tn else ti + n - tn
  }

  /** Slot of the `j`-th oldest sample of a window of `tn` samples ending before cursor `ti`. */
  function Slot(ti: nat, tn: nat, n: nat, j: nat): (k: nat)
    requires ti < n && tn <= n && j <= n
    ensures k < n
  {
    var x := Oldest(ti, tn, n) + j;
    if x < n then x else x - n
  }

  /** The source's cursor step `k++; if (k == N) k = 0;`. */
  function Next(k: nat, n: nat): (k': nat)
    requires k < n
    ensures k' < n
  {
    if k + 1 == n then 0 else k + 1
  }

  /** The wrap-free forms above agree with the modular arithmetic of the source. */
  lemma SourceIndexArithmetic(ti: nat, tn: nat, n: nat, j: nat, k: nat)
    requires ti < n && tn <= n && j <= n && k < n
    ensures Oldest(ti, tn, n) == (ti + n - tn) % n
    ensures Slot(ti, tn, n, j) == (Oldest(ti, tn, n) + j) % n
    ensures Next(k, n) == (k + 1) % n
  {
    ModBelowTwice(ti + n - tn, n);
    ModBelowTwice(Oldest(ti, tn, n) + j, n);
    ModBelowTwice(k + 1, n);
  }

  lemma ModBelowTwice(x: int, n: int)
    requires 0 < n && 0 <= x < 2 * n
    ensures x % n == if x < n then x else x - n
  {
    var q, r := x / n, x % n;
    assert x == q * n + r && 0 <= r < n;
    if x < n {
      assert q == 0;
    } else {
      assert q == 1;
    }
  }

  /** Stepping a slot of the window reaches the slot of the next younger sample. */
  lemma NextSlot(ti: nat, tn: nat, n: nat, j: nat)
    requires ti < n && tn <= n && j < n
    ensures Next(Slot(ti, tn, n, j), n) == Slot(ti, tn, n, j + 1)
  {
  }

  /** The slots of a window are pairwise distinct, and the cursor is not among them
      unless the ring is full (then it holds the oldest sample). */
  lemma SlotsDistinct(ti: nat, tn: nat, n: nat, i: nat, j: nat)
    requires ti < n && tn <= n && i < tn && j < tn
    ensures Slot(ti, tn, n, i) == Slot(ti, tn, n, j) <==> i == j
    ensures Slot(ti, tn, n, i) == ti <==> tn == n && i == 0
  {
  }

  /** The counters of a ring of capacity `n` with validity flags `v`: the cursor
      `ti`, the samples written `tn` and the valid samples added `tnv`, the last two
      saturating at `n`. While the ring has not wrapped, the cursor equals the count
      and a valid add is still held. */
  predicate Counters(n: nat, tn: nat, tnv: nat, ti: nat, v: seq<bool>)
  {
    && |v| == n
    && (n == 0 ==> ti == 0 && tn == 0 && tnv == 0)
    && (0 < n ==> ti < n && tnv <= tn <= n)
    && (tn < n ==> ti == tn)
    && (tn < n && 0 < tnv ==> exists i :: 0 <= i < tn && v[i])
  }

  /** One add keeps the counters consistent: flag the cursor slot, step the
      cursor, and count the sample and, when valid, the valid sample. */
  lemma CountersAfterAdd(n: nat, tn: nat, tnv: nat, ti: nat, v: seq<bool>, ok: bool)
    requires Counters(n, tn, tnv, ti, v) && 0 < n
    ensures Counters(n, if tn < n then tn + 1 else n, if ok && tnv < n then tnv + 1 else tnv,
                     Next(ti, n), v[ti := ok])
  {
    var tn', tnv', v' := if tn < n then tn + 1 else n, if ok && tnv < n then tnv + 1 else tnv, v[ti := ok];
    if tn' < n && 0 < tnv' {
      if ok {
        assert v'[ti];
      } else {
        var i :| 0 <= i < tn && v[i];
        assert v'[i];
      }
    }
  }

  /** One slot of the ring seen as a sample: a reading in both units, or a gap. */
  datatype Sample = Reading(c: real, f: real) | Disconnected
  {
    /** The reading in unit `u`, as the source reads `temp[is_fahrenheit][k]`. */
    function In(u: Unit): real
      requires Reading?
    {
      if u == Fahrenheit then f else c
    }
  }

  function SampleAt(c: seq<real>, f: seq<real>, v: seq<bool>, k: nat): Sample
    requires k < |c| && k < |f| && k < |v|
  {
    if v[k] then Reading(c[k], f[k]) else Disconnected
  }

  /** The slot before `k`, going backwards round a ring of `n` slots. */
  function Prev(k: nat, n: nat): (k': nat)
    requires k < n
    ensures k' < n && Next(k', n) == k
  {
    if k == 0 then n - 1 else k - 1
  }

  /** The window, oldest first: the `tn` slots ending just before cursor `ti`. */
  function Window(c: seq<real>, f: seq<real>, v: seq<bool>, ti: nat, tn: nat): (w: seq<Sample>)
    requires |c| == |f| == |v| && ti < |c| && tn <= |c|
    ensures |w| == tn
    decreases tn
  {
    if tn == 0 then []
    else Window(c, f, v, Prev(ti, |c|), tn - 1) + [SampleAt(c, f, v, Prev(ti, |c|))]
  }

  /** The `j`-th sample of the window is the one held at the `j`-th slot. */
  lemma {:induction false} WindowSlots(c: seq<real>, f: seq<real>, v: seq<bool>, ti: nat, tn: nat)
    requires |c| == |f| == |v| && ti < |c| && tn <= |c|
    ensures forall j :: 0 <= j < tn ==>
      Window(c, f, v, ti, tn)[j] == SampleAt(c, f, v, Slot(ti, tn, |c|, j))
    decreases tn
  {
    if 0 < tn {
      var n, p := |c|, Prev(ti, |c|);
      WindowSlots(c, f, v, p, tn - 1);
      forall j | 0 <= j < tn - 1
        ensures Slot(p, tn - 1, n, j) == Slot(ti, tn, n, j)
      {
      }
      assert Slot(ti, tn, n, tn - 1) == p;
    }
  }

  /** The window of a ring of capacity `n` after one more sample: the sample is
      appended, and once the ring is full the oldest one is evicted. */
  function Push(w: seq<Sample>, s: Sample, n: nat): (w': seq<Sample>)
    requires |w| <= n && 0 < n
    ensures |w'| == if |w| < n then |w| + 1 else n
    ensures w'[|w'| - 1] == s
    ensures forall j :: 0 <= j < |w'| - 1 ==> w'[j] == w[j + |w| + 1 - |w'|]
  {
    if |w| < n then w + [s] else w[1..] + [s]
  }

  /** One sample of the window. */
  lemma WindowAt(c: seq<real>, f: seq<real>, v: seq<bool>, ti: nat, tn: nat, j: nat)
    requires |c| == |f| == |v| && ti < |c| && j < tn <= |c|
    ensures Window(c, f, v, ti, tn)[j] == SampleAt(c, f, v, Slot(ti, tn, |c|, j))
  {
    WindowSlots(c, f, v, ti, tn);
  }

  /** Writing the slot at the cursor and advancing the cursor and the count, as
      `add` does, pushes the written sample onto the window. */
  lemma WindowAfterWrite(c: seq<real>, f: seq<real>, v: seq<bool>,
                         c': seq<real>, f': seq<real>, v': seq<bool>,
                         ti: nat, tn: nat, ok: bool)
    requires |c| == |f| == |v| && ti < |c| && tn <= |c|
    requires |c'| == |c| && |f'| == |f| && v' == v[ti := ok]
    requires forall k :: 0 <= k < |c| && k != ti ==> c'[k] == c[k] && f'[k] == f[k]
    ensures Window(c', f', v', Next(ti, |c|), if tn < |c| then tn + 1 else tn)
         == Push(Window(c, f, v, ti, tn), SampleAt(c', f', v', ti), |c|)
  {
    var n := |c|;
    var tn' := if tn < n then tn + 1 else tn;
    var w := Window(c, f, v, ti, tn);
    var w' := Window(c', f', v', Next(ti, n), tn');
    var p := Push(w, SampleAt(c', f', v', ti), n);
    forall j | 0 <= j < |w'|
      ensures w'[j] == p[j]
    {
      SampleAfterWrite(c, f, v, c', f', v', ti, tn, ok, j);
    }
  }

  /** The `j`-th sample of the window after the write of `WindowAfterWrite`. */
  lemma SampleAfterWrite(c: seq<real>, f: seq<real>, v: seq<bool>,
                         c': seq<real>, f': seq<real>, v': seq<bool>,
                         ti: nat, tn: nat, ok: bool, j: nat)
    requires |c| == |f| == |v| && ti < |c| && tn <= |c|
    requires |c'| == |c| && |f'| == |f| && v' == v[ti := ok]
    requires forall k :: 0 <= k < |c| && k != ti ==> c'[k] == c[k] && f'[k] == f[k]
    requires j < if tn < |c| then tn + 1 else tn
    ensures Window(c', f', v', Next(ti, |c|), if tn < |c| then tn + 1 else tn)[j]
         == Push(Window(c, f, v, ti, tn), SampleAt(c', f', v', ti), |c|)[j]
  {
    var n := |c|;
    var tn' := if tn < n then tn + 1 else tn;
    WindowAt(c', f', v', Next(ti, n), tn', j);
    SlotAfterAdvance(ti, tn, n, j);
    if j < tn' - 1 {
      var i := if tn < n then j else j + 1;
      WindowAt(c, f, v, ti, tn, i);
      SlotsDistinct(ti, tn, n, i, i);
    }
  }

  /** After the cursor and the count advance, the `j`-th slot of the window is the
      cursor for the newest sample, and otherwise the slot of the same sample before. */
  lemma SlotAfterAdvance(ti: nat, tn: nat, n: nat, j: nat)
    requires ti < n && tn <= n && j < if tn < n then tn + 1 else tn
    ensures var tn' := if tn < n then tn + 1 else tn;
      Slot(Next(ti, n), tn', n, j)
        == if j == tn' - 1 then ti else Slot(ti, tn, n, if tn < n then j else j + 1)
  {
  }

  /** The ring as a value: capacity `n`, the counters, and the buffers in °C, in °F
      and of validity flags. */
  datatype RingState = RingState(n: nat, tn: nat, tnv: nat, ti: nat,
                                 c: seq<real>, f: seq<real>, v: seq<bool>)
  {
    /** The buffers have the capacity and the counters are consistent with them. */
    predicate Valid()
    {
      |c| == n && |f| == n && Counters(n, tn, tnv, ti, v)
    }

    /** The samples held, oldest first (none before the buffers exist). */
    function History(): (w: seq<Sample>)
      requires Valid()
      ensures |w| == tn
    {
      if n == 0 then [] else Window(c, f, v, ti, tn)
    }

    /** The ring after `add` of a sample read as `tc` °C, valid when `ok`: the slot at
        the cursor is flagged and, for a reading, written in both units; the cursor
        steps round the ring and the counts saturate at `n`. */
    function Add(tc: real, ok: bool): RingState
      requires Valid() && 0 < n
    {
      RingState(n, if tn < n then tn + 1 else n, if ok && tnv < n then tnv + 1 else tnv,
                Next(ti, n),
                if ok then c[ti := tc] else c,
                if ok then f[ti := CToF(tc)] else f,
                v[ti := ok])
    }
  }

  /** `add` keeps the ring consistent. */
  lemma AddKeepsValid(r: RingState, tc: real, ok: bool)
    requires r.Valid() && 0 < r.n
    ensures r.Add(tc, ok).Valid()
  {
    CountersAfterAdd(r.n, r.tn, r.tnv, r.ti, r.v, ok);
  }

  /** The counters after `add`: the cursor steps by one round the ring whatever the
      sample, `tn` and `tnv` only grow and saturate at `n`, `tnv` grows exactly for a
      valid sample below saturation, and `tnv <= tn <= n` is kept. */
  lemma AddCounters(r: RingState, tc: real, ok: bool)
    requires r.Valid() && 0 < r.n
    ensures var r' := r.Add(tc, ok);
      && r'.n == r.n
      && r'.ti < r.n && r'.ti == (r.ti + 1) % r.n
      && r.tn <= r'.tn <= r.n && r'.tn == (if r.tn < r.n then r.tn + 1 else r.n)
      && r.tnv <= r'.tnv <= r'.tn
      && (r'.tnv == r.tnv + 1 <==> ok && r.tnv < r.n)
      && (r'.tnv != r.tnv + 1 ==> r'.tnv == r.tnv)
  {
    AddKeepsValid(r, tc, ok);
    SourceIndexArithmetic(r.ti, 0, r.n, 0, r.ti);
  }

  /** `add` writes the cursor slot only: a reading in both units and a valid flag,
      or a cleared flag with both readings left as they were. */
  lemma AddWritesCursorOnly(r: RingState, tc: real, ok: bool)
    requires r.Valid() && 0 < r.n
    ensures var r' := r.Add(tc, ok);
      && |r'.c| == |r'.f| == |r'.v| == r.n
      && r'.v[r.ti] == ok
      && (ok ==> r'.c[r.ti] == tc && r'.f[r.ti] == CToF(tc))
      && (!ok ==> r'.c == r.c && r'.f == r.f)
      && (forall k :: 0 <= k < r.n && k != r.ti ==> r'.c[k] == r.c[k] && r'.f[k] == r.f[k] && r'.v[k] == r.v[k])
  {
  }

  /** `add` pushes its sample onto the window: a reading in both units, or a gap. */
  lemma AddPushes(r: RingState, tc: real, ok: bool)
    requires r.Valid() && 0 < r.n
    ensures r.Add(tc, ok).Valid()
    ensures r.Add(tc, ok).History()
         == Push(r.History(), if ok then Reading(tc, CToF(tc)) else Disconnected, r.n)
  {
    var r' := r.Add(tc, ok);
    AddKeepsValid(r, tc, ok);
    WindowAfterWrite(r.c, r.f, r.v, r'.c, r'.f, r'.v, r.ti, r.tn, ok);
  }

  /** A gap can evict the least reading. A ring of 2 takes 10 °C, then 20 °C: the
      least reading of the window is 10. A gap then evicts it, and the window's
      least reading is 20, so a minimum kept from before the gap no longer is one. */
  lemma GapLeavesStaleMinimum(r0: RingState)
    requires r0 == RingState(2, 0, 0, 0, [0.0, 0.0], [0.0, 0.0], [false, false])
    ensures r0.Valid() && r0.Add(10.0, true).Valid() && r0.Add(10.0, true).Add(20.0, true).Valid()
    ensures var w := r0.Add(10.0, true).Add(20.0, true).History();
            IsLeast(w, Celsius, 10.0) && IsGreatest(w, Celsius, 20.0)
    ensures var w' := r0.Add(10.0, true).Add(20.0, true).Add(0.0, false).History();
            w' == [Reading(20.0, CToF(20.0)), Disconnected] &&
            IsLeast(w', Celsius, 20.0) && !IsLeast(w', Celsius, 10.0)
  {
    var r1 := r0.Add(10.0, true);
    AddPushes(r0, 10.0, true);
    AddPushes(r1, 20.0, true);
    var r2 := r1.Add(20.0, true);
    AddPushes(r2, 0.0, false);
    assert r1.History() == [Reading(10.0, CToF(10.0))];
    var w := r2.History();
    assert w == [Reading(10.0, CToF(10.0)), Reading(20.0, CToF(20.0))];
    assert w[0].Reading? && w[0].In(Celsius) == 10.0;
    assert w[1].Reading? && w[1].In(Celsius) == 20.0;
    var w' := r2.Add(0.0, false).History();
    assert w' == [Reading(20.0, CToF(20.0)), Disconnected];
    assert w'[0].Reading? && w'[0].In(Celsius) == 20.0;
  }

  /** Whether the window holds at least one reading. */
  predicate HasReading(w: seq<Sample>)
  {
    exists j :: 0 <= j < |w| && w[j].Reading?
  }

  /** Every sample of `w` from index `k` on is a gap. */
  predicate GapsFrom(w: seq<Sample>, k: nat)
  {
    forall j :: k <= j < |w| ==> w[j] == Disconnected
  }

  /** Pushing a gap keeps the gaps, and once the ring is full it evicts the oldest
      sample, so the run of gaps grows by one towards the front. */
  lemma PushGap(w: seq<Sample>, n: nat, k: nat)
    requires 0 < n && |w| <= n && GapsFrom(w, k)
    ensures GapsFrom(Push(w, Disconnected, n), if |w| == n && 0 < k then k - 1 else k)
  {
  }

  /** `x` is the least reading of the window in unit `u`; gaps are ignored. */
  predicate IsLeast(w: seq<Sample>, u: Unit, x: real)
  {
    (exists j :: 0 <= j < |w| && w[j].Reading? && w[j].In(u) == x) &&
    (forall j :: 0 <= j < |w| && w[j].Reading? ==> x <= w[j].In(u))
  }

  /** `x` is the greatest reading of the window in unit `u`; gaps are ignored. */
  predicate IsGreatest(w: seq<Sample>, u: Unit, x: real)
  {
    (exists j :: 0 <= j < |w| && w[j].Reading? && w[j].In(u) == x) &&
    (forall j :: 0 <= j < |w| && w[j].Reading? ==> w[j].In(u) <= x)
  }

  /** The window holds a reading exactly where the slot is valid, and the reading
      in unit `u` is the slot of the array of that unit. */
  lemma ReadingSlots(c: seq<real>, f: seq<real>, v: seq<bool>, ti: nat, tn: nat, u: Unit)
    requires |c| == |f| == |v| && ti < |c| && tn <= |c|
    ensures forall j :: 0 <= j < tn ==>
      (Window(c, f, v, ti, tn)[j].Reading? <==> v[Slot(ti, tn, |c|, j)])
    ensures forall j :: 0 <= j < tn && v[Slot(ti, tn, |c|, j)] ==>
      Window(c, f, v, ti, tn)[j].In(u) == (if u == Fahrenheit then f else c)[Slot(ti, tn, |c|, j)]
    ensures HasReading(Window(c, f, v, ti, tn)) <==> exists j :: 0 <= j < tn && v[Slot(ti, tn, |c|, j)]
  {
    var w := Window(c, f, v, ti, tn);
    WindowSlots(c, f, v, ti, tn);
    if HasReading(w) {
      var j :| 0 <= j < |w| && w[j].Reading?;
      assert v[Slot(ti, tn, |c|, j)];
    }
  }

  /** `lo` and `hi` are the least and greatest of `t` over the valid slots of the
      window, stated slot by slot. */
  predicate SlotExtrema(t: seq<real>, v: seq<bool>, ti: nat, tn: nat, lo: real, hi: real)
    requires |t| == |v| && ti < |t| && tn <= |t|
  {
    && (exists j :: 0 <= j < tn && v[Slot(ti, tn, |t|, j)] && t[Slot(ti, tn, |t|, j)] == lo)
    && (exists j :: 0 <= j < tn && v[Slot(ti, tn, |t|, j)] && t[Slot(ti, tn, |t|, j)] == hi)
    && (forall j :: 0 <= j < tn && v[Slot(ti, tn, |t|, j)] ==> lo <= t[Slot(ti, tn, |t|, j)] <= hi)
  }

  /** Extrema stated slot by slot are the extrema of the window. */
  lemma ExtremaOfWindow(c: seq<real>, f: seq<real>, v: seq<bool>, ti: nat, tn: nat, u: Unit,
                        lo: real, hi: real)
    requires |c| == |f| == |v| && ti < |c| && tn <= |c|
    requires SlotExtrema(if u == Fahrenheit then f else c, v, ti, tn, lo, hi)
    ensures IsLeast(Window(c, f, v, ti, tn), u, lo)
    ensures IsGreatest(Window(c, f, v, ti, tn), u, hi)
  {
    ReadingSlots(c, f, v, ti, tn, u);
  }

  /** The extrema are determined by the window and the unit alone. */
  lemma ExtremaUnique(w: seq<Sample>, u: Unit, a: real, b: real, a': real, b': real)
    requires IsLeast(w, u, a) && IsLeast(w, u, a')
    requires IsGreatest(w, u, b) && IsGreatest(w, u, b')
    ensures a == a' && b == b' && a <= b
  {
  }
}
