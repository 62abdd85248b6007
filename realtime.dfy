/**
 * The real-time window both plotting scripts keep: three `deque(maxlen=50)`
 * holding, point by point, a timestamp, a lux value and a humidity value.
 * A Lux reading starts a new point that carries the last humidity forward; a
 * Humidity reading overwrites the newest point's humidity in place.
 */
module RealTime {
  import opened Protocol

  /** A wall-clock time formatted `%H:%M:%S`; its value is never inspected. */
  type Timestamp = string

  const MaxPoints := 50

  /** The newest `MaxPoints` entries of a series; all of it when it is shorter. */
  function Newest<T>(s: seq<T>): (r: seq<T>)
    ensures |r| == if |s| <= MaxPoints then |s| else MaxPoints
    ensures r == s[|s| - |r|..]
  {
    if |s| <= MaxPoints then s else s[|s| - MaxPoints..]
  }

  /** `append` on a `deque(maxlen=MaxPoints)`: a full deque first drops its oldest entry. */
  function Append<T>(d: seq<T>, x: T): (r: seq<T>)
    requires |d| <= MaxPoints
    ensures r == Newest(d + [x])
  {
    if |d| == MaxPoints then d[1..] + [x] else d + [x]
  }

  datatype Window = Window(time: seq<Timestamp>, lux: seq<int>, hum: seq<int>)

  const Empty := Window([], [], [])

  /** The three series have one entry per point. */
  predicate Aligned(w: Window) {
    |w.time| == |w.lux| == |w.hum|
  }

  /** The window's invariant: aligned, and never more than `MaxPoints` points. */
  predicate Valid(w: Window) {
    Aligned(w) && |w.time| <= MaxPoints
  }

  /** `y_hum[-1] if len(y_hum) > 0 else 0` */
  function LastHum(w: Window): int {
    if |w.hum| > 0 then w.hum[|w.hum| - 1] else 0
  }

  /** `rt_lux[-1] if len(rt_lux) > 0 else 0` */
  function LastLux(w: Window): int {
    if |w.lux| > 0 then w.lux[|w.lux| - 1] else 0
  }

  /** A Lux reading: one new point with this lux and the previous last humidity (0 when empty). */
  function PushLux(w: Window, t: Timestamp, v: int): (r: Window)
    requires Valid(w)
    ensures Valid(r) && |r.time| > 0
    ensures r.time == Newest(w.time + [t])
    ensures r.lux == Newest(w.lux + [v])
    ensures r.hum == Newest(w.hum + [LastHum(w)])
  {
    Window(Append(w.time, t), Append(w.lux, v), Append(w.hum, LastHum(w)))
  }

  /**
   * A Humidity reading: on a non-empty window only the newest humidity changes;
   * on an empty one it becomes the first point, with lux 0.
   */
  function PutHumidity(w: Window, t: Timestamp, v: int): (r: Window)
    requires Aligned(w)
    ensures Aligned(r) && |r.time| > 0 && LastHum(r) == v
    ensures |w.time| > 0 ==> r.time == w.time && r.lux == w.lux && |r.hum| == |w.hum|
    ensures |w.time| > 0 ==> forall i :: 0 <= i < |w.hum| - 1 ==> r.hum[i] == w.hum[i]
    ensures |w.time| == 0 ==> r == Window([t], [0], [v])
    ensures Valid(w) ==> Valid(r)
  {
    if |w.hum| > 0 then w.(hum := w.hum[|w.hum| - 1 := v]) else Window([t], [0], [v])
  }

  /** What one decoded reading does to the window. */
  function Route(w: Window, t: Timestamp, r: Reading): (w': Window)
    requires Valid(w)
    ensures Valid(w')
  {
    match r.kind
    case Lux => PushLux(w, t, r.value)
    case Humidity => PutHumidity(w, t, r.value)
  }

  /** The window after the readings `rs`, the `k`-th stamped `now(k)`. */
  function Feed(w: Window, rs: seq<Reading>, now: nat -> Timestamp): (w': Window)
    requires Valid(w)
    ensures Valid(w')
    decreases |rs|
  {
    if rs == [] then w
    else Route(Feed(w, rs[..|rs| - 1], now), now(|rs| - 1), rs[|rs| - 1])
  }

  /** The newest lux is the last Lux reading's value; a Humidity reading leaves it as it was. */
  lemma LastLuxAfterRoute(w: Window, t: Timestamp, r: Reading)
    requires Valid(w)
    ensures LastLux(Route(w, t, r)) == if r.kind == Lux then r.value else LastLux(w)
  {}

  // The same series without the bound: every Lux reading kept.

  function GrowLux(w: Window, t: Timestamp, v: int): Window {
    Window(w.time + [t], w.lux + [v], w.hum + [LastHum(w)])
  }

  function TimelineRoute(w: Window, t: Timestamp, r: Reading): (w': Window)
    requires Aligned(w)
    ensures Aligned(w') && |w'.time| > 0
  {
    match r.kind
    case Lux => GrowLux(w, t, r.value)
    case Humidity => PutHumidity(w, t, r.value)
  }

  function TimelineFeed(w: Window, rs: seq<Reading>, now: nat -> Timestamp): (w': Window)
    requires Aligned(w)
    ensures Aligned(w')
    decreases |rs|
  {
    if rs == [] then w
    else TimelineRoute(TimelineFeed(w, rs[..|rs| - 1], now), now(|rs| - 1), rs[|rs| - 1])
  }

  /** The newest `MaxPoints` points of an unbounded series. */
  function Bounded(w: Window): (b: Window)
    requires Aligned(w)
    ensures Valid(b)
  {
    Window(Newest(w.time), Newest(w.lux), Newest(w.hum))
  }

  lemma NewestAppend<T>(s: seq<T>, x: T)
    ensures Newest(Newest(s) + [x]) == Newest(s + [x])
  {}

  lemma NewestSetLast<T>(s: seq<T>, x: T)
    requires |s| > 0
    ensures |Newest(s)| > 0
    ensures Newest(s[|s| - 1 := x]) == Newest(s)[|Newest(s)| - 1 := x]
  {}

  lemma BoundedRoute(w: Window, t: Timestamp, r: Reading)
    requires Aligned(w)
    ensures Route(Bounded(w), t, r) == Bounded(TimelineRoute(w, t, r))
  {
    var b := Bounded(w);
    assert LastHum(b) == LastHum(w);
    match r.kind
    case Lux =>
      NewestAppend(w.time, t);
      NewestAppend(w.lux, r.value);
      NewestAppend(w.hum, LastHum(w));
    case Humidity =>
      if |w.hum| > 0 {
        NewestSetLast(w.hum, r.value);
      }
  }

  /**
   * The bounded window always holds exactly the newest `MaxPoints` points of
   * the series that the same readings would build without a bound.
   */
  lemma {:induction false} WindowIsNewestOfTimeline(w: Window, rs: seq<Reading>, now: nat -> Timestamp)
    requires Aligned(w)
    ensures Feed(Bounded(w), rs, now) == Bounded(TimelineFeed(w, rs, now))
    decreases |rs|
  {
    if rs != [] {
      WindowIsNewestOfTimeline(w, rs[..|rs| - 1], now);
      BoundedRoute(TimelineFeed(w, rs[..|rs| - 1], now), now(|rs| - 1), rs[|rs| - 1]);
    }
  }

  /** The values of the Lux readings, in order. */
  function LuxValues(rs: seq<Reading>): (vs: seq<int>)
    ensures |vs| <= |rs|
    decreases |rs|
  {
    if rs == [] then []
    else LuxValues(rs[..|rs| - 1]) + (if rs[|rs| - 1].kind == Lux then [rs[|rs| - 1].value] else [])
  }

  /**
   * Unbounded, the lux series is every Lux value in arrival order, after the
   * points already there; a Humidity reading arriving first adds a lux of 0.
   */
  lemma {:induction false} TimelineLux(w: Window, rs: seq<Reading>, now: nat -> Timestamp)
    requires Aligned(w)
    ensures TimelineFeed(w, rs, now).lux ==
      (if |w.time| == 0 && |rs| > 0 && rs[0].kind == Humidity then [0] else w.lux) + LuxValues(rs)
    decreases |rs|
  {
    if rs != [] {
      var init := rs[..|rs| - 1];
      TimelineLux(w, init, now);
      if init != [] {
        assert init[0] == rs[0];
      }
    }
  }

  /** The lux series of a window that has seen only Lux readings is their newest values. */
  lemma LuxOnlyWindow(rs: seq<Reading>, now: nat -> Timestamp)
    requires forall i :: 0 <= i < |rs| ==> rs[i].kind == Lux
    ensures Feed(Empty, rs, now).lux == Newest(LuxValues(rs))
  {
    assert Bounded(Empty) == Empty;
    WindowIsNewestOfTimeline(Empty, rs, now);
    TimelineLux(Empty, rs, now);
    var timeline := TimelineFeed(Empty, rs, now);
    assert |rs| > 0 ==> rs[0].kind == Lux;
    assert Empty.lux + LuxValues(rs) == LuxValues(rs);
    assert timeline.lux == LuxValues(rs);
    assert Feed(Empty, rs, now) == Bounded(timeline);
  }

  /** The values of readings that are all Lux readings. */
  lemma {:induction false} LuxValuesOfLuxOnly(rs: seq<Reading>)
    requires forall i :: 0 <= i < |rs| ==> rs[i].kind == Lux
    ensures |LuxValues(rs)| == |rs|
    ensures forall i :: 0 <= i < |rs| ==> LuxValues(rs)[i] == rs[i].value
    decreases |rs|
  {
    if rs != [] {
      LuxValuesOfLuxOnly(rs[..|rs| - 1]);
    }
  }

  /** After `MaxPoints + 1` Lux readings the first one is gone and the other fifty remain, in order. */
  lemma OldestLuxEvicted(rs: seq<Reading>, now: nat -> Timestamp)
    requires |rs| == MaxPoints + 1
    requires forall i :: 0 <= i < |rs| ==> rs[i].kind == Lux
    ensures |Feed(Empty, rs, now).lux| == MaxPoints
    ensures forall i :: 0 <= i < MaxPoints ==> Feed(Empty, rs, now).lux[i] == rs[i + 1].value
  {
    LuxOnlyWindow(rs, now);
    LuxValuesOfLuxOnly(rs);
  }
}
