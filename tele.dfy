/**
 * `tele.py`: every animation tick drains the serial input buffer, routes each
 * decoded reading into the real-time window, and on a Humidity reading also
 * runs the pump controller and appends one row to the full history
 * (`hist_time_idx`, `hist_hum`, `hist_lux`, `hist_pump`, `global_counter`).
 */
module Tele {
  import opened Serial
  import opened Protocol
  import opened Hysteresis
  import RealTime

  /** The four parallel history lists, one row per Humidity reading. */
  datatype History = History(timeIdx: seq<int>, hum: seq<int>, lux: seq<int>, pump: seq<int>)

  /** The script's global data: window, history, `global_counter` and `current_pump_state`. */
  datatype TeleState = TeleState(window: RealTime.Window, hist: History, counter: int, pumpOn: bool)

  const Initial := TeleState(RealTime.Empty, History([], [], [], []), 0, InitialPumpState)

  /** `100 if is_pump_on else 0`, the pump column of the history. */
  function PumpPercent(on: bool): int {
    if on then 100 else 0
  }

  /**
   * What the data always satisfies: a valid window; one history row per
   * counted reading, numbered 1, 2, ...; pump entries 0 or 100, the newest
   * one showing the current pump state.
   */
  predicate Inv(st: TeleState) {
    && RealTime.Valid(st.window)
    && |st.hist.timeIdx| == st.counter
    && |st.hist.hum| == st.counter
    && |st.hist.lux| == st.counter
    && |st.hist.pump| == st.counter
    && (forall i :: 0 <= i < |st.hist.timeIdx| ==> st.hist.timeIdx[i] == i + 1)
    && (forall i :: 0 <= i < |st.hist.pump| ==> st.hist.pump[i] == 0 || st.hist.pump[i] == 100)
    && (st.counter > 0 ==> st.hist.pump[st.counter - 1] == PumpPercent(st.pumpOn))
  }

  /** A Lux reading only adds a point to the window. */
  function OnLux(st: TeleState, t: RealTime.Timestamp, v: int): (st': TeleState)
    requires RealTime.Valid(st.window)
    ensures st'.hist == st.hist && st'.counter == st.counter && st'.pumpOn == st.pumpOn
    ensures RealTime.LastLux(st'.window) == v
  {
    st.(window := RealTime.PushLux(st.window, t, v))
  }

  /**
   * A Humidity reading: the pump controller runs first, the window's newest
   * humidity is updated, then one history row is appended with the window's
   * newest lux and the pump state the controller returned.
   */
  function OnHumidity(st: TeleState, t: RealTime.Timestamp, v: int): (st': TeleState)
    requires RealTime.Valid(st.window)
    ensures st'.counter == st.counter + 1 && st'.pumpOn == NextPumpState(st.pumpOn, v)
    ensures st'.hist.hum == st.hist.hum + [v]
    ensures st'.hist.lux == st.hist.lux + [RealTime.LastLux(st.window)]
    ensures st'.hist.pump == st.hist.pump + [PumpPercent(st'.pumpOn)]
  {
    var on := NextPumpState(st.pumpOn, v);
    var w := RealTime.PutHumidity(st.window, t, v);
    var c := st.counter + 1;
    TeleState(w,
      History(st.hist.timeIdx + [c], st.hist.hum + [v], st.hist.lux + [RealTime.LastLux(w)], st.hist.pump + [PumpPercent(on)]),
      c, on)
  }

  function Route(st: TeleState, t: RealTime.Timestamp, r: Reading): (st': TeleState)
    requires RealTime.Valid(st.window)
    ensures RealTime.Valid(st'.window)
  {
    match r.kind
    case Lux => OnLux(st, t, r.value)
    case Humidity => OnHumidity(st, t, r.value)
  }

  /** The data after the readings `rs`, the `k`-th stamped `now(k)`. */
  function Feed(st: TeleState, rs: seq<Reading>, now: nat -> RealTime.Timestamp): (st': TeleState)
    requires RealTime.Valid(st.window)
    ensures RealTime.Valid(st'.window)
    decreases |rs|
  {
    if rs == [] then st
    else Route(Feed(st, rs[..|rs| - 1], now), now(|rs| - 1), rs[|rs| - 1])
  }

  // Reference definitions of the history columns.

  /** The values of the Humidity readings, in order. */
  function HumValues(rs: seq<Reading>): (hs: seq<int>)
    ensures |hs| <= |rs|
    decreases |rs|
  {
    if rs == [] then []
    else HumValues(rs[..|rs| - 1]) + (if rs[|rs| - 1].kind == Humidity then [rs[|rs| - 1].value] else [])
  }

  /** The value of the last Lux reading in `rs`; `l0` when there is none. */
  function LatestLux(l0: int, rs: seq<Reading>): int
    decreases |rs|
  {
    if rs == [] then l0
    else if rs[|rs| - 1].kind == Lux then rs[|rs| - 1].value
    else LatestLux(l0, rs[..|rs| - 1])
  }

  /** For each Humidity reading, the latest Lux value that arrived before it (`l0` if none). */
  function LuxAtHumidity(l0: int, rs: seq<Reading>): seq<int>
    decreases |rs|
  {
    if rs == [] then []
    else
      var init := rs[..|rs| - 1];
      LuxAtHumidity(l0, init) + (if rs[|rs| - 1].kind == Humidity then [LatestLux(l0, init)] else [])
  }

  function PumpColumn(states: seq<bool>): (col: seq<int>)
    ensures |col| == |states|
  {
    seq(|states|, i requires 0 <= i < |states| => PumpPercent(states[i]))
  }

  lemma PumpColumnAppend(states: seq<bool>, on: bool)
    ensures PumpColumn(states + [on]) == PumpColumn(states) + [PumpPercent(on)]
  {
    var a, b := PumpColumn(states + [on]), PumpColumn(states) + [PumpPercent(on)];
    assert |a| == |b|;
    forall i | 0 <= i < |a| ensures a[i] == b[i] {
      if i < |states| {
        assert (states + [on])[i] == states[i];
      }
    }
  }

  /** Appending row number `|idx| + 1` keeps the rows numbered 1, 2, ... */
  lemma NumberingAppend(idx: seq<int>, idx': seq<int>)
    requires forall i :: 0 <= i < |idx| ==> idx[i] == i + 1
    requires idx' == idx + [|idx| + 1]
    ensures forall i :: 0 <= i < |idx'| ==> idx'[i] == i + 1
  {}

  lemma PumpEntriesAppend(pump: seq<int>, on: bool, pump': seq<int>)
    requires forall i :: 0 <= i < |pump| ==> pump[i] == 0 || pump[i] == 100
    requires pump' == pump + [PumpPercent(on)]
    ensures forall i :: 0 <= i < |pump'| ==> pump'[i] == 0 || pump'[i] == 100
  {}

  /** A Humidity reading keeps the invariant: the new row is numbered `counter + 1`. */
  lemma OnHumidityKeepsInv(st: TeleState, t: RealTime.Timestamp, v: int)
    requires Inv(st)
    ensures Inv(OnHumidity(st, t, v))
  {
    var st' := OnHumidity(st, t, v);
    NumberingAppend(st.hist.timeIdx, st'.hist.timeIdx);
    PumpEntriesAppend(st.hist.pump, st'.pumpOn, st'.hist.pump);
  }

  /** Every reading keeps the invariant. */
  lemma RouteKeepsInv(st: TeleState, t: RealTime.Timestamp, r: Reading)
    requires Inv(st)
    ensures Inv(Route(st, t, r))
  {
    if r.kind == Humidity {
      OnHumidityKeepsInv(st, t, r.value);
    }
  }

  lemma {:induction false} FeedKeepsInv(st: TeleState, rs: seq<Reading>, now: nat -> RealTime.Timestamp)
    requires Inv(st)
    ensures Inv(Feed(st, rs, now))
    decreases |rs|
  {
    if rs != [] {
      FeedKeepsInv(st, rs[..|rs| - 1], now);
      RouteKeepsInv(Feed(st, rs[..|rs| - 1], now), now(|rs| - 1), rs[|rs| - 1]);
    }
  }

  /** A Lux reading never touches the history, the counter or the pump. */
  lemma LuxLeavesHistory(st: TeleState, t: RealTime.Timestamp, r: Reading)
    requires RealTime.Valid(st.window) && r.kind == Lux
    ensures Route(st, t, r).hist == st.hist
    ensures Route(st, t, r).counter == st.counter && Route(st, t, r).pumpOn == st.pumpOn
  {}

  /** The window `tele.py` keeps is the one the shared window rules build. */
  lemma {:induction false} FeedWindow(st: TeleState, rs: seq<Reading>, now: nat -> RealTime.Timestamp)
    requires RealTime.Valid(st.window)
    ensures Feed(st, rs, now).window == RealTime.Feed(st.window, rs, now)
    decreases |rs|
  {
    if rs != [] {
      FeedWindow(st, rs[..|rs| - 1], now);
    }
  }

  /**
   * The history after the readings `rs` holds one more row per Humidity
   * reading, with its value; the counter counts them.
   */
  lemma {:induction false} HistoryRecordsHumidity(st: TeleState, rs: seq<Reading>, now: nat -> RealTime.Timestamp)
    requires RealTime.Valid(st.window)
    ensures Feed(st, rs, now).counter == st.counter + |HumValues(rs)|
    ensures Feed(st, rs, now).hist.hum == st.hist.hum + HumValues(rs)
    decreases |rs|
  {
    if rs != [] {
      var init := rs[..|rs| - 1];
      HistoryRecordsHumidity(st, init, now);
      if rs[|rs| - 1].kind == Humidity {
        assert HumValues(rs) == HumValues(init) + [rs[|rs| - 1].value];
      } else {
        assert HumValues(rs) == HumValues(init);
      }
    }
  }

  /**
   * Each history row's lux is the latest Lux value that arrived before its
   * Humidity reading; the window's newest lux is the latest Lux value of all.
   */
  lemma {:induction false} HistoryLuxIsLatest(st: TeleState, rs: seq<Reading>, now: nat -> RealTime.Timestamp)
    requires RealTime.Valid(st.window)
    ensures Feed(st, rs, now).hist.lux == st.hist.lux + LuxAtHumidity(RealTime.LastLux(st.window), rs)
    ensures RealTime.LastLux(Feed(st, rs, now).window) == LatestLux(RealTime.LastLux(st.window), rs)
    decreases |rs|
  {
    if rs != [] {
      var init := rs[..|rs| - 1];
      HistoryLuxIsLatest(st, init, now);
      RealTime.LastLuxAfterRoute(Feed(st, init, now).window, now(|rs| - 1), rs[|rs| - 1]);
    }
  }

  /**
   * Each history row's pump entry is 100 or 0 as the controller left the pump
   * after that row's humidity; the pump ends as the humidity sequence leaves it.
   */
  lemma {:induction false} HistoryPumpFollowsController(st: TeleState, rs: seq<Reading>, now: nat -> RealTime.Timestamp)
    requires RealTime.Valid(st.window)
    ensures Feed(st, rs, now).hist.pump == st.hist.pump + PumpColumn(Trace(st.pumpOn, HumValues(rs)))
    ensures Feed(st, rs, now).pumpOn == After(st.pumpOn, HumValues(rs))
    decreases |rs|
  {
    if rs != [] {
      var init := rs[..|rs| - 1];
      var r := rs[|rs| - 1];
      var pre := Feed(st, init, now);
      var hs := HumValues(init);
      HistoryPumpFollowsController(st, init, now);
      if r.kind == Humidity {
        var hs' := hs + [r.value];
        var on := NextPumpState(pre.pumpOn, r.value);
        assert HumValues(rs) == hs';
        assert hs'[..|hs'| - 1] == hs;
        assert After(st.pumpOn, hs') == on;
        TraceAppend(st.pumpOn, hs, r.value);
        PumpColumnAppend(Trace(st.pumpOn, hs), on);
      } else {
        assert HumValues(rs) == hs;
      }
    }
  }

  lemma NumberedFromOne(idx: seq<int>)
    requires forall i :: 0 <= i < |idx| ==> idx[i] == i + 1
    ensures idx == seq(|idx|, i => i + 1)
  {}

  /**
   * From the start of the script: the history holds one row per Humidity
   * reading, numbered 1, 2, ..., with its value, the latest lux before it (0
   * when none came) and 100 or 0 as the pump was after it.
   */
  lemma FromStart(rs: seq<Reading>, now: nat -> RealTime.Timestamp)
    ensures var st := Feed(Initial, rs, now);
      && st.counter == |HumValues(rs)|
      && st.hist.timeIdx == seq(|HumValues(rs)|, i => i + 1)
      && st.hist.hum == HumValues(rs)
      && st.hist.lux == LuxAtHumidity(0, rs)
      && st.hist.pump == PumpColumn(Trace(InitialPumpState, HumValues(rs)))
      && st.pumpOn == After(InitialPumpState, HumValues(rs))
  {
    var st := Feed(Initial, rs, now);
    FeedKeepsInv(Initial, rs, now);
    HistoryRecordsHumidity(Initial, rs, now);
    HistoryLuxIsLatest(Initial, rs, now);
    HistoryPumpFollowsController(Initial, rs, now);
    NumberedFromOne(st.hist.timeIdx);
    assert Initial.hist.hum + HumValues(rs) == HumValues(rs);
    assert Initial.hist.lux + LuxAtHumidity(0, rs) == LuxAtHumidity(0, rs);
    assert Initial.hist.pump + PumpColumn(Trace(InitialPumpState, HumValues(rs))) == PumpColumn(Trace(InitialPumpState, HumValues(rs)));
  }

  /**
   * A Humidity reading before any Lux reading is recorded with lux 0, and the
   * window gets a first point with lux 0.
   */
  lemma HumidityBeforeLux(t: RealTime.Timestamp, v: u16)
    ensures var st := Route(Initial, t, Reading(Humidity, v));
      && st.window == RealTime.Window([t], [0], [v])
      && st.hist == History([1], [v], [0], [PumpPercent(v < HumidityLowTrigger)])
  {}

  lemma FeedAppend(st: TeleState, rs: seq<Reading>, r: Reading, now: nat -> RealTime.Timestamp)
    requires RealTime.Valid(st.window)
    ensures Feed(st, rs + [r], now) == Route(Feed(st, rs, now), now(|rs|), r)
  {
    var rs' := rs + [r];
    assert rs'[..|rs'| - 1] == rs && rs'[|rs'| - 1] == r;
    assert Feed(st, rs', now) == Route(Feed(st, rs'[..|rs'| - 1], now), now(|rs'| - 1), rs'[|rs'| - 1]);
  }

  /** The script's global variables, which `update_plot` updates in place. */
  class TeleMonitor {
    var rtTime: seq<RealTime.Timestamp>
    var rtLux: seq<int>
    var rtHum: seq<int>
    var histTimeIdx: seq<int>
    var histHum: seq<int>
    var histLux: seq<int>
    var histPump: seq<int>
    var globalCounter: int
    var currentPumpState: bool

    function Model(): TeleState
      reads this
    {
      TeleState(RealTime.Window(rtTime, rtLux, rtHum), History(histTimeIdx, histHum, histLux, histPump), globalCounter, currentPumpState)
    }

    predicate Valid()
      reads this
    {
      Inv(Model())
    }

    /** Empty deques and lists, counter 0, pump off. */
    constructor ()
      ensures Model() == Initial && Valid()
    {
      rtTime, rtLux, rtHum := [], [], [];
      histTimeIdx, histHum, histLux, histPump := [], [], [], [];
      globalCounter := 0;
      currentPumpState := InitialPumpState;
    }

    /** `control_pump_hysteresis`: update the pump state from one humidity and return it. */
    method ControlPumpHysteresis(currentHumidity: int) returns (on: bool)
      modifies this`currentPumpState
      ensures on == currentPumpState == NextPumpState(old(currentPumpState), currentHumidity)
    {
      if currentHumidity < HumidityLowTrigger {
        currentPumpState := true;
      } else if currentHumidity > HumidityHighReset {
        currentPumpState := false;
      }
      on := currentPumpState;
    }

    /** A good Lux frame: a new point carrying the last humidity forward. */
    method OnLuxFrame(timestamp: RealTime.Timestamp, val: u16)
      requires |rtTime| == |rtLux| == |rtHum| <= RealTime.MaxPoints
      modifies this
      ensures Model() == OnLux(old(Model()), timestamp, val)
    {
      ghost var w := RealTime.Window(rtTime, rtLux, rtHum);
      rtTime := RealTime.Append(rtTime, timestamp);
      rtLux := RealTime.Append(rtLux, val);
      var lastH := if |rtHum| > 0 then rtHum[|rtHum| - 1] else 0;
      rtHum := RealTime.Append(rtHum, lastH);
      assert RealTime.Window(rtTime, rtLux, rtHum) == RealTime.PushLux(w, timestamp, val);
    }

    /** A good Humidity frame: pump controller, newest humidity, one history row. */
    method OnHumidityFrame(timestamp: RealTime.Timestamp, val: u16)
      requires |rtTime| == |rtLux| == |rtHum| <= RealTime.MaxPoints
      modifies this
      ensures Model() == OnHumidity(old(Model()), timestamp, val)
    {
      ghost var st := Model();
      ghost var w := RealTime.PutHumidity(st.window, timestamp, val);
      var isPumpOn := ControlPumpHysteresis(val);
      if |rtHum| > 0 {
        rtHum := rtHum[|rtHum| - 1 := val];
      } else {
        // All three deques are empty, so these appends evict nothing.
        rtHum := rtHum + [val];
        rtLux := rtLux + [0];
        rtTime := rtTime + [timestamp];
      }
      assert RealTime.Window(rtTime, rtLux, rtHum) == w;
      globalCounter := globalCounter + 1;
      histTimeIdx := histTimeIdx + [globalCounter];
      histHum := histHum + [val];
      var currentLux := if |rtLux| > 0 then rtLux[|rtLux| - 1] else 0;
      assert currentLux == RealTime.LastLux(w);
      histLux := histLux + [currentLux];
      histPump := histPump + [if isPumpOn then 100 else 0];
      assert isPumpOn == NextPumpState(st.pumpOn, val);
      assert History(histTimeIdx, histHum, histLux, histPump) ==
        History(st.hist.timeIdx + [st.counter + 1], st.hist.hum + [val], st.hist.lux + [RealTime.LastLux(w)], st.hist.pump + [PumpPercent(isPumpOn)]);
    }

    /** One good frame: the branch on its header in `update_plot`. */
    method OnFrame(timestamp: RealTime.Timestamp, r: Reading)
      requires Valid()
      modifies this
      ensures Valid()
      ensures Model() == Route(old(Model()), timestamp, r)
    {
      ghost var st := Model();
      if r.kind == Lux {
        OnLuxFrame(timestamp, r.value);
      } else {
        OnHumidityFrame(timestamp, r.value);
      }
      RouteKeepsInv(st, timestamp, r);
    }

    /** One pass of the loop of `update_plot`: read a frame, and handle it when it is good. */
    method DrainStep(ser: Port, timestamp: RealTime.Timestamp) returns (frame: Option<Reading>)
      requires Valid() && ser.InWaiting() >= 4
      modifies this, ser
      ensures Valid()
      ensures |Received(old(ser.stream))| >= 4
      ensures frame == FrameAt(Received(old(ser.stream)))
      ensures ser.stream == old(ser.stream)[Advance(Received(old(ser.stream)))..]
      ensures Received(ser.stream) == Received(old(ser.stream))[Advance(Received(old(ser.stream)))..]
      ensures Model() == if frame.Some? then Route(old(Model()), timestamp, frame.value) else old(Model())
    {
      frame := ReadFrame(ser);
      if frame.Some? {
        OnFrame(timestamp, frame.value);
      }
    }

    /**
     * The reading part of `update_plot`: when the port is open, drain it.
     * `null` stands for a port that could not be opened. The animation
     * timer's interval until the next call is `Port.AwaitNextTick`.
     */
    method UpdatePlot(ser: Port?, now: nat -> RealTime.Timestamp)
      requires Valid()
      modifies this, ser
      ensures Valid()
      ensures ser == null ==> Model() == old(Model())
      ensures ser != null ==>
        && Model() == Feed(old(Model()), Scan(Received(old(ser.stream))), now)
        && ser.stream == Bytes(Rest(Received(old(ser.stream)))) + Flush(old(ser.stream))
        && Received(ser.stream) == Rest(Received(old(ser.stream)))
    {
      if ser != null {
        Drain(ser, now);
      }
    }

    /**
     * The loop of `update_plot`: while at least four bytes are waiting, one
     * pass of the drain; the `k`-th good frame of the tick is stamped `now(k)`.
     */
    method Drain(ser: Port, now: nat -> RealTime.Timestamp)
      requires Valid()
      modifies this, ser
      ensures Valid()
      ensures Model() == Feed(old(Model()), Scan(Received(old(ser.stream))), now)
      ensures ser.stream == Bytes(Rest(Received(old(ser.stream)))) + Flush(old(ser.stream))
      ensures Received(ser.stream) == Rest(Received(old(ser.stream)))
    {
      ghost var start := ser.stream;
      ghost var input := Received(start);
      ghost var st0 := Model();
      ghost var done: seq<Reading> := [];
      ghost var rem := input;
      ghost var later := Flush(start);
      ReceivedThenFlush(start);
      var decoded := 0;
      while ser.InWaiting() >= 4
        invariant ser.stream == Bytes(rem) + later
        invariant Received(ser.stream) == rem
        invariant Scan(input) == done + Scan(rem) && Rest(input) == Rest(rem)
        invariant decoded == |done|
        invariant Valid()
        invariant Model() == Feed(st0, done, now)
        decreases |ser.stream|
      {
        ScanAdvance(input, rem, done);
        ghost var k := Advance(rem);
        var frame := DrainStep(ser, now(decoded));
        BytesDrop(rem, k, later);
        if frame.Some? {
          FeedAppend(st0, done, frame.value, now);
          done := done + [frame.value];
          decoded := decoded + 1;
        }
        rem := rem[k..];
      }
      ScanFinish(input, rem, done);
    }
  }
}
