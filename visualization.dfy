/**
 * `workingUART_VISUALIZATION.py`: every animation tick drains the serial
 * input buffer like `tele.py` does; each good frame first appends one row
 * `[timestamp, sensor, value, unit]` to the CSV log, then updates the same
 * real-time window. There is no pump controller and no history.
 */
module Visualization {
  import opened Serial
  import opened Protocol
  import RealTime
  import Tele

  /** One CSV row, under the header `Timestamp, Sensor, Valor, Unidad`. */
  datatype LogRow = LogRow(timestamp: RealTime.Timestamp, sensor: string, value: int, unit: string)

  /** The window, and the rows the script has appended to the CSV file. */
  datatype VisState = VisState(window: RealTime.Window, log: seq<LogRow>)

  const Initial := VisState(RealTime.Empty, [])

  /** The row logged for a good frame: `LUX`/`lx` after header 0xAA, `HUM`/`%` after 0xBB. */
  function RowOf(t: RealTime.Timestamp, r: Reading): (row: LogRow)
    ensures row.timestamp == t && row.value == r.value
    ensures row.sensor == "LUX" <==> r.kind == Lux
  {
    if r.kind == Lux then LogRow(t, "LUX", r.value, "lx") else LogRow(t, "HUM", r.value, "%")
  }

  /** A good frame: its row is logged, then the window takes the reading. */
  function Route(st: VisState, t: RealTime.Timestamp, r: Reading): (st': VisState)
    requires RealTime.Valid(st.window)
    ensures RealTime.Valid(st'.window)
  {
    VisState(RealTime.Route(st.window, t, r), st.log + [RowOf(t, r)])
  }

  /** The data after the readings `rs`, the `k`-th stamped `now(k)`. */
  function Feed(st: VisState, rs: seq<Reading>, now: nat -> RealTime.Timestamp): (st': VisState)
    requires RealTime.Valid(st.window)
    ensures RealTime.Valid(st'.window)
    decreases |rs|
  {
    if rs == [] then st
    else Route(Feed(st, rs[..|rs| - 1], now), now(|rs| - 1), rs[|rs| - 1])
  }

  /** Reference definition of the log: one row per reading, in order, with its stamp. */
  function Rows(rs: seq<Reading>, now: nat -> RealTime.Timestamp): (rows: seq<LogRow>)
    ensures |rows| == |rs|
  {
    seq(|rs|, i requires 0 <= i < |rs| => RowOf(now(i), rs[i]))
  }

  lemma RowsAppend(rs: seq<Reading>, r: Reading, now: nat -> RealTime.Timestamp)
    ensures Rows(rs + [r], now) == Rows(rs, now) + [RowOf(now(|rs|), r)]
  {
    var a, b := Rows(rs + [r], now), Rows(rs, now) + [RowOf(now(|rs|), r)];
    forall i | 0 <= i < |a| ensures a[i] == b[i] {
      if i < |rs| {
        assert (rs + [r])[i] == rs[i];
      }
    }
  }

  /** Every good frame of either kind adds exactly one row to the log, in arrival order. */
  lemma {:induction false} FeedLog(st: VisState, rs: seq<Reading>, now: nat -> RealTime.Timestamp)
    requires RealTime.Valid(st.window)
    ensures Feed(st, rs, now).log == st.log + Rows(rs, now)
    decreases |rs|
  {
    if rs != [] {
      var init, r := rs[..|rs| - 1], rs[|rs| - 1];
      var prev := Feed(st, init, now);
      assert Feed(st, rs, now).log == prev.log + [RowOf(now(|init|), r)];
      assert prev.log == st.log + Rows(init, now) by {
        FeedLog(st, init, now);
      }
      assert Rows(rs, now) == Rows(init, now) + [RowOf(now(|init|), r)] by {
        RowsAppend(init, r, now);
        assert init + [r] == rs;
      }
      AppendAssoc(st.log, Rows(init, now), [RowOf(now(|init|), r)]);
    }
  }

  /** The window is the one the shared window rules build. */
  lemma {:induction false} FeedWindow(st: VisState, rs: seq<Reading>, now: nat -> RealTime.Timestamp)
    requires RealTime.Valid(st.window)
    ensures Feed(st, rs, now).window == RealTime.Feed(st.window, rs, now)
    decreases |rs|
  {
    if rs != [] {
      FeedWindow(st, rs[..|rs| - 1], now);
    }
  }

  /** Given the same readings and clock, this script plots the window `tele.py` plots. */
  lemma SameWindowAsTele(rs: seq<Reading>, now: nat -> RealTime.Timestamp)
    ensures Feed(Initial, rs, now).window == Tele.Feed(Tele.Initial, rs, now).window
  {
    FeedWindow(Initial, rs, now);
    Tele.FeedWindow(Tele.Initial, rs, now);
  }

  lemma LogOfOne(st: VisState, r: Reading, now: nat -> RealTime.Timestamp)
    requires RealTime.Valid(st.window)
    ensures Feed(st, [r], now).log == st.log + [RowOf(now(0), r)]
  {
    assert [r][..0] == [];
  }

  /**
   * One well-formed frame logs one row: the stamp, `LUX` and `lx` after header
   * 0xAA or `HUM` and `%` after 0xBB, and the value `high * 256 + low`.
   */
  lemma FrameLogged(st: VisState, h: byte, high: byte, low: byte, now: nat -> RealTime.Timestamp)
    requires RealTime.Valid(st.window) && IsHeader(h)
    ensures h == IdLux ==>
      Feed(st, Scan([h, high, low, ByteStop]), now).log == st.log + [LogRow(now(0), "LUX", high * 256 + low, "lx")]
    ensures h == IdHumidity ==>
      Feed(st, Scan([h, high, low, ByteStop]), now).log == st.log + [LogRow(now(0), "HUM", high * 256 + low, "%")]
  {
    var r := Reading(KindOf(h), high * 256 + low);
    FrameValue(h, high, low);
    LogOfOne(st, r, now);
    if h == IdLux {
      assert RowOf(now(0), r) == LogRow(now(0), "LUX", high * 256 + low, "lx");
    } else {
      assert RowOf(now(0), r) == LogRow(now(0), "HUM", high * 256 + low, "%");
    }
  }

  lemma FeedAppend(st: VisState, rs: seq<Reading>, r: Reading, now: nat -> RealTime.Timestamp)
    requires RealTime.Valid(st.window)
    ensures Feed(st, rs + [r], now) == Route(Feed(st, rs, now), now(|rs|), r)
  {
    var rs' := rs + [r];
    assert rs'[..|rs'| - 1] == rs && rs'[|rs'| - 1] == r;
    assert Feed(st, rs', now) == Route(Feed(st, rs'[..|rs'| - 1], now), now(|rs'| - 1), rs'[|rs'| - 1]);
  }

  /** The script's global deques and the CSV file's rows. */
  class VisualizationMonitor {
    var xTime: seq<RealTime.Timestamp>
    var yLux: seq<int>
    var yHum: seq<int>
    var log: seq<LogRow>

    function Model(): VisState
      reads this
    {
      VisState(RealTime.Window(xTime, yLux, yHum), log)
    }

    predicate Valid()
      reads this
    {
      RealTime.Valid(Model().window)
    }

    /** Empty deques; no row logged yet. */
    constructor ()
      ensures Model() == Initial && Valid()
    {
      xTime, yLux, yHum := [], [], [];
      log := [];
    }

    /** Append the frame's row to the CSV file. */
    method WriteRow(timestamp: RealTime.Timestamp, header: byte, val: u16)
      requires IsHeader(header)
      modifies this`log
      ensures log == old(log) + [RowOf(timestamp, Reading(KindOf(header), val))]
    {
      var tipo := if header == IdLux then "LUX" else "HUM";
      var unidad := if header == IdLux then "lx" else "%";
      log := log + [LogRow(timestamp, tipo, val, unidad)];
    }

    /** A good Lux frame: a new point carrying the last humidity forward. */
    method OnLuxFrame(timestamp: RealTime.Timestamp, val: u16)
      requires |xTime| == |yLux| == |yHum| <= RealTime.MaxPoints
      modifies this
      ensures Model() == old(Model()).(window := RealTime.PushLux(old(Model()).window, timestamp, val))
    {
      ghost var w := RealTime.Window(xTime, yLux, yHum);
      xTime := RealTime.Append(xTime, timestamp);
      yLux := RealTime.Append(yLux, val);
      var currentHum := if |yHum| > 0 then yHum[|yHum| - 1] else 0;
      yHum := RealTime.Append(yHum, currentHum);
      assert RealTime.Window(xTime, yLux, yHum) == RealTime.PushLux(w, timestamp, val);
      assert log == old(log);
    }

    /** A good Humidity frame: overwrite the newest humidity, or start the first point. */
    method OnHumidityFrame(timestamp: RealTime.Timestamp, val: u16)
      requires |xTime| == |yLux| == |yHum| <= RealTime.MaxPoints
      modifies this`xTime, this`yLux, this`yHum
      ensures RealTime.Window(xTime, yLux, yHum) == RealTime.PutHumidity(old(RealTime.Window(xTime, yLux, yHum)), timestamp, val)
    {
      ghost var w := RealTime.PutHumidity(RealTime.Window(xTime, yLux, yHum), timestamp, val);
      if |yHum| > 0 {
        yHum := yHum[|yHum| - 1 := val];
      } else {
        // All three deques are empty, so these appends evict nothing.
        xTime := xTime + [timestamp];
        yLux := yLux + [0];
        yHum := yHum + [val];
      }
      assert RealTime.Window(xTime, yLux, yHum) == w;
    }

    /** One good frame: log it, then branch on its header. */
    method OnFrame(timestamp: RealTime.Timestamp, r: Reading)
      requires Valid()
      modifies this
      ensures Valid()
      ensures Model() == Route(old(Model()), timestamp, r)
    {
      var header := HeaderOf(r.kind);
      WriteRow(timestamp, header, r.value);
      if header == IdLux {
        OnLuxFrame(timestamp, r.value);
      } else {
        OnHumidityFrame(timestamp, r.value);
      }
    }

    /** One pass of the loop of `leer_y_graficar`: read a frame, and handle it when it is good. */
    method DrainStep(ser: Port, timestamp: RealTime.Timestamp) returns (frame: Option<Reading>)
      requires Valid() && ser.InWaiting() >= 4
      modifies this, ser
      ensures Valid()
      ensures |Received(old(ser.stream))| >= 4
      ensures frame == FrameAt(Received(old(ser.stream)))
      ensures ser.stream == old(ser.stream)[Advance(Received(old(ser.stream)))..]
      ensures Received(ser.stream) == Received(old(ser.stream))[Advance(Received(old(ser.stream)))..]
      ensures Model() == if frame.Some? then Route(old(Model()), timestamp, frame.value) else old(Model())
    {
      frame := ReadFrame(ser);
      if frame.Some? {
        OnFrame(timestamp, frame.value);
      }
    }

    /**
     * The reading part of `leer_y_graficar`: while at least four bytes are
     * waiting, one pass of the drain; the `k`-th good frame of the tick is
     * stamped `now(k)`. The port is always open: the script exits when it
     * cannot open it. The animation timer's interval until the next call is
     * `Port.AwaitNextTick`.
     */
    method LeerYGraficar(ser: Port, now: nat -> RealTime.Timestamp)
      requires Valid()
      modifies this, ser
      ensures Valid()
      ensures Model() == Feed(old(Model()), Scan(Received(old(ser.stream))), now)
      ensures ser.stream == Bytes(Rest(Received(old(ser.stream)))) + Flush(old(ser.stream))
      ensures Received(ser.stream) == Rest(Received(old(ser.stream)))
    {
      ghost var start := ser.stream;
      ghost var input := Received(start);
      ghost var st0 := Model();
      ghost var done: seq<Reading> := [];
      ghost var rem := input;
      ghost var later := Flush(start);
      ReceivedThenFlush(start);
      var decoded := 0;
      while ser.InWaiting() >= 4
        invariant ser.stream == Bytes(rem) + later
        invariant Received(ser.stream) == rem
        invariant Scan(input) == done + Scan(rem) && Rest(input) == Rest(rem)
        invariant decoded == |done|
        invariant Valid()
        invariant Model() == Feed(st0, done, now)
        decreases |ser.stream|
      {
        ScanAdvance(input, rem, done);
        ghost var k := Advance(rem);
        var frame := DrainStep(ser, now(decoded));
        BytesDrop(rem, k, later);
        if frame.Some? {
          FeedAppend(st0, done, frame.value, now);
          done := done + [frame.value];
          decoded := decoded + 1;
        }
        rem := rem[k..];
      }
      ScanFinish(input, rem, done);
    }
  }
}
