# FPGA telemetry host scripts, modelled in Dafny

An FPGA sends sensor readings over a UART as 4-byte frames:
`[header][high][low][0x0A]`. The header is `0xAA` for Lux and `0xBB` for soil humidity, and the value is `(high << 8) | low`.

This project models the host-side Python scripts that read those frames:

- `new_src/uart/python/tele.py` (module `Tele`). On every animation tick it drains the input buffer and decodes frames. Each reading goes into a 50-point real-time window. On a humidity reading it also runs a two-threshold pump controller (30 % / 35 %) and appends one row to the full history.
- `uart/python/workingUART_VISUALIZATION.py` (module `Visualization`). It uses the same drain loop and the same window. It logs one CSV row per good frame. It has no pump and no history.
- `uart/python/workingUART.py` (module `WorkingUart`). A blocking monitor: it reads one byte at a time looking for a header, then the 3-byte body. It shows each good reading. A bad terminator clears the whole input buffer.
- `uart/python/tetera.py` (module `Tetera`). The earlier headerless reader. It reads `[high][low][0x0A]` packets three bytes at a time. After a bad terminator it reads one extra byte to shift its alignment.

The shared pieces are split into four more modules:

- `Serial` models the port as pyserial presents it.
  - What the line will deliver is a sequence of arrivals: either a byte, or a pause long enough for a read's timeout to elapse.
  - `in_waiting` counts the bytes before the first pause.
  - `read(n)` returns at most `n` of those bytes. If fewer are waiting, it also uses up the pause (the timeout).
  - `reset_input_buffer()` discards the bytes waiting before the first pause.
  - Between two animation ticks the pause ahead ends, and the bytes that arrive next wait behind those still waiting (`Port.AwaitNextTick`).
- `Protocol` holds the frame constants, value decoding, the frame encoder the FPGA follows, and the drain loop that `tele.py` and the visualisation script share.
  - The loop is specified by the functions `Scan` (the readings it keeps) and `Rest` (the fewer-than-four bytes it leaves for the next tick).
  - The method `ReadFrame` performs the two reads of one pass on the port.
- `Hysteresis` holds the pump controller as a function of the humidity readings seen so far.
- `RealTime` holds the three `deque(maxlen=50)` of the plotting scripts.

The scripts' global variables become the fields of a class in each plotting module: `Tele.TeleMonitor` and `Visualization.VisualizationMonitor`. Their update functions are methods, each proved against a pure function of the old state (`Tele.Feed`, `Visualization.Feed`). The two blocking scripts are methods whose loops are proved against pure functions of the line:

- `WorkingUart.Run` gives what `workingUART.py` shows.
- `Tetera.Run` gives what `tetera.py` prints.

`datetime.now()` becomes a parameter `now: nat -> Timestamp`. The `k`-th good frame decoded in a tick is stamped `now(k)`.

## Model

| member | source | states |
|---|---|---|
| Serial.Received | new_src/uart/python/tele.py:128 | the waiting bytes are the bytes before the first pause; there are never more of them than arrivals on the line |
| Serial.Take | uart/python/workingUART.py:29 | `read(n)` returns the first waiting bytes; it returns exactly `n` of them if and only if at least `n` are waiting, and every waiting byte when `n` is at least their number |
| Serial.Drop | uart/python/workingUART.py:29 | after `read(n)` the line has lost the bytes returned; when fewer than `n` were waiting, the pause (the timeout) is also used up |
| Serial.Flush | uart/python/workingUART.py:62 | after `reset_input_buffer()` nothing is waiting and the line continues with what arrives later |
| Serial.ReceivedThenFlush | uart/python/workingUART.py:24 | the line is the waiting bytes followed by what the reset leaves |
| Serial.ReadFromRun | new_src/uart/python/tele.py:128-134 | reading `n` bytes from a run of at least `n` waiting bytes returns its first `n` and leaves the rest |
| Serial.ReadShort | uart/python/tetera.py:18-20 | a read that finds fewer bytes than asked returns them and waits out the pause |
| Serial.Resume | new_src/uart/python/tele.py:222 | when the pause ahead ends, the line loses exactly that pause; a line with no pause is unchanged |
| Serial.ResumeAfterRun | new_src/uart/python/tele.py:222 | once the pause after the waiting bytes ends, the bytes that arrive next wait right behind them |
| Serial.Port.InWaiting | new_src/uart/python/tele.py:128 | `in_waiting` counts the waiting bytes; the arrival right after them, if any, is the pause |
| Serial.Port.AwaitNextTick | new_src/uart/python/tele.py:222 | the 100 ms between two animation ticks: the new line is `Resume` of the old one |
| Serial.Port.Read | new_src/uart/python/tele.py:129 | the port's `read(n)`: the result and the new line are `Take` and `Drop` of the old line |
| Serial.Port.ResetInputBuffer | uart/python/workingUART.py:62 | the port's `reset_input_buffer()`: the new line is `Flush` of the old one |
| Protocol.Combine | new_src/uart/python/tele.py:139 | the value puts the high byte above the low one: both bytes are recovered from it (`v / 256`, `v % 256`) |
| Protocol.ShiftOrIsCombine | new_src/uart/python/tele.py:139 | `(high << 8) \| low`, computed on the bits of the two bytes, is that value |
| Protocol.HeaderOf | new_src/uart/python/tele.py:21-22 | each sensor kind has a header byte, and that byte decodes back to the kind |
| Protocol.KindOf | new_src/uart/python/tele.py:143-149 | header 0xAA is a Lux reading, the other header (0xBB) a Humidity reading; `HeaderOf` gives the header back |
| Protocol.Decode | new_src/uart/python/tele.py:133-139 | the reading of a good frame gives back its header and both body bytes |
| Protocol.EncodeFrame | new_src/uart/python/tele.py:21-23 | a frame the FPGA sends has 4 bytes, a header and the terminator, and its body decodes to the reading |
| Protocol.Scan | new_src/uart/python/tele.py:128-139 | the drain loop keeps at most one reading per four bytes it consumes |
| Protocol.Rest | new_src/uart/python/tele.py:128 | the loop stops with fewer than four bytes left, and those are the tail of the input |
| Protocol.Advance | new_src/uart/python/tele.py:129-134 | one pass consumes one byte (not a header) or four (header and body) |
| Protocol.FrameAt | new_src/uart/python/tele.py:129-139 | one pass yields a reading exactly when the byte under the read position is a header and the fourth byte is the terminator; the reading then encodes back to those four bytes |
| Protocol.ScanStep | new_src/uart/python/tele.py:128-139 | one pass keeps the frame under the read position when it is good; the loop then continues on the rest |
| Protocol.ReadFrame | new_src/uart/python/tele.py:129-139 | the two reads of one pass return the frame `FrameAt` the waiting bytes, and use up exactly `Advance` of them |
| Protocol.FrameValue | new_src/uart/python/tele.py:133-139 | a well-formed frame yields one reading of its kind with value `high * 256 + low`, below 65536 |
| Protocol.ScanEncode | new_src/uart/python/tele.py:128-139 | frames sent back to back are all decoded, in order, and nothing is left over |
| Protocol.TickSplit | new_src/uart/python/tele.py:127-128 | splitting the input between two ticks loses nothing: the bytes left from one tick are decoded with the next |
| Protocol.AfterTick | new_src/uart/python/tele.py:222 | the line the next tick finds: the bytes the drain left waiting, then what arrives before that tick (`UpdatePlot` or `LeerYGraficar`, then `Port.AwaitNextTick`) |
| Protocol.TwoTicks | new_src/uart/python/tele.py:123-128 | across two ticks, the second finds the bytes the first left followed by the new ones, and the two ticks together decode what all those bytes decode at once (by `TickSplit`) |
| Protocol.LateFrameDecoded | new_src/uart/python/tele.py:128 | a frame that arrives after a tick is not decoded by that tick but by the next one |
| Protocol.NoiseSkipped | new_src/uart/python/tele.py:129-133 | bytes that are not headers are skipped one at a time without effect |
| Protocol.BadTerminatorDropsFour | new_src/uart/python/tele.py:134-138 | a frame with a bad terminator is dropped whole (4 bytes), and decoding resumes right after it |
| Protocol.NoiseThenLux | new_src/uart/python/tele.py:128-139 | two noise bytes and then a Lux frame for 0x0102 give exactly the reading Lux 258 |
| Protocol.RecoversAfterBadTerminator | new_src/uart/python/tele.py:134-138 | a corrupt frame followed by a good one yields only the good one |
| Protocol.DroppedBodyNotRescanned | new_src/uart/python/tele.py:134-138 | the body of a header is never rescanned: a Humidity frame hidden behind a stray Lux header is lost |
| Protocol.HiddenFrame | new_src/uart/python/tele.py:128-139 | on its own, that Humidity frame decodes to Humidity 5 |
| Hysteresis.NextPumpState | new_src/uart/python/tele.py:115-121 | a reading below 30 switches the pump on and one above 35 switches it off; a reading from 30 to 35 leaves it as it was |
| Hysteresis.After | new_src/uart/python/tele.py:115-121 | the pump state after a sequence of readings: the controller applied to each in turn (its promise is stated by the lemmas below) |
| Hysteresis.Trace | new_src/uart/python/tele.py:115-121 | the pump state after each reading, one per reading |
| Hysteresis.DecidedByLastOutOfBand | new_src/uart/python/tele.py:115-121 | the pump is on exactly when the last reading outside the 30..35 band was below 30 |
| Hysteresis.DeadBandKeepsState | new_src/uart/python/tele.py:115-121 | readings inside the band leave the pump as it was |
| Hysteresis.DeadBandTrace | new_src/uart/python/tele.py:115-121 | during a run of readings inside the band, every recorded pump state is the starting one |
| Hysteresis.TraceAppend | new_src/uart/python/tele.py:115-121 | one more reading appends the controller's next state to the trace |
| Hysteresis.ExampleTrace | new_src/uart/python/tele.py:26-28 | from the initial OFF state, readings 40, 32, 28, 31, 36, 33 give OFF, OFF, ON, ON, OFF, OFF |
| RealTime.Newest | new_src/uart/python/tele.py:34-36 | a `deque(maxlen=50)` keeps the newest 50 entries, in order |
| RealTime.Append | new_src/uart/python/tele.py:144 | appending to a full deque evicts its oldest entry |
| RealTime.PushLux | new_src/uart/python/tele.py:143-147 | a Lux reading adds a point (time, value, last humidity or 0) to all three deques, which stay aligned and bounded |
| RealTime.PutHumidity | new_src/uart/python/tele.py:152-157 | a Humidity reading overwrites only the newest humidity; with no point yet it creates the point `(t, 0, v)` |
| RealTime.Route | new_src/uart/python/tele.py:142-157 | routing one good frame into the window keeps it aligned and at most 50 points |
| RealTime.Feed | new_src/uart/python/tele.py:127-157 | so does any sequence of readings, the `k`-th stamped `now(k)` |
| RealTime.LastLuxAfterRoute | new_src/uart/python/tele.py:163 | the newest lux is the value of the last Lux reading, and Humidity readings leave it alone |
| RealTime.BoundedRoute | new_src/uart/python/tele.py:34-36 | routing a reading into the window equals routing it into the unbounded timeline and then keeping the newest 50 points |
| RealTime.WindowIsNewestOfTimeline | new_src/uart/python/tele.py:34-36 | after any readings, the window is the newest 50 points of the unbounded timeline |
| RealTime.TimelineLux | new_src/uart/python/tele.py:143-157 | without the bound, the lux column is the earlier points followed by every Lux value in arrival order; a Humidity reading arriving first in an empty window adds a single 0 ahead of them |
| RealTime.LuxOnlyWindow | new_src/uart/python/tele.py:143-147 | after Lux readings only, the lux deque holds the newest 50 of them |
| RealTime.OldestLuxEvicted | new_src/uart/python/tele.py:34-36 | the 51st Lux reading evicts the first one |
| Tele.Inv | new_src/uart/python/tele.py:149-166 | what the data always satisfies: a valid window, one history row per counted reading numbered 1, 2, …, pump entries 0 or 100, the newest showing the pump state |
| Tele.OnLux | new_src/uart/python/tele.py:143-147 | a Lux reading leaves the history, the counter and the pump alone, and becomes the newest lux |
| Tele.OnHumidity | new_src/uart/python/tele.py:149-166 | a Humidity reading counts one more row, sets the pump to the controller's next state, and appends its value, the lux in force before it and the new pump state 100/0 to the history |
| Tele.Route | new_src/uart/python/tele.py:143-166 | handling one good frame keeps the window valid |
| Tele.Feed | new_src/uart/python/tele.py:127-166 | the data after a tick's readings, the `k`-th stamped `now(k)`; the window stays valid |
| Tele.OnHumidityKeepsInv | new_src/uart/python/tele.py:149-166 | a Humidity reading keeps the history rows numbered 1, 2, …, with pump entries 0 or 100, and the newest entry showing the pump state |
| Tele.RouteKeepsInv | new_src/uart/python/tele.py:143-166 | every good frame keeps that invariant |
| Tele.FeedKeepsInv | new_src/uart/python/tele.py:127-166 | any sequence of good frames keeps it |
| Tele.LuxLeavesHistory | new_src/uart/python/tele.py:143-147 | a Lux reading changes neither the history, the counter nor the pump |
| Tele.FeedWindow | new_src/uart/python/tele.py:143-157 | `tele.py`'s window is the shared real-time window of the same readings |
| Tele.HistoryRecordsHumidity | new_src/uart/python/tele.py:159-161 | the history gets one row per Humidity reading, in order, and the counter counts them |
| Tele.HistoryLuxIsLatest | new_src/uart/python/tele.py:163-164 | each history row records the lux of the last Lux reading before it (or the earlier newest lux) |
| Tele.HistoryPumpFollowsController | new_src/uart/python/tele.py:150-166 | the pump column is 100/0 of the controller's trace over the humidity readings, and the pump ends in the controller's final state |
| Tele.FromStart | new_src/uart/python/tele.py:39-43 | from the empty start, the history is exactly: indices 1..n, the humidity values, the latest lux (0 before any), and the controller's trace from OFF |
| Tele.HumidityBeforeLux | new_src/uart/python/tele.py:152-157 | a first Humidity reading opens the point `(t, 0, v)` and records lux 0 |
| Tele.TeleMonitor.constructor | new_src/uart/python/tele.py:28-43 | empty deques, empty history, counter 0, pump OFF |
| Tele.TeleMonitor.ControlPumpHysteresis | new_src/uart/python/tele.py:115-121 | `control_pump_hysteresis`: sets and returns the controller's next state |
| Tele.TeleMonitor.OnLuxFrame | new_src/uart/python/tele.py:143-147 | the Lux branch updates the deques in place exactly as `OnLux` |
| Tele.TeleMonitor.OnHumidityFrame | new_src/uart/python/tele.py:149-166 | the Humidity branch updates window, pump, counter and history in place exactly as `OnHumidity` |
| Tele.TeleMonitor.OnFrame | new_src/uart/python/tele.py:142-166 | one good frame changes the data as `Route` and keeps it valid |
| Tele.TeleMonitor.DrainStep | new_src/uart/python/tele.py:129-166 | one pass reads the frame under the read position and handles it when it is good |
| Tele.TeleMonitor.Drain | new_src/uart/python/tele.py:128-166 | the drain loop handles exactly the readings `Scan` keeps from the waiting bytes and leaves `Rest` waiting |
| Tele.TeleMonitor.UpdatePlot | new_src/uart/python/tele.py:123-128 | with an open port, the tick handles exactly the readings `Scan` keeps and leaves `Rest` waiting ahead of the later arrivals; without one, nothing changes |
| Visualization.RowOf | uart/python/workingUART_VISUALIZATION.py:98-102 | a reading's row carries its stamp and its value, and says `LUX` exactly for a Lux reading |
| Visualization.Route | uart/python/workingUART_VISUALIZATION.py:94-128 | handling one good frame keeps the window valid |
| Visualization.Feed | uart/python/workingUART_VISUALIZATION.py:79-128 | the data after a tick's readings, the `k`-th stamped `now(k)`; the window stays valid |
| Visualization.FeedLog | uart/python/workingUART_VISUALIZATION.py:98-102 | every good frame of either kind logs exactly one row, in arrival order, with its stamp |
| Visualization.FeedWindow | uart/python/workingUART_VISUALIZATION.py:108-128 | the script's window is the shared real-time window of the same readings |
| Visualization.SameWindowAsTele | uart/python/workingUART_VISUALIZATION.py:108-128 | for the same readings and clock, this script plots the same window as `tele.py` |
| Visualization.FrameLogged | uart/python/workingUART_VISUALIZATION.py:94-102 | a well-formed frame logs `[timestamp, LUX, value, lx]` after 0xAA or `[timestamp, HUM, value, %]` after 0xBB |
| Visualization.VisualizationMonitor.constructor | uart/python/workingUART_VISUALIZATION.py:29-31 | empty deques, nothing logged |
| Visualization.VisualizationMonitor.WriteRow | uart/python/workingUART_VISUALIZATION.py:98-102 | the CSV write appends the frame's row |
| Visualization.VisualizationMonitor.OnLuxFrame | uart/python/workingUART_VISUALIZATION.py:108-118 | the Lux branch updates the deques in place as `PushLux` |
| Visualization.VisualizationMonitor.OnHumidityFrame | uart/python/workingUART_VISUALIZATION.py:120-128 | the Humidity branch updates the deques in place as `PutHumidity` |
| Visualization.VisualizationMonitor.OnFrame | uart/python/workingUART_VISUALIZATION.py:94-128 | one good frame: log its row, then update the window, as `Route` |
| Visualization.VisualizationMonitor.DrainStep | uart/python/workingUART_VISUALIZATION.py:80-128 | one pass reads the frame under the read position and handles it when it is good |
| Visualization.VisualizationMonitor.LeerYGraficar | uart/python/workingUART_VISUALIZATION.py:77-128 | the drain loop handles exactly the readings `Scan` keeps and leaves `Rest` waiting ahead of the later arrivals |
| WorkingUart.Pass | uart/python/workingUART.py:26-65 | one pass of the loop shows at most one reading and always consumes part of the line, four arrivals when it shows one |
| WorkingUart.Shown | uart/python/workingUART.py:26-65 | what the loop shows for a line: never more than one reading per four arrivals |
| WorkingUart.Run | uart/python/workingUART.py:16-65 | the whole run (reset, then the loop): the same bound |
| WorkingUart.IniciarMonitor | uart/python/workingUART.py:16-65 | after the initial reset, the loop shows exactly `Run` of the line |
| WorkingUart.ShownStep | uart/python/workingUART.py:26-65 | one pass keeps the loop's invariant: what is shown so far, then what the rest of the line shows |
| WorkingUart.EmptyRead | uart/python/workingUART.py:29-32 | a read that times out shows nothing |
| WorkingUart.NoiseByte | uart/python/workingUART.py:34-37 | a byte that is not a header is discarded alone |
| WorkingUart.GoodFrame | uart/python/workingUART.py:37-58 | a waiting well-formed frame shows its reading, value `high * 256 + low` |
| WorkingUart.BadTerminatorFlushes | uart/python/workingUART.py:59-62 | after a bad terminator, every byte already waiting is discarded |
| WorkingUart.ShortBody | uart/python/workingUART.py:40-42 | a body that times out is dropped with its header |
| WorkingUart.FrameShown | uart/python/workingUART.py:37-58 | a frame the FPGA sent, fully waiting, shows exactly the reading it encodes |
| WorkingUart.FramesShown | uart/python/workingUART.py:26-58 | frames sent back to back are all shown, in order |
| WorkingUart.CorruptFrameCostsMore | uart/python/workingUART.py:59-62 | a corrupt frame followed at once by a good one: the drain loop keeps the good one; this monitor loses both |
| Tetera.Pass | uart/python/tetera.py:15-35 | one pass prints at most one line and always consumes part of the line, at least three arrivals when it prints |
| Tetera.Printed | uart/python/tetera.py:15-35 | what the loop prints for a line: never more than one line per three arrivals |
| Tetera.Run | uart/python/tetera.py:8-35 | the whole run (reset, then the loop): the same bound |
| Tetera.Listen | uart/python/tetera.py:8-35 | after the initial reset, the loop prints exactly `Run` of the line |
| Tetera.PrintedStep | uart/python/tetera.py:15-35 | one pass keeps the loop's invariant |
| Tetera.GoodPacket | uart/python/tetera.py:18-32 | a waiting packet ending in 0x0A prints `high * 256 + low` |
| Tetera.BadStopConsumesFour | uart/python/tetera.py:33-35 | a bad stop byte prints the error and uses up the packet and one extra byte |
| Tetera.ShortRead | uart/python/tetera.py:18-20 | a read that times out short prints nothing |
| Tetera.AlignedStream | uart/python/tetera.py:15-32 | aligned packets print every value, in order |
| Tetera.RealignsAfterOneByte | uart/python/tetera.py:33-35 | one stray byte costs one error line and the first value, then the stream is aligned again (when that value's low byte is not 0x0A) |
| Tetera.MisreadWhenLowIsStop | uart/python/tetera.py:25-32 | without headers, a stray byte before a value whose low byte is 0x0A is printed as a wrong value |

## Left out

- Opening, configuring and closing the port (port names, baud rates, timeouts). The visualisation script's `exit()` on failure is left out too: its monitor always has an open port. `tele.py`'s failed open is modelled as a `null` port in `UpdatePlot`.
- The CSV files of `tele.py`: the creation with its header row (lines 45-51) and the row per Humidity reading (lines 168-171). These are file I/O and are not modelled. The visualisation script's rows are modelled as a sequence the log appends to. Its file creation and header row (lines 33-39) are left out.
- All of matplotlib: the figures, the axes, the table, the refresh code after each drain, and the `FuncAnimation` timer. Each call of `UpdatePlot` or `LeerYGraficar` is the reading part of one tick, and `Serial.Port.AwaitNextTick` is the interval until the next call (`interval=100`); how many bytes arrive in it is part of the line.
- `datetime.now()` becomes the parameter `now`, and the `%H:%M:%S` format becomes an uninterpreted string.
- The text written to stdout by `workingUART.py` and `tetera.py`. It is modelled as the sequence of readings shown (`WorkingUart`) or of lines printed (`Tetera`), without their formatting. The connection messages are left out.
- Exceptions: `SerialException`, `KeyboardInterrupt`, and closing the port on Ctrl+C.
- The endless `while True` loops of the two blocking scripts. They are modelled until the line has nothing more to deliver; after that, every read would only time out.
- The short-read branches of the drain loop (`len(byte_header) < 1`, `len(paquete) != 3` in both plotting scripts). They cannot be taken, because the loop runs only while at least four bytes are waiting. `Protocol.ReadFrame` proves that both reads return in full.
- Thresholds: the pump thresholds `30.0` and `35.0` are floats compared with integer readings. Comparing with the integers 30 and 35 gives the same answers, so the model uses integers.
- A decoder that keeps a partial frame between reads is not modelled: no script has one. A frame split across two ticks is still decoded by the plotting scripts, because they only read while four bytes are waiting (`Protocol.TwoTicks`, `Protocol.TickSplit`). The blocking scripts drop a body that times out (`WorkingUart.ShortBody`, `Tetera.ShortRead`).
- Visualization.VisualizationMonitor.OnLuxFrame: reads the last humidity after appending the time and the lux, where the script reads it before. The appends do not touch the humidity deque, so the value is the same.
