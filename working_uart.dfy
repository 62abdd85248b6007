/**
 * `workingUART.py`: a blocking monitor. After clearing the input buffer it
 * reads one byte at a time looking for a header; after a header it reads the
 * three body bytes and shows the reading when the last is the terminator. A
 * bad terminator discards every waiting byte; a body that does not arrive in
 * time is dropped together with its header.
 */
module WorkingUart {
  import opened Serial
  import opened Protocol

  /** What one pass of the loop shows (nothing or one reading) and what it leaves on the line. */
  datatype Step = Step(shown: seq<Reading>, rest: seq<Arrival>)

  /** One pass of the `while True` loop of `iniciar_monitor` over the line `s`. */
  function Pass(s: seq<Arrival>): (p: Step)
    requires s != []
    ensures |p.rest| < |s| && |p.shown| <= 1
    ensures |p.rest| + 4 * |p.shown| <= |s|
  {
    var byteHeader, s1 := Take(s, 1), Drop(s, 1);
    if |byteHeader| < 1 then Step([], s1)
    else if IsHeader(byteHeader[0]) then
      var resto, s2 := Take(s1, 3), Drop(s1, 3);
      if |resto| == 3 then
        if resto[2] == ByteStop then Step([Decode(byteHeader[0], resto[0], resto[1])], s2)
        else Step([], Flush(s2))
      else Step([], s2)
    else Step([], s1)
  }

  /**
   * What the loop shows, in order, for the line `s`. The script loops
   * forever; once the line has nothing more to deliver, every read comes back
   * empty and nothing more is shown.
   */
  function Shown(s: seq<Arrival>): (shown: seq<Reading>)
    ensures 4 * |shown| <= |s|
    decreases |s|
  {
    if s == [] then [] else Pass(s).shown + Shown(Pass(s).rest)
  }

  /** The whole run: the buffer is cleared once, then the loop runs. */
  function Run(s: seq<Arrival>): (shown: seq<Reading>)
    ensures 4 * |shown| <= |s|
  {
    Shown(Flush(s))
  }

  /** The loop's invariant is kept by one pass: what is shown so far, then what the rest of the line shows. */
  lemma ShownStep(before: seq<Reading>, s: seq<Arrival>, start: seq<Arrival>)
    requires s != [] && before + Shown(s) == Shown(start)
    ensures (before + Pass(s).shown) + Shown(Pass(s).rest) == Shown(start)
  {
    var p := Pass(s);
    assert Shown(s) == p.shown + Shown(p.rest);
    AppendAssoc(before, p.shown, Shown(p.rest));
  }

  /** `iniciar_monitor` on an open port: returns what it shows, after reading the line to its end. */
  method IniciarMonitor(ser: Port) returns (shown: seq<Reading>)
    modifies ser
    ensures shown == Run(old(ser.stream))
    ensures ser.stream == []
  {
    ser.ResetInputBuffer();
    ghost var start := ser.stream;
    shown := [];
    while ser.stream != []
      invariant shown + Shown(ser.stream) == Shown(start)
      decreases |ser.stream|
    {
      ghost var line := ser.stream;
      ghost var pass := Pass(line);
      ghost var before := shown;
      var byteHeader := ser.Read(1);
      // An empty read shows nothing; the loop waits again.
      if |byteHeader| >= 1 {
        var header := byteHeader[0];
        if header == IdLux || header == IdHumidity {
          var resto := ser.Read(3);
          if |resto| == 3 {
            var high, low, stop := resto[0], resto[1], resto[2];
            if stop == ByteStop {
              var valor := Combine(high, low);
              shown := shown + [Reading(KindOf(header), valor)];
            } else {
              ser.ResetInputBuffer();
            }
          }
        }
      }
      assert shown == before + pass.shown && ser.stream == pass.rest;
      ShownStep(before, line, start);
    }
    assert shown + [] == shown;
  }

  /** A read that returns nothing shows nothing and uses up only the pause. */
  lemma EmptyRead(s: seq<Arrival>)
    ensures Pass([Pause] + s) == Step([], s)
  {
    assert ([Pause] + s)[1..] == s;
  }

  /** A byte that is not a header is read alone and shows nothing. */
  lemma NoiseByte(b: byte, s: seq<Arrival>)
    requires !IsHeader(b)
    ensures Pass([Byte(b)] + s) == Step([], s)
  {
    assert ([Byte(b)] + s)[1..] == s;
  }

  /** The two reads of a pass over a header whose three body bytes are waiting. */
  lemma ReadFullFrame(h: byte, body: seq<byte>, s: seq<Arrival>)
    requires |body| == 3
    ensures Take(Bytes([h] + body) + s, 1) == [h]
    ensures Drop(Bytes([h] + body) + s, 1) == Bytes(body) + s
    ensures Take(Bytes(body) + s, 3) == body && Drop(Bytes(body) + s, 3) == s
  {
    ReadFromRun([h] + body, s, 1);
    assert ([h] + body)[1..] == body;
    ReadFromRun(body, s, 3);
    assert Bytes(body[3..]) + s == s;
  }

  /** A frame whose four bytes are waiting together shows its reading, `high * 256 + low`. */
  lemma GoodFrame(h: byte, high: byte, low: byte, s: seq<Arrival>)
    requires IsHeader(h)
    ensures Pass(Bytes([h, high, low, ByteStop]) + s) == Step([Reading(KindOf(h), high * 256 + low)], s)
  {
    var body: seq<byte> := [high, low, ByteStop];
    ReadFullFrame(h, body, s);
    assert [h, high, low, ByteStop] == [h] + body;
  }

  /**
   * After a bad terminator every byte already waiting is discarded, whatever
   * it holds; the pass shows nothing.
   */
  lemma BadTerminatorFlushes(h: byte, high: byte, low: byte, stop: byte, pending: seq<byte>, s: seq<Arrival>)
    requires IsHeader(h) && stop != ByteStop
    ensures Pass(Bytes([h, high, low, stop]) + (Bytes(pending) + ([Pause] + s))) == Step([], [Pause] + s)
  {
    var body: seq<byte> := [high, low, stop];
    var rest := [Pause] + s;
    var waiting := Bytes(pending) + rest;
    var line := Bytes([h, high, low, stop]) + waiting;
    assert Take(line, 1) == [h] && Drop(line, 1) == Bytes(body) + waiting
        && Take(Bytes(body) + waiting, 3) == body && Drop(Bytes(body) + waiting, 3) == waiting by {
      ReadFullFrame(h, body, waiting);
      assert [h, high, low, stop] == [h] + body;
    }
    assert Flush(waiting) == rest by {
      ReceivedBytes(pending, rest);
      assert Received(rest) == [];
      assert pending + [] == pending;
    }
  }

  /** When the body does not arrive in full before the timeout, header and partial body are dropped. */
  lemma ShortBody(h: byte, part: seq<byte>, s: seq<Arrival>)
    requires IsHeader(h) && |part| < 3
    ensures Pass(Bytes([h] + part) + ([Pause] + s)) == Step([], s)
  {
    var rest := [Pause] + s;
    var line := Bytes([h] + part) + rest;
    var s1 := Bytes(part) + rest;
    assert Take(line, 1) == [h] && Drop(line, 1) == s1 by {
      ReadFromRun([h] + part, rest, 1);
      assert ([h] + part)[1..] == part;
    }
    assert Take(s1, 3) == part && Drop(s1, 3) == s by {
      ReadShort(part, s, 3);
    }
  }

  /** A frame the FPGA sent, fully waiting, shows its reading. */
  lemma FrameShown(r: Reading, rest: seq<Arrival>)
    ensures Shown(Bytes(EncodeFrame(r)) + rest) == [r] + Shown(rest)
  {
    var f := EncodeFrame(r);
    assert Pass(Bytes(f) + rest) == Step([r], rest) by {
      GoodFrame(f[0], f[1], f[2], rest);
      assert f == [f[0], f[1], f[2], ByteStop];
      assert Decode(f[0], f[1], f[2]) == r;
    }
  }

  /** Frames sent back to back are all shown, in order. */
  lemma {:induction false} FramesShown(rs: seq<Reading>, s: seq<Arrival>)
    ensures Shown(Bytes(Encode(rs)) + s) == rs + Shown(s)
  {
    if rs != [] {
      var f, e := EncodeFrame(rs[0]), Encode(rs[1..]);
      var rest := Bytes(e) + s;
      assert Bytes(Encode(rs)) + s == Bytes(f) + rest by {
        assert Encode(rs) == f + e;
        BytesAppend(f, e);
        AppendAssoc(Bytes(f), Bytes(e), s);
      }
      assert Shown(Bytes(f) + rest) == [rs[0]] + Shown(rest) by {
        FrameShown(rs[0], rest);
      }
      assert Shown(rest) == rs[1..] + Shown(s) by {
        FramesShown(rs[1..], s);
      }
      AppendAssoc([rs[0]], rs[1..], Shown(s));
      assert rs == [rs[0]] + rs[1..];
    } else {
      assert Bytes(Encode(rs)) + s == s;
    }
  }

  /**
   * The drain loop of the plotting scripts loses only a corrupt frame; this
   * monitor also loses the good frame waiting behind it.
   */
  lemma CorruptFrameCostsMore(r: Reading)
    ensures Scan([0xAA, 0x01, 0x02, 0xFF] + EncodeFrame(r)) == [r]
    ensures Shown(Bytes([0xAA, 0x01, 0x02, 0xFF]) + (Bytes(EncodeFrame(r)) + [Pause])) == []
  {
    RecoversAfterBadTerminator(r);
    var line := Bytes([0xAA, 0x01, 0x02, 0xFF]) + (Bytes(EncodeFrame(r)) + [Pause]);
    assert Pass(line) == Step([], [Pause]) by {
      BadTerminatorFlushes(0xAA, 0x01, 0x02, 0xFF, EncodeFrame(r), []);
      assert [Pause] + [] == [Pause];
    }
    assert Pass([Pause]) == Step([], []) by {
      EmptyRead([]);
      assert [Pause] + [] == [Pause];
    }
  }
}
