/**
 * `tetera.py`: the first, headerless reader. After clearing the input buffer
 * it reads three bytes at a time, `[high][low][0x0A]`; when the third is the
 * terminator it prints the value, otherwise it prints a synchronisation error
 * and reads one extra byte to shift its alignment.
 */
module Tetera {
  import opened Serial
  import opened Protocol

  /** What one pass prints: `Lux Raw: <value>`, or the synchronisation error. */
  datatype Line = LuxRaw(value: u16) | SyncError

  /** What one pass of the loop prints and what it leaves on the line. */
  datatype Step = Step(printed: seq<Line>, rest: seq<Arrival>)

  /** One pass of the `while True` loop of the script over the line `s`. */
  function Pass(s: seq<Arrival>): (p: Step)
    requires s != []
    ensures |p.rest| < |s| && |p.printed| <= 1
    ensures |p.rest| + 3 * |p.printed| <= |s|
  {
    var paquete, s1 := Take(s, 3), Drop(s, 3);
    if |paquete| == 3 then
      if paquete[2] == ByteStop then Step([LuxRaw(Combine(paquete[0], paquete[1]))], s1)
      else Step([SyncError], Drop(s1, 1))
    else Step([], s1)
  }

  /**
   * What the loop prints, in order, for the line `s`. The script loops
   * forever; once the line has nothing more to deliver, every read comes back
   * empty and nothing more is printed.
   */
  function Printed(s: seq<Arrival>): (printed: seq<Line>)
    ensures 3 * |printed| <= |s|
    decreases |s|
  {
    if s == [] then [] else Pass(s).printed + Printed(Pass(s).rest)
  }

  /** The whole run: the buffer is cleared once, then the loop runs. */
  function Run(s: seq<Arrival>): (printed: seq<Line>)
    ensures 3 * |printed| <= |s|
  {
    Printed(Flush(s))
  }

  /** The loop's invariant is kept by one pass: what is printed so far, then what the rest of the line prints. */
  lemma PrintedStep(before: seq<Line>, s: seq<Arrival>, start: seq<Arrival>)
    requires s != [] && before + Printed(s) == Printed(start)
    ensures (before + Pass(s).printed) + Printed(Pass(s).rest) == Printed(start)
  {
    var p := Pass(s);
    assert Printed(s) == p.printed + Printed(p.rest);
    AppendAssoc(before, p.printed, Printed(p.rest));
  }

  /** The script on an open port: returns what it prints, after reading the line to its end. */
  method Listen(ser: Port) returns (printed: seq<Line>)
    modifies ser
    ensures printed == Run(old(ser.stream))
    ensures ser.stream == []
  {
    ser.ResetInputBuffer();
    ghost var start := ser.stream;
    printed := [];
    while ser.stream != []
      invariant printed + Printed(ser.stream) == Printed(start)
      decreases |ser.stream|
    {
      ghost var line := ser.stream;
      ghost var before := printed;
      var paquete := ser.Read(3);
      if |paquete| == 3 {
        var byteAlto, byteBajo, byteStop := paquete[0], paquete[1], paquete[2];
        if byteStop == 0x0A {
          var valorLux := Combine(byteAlto, byteBajo);
          printed := printed + [LuxRaw(valorLux)];
        } else {
          printed := printed + [SyncError];
          var _ := ser.Read(1);
        }
      }
      assert printed == before + Pass(line).printed && ser.stream == Pass(line).rest;
      PrintedStep(before, line, start);
    }
    assert printed + [] == printed;
  }

  /** The three bytes the FPGA sent for each value before frames had headers. */
  function EncodeLegacy(vs: seq<u16>): (s: seq<byte>)
    ensures |s| == 3 * |vs|
  {
    if vs == [] then [] else [vs[0] / 256, vs[0] % 256, ByteStop] + EncodeLegacy(vs[1..])
  }

  /** The lines printed for values that all arrive intact. */
  function Raw(vs: seq<u16>): (ls: seq<Line>)
    ensures |ls| == |vs|
  {
    seq(|vs|, i requires 0 <= i < |vs| => LuxRaw(vs[i]))
  }

  lemma RawCons(vs: seq<u16>)
    requires vs != []
    ensures Raw(vs) == [LuxRaw(vs[0])] + Raw(vs[1..])
  {
    var a, b := Raw(vs), [LuxRaw(vs[0])] + Raw(vs[1..]);
    forall i | 0 <= i < |a| ensures a[i] == b[i] {
      if i > 0 {
        assert b[i] == Raw(vs[1..])[i - 1];
      }
    }
  }

  /** A packet whose three bytes are waiting and end in the terminator prints `high * 256 + low`. */
  lemma GoodPacket(high: byte, low: byte, s: seq<Arrival>)
    ensures Pass(Bytes([high, low, ByteStop]) + s) == Step([LuxRaw(high * 256 + low)], s)
  {
    var p: seq<byte> := [high, low, ByteStop];
    ReadFromRun(p, s, 3);
    assert Bytes(p[3..]) + s == s;
  }

  /** A bad stop byte prints the error and uses up exactly four bytes: the packet and one more. */
  lemma BadStopConsumesFour(a: byte, b: byte, c: byte, d: byte, s: seq<Arrival>)
    requires c != ByteStop
    ensures Pass(Bytes([a, b, c, d]) + s) == Step([SyncError], s)
  {
    var p: seq<byte> := [a, b, c, d];
    ReadFromRun(p, s, 3);
    assert p[..3] == [a, b, c];
    ReadFromRun(p[3..], s, 1);
    assert Bytes(p[3..][1..]) + s == s;
  }

  /** A read that returns fewer than three bytes prints nothing and reads nothing more. */
  lemma ShortRead(part: seq<byte>, s: seq<Arrival>)
    requires |part| < 3
    ensures Pass(Bytes(part) + ([Pause] + s)) == Step([], s)
  {
    ReadShort(part, s, 3);
  }

  /** A stream of aligned packets prints every value, in order. */
  lemma {:induction false} AlignedStream(vs: seq<u16>, s: seq<Arrival>)
    ensures Printed(Bytes(EncodeLegacy(vs)) + s) == Raw(vs) + Printed(s)
  {
    if vs != [] {
      var v := vs[0];
      var p: seq<byte> := [v / 256, v % 256, ByteStop];
      var e := EncodeLegacy(vs[1..]);
      var rest := Bytes(e) + s;
      assert Bytes(EncodeLegacy(vs)) + s == Bytes(p) + rest by {
        BytesAppend(p, e);
        AppendAssoc(Bytes(p), Bytes(e), s);
      }
      assert Pass(Bytes(p) + rest) == Step([LuxRaw(v)], rest) by {
        GoodPacket(v / 256, v % 256, rest);
      }
      assert Printed(Bytes(p) + rest) == [LuxRaw(v)] + Printed(rest);
      AlignedStream(vs[1..], s);
      AppendAssoc([LuxRaw(v)], Raw(vs[1..]), Printed(s));
      assert Raw(vs) == [LuxRaw(v)] + Raw(vs[1..]) by {
        RawCons(vs);
      }
    } else {
      assert Bytes(EncodeLegacy(vs)) + s == s;
    }
  }

  /**
   * One stray byte ahead of an aligned stream costs one error and the first
   * value, when that value's low byte is not 0x0A: the extra read lands on the
   * first terminator and the packets after it print.
   */
  lemma RealignsAfterOneByte(x: byte, v: u16, vs: seq<u16>)
    requires v % 256 != ByteStop
    ensures Printed(Bytes([x] + EncodeLegacy([v] + vs))) == [SyncError] + Raw(vs)
  {
    var e := EncodeLegacy(vs);
    assert EncodeLegacy([v] + vs) == [v / 256, v % 256, ByteStop] + e by {
      assert ([v] + vs)[1..] == vs;
    }
    var line := Bytes([x] + EncodeLegacy([v] + vs));
    assert line == Bytes([x, v / 256, v % 256, ByteStop]) + (Bytes(e) + []) by {
      assert [x] + EncodeLegacy([v] + vs) == [x, v / 256, v % 256, ByteStop] + e;
      BytesAppend([x, v / 256, v % 256, ByteStop], e);
      assert Bytes(e) + [] == Bytes(e);
    }
    assert Pass(line) == Step([SyncError], Bytes(e) + []) by {
      BadStopConsumesFour(x, v / 256, v % 256, ByteStop, Bytes(e) + []);
    }
    assert Printed(line) == [SyncError] + Printed(Bytes(e) + []);
    AlignedStream(vs, []);
    assert Raw(vs) + Printed([]) == Raw(vs);
  }

  /**
   * Without a header nothing tells a packet from a misaligned window: a stray
   * byte before a value whose low byte is 0x0A is printed as a value.
   */
  lemma MisreadWhenLowIsStop(x: byte, v: u16, vs: seq<u16>)
    requires v % 256 == ByteStop
    ensures Pass(Bytes([x] + EncodeLegacy([v] + vs))).printed == [LuxRaw(x * 256 + v / 256)]
  {
    var e := EncodeLegacy(vs);
    assert EncodeLegacy([v] + vs) == [v / 256, v % 256, ByteStop] + e by {
      assert ([v] + vs)[1..] == vs;
    }
    var rest := Bytes([ByteStop] + e);
    assert Bytes([x] + EncodeLegacy([v] + vs)) == Bytes([x, v / 256, ByteStop]) + rest by {
      assert [x] + EncodeLegacy([v] + vs) == [x, v / 256, ByteStop] + ([ByteStop] + e);
      BytesAppend([x, v / 256, ByteStop], [ByteStop] + e);
    }
    GoodPacket(x, v / 256, rest);
  }
}
