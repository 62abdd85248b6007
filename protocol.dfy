/**
 * The FPGA's telemetry frame, `[header][high][low][0x0A]`, and the drain loop
 * shared by `tele.py` and `workingUART_VISUALIZATION.py`: while at least four
 * bytes are waiting, read one byte; if it is a header, read the three body
 * bytes and keep the frame when its last byte is the terminator.
 */
module Protocol {
  import opened Serial

  const IdLux: byte := 0xAA
  const IdHumidity: byte := 0xBB
  const ByteStop: byte := 0x0A

  /** A decoded 16-bit sensor value. */
  type u16 = x: int | 0 <= x < 0x1_0000

  datatype Option<T> = None | Some(value: T)

  datatype Kind = Lux | Humidity

  datatype Reading = Reading(kind: Kind, value: u16)

  predicate IsHeader(b: byte) {
    b == IdLux || b == IdHumidity
  }

  /**
   * The value `(high << 8) | low` of a frame body: the high byte above the low
   * one, so that both bytes can be read back from the value.
   */
  function Combine(high: byte, low: byte): (v: u16)
    ensures v / 256 == high && v % 256 == low
  {
    high * 256 + low
  }

  /** On the bits of two bytes, `(high << 8) | low` is the value `Combine` gives. */
  lemma ShiftOrIsCombine(high: bv8, low: bv8)
    ensures (((high as bv16) << 8) | (low as bv16)) as int == Combine(high as int, low as int)
  {
    Widen(high);
    Widen(low);
    ShiftOrIsMulAdd(high as bv16, low as bv16);
    MulAddAsInt(high as bv16, low as bv16);
  }

  lemma Widen(x: bv8)
    ensures (x as bv16) as int == x as int && x as bv16 < 0x100
  {}

  lemma ShiftOrIsMulAdd(h: bv16, l: bv16)
    requires h < 0x100 && l < 0x100
    ensures (h << 8) | l == h * 256 + l
  {}

  lemma MulAddAsInt(h: bv16, l: bv16)
    requires h < 0x100 && l < 0x100
    ensures (h * 256 + l) as int == (h as int) * 256 + (l as int)
  {}

  function KindOf(header: byte): Kind {
    if header == IdLux then Lux else Humidity
  }

  function HeaderOf(k: Kind): (h: byte)
    ensures IsHeader(h) && KindOf(h) == k
  {
    match k
    case Lux => IdLux
    case Humidity => IdHumidity
  }

  /** The reading a frame with a good terminator carries: header and body bytes can be read back from it. */
  function Decode(header: byte, high: byte, low: byte): (r: Reading)
    ensures IsHeader(header) ==> HeaderOf(r.kind) == header
    ensures r.value / 256 == high && r.value % 256 == low
  {
    Reading(KindOf(header), Combine(high, low))
  }

  /** The four bytes the FPGA sends for a reading. */
  function EncodeFrame(r: Reading): (f: seq<byte>)
    ensures |f| == 4 && IsHeader(f[0]) && f[3] == ByteStop
    ensures Decode(f[0], f[1], f[2]) == r
  {
    [HeaderOf(r.kind), r.value / 256, r.value % 256, ByteStop]
  }

  /** A stream of well-formed frames, one per reading. */
  function Encode(rs: seq<Reading>): (s: seq<byte>)
    ensures |s| == 4 * |rs|
  {
    if rs == [] then [] else EncodeFrame(rs[0]) + Encode(rs[1..])
  }

  /** The readings one drain of the waiting bytes `s` decodes, in order. */
  function Scan(s: seq<byte>): (rs: seq<Reading>)
    ensures 4 * |rs| <= |s|
    decreases |s|
  {
    if |s| < 4 then []
    else if !IsHeader(s[0]) then Scan(s[1..])
    else if s[3] == ByteStop then [Decode(s[0], s[1], s[2])] + Scan(s[4..])
    else Scan(s[4..])
  }

  /** The bytes one drain leaves waiting: fewer than four, at the end of `s`. */
  function Rest(s: seq<byte>): (r: seq<byte>)
    ensures |r| < 4 && |r| <= |s| && r == s[|s| - |r|..]
    ensures |s| < 4 ==> r == s
    decreases |s|
  {
    if |s| < 4 then s
    else if !IsHeader(s[0]) then Rest(s[1..])
    else Rest(s[4..])
  }

  /** How many bytes one pass of the drain loop reads: the whole frame after a header, else one. */
  function Advance(s: seq<byte>): (n: nat)
    requires |s| >= 4
    ensures n == 1 || n == 4
  {
    if IsHeader(s[0]) then 4 else 1
  }

  /** The reading one pass of the drain loop yields, if any. */
  function FrameAt(s: seq<byte>): (r: Option<Reading>)
    requires |s| >= 4
    ensures r.Some? <==> IsHeader(s[0]) && s[3] == ByteStop
    ensures r.Some? ==> EncodeFrame(r.value) == s[..4]
  {
    if IsHeader(s[0]) && s[3] == ByteStop then Some(Decode(s[0], s[1], s[2])) else None
  }

  /** The drain is one pass of its loop followed by the drain of what that pass left. */
  lemma ScanStep(s: seq<byte>)
    requires |s| >= 4
    ensures FrameAt(s).Some? ==> Scan(s) == [FrameAt(s).value] + Scan(s[Advance(s)..])
    ensures FrameAt(s).None? ==> Scan(s) == Scan(s[Advance(s)..])
    ensures Rest(s) == Rest(s[Advance(s)..])
  {}

  /**
   * The drain loop's invariant is kept by one pass: what is decoded so far,
   * then the drain of what is still waiting, is the drain of the whole input.
   */
  lemma ScanAdvance(input: seq<byte>, rem: seq<byte>, done: seq<Reading>)
    requires |rem| >= 4
    requires Scan(input) == done + Scan(rem) && Rest(input) == Rest(rem)
    ensures FrameAt(rem).Some? ==> Scan(input) == (done + [FrameAt(rem).value]) + Scan(rem[Advance(rem)..])
    ensures FrameAt(rem).None? ==> Scan(input) == done + Scan(rem[Advance(rem)..])
    ensures Rest(input) == Rest(rem[Advance(rem)..])
  {
    ScanStep(rem);
  }

  /** When fewer than four bytes are left, the drain loop has decoded everything and they stay. */
  lemma ScanFinish(input: seq<byte>, rem: seq<byte>, done: seq<Reading>)
    requires |rem| < 4
    requires Scan(input) == done + Scan(rem) && Rest(input) == Rest(rem)
    ensures Scan(input) == done && Rest(input) == rem
  {
    assert done + [] == done;
  }

  /**
   * One pass of the drain loop, while at least four bytes are waiting: read
   * one byte; when it is a header, read three more and decode them when the
   * last is the terminator. With four bytes waiting neither read comes back
   * short.
   */
  method ReadFrame(ser: Port) returns (frame: Option<Reading>)
    requires ser.InWaiting() >= 4
    modifies ser
    ensures |Received(old(ser.stream))| >= 4
    ensures frame == FrameAt(Received(old(ser.stream)))
    ensures ser.stream == old(ser.stream)[Advance(Received(old(ser.stream)))..]
    ensures Received(ser.stream) == Received(old(ser.stream))[Advance(Received(old(ser.stream)))..]
  {
    ghost var start := ser.stream;
    ReceivedSuffix(start, 1);
    ReceivedSuffix(start, 4);
    var byteHeader := ser.Read(1);
    var header := byteHeader[0];
    frame := None;
    if header == IdLux || header == IdHumidity {
      var paquete := ser.Read(3);
      assert start[1..][3..] == start[4..];
      var high, low, stop := paquete[0], paquete[1], paquete[2];
      if stop == ByteStop {
        frame := Some(Decode(header, high, low));
      }
    }
  }

  /** A well-formed frame decodes to `high * 256 + low`, a value in 0..65535, of the header's kind. */
  lemma FrameValue(h: byte, high: byte, low: byte)
    requires IsHeader(h)
    ensures Scan([h, high, low, ByteStop]) == [Reading(KindOf(h), high * 256 + low)]
    ensures 0 <= high * 256 + low < 0x1_0000
  {
    assert [h, high, low, ByteStop][4..] == [];
  }

  /** Encoding then draining gives back every reading, in order, and leaves nothing waiting. */
  lemma {:induction false} ScanEncode(rs: seq<Reading>)
    ensures Scan(Encode(rs)) == rs
    ensures Rest(Encode(rs)) == []
  {
    if rs != [] {
      var s := Encode(rs);
      assert s[4..] == Encode(rs[1..]);
      ScanEncode(rs[1..]);
    }
  }

  /**
   * Draining in two ticks decodes what draining once would: the fewer than four
   * bytes a tick leaves are still waiting when the next bytes arrive.
   */
  lemma {:induction false} TickSplit(s: seq<byte>, t: seq<byte>)
    ensures Scan(s + t) == Scan(s) + Scan(Rest(s) + t)
    ensures Rest(s + t) == Rest(Rest(s) + t)
    decreases |s|
  {
    if |s| >= 4 {
      if !IsHeader(s[0]) {
        assert (s + t)[1..] == s[1..] + t;
        TickSplit(s[1..], t);
      } else {
        assert (s + t)[4..] == s[4..] + t;
        TickSplit(s[4..], t);
      }
    }
  }

  /**
   * What one tick of the plotting scripts leaves for the next: the bytes the
   * drain left waiting, then what arrives before the next tick.
   */
  function AfterTick(s: seq<Arrival>): seq<Arrival> {
    Resume(Bytes(Rest(Received(s))) + Flush(s))
  }

  /**
   * Two ticks decode what the bytes of both would decode together: the bytes
   * left by the first tick wait for those that arrive before the second.
   */
  lemma TwoTicks(a: seq<byte>, t: seq<Arrival>)
    ensures Received(AfterTick(Bytes(a) + ([Pause] + t))) == Rest(a) + Received(t)
    ensures Scan(a) + Scan(Received(AfterTick(Bytes(a) + ([Pause] + t)))) == Scan(a + Received(t))
  {
    var s := Bytes(a) + ([Pause] + t);
    assert Received(s) == a by {
      ReceivedBytes(a, [Pause] + t);
      assert a + [] == a;
    }
    assert Flush(s) == [Pause] + t;
    assert Received(AfterTick(s)) == Rest(a) + Received(t) by {
      ResumeAfterRun(Rest(a), t);
    }
    TickSplit(a, Received(t));
  }

  /** A frame that arrives after a tick is decoded by the next one. */
  lemma LateFrameDecoded(r: Reading)
    ensures Scan(Received([Pause] + Bytes(EncodeFrame(r)))) == []
    ensures Scan(Received(AfterTick([Pause] + Bytes(EncodeFrame(r))))) == [r]
  {
    var f := EncodeFrame(r);
    var line := [Pause] + Bytes(f);
    assert Received(line) == [];
    assert Received(Bytes(f)) == f by {
      ReceivedBytes(f, []);
      assert Bytes(f) + [] == Bytes(f);
    }
    assert Received(AfterTick(line)) == f by {
      assert Bytes([]) + ([Pause] + Bytes(f)) == line;
      TwoTicks([], Bytes(f));
    }
    assert Scan(f) == [r] by {
      assert Encode([r]) == f by {
        assert Encode([r][1..]) == [];
      }
      ScanEncode([r]);
    }
  }

  /** Bytes that are not headers are read one at a time and decode to nothing. */
  lemma {:induction false} NoiseSkipped(noise: seq<byte>, s: seq<byte>)
    requires forall i :: 0 <= i < |noise| ==> !IsHeader(noise[i])
    requires |s| >= 3
    ensures Scan(noise + s) == Scan(s)
    ensures Rest(noise + s) == Rest(s)
  {
    if noise != [] {
      assert (noise + s)[1..] == noise[1..] + s;
      NoiseSkipped(noise[1..], s);
    } else {
      assert noise + s == s;
    }
  }

  /**
   * A header followed by a bad terminator uses up exactly those four bytes and
   * decodes nothing; the three body bytes are not scanned again for a header.
   */
  lemma BadTerminatorDropsFour(h: byte, high: byte, low: byte, stop: byte, s: seq<byte>)
    requires IsHeader(h) && stop != ByteStop
    ensures Scan([h, high, low, stop] + s) == Scan(s)
    ensures Rest([h, high, low, stop] + s) == Rest(s)
  {
    assert ([h, high, low, stop] + s)[4..] == s;
  }

  /** Leading noise, then one Lux frame: exactly one reading, Lux 258. */
  lemma NoiseThenLux()
    ensures Scan([0x41, 0x42, 0xAA, 0x01, 0x02, 0x0A]) == [Reading(Lux, 258)]
  {
    var s: seq<byte> := [0x41, 0x42, 0xAA, 0x01, 0x02, 0x0A];
    var noise, frame := s[..2], s[2..];
    assert s == noise + frame;
    assert Scan(s) == Scan(frame) by {
      NoiseSkipped(noise, frame);
    }
    assert Scan(frame) == [Reading(Lux, 258)] by {
      FrameValue(0xAA, 0x01, 0x02);
      assert frame == [0xAA, 0x01, 0x02, ByteStop];
    }
  }

  /** A corrupt frame costs nothing more than itself: the frame after it still decodes. */
  lemma RecoversAfterBadTerminator(r: Reading)
    ensures Scan([0xAA, 0x01, 0x02, 0xFF] + EncodeFrame(r)) == [r]
  {
    BadTerminatorDropsFour(0xAA, 0x01, 0x02, 0xFF, EncodeFrame(r));
    ScanEncode([r]);
    assert Encode([r]) == EncodeFrame(r);
  }

  /**
   * The body of a dropped frame is not rescanned: it holds a Humidity frame
   * (see HiddenFrame) that a rescan from the second byte would have found.
   */
  lemma DroppedBodyNotRescanned()
    ensures Scan([0xAA, 0xBB, 0x00, 0x05, 0x0A]) == []
  {
    var s: seq<byte> := [0xAA, 0xBB, 0x00, 0x05, 0x0A];
    assert IsHeader(s[0]) && s[3] != ByteStop && |s[4..]| < 4;
  }

  lemma HiddenFrame()
    ensures Scan([0xBB, 0x00, 0x05, 0x0A]) == [Reading(Humidity, 5)]
  {
    FrameValue(0xBB, 0x00, 0x05);
  }
}
