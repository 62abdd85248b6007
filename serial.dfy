/**
 * The serial port as the scripts see it through pyserial.
 *
 * What the line delivers from now on is a sequence of arrivals: a byte, or a
 * pause long enough for a read's timeout to elapse (for the plotting scripts,
 * the interval between two animation ticks). The bytes before the first pause
 * are the ones already waiting in the input buffer (`in_waiting`).
 */
module Serial {

  /** A byte as read from the port. */
  type byte = x: int | 0 <= x < 0x100

  datatype Arrival = Byte(b: byte) | Pause

  /** The bytes already waiting in the input buffer: the run before the first pause. */
  function Received(s: seq<Arrival>): (r: seq<byte>)
    ensures |r| <= |s|
  {
    if s == [] || s[0].Pause? then [] else [s[0].b] + Received(s[1..])
  }

  /** The waiting bytes are the line's first bytes, and a pause, if anything, follows them. */
  lemma {:induction false} ReceivedIsPrefix(s: seq<Arrival>)
    ensures forall i :: 0 <= i < |Received(s)| ==> s[i] == Byte(Received(s)[i])
    ensures |Received(s)| < |s| ==> s[|Received(s)|] == Pause
  {
    if s != [] && s[0].Byte? {
      ReceivedIsPrefix(s[1..]);
    }
  }

  /** A run of bytes with no pause between them. */
  function Bytes(bs: seq<byte>): (s: seq<Arrival>)
    ensures |s| == |bs|
    ensures forall i :: 0 <= i < |bs| ==> s[i] == Byte(bs[i])
  {
    seq(|bs|, i requires 0 <= i < |bs| => Byte(bs[i]))
  }

  /** What `read(n)` returns: up to `n` waiting bytes; fewer when the timeout elapses first. */
  function Take(s: seq<Arrival>, n: nat): (bs: seq<byte>)
    ensures |bs| <= n && |bs| <= |Received(s)|
    ensures |bs| == n <==> n <= |Received(s)|
    ensures bs == Received(s)[..|bs|]
    ensures n >= |Received(s)| ==> bs == Received(s)
  {
    var r := Received(s);
    if n <= |r| then r[..n] else r
  }

  /** What is left on the line after `read(n)`: a short read also uses up the pause that ended it. */
  function Drop(s: seq<Arrival>, n: nat): (t: seq<Arrival>)
    ensures |t| <= |s| && t == s[|s| - |t|..]
    ensures s != [] && n > 0 ==> |t| < |s|
    ensures n <= |Received(s)| ==> t == s[n..]
  {
    var r := Received(s);
    if n <= |r| then s[n..] else if |r| < |s| then s[|r| + 1..] else []
  }

  /** What is left on the line after `reset_input_buffer()`: the waiting bytes are gone. */
  function Flush(s: seq<Arrival>): (t: seq<Arrival>)
    ensures Received(t) == []
    ensures t == s[|Received(s)|..]
  {
    ReceivedIsPrefix(s);
    s[|Received(s)|..]
  }

  /** The line is the waiting bytes followed by what has not arrived yet. */
  lemma ReceivedThenFlush(s: seq<Arrival>)
    ensures s == Bytes(Received(s)) + Flush(s)
  {
    var r, f := Received(s), Flush(s);
    var t := Bytes(r) + f;
    ReceivedIsPrefix(s);
    assert |t| == |s|;
    forall i | 0 <= i < |s|
      ensures t[i] == s[i]
    {
      if i >= |r| {
        assert t[i] == f[i - |r|];
      }
    }
  }

  lemma BytesAppend(a: seq<byte>, b: seq<byte>)
    ensures Bytes(a + b) == Bytes(a) + Bytes(b)
  {}

  lemma AppendAssoc<T>(a: seq<T>, b: seq<T>, c: seq<T>)
    ensures (a + b) + c == a + (b + c)
  {}

  lemma BytesDrop(bs: seq<byte>, k: nat, t: seq<Arrival>)
    requires k <= |bs|
    ensures (Bytes(bs) + t)[k..] == Bytes(bs[k..]) + t
  {}

  /** Reading past `k` waiting bytes leaves the rest of them waiting. */
  lemma {:induction false} ReceivedSuffix(s: seq<Arrival>, k: nat)
    requires k <= |Received(s)|
    ensures Received(s[k..]) == Received(s)[k..]
  {
    if k > 0 {
      assert s[k..] == s[1..][k - 1..];
      ReceivedSuffix(s[1..], k - 1);
    }
  }

  /** A run of bytes followed by anything: the run is waiting, and more if `rest` starts with bytes. */
  lemma {:induction false} ReceivedBytes(bs: seq<byte>, rest: seq<Arrival>)
    ensures Received(Bytes(bs) + rest) == bs + Received(rest)
  {
    if bs != [] {
      assert (Bytes(bs) + rest)[1..] == Bytes(bs[1..]) + rest;
      ReceivedBytes(bs[1..], rest);
      assert bs == [bs[0]] + bs[1..];
    } else {
      assert Bytes(bs) + rest == rest;
    }
  }

  /** Reading `n` bytes of a longer run returns exactly them and leaves the rest of the line. */
  lemma ReadFromRun(bs: seq<byte>, rest: seq<Arrival>, n: nat)
    requires n <= |bs|
    ensures Take(Bytes(bs) + rest, n) == bs[..n]
    ensures Drop(Bytes(bs) + rest, n) == Bytes(bs[n..]) + rest
  {
    ReceivedBytes(bs, rest);
    assert (Bytes(bs) + rest)[n..] == Bytes(bs[n..]) + rest;
  }

  /** A read asking for more bytes than the run holds returns the run and uses up the pause. */
  lemma ReadShort(bs: seq<byte>, rest: seq<Arrival>, n: nat)
    requires |bs| < n
    ensures Take(Bytes(bs) + ([Pause] + rest), n) == bs
    ensures Drop(Bytes(bs) + ([Pause] + rest), n) == rest
  {
    ReceivedBytes(bs, [Pause] + rest);
    assert bs + Received([Pause] + rest) == bs;
    assert (Bytes(bs) + ([Pause] + rest))[|bs| + 1..] == rest;
  }

  /**
   * The line once the pause ahead of it is over: the bytes that arrive next
   * join the ones still waiting.
   */
  function Resume(s: seq<Arrival>): (t: seq<Arrival>)
    ensures |Received(s)| < |s| ==> |t| == |s| - 1
    ensures |Received(s)| == |s| ==> t == s
  {
    var k := |Received(s)|;
    if k < |s| then s[..k] + s[k + 1..] else s
  }

  /** Once the pause after a run of waiting bytes is over, what arrives next is waiting after them. */
  lemma ResumeAfterRun(bs: seq<byte>, rest: seq<Arrival>)
    ensures Resume(Bytes(bs) + ([Pause] + rest)) == Bytes(bs) + rest
    ensures Received(Resume(Bytes(bs) + ([Pause] + rest))) == bs + Received(rest)
  {
    var s := Bytes(bs) + ([Pause] + rest);
    assert Received(s) == bs by {
      ReceivedBytes(bs, [Pause] + rest);
      assert bs + [] == bs;
    }
    assert s[..|bs|] == Bytes(bs) && s[|bs| + 1..] == rest;
    ReceivedBytes(bs, rest);
  }

  /** The port object: its state is what the line still has to deliver. */
  class Port {
    var stream: seq<Arrival>

    constructor (s: seq<Arrival>)
      ensures stream == s
    {
      stream := s;
    }

    /** `in_waiting`: the number of bytes that can be read without waiting. */
    /** `in_waiting`: the bytes that have arrived; the next pause, if any, follows them. */
    function InWaiting(): (n: nat)
      reads this
      ensures n <= |stream|
      ensures n < |stream| ==> stream[n] == Pause
    {
      ReceivedIsPrefix(stream);
      |Received(stream)|
    }

    /** `read(n)` with a timeout. */
    method Read(n: nat) returns (bs: seq<byte>)
      modifies this
      ensures bs == Take(old(stream), n)
      ensures stream == Drop(old(stream), n)
    {
      bs := Take(stream, n);
      stream := Drop(stream, n);
    }

    /** The interval until the next animation tick: the pause ends and new bytes arrive. */
    method AwaitNextTick()
      modifies this
      ensures stream == Resume(old(stream))
    {
      stream := Resume(stream);
    }

    /** `reset_input_buffer()`: discard every waiting byte. */
    method ResetInputBuffer()
      modifies this
      ensures stream == Flush(old(stream))
    {
      stream := Flush(stream);
    }
  }
}
