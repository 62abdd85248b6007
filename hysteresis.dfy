/**
 * The irrigation pump's two-threshold controller of `tele.py`: humidity below
 * the low trigger switches the pump on, humidity above the high reset switches
 * it off, and a reading inside the dead band leaves it as it was.
 */
module Hysteresis {

  const HumidityLowTrigger := 30
  const HumidityHighReset := 35

  /** The pump is off (`False`) when the script starts. */
  const InitialPumpState := false

  /**
   * The pump state after one humidity reading. The source compares the integer
   * reading with the floats 30.0 and 35.0, which gives the same answers as
   * comparing with the integers 30 and 35.
   */
  function NextPumpState(on: bool, humidity: int): (on': bool)
    ensures Decisive(humidity) ==> on' == (humidity < HumidityLowTrigger)
    ensures !Decisive(humidity) ==> on' == on
  {
    if humidity < HumidityLowTrigger then true
    else if humidity > HumidityHighReset then false
    else on
  }

  /** A reading outside the dead band decides the pump state on its own. */
  predicate Decisive(humidity: int) {
    humidity < HumidityLowTrigger || humidity > HumidityHighReset
  }

  /** The pump state after a whole sequence of humidity readings. */
  function After(on: bool, hs: seq<int>): bool
    decreases |hs|
  {
    if hs == [] then on else NextPumpState(After(on, hs[..|hs| - 1]), hs[|hs| - 1])
  }

  /** The pump state after each reading of `hs`. */
  function Trace(on: bool, hs: seq<int>): (states: seq<bool>)
    ensures |states| == |hs|
  {
    seq(|hs|, i requires 0 <= i < |hs| => After(on, hs[..i + 1]))
  }

  /**
   * The pump state is the one the last reading outside the dead band chose:
   * on when that reading was below 30, off when it was above 35.
   */
  lemma {:induction false} DecidedByLastOutOfBand(on: bool, hs: seq<int>, i: nat)
    requires i < |hs| && Decisive(hs[i])
    requires forall j :: i < j < |hs| ==> !Decisive(hs[j])
    ensures After(on, hs) == (hs[i] < HumidityLowTrigger)
    decreases |hs|
  {
    var init := hs[..|hs| - 1];
    if i < |hs| - 1 {
      assert !Decisive(hs[|hs| - 1]);
      assert forall j :: i < j < |init| ==> init[j] == hs[j];
      DecidedByLastOutOfBand(on, init, i);
    }
  }

  /** Readings that all stay inside the dead band never switch the pump. */
  lemma {:induction false} DeadBandKeepsState(on: bool, hs: seq<int>)
    requires forall j :: 0 <= j < |hs| ==> !Decisive(hs[j])
    ensures After(on, hs) == on
    decreases |hs|
  {
    if hs != [] {
      var init := hs[..|hs| - 1];
      assert forall j :: 0 <= j < |init| ==> init[j] == hs[j];
      DeadBandKeepsState(on, init);
    }
  }

  /** ... and the pump state shown after every one of them is the starting one. */
  lemma DeadBandTrace(on: bool, hs: seq<int>)
    requires forall j :: 0 <= j < |hs| ==> !Decisive(hs[j])
    ensures forall j :: 0 <= j < |hs| ==> Trace(on, hs)[j] == on
  {
    forall j | 0 <= j < |hs| ensures Trace(on, hs)[j] == on {
      var pre := hs[..j + 1];
      assert forall k :: 0 <= k < |pre| ==> pre[k] == hs[k];
      DeadBandKeepsState(on, pre);
    }
  }

  /** One more reading adds its pump state to the end of the trace. */
  lemma TraceAppend(on: bool, hs: seq<int>, h: int)
    ensures Trace(on, hs + [h]) == Trace(on, hs) + [NextPumpState(After(on, hs), h)]
  {
    var t := hs + [h];
    assert Trace(on, t)[|hs|] == NextPumpState(After(on, hs), h) by {
      assert t[..|hs| + 1] == t && t[..|t| - 1] == hs;
    }
    forall i | 0 <= i < |hs| ensures Trace(on, t)[i] == Trace(on, hs)[i] {
      assert t[..i + 1] == hs[..i + 1];
    }
  }

  /** Starting off, humidities 40, 32, 28, 31, 36, 33 give OFF, OFF, ON, ON, OFF, OFF. */
  lemma ExampleTrace()
    ensures Trace(InitialPumpState, [40, 32, 28, 31, 36, 33]) == [false, false, true, true, false, false]
  {
    var hs := [40, 32, 28, 31, 36, 33];
    assert hs[..1] == [40];
    assert hs[..2] == [40, 32];
    assert hs[..3] == [40, 32, 28];
    assert hs[..4] == [40, 32, 28, 31];
    assert hs[..5] == [40, 32, 28, 31, 36];
    assert hs[..6] == hs;
    assert After(false, [40]) == false;
    assert After(false, [40, 32]) == false;
    assert After(false, [40, 32, 28]) == true;
    assert After(false, [40, 32, 28, 31]) == true;
    assert After(false, [40, 32, 28, 31, 36]) == false;
    assert After(false, hs) == false;
  }
}
