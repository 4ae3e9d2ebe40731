/**
  Jitter: an exponentially weighted moving average, with factor 1/16, of the
  absolute difference between consecutive round-trip times of one target.
  Timeouts do not take part; `rtts` below is the sequence of the target's
  present RTTs, oldest first.
 */
module Jitter {

  function Abs(x: real): (r: real)
    ensures r >= 0.0 && (r == x || r == -x)
  {
    if x < 0.0 then -x else x
  }

  /** One update: move the average 1/16 of the way towards the new delta `d`. */
  function EwmaStep(e: real, d: real): real {
    e + (d - e) / 16.0
  }

  /** The delta the `k`-th present RTT contributes: its distance from the one before. */
  function Delta(rtts: seq<real>, k: nat): real
    requires 1 <= k < |rtts|
  {
    Abs(rtts[k] - rtts[k - 1])
  }

  /**
    The EWMA after the RTTs `rtts`: 0 until a second RTT arrives (the first one
    has no predecessor and leaves it at its initial 0), then one step per delta.
   */
  function Ewma(rtts: seq<real>): real
    decreases |rtts|
  {
    if |rtts| <= 1 then 0.0 else EwmaStep(Ewma(rtts[..|rtts| - 1]), Delta(rtts, |rtts| - 1))
  }

  /** The largest delta between consecutive RTTs; 0 when there are fewer than two. */
  function MaxDelta(rtts: seq<real>): (r: real)
    ensures r >= 0.0
    ensures forall k :: 1 <= k < |rtts| ==> Delta(rtts, k) <= r
    ensures |rtts| <= 1 ==> r == 0.0
    ensures |rtts| >= 2 ==> exists k :: 1 <= k < |rtts| && Delta(rtts, k) == r
    decreases |rtts|
  {
    if |rtts| <= 1 then 0.0
    else
      var init := rtts[..|rtts| - 1];
      var m := MaxDelta(init);
      var d := Delta(rtts, |rtts| - 1);
      assert forall k :: 1 <= k < |rtts| - 1 ==> Delta(rtts, k) == Delta(init, k);
      if d > m then d
      else if |rtts| == 2 then
        assert Delta(rtts, 1) == m;
        m
      else
        var k :| 1 <= k < |init| && Delta(init, k) == m;
        assert Delta(rtts, k) == m;
        m
  }

  /** A step lands between the old average and the new delta. */
  lemma EwmaStepBetween(e: real, d: real)
    ensures e <= d ==> e <= EwmaStep(e, d) <= d
    ensures d <= e ==> d <= EwmaStep(e, d) <= e
  {
  }

  /** The average is never negative and never exceeds the largest delta seen. */
  lemma {:induction false} EwmaBounds(rtts: seq<real>)
    ensures 0.0 <= Ewma(rtts) <= MaxDelta(rtts)
    decreases |rtts|
  {
    if |rtts| > 1 {
      var init := rtts[..|rtts| - 1];
      EwmaBounds(init);
      EwmaStepBetween(Ewma(init), Delta(rtts, |rtts| - 1));
      assert MaxDelta(init) <= MaxDelta(rtts);
    }
  }

  /** A further RTT never lowers the largest delta. */
  lemma MaxDeltaGrows(rtts: seq<real>, x: real)
    ensures MaxDelta(rtts) <= MaxDelta(rtts + [x])
  {
    if |rtts| >= 1 {
      assert (rtts + [x])[..|rtts|] == rtts;
    }
  }

  /**
    What `_handle_sample` does with a present RTT `x`: with no previous RTT the
    average stays where it is; otherwise it takes one step with |x − previous|.
   */
  lemma EwmaAppend(rtts: seq<real>, x: real)
    ensures rtts == [] ==> Ewma(rtts + [x]) == Ewma(rtts)
    ensures rtts != [] ==> Ewma(rtts + [x]) == EwmaStep(Ewma(rtts), Abs(x - rtts[|rtts| - 1]))
  {
    var s := rtts + [x];
    assert s[..|s| - 1] == rtts;
  }

  /** The jitter values a target's series receives, one per present RTT. */
  function JitterTrace(rtts: seq<real>): (r: seq<real>)
    ensures |r| == |rtts|
    decreases |rtts|
  {
    if rtts == [] then [] else JitterTrace(rtts[..|rtts| - 1]) + [Ewma(rtts)]
  }

  /** The `k`-th jitter value is the average over the first `k + 1` RTTs, and lies within the bounds. */
  lemma {:induction false} JitterTraceAt(rtts: seq<real>, k: nat)
    requires k < |rtts|
    ensures JitterTrace(rtts)[k] == Ewma(rtts[..k + 1])
    ensures 0.0 <= JitterTrace(rtts)[k] <= MaxDelta(rtts)
    decreases |rtts|
  {
    var init := rtts[..|rtts| - 1];
    if k < |rtts| - 1 {
      JitterTraceAt(init, k);
      assert init[..k + 1] == rtts[..k + 1];
      MaxDeltaGrows(init, rtts[|rtts| - 1]);
      assert init + [rtts[|rtts| - 1]] == rtts;
    } else {
      assert rtts[..k + 1] == rtts;
      EwmaBounds(rtts);
    }
  }

  /** RTTs 20, 24, 22, 30 ms give jitter 0, 0.25, 0.359375, 0.8369140625 ms. */
  lemma ExampleTrace()
    ensures JitterTrace([20.0, 24.0, 22.0, 30.0]) == [0.0, 0.25, 0.359375, 0.8369140625]
  {
    var r := [20.0, 24.0, 22.0, 30.0];
    assert r[..3] == [20.0, 24.0, 22.0];
    assert r[..3][..2] == [20.0, 24.0];
    assert r[..3][..2][..1] == [20.0];
    assert Ewma([20.0, 24.0]) == 0.25;
    assert Ewma([20.0, 24.0, 22.0]) == 0.359375;
    assert Ewma(r) == 0.8369140625;
  }
}
