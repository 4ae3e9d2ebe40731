/**
  Windowed packet loss: the percentage of timeouts among a target's most
  recent latency samples.
 */
module Loss {
  import opened Options

  /** One entry of a latency series: the probe's start time and its RTT, `None` for a timeout. */
  datatype LatPoint = LatPoint(ts: real, rtt: Option<real>)

  /** The RTTs of the samples that got a reply, in order. */
  function Present(h: seq<LatPoint>): (r: seq<real>)
    ensures |r| <= |h|
    decreases |h|
  {
    if h == [] then []
    else Present(h[..|h| - 1]) + (if h[|h| - 1].rtt.Some? then [h[|h| - 1].rtt.value] else [])
  }

  lemma PresentAppend(h: seq<LatPoint>, p: LatPoint)
    ensures p.rtt.None? ==> Present(h + [p]) == Present(h)
    ensures p.rtt.Some? ==> Present(h + [p]) == Present(h) + [p.rtt.value]
  {
    assert (h + [p])[..|h|] == h;
  }

  /** The loss window `_handle_sample` passes: the configured value, at least 1. */
  function ClampWindow(window: int): (w: int)
    ensures w >= 1 && w >= window && (w == 1 || w == window)
  {
    if window < 1 then 1 else window
  }

  /** The number of timeouts in `h`. */
  function Misses(h: seq<LatPoint>): (m: nat)
    ensures m <= |h|
    ensures m == 0 <==> forall i :: 0 <= i < |h| ==> h[i].rtt.Some?
    ensures m == |h| <==> forall i :: 0 <= i < |h| ==> h[i].rtt.None?
    decreases |h|
  {
    if h == [] then 0
    else
      var m := Misses(h[..|h| - 1]);
      assert forall i :: 0 <= i < |h| - 1 ==> h[i] == h[..|h| - 1][i];
      m + (if h[|h| - 1].rtt.None? then 1 else 0)
  }

  /** `100 * m / n` as a percentage. */
  function Percent(m: nat, n: nat): (r: real)
    requires 0 < n && m <= n
    ensures 0.0 <= r <= 100.0
    ensures r == 0.0 <==> m == 0
    ensures r == 100.0 <==> m == n
  {
    var x, y := m as real, n as real;
    var r := 100.0 * x / y;
    assert r * y == 100.0 * x;
    assert m > 0 ==> r > 0.0;
    assert m < n ==> 100.0 * x < 100.0 * y && r < 100.0;
    r
  }

  /** The number of samples the window looks at: `min(window, len(lat))`. */
  function WindowSize(h: seq<LatPoint>, window: int): int {
    if window < |h| then window else |h|
  }

  /**
    `_compute_window_loss`: 0 for an empty history or a window that is not
    positive, otherwise the share of timeouts among the last
    `min(window, len)` samples, in percent.
   */
  function WindowLoss(h: seq<LatPoint>, window: int): (r: real)
    ensures 0.0 <= r <= 100.0
  {
    if |h| == 0 then 0.0
    else
      var n := WindowSize(h, window);
      if n <= 0 then 0.0 else Percent(Misses(h[|h| - n..]), n)
  }

  /** Loss is 0 exactly when there is nothing to count or the window holds no timeout. */
  lemma WindowLossZero(h: seq<LatPoint>, window: int)
    ensures WindowLoss(h, window) == 0.0 <==>
      |h| == 0 || window <= 0 || forall i :: |h| - WindowSize(h, window) <= i < |h| ==> h[i].rtt.Some?
  {
    var n := WindowSize(h, window);
    if |h| > 0 && n > 0 {
      var w := h[|h| - n..];
      assert forall i :: |h| - n <= i < |h| ==> h[i] == w[i - (|h| - n)];
      assert forall i :: 0 <= i < |w| ==> w[i] == h[i + (|h| - n)];
    }
  }

  /** Loss is 100 exactly when the window is positive, the history is not empty and every sample in it is a timeout. */
  lemma WindowLossFull(h: seq<LatPoint>, window: int)
    ensures WindowLoss(h, window) == 100.0 <==>
      |h| > 0 && window > 0 && forall i :: |h| - WindowSize(h, window) <= i < |h| ==> h[i].rtt.None?
  {
    var n := WindowSize(h, window);
    if |h| > 0 && n > 0 {
      var w := h[|h| - n..];
      assert forall i :: |h| - n <= i < |h| ==> h[i] == w[i - (|h| - n)];
      assert forall i :: 0 <= i < |w| ==> w[i] == h[i + (|h| - n)];
    }
  }

  /** A window at least as long as the history counts all of it. */
  lemma WholeHistory(h: seq<LatPoint>, window: int)
    requires |h| > 0 && window >= |h|
    ensures WindowLoss(h, window) == Percent(Misses(h), |h|)
  {
    assert WindowSize(h, window) == |h|;
    assert h[|h| - |h|..] == h;
  }

  /** Three samples, one timeout, window 100: a third of the probes were lost. */
  lemma ExampleOneInThree()
    ensures WindowLoss([LatPoint(1.0, Some(14.0)), LatPoint(2.0, None), LatPoint(3.0, Some(15.0))], 100)
         == 100.0 / 3.0
  {
    var h := [LatPoint(1.0, Some(14.0)), LatPoint(2.0, None), LatPoint(3.0, Some(15.0))];
    assert h[0..] == h;
    assert h[..2] == [LatPoint(1.0, Some(14.0)), LatPoint(2.0, None)];
    assert h[..2][..1] == [LatPoint(1.0, Some(14.0))];
    assert Misses(h) == 1;
  }
}
