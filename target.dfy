/**
  What the program keeps for one target, as values: the latency, loss and
  jitter series (deques of at most `MaxPoints` points), the previous RTT and
  the jitter average, related to the full history of the target's samples.
 */
module TargetState {
  import opened Options
  import opened History
  import opened Jitter
  import opened Loss

  /** One point of the loss or jitter series: a timestamp and a value. */
  datatype Point = Point(ts: real, value: real)

  /** The RTT of the last sample that got a reply, if there is one. */
  function LastPresent(h: seq<LatPoint>): (r: Option<real>)
    ensures r.None? <==> Present(h) == []
    ensures r.Some? ==> r.value == Present(h)[|Present(h)| - 1]
  {
    var rtts := Present(h);
    if rtts == [] then None else Some(rtts[|rtts| - 1])
  }

  /**
    The jitter value a present RTT `x` produces, given the previous RTT and the
    current average: 0 when there is no previous RTT, one EWMA step otherwise.
   */
  function JitterStep(prev: Option<real>, e: real, x: real): real {
    match prev
    case None => 0.0
    case Some(p) => EwmaStep(e, Abs(x - p))
  }

  /** The average after a present RTT: left alone when there is no previous RTT. */
  function EwmaAfter(prev: Option<real>, e: real, x: real): real {
    if prev.None? then e else JitterStep(prev, e, x)
  }

  /** The jitter series after a sample: one more point for a reply, unchanged for a timeout. */
  function JitterAfter(j: seq<Point>, prev: Option<real>, e: real, ts: real, rtt: Option<real>): seq<Point>
    requires |j| <= MaxPoints
  {
    if rtt.None? then j else Push(j, Point(ts, JitterStep(prev, e, rtt.value)), MaxPoints)
  }

  /** The previous RTT after a sample: the sample's RTT when there is one. */
  function PrevAfter(prev: Option<real>, rtt: Option<real>): Option<real> {
    if rtt.Some? then rtt else prev
  }

  /** The average after a sample. */
  function AverageAfter(prev: Option<real>, e: real, rtt: Option<real>): real {
    if rtt.Some? then EwmaAfter(prev, e, rtt.value) else e
  }

  /**
    The jitter points a sample history produces: one per sample with a reply,
    at its timestamp, holding the average over the RTTs up to and including it.
   */
  function JitterPoints(h: seq<LatPoint>): (r: seq<Point>)
    ensures |r| == |Present(h)|
    decreases |h|
  {
    if h == [] then []
    else
      var p := h[|h| - 1];
      JitterPoints(h[..|h| - 1]) + (if p.rtt.Some? then [Point(p.ts, Ewma(Present(h)))] else [])
  }

  lemma JitterPointsAppend(h: seq<LatPoint>, p: LatPoint)
    ensures p.rtt.None? ==> JitterPoints(h + [p]) == JitterPoints(h)
    ensures p.rtt.Some? ==> JitterPoints(h + [p]) == JitterPoints(h) + [Point(p.ts, Ewma(Present(h + [p])))]
  {
    assert (h + [p])[..|h|] == h;
  }

  /** Every jitter point lies between 0 and the largest RTT delta of the history. */
  lemma {:induction false} JitterPointsBounded(h: seq<LatPoint>)
    ensures forall k :: 0 <= k < |JitterPoints(h)| ==>
      0.0 <= JitterPoints(h)[k].value <= MaxDelta(Present(h))
    decreases |h|
  {
    if h != [] {
      var init, p := h[..|h| - 1], h[|h| - 1];
      assert h == init + [p];
      JitterPointsBounded(init);
      JitterPointsAppend(init, p);
      PresentAppend(init, p);
      if p.rtt.Some? {
        MaxDeltaGrows(Present(init), p.rtt.value);
        EwmaBounds(Present(h));
      }
    }
  }

  /** The latency and loss series of a target, given all its samples `smp`. */
  ghost predicate SeriesPart(l: seq<LatPoint>, lo: seq<Point>, smp: seq<LatPoint>) {
    && l == LastN(smp, MaxPoints)
    && |lo| == |l|
    && forall k :: 0 <= k < |lo| ==> 0.0 <= lo[k].value <= 100.0
  }

  /** The jitter series, the previous RTT and the average of a target, given all its samples `smp`. */
  ghost predicate JitterPart(j: seq<Point>, smp: seq<LatPoint>, prev: Option<real>, e: real) {
    && j == LastN(JitterPoints(smp), MaxPoints)
    && prev == LastPresent(smp)
    && e == Ewma(Present(smp))
  }

  /** The invariant of one target's state. */
  ghost predicate TargetOk(l: seq<LatPoint>, lo: seq<Point>, j: seq<Point>, smp: seq<LatPoint>,
                           prev: Option<real>, e: real)
  {
    SeriesPart(l, lo, smp) && JitterPart(j, smp, prev, e)
  }

  /** A target the program has not seen: empty series, no previous RTT, average 0. */
  lemma EmptyTargetOk()
    ensures TargetOk([], [], [], [], None, 0.0)
  {
  }

  /** What the invariant gives about jitter: at most `MaxPoints` values, each between 0 and the largest delta. */
  lemma JitterPartBounds(j: seq<Point>, smp: seq<LatPoint>, prev: Option<real>, e: real)
    requires JitterPart(j, smp, prev, e)
    ensures |j| <= MaxPoints
    ensures 0.0 <= e <= MaxDelta(Present(smp))
    ensures forall k :: 0 <= k < |j| ==> 0.0 <= j[k].value <= MaxDelta(Present(smp))
  {
    JitterPointsBounded(smp);
    EwmaBounds(Present(smp));
    LastNWithin(JitterPoints(smp), MaxPoints, 0.0, MaxDelta(Present(smp)));
  }

  /** The last `n` points of a series whose values lie in `[low, high]` lie there too. */
  lemma LastNWithin(q: seq<Point>, n: nat, low: real, high: real)
    requires forall k :: 0 <= k < |q| ==> low <= q[k].value <= high
    ensures forall k :: 0 <= k < |LastN(q, n)| ==> low <= LastN(q, n)[k].value <= high
  {
    var r := LastN(q, n);
    forall k | 0 <= k < |r|
      ensures low <= r[k].value <= high
    {
      assert r[k] == q[|q| - |r| + k];
    }
  }

  /** A new sample `pt` with loss value `v`: both series take one point each and keep the invariant. */
  lemma SeriesPartStep(l: seq<LatPoint>, lo: seq<Point>, smp: seq<LatPoint>, pt: LatPoint, v: Point)
    requires SeriesPart(l, lo, smp) && 0.0 <= v.value <= 100.0
    ensures |l| <= MaxPoints
    ensures SeriesPart(Push(l, pt, MaxPoints), Push(lo, v, MaxPoints), smp + [pt])
  {
    PushLastN(smp, pt, MaxPoints);
    PushWithin(lo, v, 0.0, 100.0);
  }

  /** Pushing a point whose value lies in `[low, high]` onto a series whose values do keeps them there. */
  lemma PushWithin(q: seq<Point>, v: Point, low: real, high: real)
    requires |q| <= MaxPoints && low <= v.value <= high
    requires forall k :: 0 <= k < |q| ==> low <= q[k].value <= high
    ensures forall k :: 0 <= k < |Push(q, v, MaxPoints)| ==> low <= Push(q, v, MaxPoints)[k].value <= high
  {
    if |q| < MaxPoints {
      assert Push(q, v, MaxPoints) == q + [v];
    } else {
      assert Push(q, v, MaxPoints) == q[1..] + [v];
    }
  }

  /** A timeout leaves the jitter series, the previous RTT and the average as they are. */
  lemma TimeoutStep(j: seq<Point>, smp: seq<LatPoint>, prev: Option<real>, e: real, ts: real)
    requires JitterPart(j, smp, prev, e)
    ensures JitterPart(j, smp + [LatPoint(ts, None)], prev, e)
  {
    PresentAppend(smp, LatPoint(ts, None));
    JitterPointsAppend(smp, LatPoint(ts, None));
  }

  /**
    A reply with RTT `x`: the jitter series takes `JitterStep(prev, e, x)`, the
    previous RTT becomes `x`, the average becomes `EwmaAfter(prev, e, x)`.
   */
  lemma ReplyStep(j: seq<Point>, smp: seq<LatPoint>, prev: Option<real>, e: real, ts: real, x: real)
    requires JitterPart(j, smp, prev, e)
    ensures |j| <= MaxPoints
    ensures JitterPart(Push(j, Point(ts, JitterStep(prev, e, x)), MaxPoints), smp + [LatPoint(ts, Some(x))],
                       Some(x), EwmaAfter(prev, e, x))
  {
    var p := LatPoint(ts, Some(x));
    PresentAppend(smp, p);
    JitterPointsAppend(smp, p);
    EwmaAppend(Present(smp), x);
    assert Ewma(Present(smp + [p])) == JitterStep(prev, e, x);
    PushLastN(JitterPoints(smp), Point(ts, JitterStep(prev, e, x)), MaxPoints);
  }

  /** One sample, as `_handle_sample` records it, keeps the invariant of its target. */
  lemma SampleStep(l: seq<LatPoint>, lo: seq<Point>, j: seq<Point>, smp: seq<LatPoint>,
                   prev: Option<real>, e: real, ts: real, rtt: Option<real>, lv: real)
    requires TargetOk(l, lo, j, smp, prev, e) && 0.0 <= lv <= 100.0
    ensures |l| <= MaxPoints && |lo| <= MaxPoints && |j| <= MaxPoints
    ensures TargetOk(Push(l, LatPoint(ts, rtt), MaxPoints), Push(lo, Point(ts, lv), MaxPoints),
                     JitterAfter(j, prev, e, ts, rtt), smp + [LatPoint(ts, rtt)],
                     PrevAfter(prev, rtt), AverageAfter(prev, e, rtt))
  {
    SeriesPartStep(l, lo, smp, LatPoint(ts, rtt), Point(ts, lv));
    if rtt.Some? {
      ReplyStep(j, smp, prev, e, ts, rtt.value);
    } else {
      TimeoutStep(j, smp, prev, e, ts);
    }
  }
}
