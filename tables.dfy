/**
  The per-target dictionaries of the GUI as one value: the latency, loss and
  jitter series, the full sample history they are cut from, the previous RTT
  and the jitter average; their invariant, and how creating a target's series
  and handling one sample keep it.
 */
module SeriesTables {
  import opened Options
  import opened History
  import opened Jitter
  import opened Loss
  import opened TargetState

  /**
    The five dictionaries `_handle_sample` updates: the three series, the
    previous RTT and the jitter average of every target.
   */
  datatype Tables = Tables(lat: map<string, seq<LatPoint>>, loss: map<string, seq<Point>>,
                           jitter: map<string, seq<Point>>, prevRtt: map<string, real>, ewma: map<string, real>)

  /** Every latency sample of each target since its series were created: the history `lat` keeps the end of. */
  type Samples = map<string, seq<LatPoint>>

  /** A per-target series; an absent target reads as the empty series `setdefault` would create. */
  function Series<V>(m: map<string, seq<V>>, t: string): seq<V> {
    if t in m then m[t] else []
  }

  /** `m.setdefault(t, deque())`. */
  function WithSeries<V>(m: map<string, seq<V>>, t: string): (r: map<string, seq<V>>)
    ensures r.Keys == m.Keys + {t}
    ensures forall u :: Series(r, u) == Series(m, u)
  {
    if t in m then m else m[t := []]
  }

  /** A `defaultdict` read. */
  function ValueOr<V>(m: map<string, V>, t: string, d: V): V {
    if t in m then m[t] else d
  }

  /** A `dict.get`. */
  function Lookup(m: map<string, real>, t: string): Option<real> {
    if t in m then Some(m[t]) else None
  }

  /** The invariant of target `t`, seen or not, given the sample histories `h`. */
  ghost predicate TargetAt(s: Tables, h: Samples, t: string) {
    TargetOk(Series(s.lat, t), Series(s.loss, t), Series(s.jitter, t), Series(h, t),
             Lookup(s.prevRtt, t), ValueOr(s.ewma, t, 0.0))
  }

  ghost predicate AllTargetsOk(s: Tables, h: Samples) {
    forall t :: TargetAt(s, h, t)
  }

  /** The three series and the history exist together, and the scalars only for targets that have them. */
  predicate KeysOk(s: Tables, h: Samples) {
    && s.lat.Keys == s.loss.Keys && s.loss.Keys == s.jitter.Keys && s.jitter.Keys == h.Keys
    && s.prevRtt.Keys <= s.lat.Keys && s.ewma.Keys <= s.lat.Keys
  }

  /** No deque holds more than `MaxPoints` points. */
  ghost predicate SizesOk(s: Tables) {
    forall t :: |Series(s.lat, t)| <= MaxPoints && |Series(s.loss, t)| <= MaxPoints && |Series(s.jitter, t)| <= MaxPoints
  }

  ghost predicate Inv(s: Tables, h: Samples) {
    KeysOk(s, h) && AllTargetsOk(s, h) && SizesOk(s)
  }

  /** Target `u` reads the same in `a` and in `b`. */
  predicate SameAt(a: Tables, b: Tables, u: string) {
    && Series(a.lat, u) == Series(b.lat, u) && Series(a.loss, u) == Series(b.loss, u)
    && Series(a.jitter, u) == Series(b.jitter, u)
    && Lookup(a.prevRtt, u) == Lookup(b.prevRtt, u) && ValueOr(a.ewma, u, 0.0) == ValueOr(b.ewma, u, 0.0)
  }

  const Empty := Tables(map[], map[], map[], map[], map[])

  /** With nothing recorded, every target is in its initial state. */
  lemma EmptyOk()
    ensures Inv(Empty, map[])
  {
    forall t
      ensures TargetAt(Empty, map[], t)
    {
      EmptyTargetOk();
    }
  }

  lemma TargetAtSame(a: Tables, ha: Samples, b: Tables, hb: Samples, u: string)
    requires SameAt(a, b, u) && Series(ha, u) == Series(hb, u) && AllTargetsOk(b, hb)
    ensures TargetAt(a, ha, u)
  {
    assert TargetAt(b, hb, u);
  }

  /** An update of target `t` only: the other targets keep their invariant. */
  lemma UpdateAt(s: Tables, h: Samples, s': Tables, h': Samples, t: string)
    requires AllTargetsOk(s, h) && TargetAt(s', h', t)
    requires forall u :: u != t ==> SameAt(s', s, u) && Series(h', u) == Series(h, u)
    ensures AllTargetsOk(s', h')
  {
    forall u
      ensures TargetAt(s', h', u)
    {
      if u != t {
        TargetAtSame(s', h', s, h, u);
      }
    }
  }

  /** The `setdefault` of the three series of target `t`. */
  function Setdefault(s: Tables, t: string): (r: Tables)
    ensures forall u :: SameAt(r, s, u)
    ensures r.lat.Keys == s.lat.Keys + {t} && r.loss.Keys == s.loss.Keys + {t} && r.jitter.Keys == s.jitter.Keys + {t}
    ensures r.prevRtt == s.prevRtt && r.ewma == s.ewma
  {
    Tables(WithSeries(s.lat, t), WithSeries(s.loss, t), WithSeries(s.jitter, t), s.prevRtt, s.ewma)
  }

  /** Creating a target's series keeps the invariant, and the target then has its three series. */
  lemma SetdefaultOk(s: Tables, h: Samples, t: string)
    requires Inv(s, h)
    ensures Inv(Setdefault(s, t), WithSeries(h, t))
    ensures HasSeries(Setdefault(s, t), t)
  {
    var r, h' := Setdefault(s, t), WithSeries(h, t);
    assert |Series(s.lat, t)| <= MaxPoints && |Series(s.loss, t)| <= MaxPoints && |Series(s.jitter, t)| <= MaxPoints;
    forall u
      ensures TargetAt(r, h', u) && |Series(r.lat, u)| <= MaxPoints
      ensures |Series(r.loss, u)| <= MaxPoints && |Series(r.jitter, u)| <= MaxPoints
    {
      TargetAtSame(r, h', s, h, u);
      assert |Series(s.lat, u)| <= MaxPoints && |Series(s.loss, u)| <= MaxPoints && |Series(s.jitter, u)| <= MaxPoints;
    }
  }

  /** `setdefault` for each of `targets`, in order, on a history. */
  function WithSeriesAll(h: Samples, targets: seq<string>): (r: Samples)
    ensures r.Keys == h.Keys + set t | t in targets
    ensures forall u :: Series(r, u) == Series(h, u)
    decreases |targets|
  {
    if targets == [] then h
    else
      var init, last := targets[..|targets| - 1], targets[|targets| - 1];
      assert targets == init + [last];
      WithSeries(WithSeriesAll(h, init), last)
  }

  /** The series creation of `start`: `setdefault` of the three series of each of `targets`, in order. */
  function SetdefaultAll(s: Tables, targets: seq<string>): (r: Tables)
    ensures r.lat.Keys == s.lat.Keys + set t | t in targets
    ensures r.loss.Keys == s.loss.Keys + set t | t in targets
    ensures r.jitter.Keys == s.jitter.Keys + set t | t in targets
    ensures r.prevRtt == s.prevRtt && r.ewma == s.ewma
    decreases |targets|
  {
    if targets == [] then s
    else
      var init, last := targets[..|targets| - 1], targets[|targets| - 1];
      assert targets == init + [last];
      Setdefault(SetdefaultAll(s, init), last)
  }

  /** One more target: `setdefault` of its series after those of the targets before it. */
  lemma SetdefaultAllSnoc(s: Tables, h: Samples, targets: seq<string>, i: nat)
    requires i < |targets|
    ensures SetdefaultAll(s, targets[..i + 1]) == Setdefault(SetdefaultAll(s, targets[..i]), targets[i])
    ensures WithSeriesAll(h, targets[..i + 1]) == WithSeries(WithSeriesAll(h, targets[..i]), targets[i])
  {
    assert targets[..i + 1][..i] == targets[..i];
  }

  /** Creating the series of several targets changes no target's series. */
  lemma {:induction false} SetdefaultAllKeeps(s: Tables, targets: seq<string>, u: string)
    ensures SameAt(SetdefaultAll(s, targets), s, u)
    decreases |targets|
  {
    if targets != [] {
      var init := targets[..|targets| - 1];
      SetdefaultAllKeeps(s, init, u);
      assert SameAt(Setdefault(SetdefaultAll(s, init), targets[|targets| - 1]), SetdefaultAll(s, init), u);
    }
  }

  /** Creating the series of several targets keeps the invariant, and every one of them then has its series. */
  lemma {:induction false} SetdefaultAllOk(s: Tables, h: Samples, targets: seq<string>)
    requires Inv(s, h)
    ensures Inv(SetdefaultAll(s, targets), WithSeriesAll(h, targets))
    ensures forall t :: t in targets ==> HasSeries(SetdefaultAll(s, targets), t)
    decreases |targets|
  {
    if targets != [] {
      var init, last := targets[..|targets| - 1], targets[|targets| - 1];
      SetdefaultAllOk(s, h, init);
      var r := SetdefaultAll(s, init);
      SetdefaultOk(r, WithSeriesAll(h, init), last);
      forall t | t in targets
        ensures HasSeries(SetdefaultAll(s, targets), t)
      {
        if t != last {
          assert t in init;
          SetdefaultKeeps(r, last, t);
        }
      }
    }
  }

  /** `setdefault` of one target leaves another target's series as they were. */
  lemma SetdefaultKeeps(s: Tables, t: string, u: string)
    requires HasSeries(s, u)
    ensures HasSeries(Setdefault(s, t), u)
  {
    assert SameAt(Setdefault(s, t), s, u);
  }

  /** Target `t` has its three series, each within capacity. */
  predicate HasSeries(s: Tables, t: string) {
    && t in s.lat && t in s.loss && t in s.jitter
    && |s.lat[t]| <= MaxPoints && |s.loss[t]| <= MaxPoints && |s.jitter[t]| <= MaxPoints
  }

  /**
    The dictionaries after `_handle_sample` recorded a sample of `t` at `ts`
    with RTT `rtt` and window loss `l`: one latency and one loss point; for a
    reply one jitter point (0 without a previous RTT, one EWMA step otherwise),
    the new previous RTT, and the new average when there was a previous RTT.
   */
  function AfterSample(s: Tables, t: string, ts: real, rtt: Option<real>, l: real): Tables
    requires HasSeries(s, t)
  {
    var lat := s.lat[t := Push(s.lat[t], LatPoint(ts, rtt), MaxPoints)];
    var loss := s.loss[t := Push(s.loss[t], Point(ts, l), MaxPoints)];
    match rtt
    case None => Tables(lat, loss, s.jitter, s.prevRtt, s.ewma)
    case Some(x) =>
      var j := JitterStep(Lookup(s.prevRtt, t), ValueOr(s.ewma, t, 0.0), x);
      Tables(lat, loss, s.jitter[t := Push(s.jitter[t], Point(ts, j), MaxPoints)],
             s.prevRtt[t := x], if t in s.prevRtt then s.ewma[t := j] else s.ewma)
  }

  /** The loss deques after a sample of `t`: one point appended to `t`'s, every other target's unchanged. */
  lemma AfterSampleLoss(s: Tables, t: string, ts: real, rtt: Option<real>, l: real)
    requires HasSeries(Setdefault(s, t), t)
    ensures Series(AfterSample(Setdefault(s, t), t, ts, rtt, l).loss, t) == Push(Series(s.loss, t), Point(ts, l), MaxPoints)
    ensures forall u :: u != t ==> Series(AfterSample(Setdefault(s, t), t, ts, rtt, l).loss, u) == Series(s.loss, u)
  {
    assert SameAt(Setdefault(s, t), s, t);
  }

  /** The history after a sample of `t`: the sample appended to `t`'s history. */
  function Record(h: Samples, t: string, ts: real, rtt: Option<real>): Samples {
    h[t := Series(h, t) + [LatPoint(ts, rtt)]]
  }

  /** Recording a sample of `t` appends it to `t`'s history and to no other. */
  lemma RecordSeries(h: Samples, t: string, ts: real, rtt: Option<real>)
    ensures Record(h, t, ts, rtt).Keys == h.Keys + {t}
    ensures forall u :: Series(Record(h, t, ts, rtt), u) == Series(h, u) + (if u == t then [LatPoint(ts, rtt)] else [])
  {
  }

  /** Recording into a history right after `setdefault` is the same as recording into it. */
  lemma RecordAfterSetdefault(h: Samples, t: string, ts: real, rtt: Option<real>)
    ensures Record(WithSeries(h, t), t, ts, rtt) == Record(h, t, ts, rtt)
  {
    assert Series(WithSeries(h, t), t) == Series(h, t);
    assert WithSeries(h, t)[t := Series(h, t) + [LatPoint(ts, rtt)]] == h[t := Series(h, t) + [LatPoint(ts, rtt)]];
  }

  lemma SampleTargetAt(s: Tables, h: Samples, t: string, ts: real, rtt: Option<real>, l: real)
    requires AllTargetsOk(s, h) && HasSeries(s, t) && 0.0 <= l <= 100.0
    ensures TargetAt(AfterSample(s, t, ts, rtt, l), Record(h, t, ts, rtt), t)
  {
    var r := AfterSample(s, t, ts, rtt, l);
    var prev, e := Lookup(s.prevRtt, t), ValueOr(s.ewma, t, 0.0);
    assert TargetAt(s, h, t);
    SampleStep(s.lat[t], s.loss[t], s.jitter[t], Series(h, t), prev, e, ts, rtt, l);
    assert Series(r.jitter, t) == JitterAfter(s.jitter[t], prev, e, ts, rtt);
    assert Lookup(r.prevRtt, t) == PrevAfter(prev, rtt);
    assert ValueOr(r.ewma, t, 0.0) == AverageAfter(prev, e, rtt);
  }

  lemma SampleFrame(s: Tables, t: string, ts: real, rtt: Option<real>, l: real)
    requires HasSeries(s, t)
    ensures forall u :: u != t ==> SameAt(AfterSample(s, t, ts, rtt, l), s, u)
  {
    var r := AfterSample(s, t, ts, rtt, l);
    forall u | u != t
      ensures SameAt(r, s, u)
    {
      assert u in r.prevRtt <==> u in s.prevRtt;
      assert u in r.ewma <==> u in s.ewma;
    }
  }

  lemma SampleSizes(s: Tables, t: string, ts: real, rtt: Option<real>, l: real)
    requires SizesOk(s) && HasSeries(s, t)
    ensures SizesOk(AfterSample(s, t, ts, rtt, l))
  {
    var r := AfterSample(s, t, ts, rtt, l);
    forall u
      ensures |Series(r.lat, u)| <= MaxPoints && |Series(r.loss, u)| <= MaxPoints && |Series(r.jitter, u)| <= MaxPoints
    {
      if u != t {
        assert |Series(s.lat, u)| <= MaxPoints && |Series(s.loss, u)| <= MaxPoints && |Series(s.jitter, u)| <= MaxPoints;
      }
    }
  }

  /** Handling one sample of a target whose series exist keeps the invariant. */
  lemma SampleOk(s: Tables, h: Samples, t: string, ts: real, rtt: Option<real>, l: real)
    requires Inv(s, h) && HasSeries(s, t) && 0.0 <= l <= 100.0
    ensures Inv(AfterSample(s, t, ts, rtt, l), Record(h, t, ts, rtt))
  {
    RecordSeries(h, t, ts, rtt);
    SampleTargetAt(s, h, t, ts, rtt, l);
    SampleFrame(s, t, ts, rtt, l);
    UpdateAt(s, h, AfterSample(s, t, ts, rtt, l), Record(h, t, ts, rtt), t);
    SampleSizes(s, t, ts, rtt, l);
  }

  /**
    What the invariant says about one target `t` with history `Series(h, t)`:
    its latency deque is the last `MaxPoints` samples; its loss deque is as
    long, with every value a percentage; its jitter deque is the last
    `MaxPoints` jitter points, each between 0 and the largest RTT delta; the
    previous RTT is the last reply's; and the average is the EWMA of the
    replies, between 0 and the largest delta.
   */
  lemma InvMeaning(s: Tables, h: Samples, t: string)
    requires Inv(s, h)
    ensures Series(s.lat, t) == LastN(Series(h, t), MaxPoints)
    ensures |Series(s.loss, t)| == |Series(s.lat, t)| <= MaxPoints
    ensures forall k :: 0 <= k < |Series(s.loss, t)| ==> 0.0 <= Series(s.loss, t)[k].value <= 100.0
    ensures Series(s.jitter, t) == LastN(JitterPoints(Series(h, t)), MaxPoints)
    ensures forall k :: 0 <= k < |Series(s.jitter, t)| ==>
      0.0 <= Series(s.jitter, t)[k].value <= MaxDelta(Present(Series(h, t)))
    ensures Lookup(s.prevRtt, t) == LastPresent(Series(h, t))
    ensures ValueOr(s.ewma, t, 0.0) == Ewma(Present(Series(h, t)))
    ensures 0.0 <= ValueOr(s.ewma, t, 0.0) <= MaxDelta(Present(Series(h, t)))
  {
    assert TargetAt(s, h, t);
    JitterPartBounds(Series(s.jitter, t), Series(h, t), Lookup(s.prevRtt, t), ValueOr(s.ewma, t, 0.0));
  }
}
