/**
  The per-target metrics state of the GUI: bounded latency, loss and jitter
  series, the previous RTT and the jitter average, and the sent and received
  counters, together with the operations that change them.
 */
module Engine {
  import opened Options
  import opened Text
  import opened History
  import opened Jitter
  import opened Loss
  import opened LatencyParser
  import opened TargetState
  import opened SeriesTables

  /** What launching `ping` gave: its two output streams, or the message of the exception it raised. */
  datatype ProbeOutcome = Completed(stdout: string, stderr: string) | LaunchFailed(message: string)

  /** A `("sample", target, ts, rtt, text)` item of the queue. */
  datatype QueuedSample = QueuedSample(target: string, ts: real, rtt: Option<real>, text: string)

  /** The values of one CSV row, in the row's order: time, target, RTT, sent, received, loss %, jitter. */
  datatype MetricRecord = MetricRecord(ts: real, target: string, rtt: Option<real>,
                                       sent: nat, recv: nat, loss: real, jitter: real)

  /** `proc.stdout or proc.stderr`: standard output unless it is empty. */
  function ProbeOutput(stdout: string, stderr: string): (out: string)
    ensures out == stdout || out == stderr
    ensures out == [] ==> stdout == [] && stderr == []
    ensures stdout != [] ==> out == stdout
  {
    if stdout != [] then stdout else stderr
  }

  /** The item `_probe_once` puts on the queue for `outcome`. */
  function ProbeSample(target: string, ts: real, outcome: ProbeOutcome): (item: QueuedSample)
    ensures item.target == target && item.ts == ts
    ensures outcome.LaunchFailed? ==> item.rtt == None && item.text == "Error: " + outcome.message
    ensures outcome.Completed? ==>
      var out := ProbeOutput(outcome.stdout, outcome.stderr);
      item.rtt == ParseLatency(out) && item.text == Strip(out)
  {
    match outcome
    case Completed(o, e) =>
      var out := ProbeOutput(o, e);
      QueuedSample(target, ts, ParseLatency(out), Strip(out))
    case LaunchFailed(m) => QueuedSample(target, ts, None, "Error: " + m)
  }

  /** The latency samples among `items` that belong to `t`, in queue order. */
  function SamplesFor(items: seq<QueuedSample>, t: string): (r: seq<LatPoint>)
    ensures |r| <= |items|
    decreases |items|
  {
    if items == [] then []
    else
      var last := items[|items| - 1];
      SamplesFor(items[..|items| - 1], t) + (if last.target == t then [LatPoint(last.ts, last.rtt)] else [])
  }

  lemma SamplesForAppend(items: seq<QueuedSample>, x: QueuedSample, t: string)
    ensures SamplesFor(items + [x], t)
         == SamplesFor(items, t) + (if x.target == t then [LatPoint(x.ts, x.rtt)] else [])
  {
    assert (items + [x])[..|items|] == items;
  }

  /** The histories after the samples `items`, recorded in order. */
  function RecordAll(h: Samples, items: seq<QueuedSample>): Samples
    decreases |items|
  {
    if items == [] then h
    else
      var last := items[|items| - 1];
      Record(RecordAll(h, items[..|items| - 1]), last.target, last.ts, last.rtt)
  }

  /** Recording `items` appends to each target's history exactly its own samples, in queue order. */
  lemma {:induction false} RecordAllSeries(h: Samples, items: seq<QueuedSample>, t: string)
    ensures Series(RecordAll(h, items), t) == Series(h, t) + SamplesFor(items, t)
    decreases |items|
  {
    if items != [] {
      var init, last := items[..|items| - 1], items[|items| - 1];
      var mid := RecordAll(h, init);
      var add := if last.target == t then [LatPoint(last.ts, last.rtt)] else [];
      RecordSeries(mid, last.target, last.ts, last.rtt);
      calc {
        Series(RecordAll(h, items), t);
        Series(mid, t) + add;
        { RecordAllSeries(h, init, t); }
        (Series(h, t) + SamplesFor(init, t)) + add;
        Series(h, t) + (SamplesFor(init, t) + add);
        Series(h, t) + SamplesFor(items, t);
      }
    }
  }

  /**
    After the samples `items` are recorded on top of `h0`, a target's latency
    deque holds the last `MaxPoints` of its earlier samples followed by its
    own samples among `items`, in queue order.
   */
  lemma DrainedSeries(s: Tables, h0: Samples, items: seq<QueuedSample>, t: string)
    requires Inv(s, RecordAll(h0, items))
    ensures Series(s.lat, t) == LastN(Series(h0, t) + SamplesFor(items, t), MaxPoints)
  {
    RecordAllSeries(h0, items, t);
    InvMeaning(s, RecordAll(h0, items), t);
  }

  /**
    The record `_handle_sample` produces for `it`, given `hist`, the
    latency samples of its target up to and including it, and the counters:
    its target, time and RTT; the counters of its target; the loss over
    `max(1, window)` of the target's latency deque, which holds the last
    `MaxPoints` samples; and the jitter average over the target's replies.
   */
  function ExpectedRecord(it: QueuedSample, hist: seq<LatPoint>, sent: map<string, nat>, recv: map<string, nat>,
                          window: int): MetricRecord
  {
    MetricRecord(it.ts, it.target, it.rtt, ValueOr(sent, it.target, 0), ValueOr(recv, it.target, 0),
                 WindowLoss(LastN(hist, MaxPoints), ClampWindow(window)), Ewma(Present(hist)))
  }

  /** The latency samples of the `k`-th item's target up to and including it, on top of the histories `h0`. */
  function DrainHistory(h0: Samples, items: seq<QueuedSample>, k: nat): seq<LatPoint>
    requires k < |items|
  {
    Series(h0, items[k].target) + SamplesFor(items[..k + 1], items[k].target)
  }

  /** The history of the `k`-th item does not depend on the items after it. */
  lemma DrainHistoryPrefix(h0: Samples, items: seq<QueuedSample>, j: nat, k: nat)
    requires k < j <= |items|
    ensures DrainHistory(h0, items[..j], k) == DrainHistory(h0, items, k)
  {
    assert items[..j][..k + 1] == items[..k + 1];
  }

  /** Each of `records` is the record of the item at its index, over its history up to it. */
  predicate RecordsOf(records: seq<MetricRecord>, h0: Samples, items: seq<QueuedSample>,
                      sent: map<string, nat>, recv: map<string, nat>, window: int)
  {
    && |records| <= |items|
    && forall k :: 0 <= k < |records| ==>
         records[k] == ExpectedRecord(items[k], DrainHistory(h0, items, k), sent, recv, window)
  }

  /** The record of the next item extends the records of the items before it. */
  lemma RecordsExtend(records: seq<MetricRecord>, rec: MetricRecord, h0: Samples, items: seq<QueuedSample>,
                      sent: map<string, nat>, recv: map<string, nat>, window: int)
    requires RecordsOf(records, h0, items, sent, recv, window) && |records| < |items|
    requires rec == ExpectedRecord(items[|records|], DrainHistory(h0, items, |records|), sent, recv, window)
    ensures RecordsOf(records + [rec], h0, items, sent, recv, window)
  {
    var r := records + [rec];
    forall k | 0 <= k < |r|
      ensures r[k] == ExpectedRecord(items[k], DrainHistory(h0, items, k), sent, recv, window)
    {
      if k < |records| {
        assert r[k] == records[k];
      }
    }
  }

  /** Recording one more item: the map of histories, and its target's history up to it. */
  lemma RecordAllSnoc(h0: Samples, items: seq<QueuedSample>, i: nat)
    requires i < |items|
    ensures RecordAll(h0, items[..i + 1])
         == Record(RecordAll(h0, items[..i]), items[i].target, items[i].ts, items[i].rtt)
    ensures Series(RecordAll(h0, items[..i + 1]), items[i].target) == DrainHistory(h0, items, i)
  {
    assert items[..i + 1][..i] == items[..i];
    RecordAllSeries(h0, items[..i + 1], items[i].target);
  }

  /** The loss points of the records of target `t`, in order. */
  function LossPointsFor(records: seq<MetricRecord>, t: string): (r: seq<Point>)
    ensures |r| <= |records|
    decreases |records|
  {
    if records == [] then []
    else
      var last := records[|records| - 1];
      LossPointsFor(records[..|records| - 1], t) + (if last.target == t then [Point(last.ts, last.loss)] else [])
  }

  lemma LossPointsForAppend(records: seq<MetricRecord>, rec: MetricRecord, t: string)
    ensures LossPointsFor(records + [rec], t)
         == LossPointsFor(records, t) + (if rec.target == t then [Point(rec.ts, rec.loss)] else [])
  {
    assert (records + [rec])[..|records|] == records;
  }

  /**
    Each target's loss deque holds the last `MaxPoints` of its loss points in
    `loss0` followed by the loss points of its own records.
   */
  ghost predicate LossDrained(loss: map<string, seq<Point>>, loss0: map<string, seq<Point>>, records: seq<MetricRecord>) {
    forall t :: Series(loss, t) == LastN(Series(loss0, t) + LossPointsFor(records, t), MaxPoints)
  }

  /** Pushing the loss point of one more record onto its target's deque extends `LossDrained`. */
  lemma LossDrainStep(loss0: map<string, seq<Point>>, loss: map<string, seq<Point>>, loss': map<string, seq<Point>>,
                      records: seq<MetricRecord>, rec: MetricRecord)
    requires LossDrained(loss, loss0, records) && |Series(loss, rec.target)| <= MaxPoints
    requires Series(loss', rec.target) == Push(Series(loss, rec.target), Point(rec.ts, rec.loss), MaxPoints)
    requires forall u :: u != rec.target ==> Series(loss', u) == Series(loss, u)
    ensures LossDrained(loss', loss0, records + [rec])
  {
    forall u
      ensures Series(loss', u) == LastN(Series(loss0, u) + LossPointsFor(records + [rec], u), MaxPoints)
    {
      var a, b := Series(loss0, u), LossPointsFor(records, u);
      assert Series(loss, u) == LastN(a + b, MaxPoints);
      LossPointsForAppend(records, rec, u);
      if u == rec.target {
        LossPushed(a, b, Point(rec.ts, rec.loss));
      } else {
        assert b + [] == b;
      }
    }
  }

  /** One more loss point on the deque of the last `MaxPoints` of `a + b`. */
  lemma LossPushed(a: seq<Point>, b: seq<Point>, p: Point)
    ensures Push(LastN(a + b, MaxPoints), p, MaxPoints) == LastN(a + (b + [p]), MaxPoints)
  {
    PushLastN(a + b, p, MaxPoints);
    assert (a + b) + [p] == a + (b + [p]);
  }

  /** No target has more replies than probes. */
  predicate CountersOk(sent: map<string, nat>, recv: map<string, nat>) {
    forall t :: t in recv ==> recv[t] <= ValueOr(sent, t, 0)
  }

  lemma CountersStep(sent: map<string, nat>, recv: map<string, nat>, t: string, got: bool)
    requires CountersOk(sent, recv)
    ensures CountersOk(sent[t := ValueOr(sent, t, 0) + 1],
                       if got then recv[t := ValueOr(recv, t, 0) + 1] else recv)
  {
  }

  class MetricsEngine {
    /** `lat_series`, `loss_series`, `jitter_series`, `prev_rtt` and `jitter_ewma`. */
    var tables: Tables
    /** `sent_counts` and `recv_counts`. */
    var sent: map<string, nat>
    var recv: map<string, nat>
    /** Every latency sample of each target since its series were created, of which `lat_series` keeps the last `MaxPoints`. */
    ghost var samples: Samples

    function EwmaOf(t: string): real reads this { ValueOr(tables.ewma, t, 0.0) }
    function SentOf(t: string): nat reads this { ValueOr(sent, t, 0) }
    function RecvOf(t: string): nat reads this { ValueOr(recv, t, 0) }

    ghost predicate Valid()
      reads this
    {
      Inv(tables, samples) && CountersOk(sent, recv)
    }

    /** `__init__`: no series, no previous RTTs, every average and counter at its default. */
    constructor ()
      ensures Valid()
      ensures tables == Empty && samples == map[] && sent == map[] && recv == map[]
    {
      tables, samples := Empty, map[];
      sent, recv := map[], map[];
      EmptyOk();
    }

    /** `clear_graphs`: every series, previous RTT, average and counter is dropped. */
    method Clear()
      modifies this
      ensures Valid()
      ensures tables == Empty && samples == map[] && sent == map[] && recv == map[]
    {
      tables, samples := Empty, map[];
      sent, recv := map[], map[];
      EmptyOk();
    }

    /** `setdefault` of the three series of one target. */
    method EnsureSeries(t: string)
      requires Valid()
      modifies this
      ensures Valid() && HasSeries(tables, t)
      ensures tables == Setdefault(old(tables), t) && samples == WithSeries(old(samples), t)
      ensures sent == old(sent) && recv == old(recv)
    {
      SetdefaultOk(tables, samples, t);
      tables := tables.(lat := WithSeries(tables.lat, t), loss := WithSeries(tables.loss, t),
                        jitter := WithSeries(tables.jitter, t));
      samples := WithSeries(samples, t);
    }

    /** The series creation of `start`: every target, in order, gets its three series; existing ones are kept. */
    method RegisterTargets(targets: seq<string>)
      requires Valid()
      modifies this
      ensures Valid()
      ensures tables == SetdefaultAll(old(tables), targets) && samples == WithSeriesAll(old(samples), targets)
      ensures sent == old(sent) && recv == old(recv)
    {
      var i := 0;
      while i < |targets|
        invariant 0 <= i <= |targets|
        invariant Valid()
        invariant tables == SetdefaultAll(old(tables), targets[..i]) && samples == WithSeriesAll(old(samples), targets[..i])
        invariant sent == old(sent) && recv == old(recv)
      {
        EnsureSeries(targets[i]);
        SetdefaultAllSnoc(old(tables), old(samples), targets, i);
        i := i + 1;
      }
      assert targets[..i] == targets;
    }

    /**
      The counter updates of `_probe_once` around one `ping` run: `sent` goes
      up first, `received` only when an RTT was parsed; the item for the queue
      is returned.
     */
    method ProbeOnce(t: string, ts: real, outcome: ProbeOutcome) returns (item: QueuedSample)
      requires Valid()
      modifies this
      ensures Valid()
      ensures item == ProbeSample(t, ts, outcome)
      ensures sent == old(sent)[t := old(SentOf(t)) + 1]
      ensures recv == if item.rtt.Some? then old(recv)[t := old(RecvOf(t)) + 1] else old(recv)
      ensures tables == old(tables) && samples == old(samples)
    {
      item := ProbeSample(t, ts, outcome);
      CountProbe(t, item.rtt.Some?);
    }

    /** The counters after one probe of `t`: one more sent, and one more received when it `replied`. */
    method CountProbe(t: string, replied: bool)
      requires Valid()
      modifies this
      ensures Valid()
      ensures sent == old(sent)[t := old(SentOf(t)) + 1]
      ensures recv == if replied then old(recv)[t := old(RecvOf(t)) + 1] else old(recv)
      ensures tables == old(tables) && samples == old(samples)
    {
      CountersStep(sent, recv, t, replied);
      sent := sent[t := SentOf(t) + 1];
      if replied {
        recv := recv[t := RecvOf(t) + 1];
      }
    }

    /**
      `_handle_sample` without its logging and CSV output: after `setdefault`
      of the three series, one latency point, one loss point over the window
      `max(1, window)` of the latency series as it now is, and for a present
      RTT one jitter point, the new previous RTT and (with a previous RTT) the
      new average. The returned record holds the values of the CSV row.
     */
    method HandleSample(t: string, ts: real, rtt: Option<real>, window: int) returns (rec: MetricRecord)
      requires Valid()
      modifies this
      ensures Valid() && HasSeries(Setdefault(old(tables), t), t)
      ensures tables == AfterSample(Setdefault(old(tables), t), t, ts, rtt, rec.loss)
      ensures samples == Record(old(samples), t, ts, rtt)
      ensures t in tables.lat && rec.loss == WindowLoss(tables.lat[t], ClampWindow(window))
      ensures rec == MetricRecord(ts, t, rtt, SentOf(t), RecvOf(t), rec.loss, EwmaOf(t))
      ensures sent == old(sent) && recv == old(recv)
    {
      EnsureSeries(t);
      ghost var before, h := tables, samples;
      var pt := LatPoint(ts, rtt);
      var lat := tables.lat[t := Push(tables.lat[t], pt, MaxPoints)];
      var l := WindowLoss(lat[t], ClampWindow(window));
      var loss := tables.loss[t := Push(tables.loss[t], Point(ts, l), MaxPoints)];
      var jitter, prevRtt, ewma := tables.jitter, tables.prevRtt, tables.ewma;
      if rtt.Some? {
        var x := rtt.value;
        var j := JitterStep(Lookup(prevRtt, t), EwmaOf(t), x);
        jitter := jitter[t := Push(jitter[t], Point(ts, j), MaxPoints)];
        if t in prevRtt {
          ewma := ewma[t := j];
        }
        prevRtt := prevRtt[t := x];
      }
      SampleOk(before, h, t, ts, rtt, l);
      RecordAfterSetdefault(old(samples), t, ts, rtt);
      tables := Tables(lat, loss, jitter, prevRtt, ewma);
      samples := Record(h, t, ts, rtt);
      rec := MetricRecord(ts, t, rtt, SentOf(t), RecvOf(t), l, EwmaOf(t));
    }

    /** One `("sample", ...)` item of the queue, unpacked and handed to `_handle_sample`. */
    method HandleItem(it: QueuedSample, window: int) returns (rec: MetricRecord)
      requires Valid()
      modifies this
      ensures Valid() && HasSeries(Setdefault(old(tables), it.target), it.target)
      ensures tables == AfterSample(Setdefault(old(tables), it.target), it.target, it.ts, it.rtt, rec.loss)
      ensures samples == Record(old(samples), it.target, it.ts, it.rtt)
      ensures rec == ExpectedRecord(it, Series(samples, it.target), sent, recv, window)
      ensures sent == old(sent) && recv == old(recv)
    {
      rec := HandleSample(it.target, it.ts, it.rtt, window);
      InvMeaning(tables, samples, it.target);
    }

    /**
      `_drain_queue`: the samples taken off the queue, handled in order, one
      record per sample, each over its target's history up to it; every
      target's history grows by exactly its samples, and its loss deque by
      the losses of its records.
     */
    method DrainQueue(items: seq<QueuedSample>, window: int) returns (records: seq<MetricRecord>)
      requires Valid()
      modifies this
      ensures Valid()
      ensures |records| == |items|
      ensures RecordsOf(records, old(samples), items, sent, recv, window)
      ensures samples == RecordAll(old(samples), items)
      ensures LossDrained(tables.loss, old(tables.loss), records)
      ensures sent == old(sent) && recv == old(recv)
    {
      records := [];
      var i := 0;
      while i < |items|
        invariant 0 <= i <= |items|
        invariant Valid()
        invariant |records| == i
        invariant RecordsOf(records, old(samples), items, sent, recv, window)
        invariant samples == RecordAll(old(samples), items[..i])
        invariant LossDrained(tables.loss, old(tables.loss), records)
        invariant sent == old(sent) && recv == old(recv)
      {
        ghost var before := tables;
        assert |Series(before.loss, items[i].target)| <= MaxPoints;
        var rec := HandleItem(items[i], window);
        AfterSampleLoss(before, items[i].target, items[i].ts, items[i].rtt, rec.loss);
        LossDrainStep(old(tables.loss), before.loss, tables.loss, records, rec);
        RecordAllSnoc(old(samples), items, i);
        RecordsExtend(records, rec, old(samples), items, sent, recv, window);
        records := records + [rec];
        i := i + 1;
      }
      assert items[..|items|] == items;
    }
  }
}
