# Multi-Ping Grapher: metrics engine and latency parser

This project models the core of the `MultiPingGUI` class in
`src/multi_ping_grapher.py` and proves properties of that model.

The GUI pings several targets at a fixed interval. From each `ping` run it
extracts a round-trip time (RTT) and keeps three bounded series per target:

- latency: one point per probe, with no RTT for a timeout;
- windowed packet loss;
- jitter: an exponentially weighted moving average (EWMA), with factor 1/16,
  of the change between consecutive RTTs.

It also keeps per-target sent and received counters. The model covers five
parts.

- **Latency parser** (`_parse_latency_ms`). `LatencyParser.ParseLatency` is a
  pure function of the ping output.
  - The reply path applies when a reply marker, `time=` and a later `ms` are
    all present. It takes the text between them, keeps digits, `.` and `-`,
    and parses the result.
  - Otherwise the summary path applies. It needs "minimum", "average" and
    "maximum", and takes the first `<n>ms` token with n > 0.
  - The Python string operations it relies on are in module `Text`:
    `lower`, `find`, `in`, `endswith`, `strip`, `split` and `splitlines`.
  - Python's `float()` is in module `Decimal`, restricted to decimal literals.
- **Bounded series** (`deque(maxlen=900)`). Module `History` models a
  bounded series as a sequence. An append onto a full deque drops exactly
  its oldest element.
- **Jitter and loss** (`_handle_sample` lines 229-237, `_compute_window_loss`).
  These are pure functions in modules `Jitter` and `Loss`, over a target's
  sample history.
- **Per-target state.** Class `Engine.MetricsEngine` holds the five
  dictionaries as one `SeriesTables.Tables` value, plus the two counters.
  - Its methods update the state in place: `__init__`, `clear_graphs`, the
    series creation of `start`, the counter updates of `_probe_once`,
    `_handle_sample` and `_drain_queue`.
  - A ghost field holds the full sample history of each target.
  - The class invariant `SeriesTables.Inv` ties every deque, previous RTT
    and average to that history.
- **Start-up validation** (`start`, lines 120-130). Module `Startup` builds
  the target list and clamps the numeric fields.

## Model

| member | source | states |
|---|---|---|
| History.LastN | src/multi_ping_grapher.py:136-138 | the last `n` elements of a sequence: length `min(n, len)`, element `i` is element `len - |r| + i` of the input |
| History.Push | src/multi_ping_grapher.py:226-240 | `deque.append` with `maxlen`: the new element is last; below capacity the old contents precede it, at capacity the oldest is dropped and the rest keep their order; the length never exceeds the capacity |
| History.PushAll | src/multi_ping_grapher.py:226-240 | appending several elements in order never exceeds the capacity |
| History.PushLastN | src/multi_ping_grapher.py:226-240 | one append to the last `cap` elements of `s` gives the last `cap` elements of `s + [x]` |
| History.PushAllLastN | src/multi_ping_grapher.py:226-240 | appending `xs` in order to the last `cap` elements of `s` gives exactly the last `cap` elements of `s + xs` |
| History.FillFromEmpty | src/multi_ping_grapher.py:136-138 | a deque created empty and fed `xs` holds the last `cap` elements of `xs`, and exactly `xs[len - cap..]` once `cap` or more were appended |
| Jitter.Abs | src/multi_ping_grapher.py:231 | `abs`: non-negative, and equal to `x` or `-x` |
| Jitter.MaxDelta | src/multi_ping_grapher.py:229-237 | the largest change between consecutive RTTs: it bounds every such change and is one of them; with fewer than two RTTs it is 0 |
| Jitter.EwmaStepBetween | src/multi_ping_grapher.py:232 | one EWMA step lands between the old average and the new change |
| Jitter.EwmaBounds | src/multi_ping_grapher.py:229-237 | the average is never negative and never exceeds the largest change seen |
| Jitter.EwmaAppend | src/multi_ping_grapher.py:229-237 | a first RTT leaves the average as it was; a later RTT `x` moves it one step with `abs(x - previous)` |
| Jitter.JitterTrace | src/multi_ping_grapher.py:229-236 | a target's replies produce one jitter value each |
| Jitter.JitterTraceAt | src/multi_ping_grapher.py:229-236 | the `k`-th jitter value is the average over the first `k + 1` RTTs and lies between 0 and the largest change |
| Jitter.ExampleTrace | src/multi_ping_grapher.py:229-236 | RTTs 20, 24, 22 and 30 ms give jitter values 0, 0.25, 0.359375 and 0.8369140625 ms |
| Loss.ClampWindow | src/multi_ping_grapher.py:239 | `max(1, window)`: at least 1 and at least `window`, and equal to one of them |
| Loss.Misses | src/multi_ping_grapher.py:255 | the number of timeouts: at most the length; 0 exactly when every sample has an RTT; the length exactly when none has |
| Loss.Percent | src/multi_ping_grapher.py:256 | `100 * m / n` lies in [0, 100]; it is 0 exactly when `m = 0` and 100 exactly when `m = n` |
| Loss.WindowLoss | src/multi_ping_grapher.py:249-256 | the windowed loss lies in [0, 100] for every history and every window |
| Loss.WindowLossZero | src/multi_ping_grapher.py:249-256 | the loss is 0 exactly when the history is empty, the window is not positive, or the last `min(window, len)` samples all have an RTT |
| Loss.WindowLossFull | src/multi_ping_grapher.py:249-256 | the loss is 100 exactly when the history is non-empty, the window is positive, and the last `min(window, len)` samples are all timeouts |
| Loss.WholeHistory | src/multi_ping_grapher.py:252-256 | a window at least as long as the history counts all of it |
| Loss.ExampleOneInThree | src/multi_ping_grapher.py:249-256 | three samples with one timeout and window 100 give a loss of 100/3 % |
| Decimal.ParseDecimalAccepts | src/multi_ping_grapher.py:191 | `float()` succeeds exactly on decimal literals: an optional sign, then only digits and at most one `.`, with at least one digit |
| Decimal.ParseDecimalValue | src/multi_ping_grapher.py:191 | a literal `ip.fp`, optionally preceded by `-`, parses to `ip + fp / 10^len(fp)`, negated after the `-` |
| Decimal.ParsePlus | src/multi_ping_grapher.py:191 | a `+` in front of an unsigned literal (or of nothing) leaves the result of `float()` unchanged, so `+ip.fp` and `+digits` have the values of `ip.fp` and `digits` |
| Decimal.ParseUnsignedInteger | src/multi_ping_grapher.py:198 | a non-empty run of digits parses to its integer value |
| Decimal.ParseNegativeInteger | src/multi_ping_grapher.py:198 | a '-' followed by a non-empty run of digits parses to the negated integer value |
| Decimal.ParseNatToString | src/multi_ping_grapher.py:191 | round trip: parsing the decimal rendering of a natural number gives that number |
| Text.Lower | src/multi_ping_grapher.py:183 | `lower()`: same length; no capital remains; other characters are unchanged; a capital becomes its lower-case letter |
| Text.LowerIdempotent | src/multi_ping_grapher.py:183 | lower-casing twice is lower-casing once |
| Text.FindFrom | src/multi_ping_grapher.py:185-187 | `find(p, k)`: the first occurrence at or after `k`, and -1 exactly when there is none |
| Text.ContainsIffFound | src/multi_ping_grapher.py:184 | `p in s` holds exactly when `s.find(p)` is not -1 |
| Text.Strip | src/multi_ping_grapher.py:120 | `strip()`: the result has no white space at either end and is a contiguous piece of the input with only white space around it |
| Text.StripEmptyIffBlank | src/multi_ping_grapher.py:120 | a line strips to the empty string exactly when it is all white space |
| Text.StripStripped | src/multi_ping_grapher.py:120 | stripping a string without white space at its ends returns it unchanged |
| Text.Split | src/multi_ping_grapher.py:194 | `split()`: every token is non-empty and holds no white space |
| Text.WordsAtSpace | src/multi_ping_grapher.py:194 | a white-space character ends the word being built, and the rest is split afresh |
| Text.SplitAtSpace | src/multi_ping_grapher.py:194 | splitting at a white-space character splits the two sides independently and concatenates the tokens |
| Text.SplitWord | src/multi_ping_grapher.py:194 | a non-empty text without white space is one token, itself |
| Text.SplitBlank | src/multi_ping_grapher.py:194 | an all-white-space text has no tokens |
| Text.SplitJoinWords | src/multi_ping_grapher.py:194 | round trip: splitting words joined by single spaces gives the words back |
| Text.SplitLines | src/multi_ping_grapher.py:120 | `splitlines()`: no line holds a line break |
| Text.SplitJoinLines | src/multi_ping_grapher.py:120 | round trip: splitting lines joined by newlines gives the lines back |
| LatencyParser.KeepNumeric | src/multi_ping_grapher.py:190 | the filter keeps only digits, `.` and `-`, never lengthens the text, and returns a text made only of those unchanged |
| LatencyParser.KeepNumericChar | src/multi_ping_grapher.py:190 | the filter works character by character: around any character `c` it filters both sides and keeps `c` exactly when it is a digit, `.` or `-` |
| LatencyParser.TimeKeyIsNotMs | src/multi_ping_grapher.py:185-189 | no `ms` starts inside `time=`, so the `ms` found after `time=` lies beyond it and `j > i` holds whenever `ms` is found |
| LatencyParser.ReplyValueTextSpec | src/multi_ping_grapher.py:184-189 | the reply path applies exactly when a marker, `time=` and a later `ms` are present; its text starts right after the first `time=` and ends right before the first `ms` after it |
| LatencyParser.FirstPositiveMs | src/multi_ping_grapher.py:194-200 | the token loop finds a value exactly when some token qualifies; the value is positive and belongs to the first token that qualifies |
| LatencyParser.FirstPositiveMsSkip | src/multi_ping_grapher.py:194-200 | tokens that do not qualify are passed over |
| LatencyParser.ReplyPathDecides | src/multi_ping_grapher.py:184-192 | once the reply path applies, its parse is the result, even `None` without falling back; a value means the filtered text was a decimal literal |
| LatencyParser.SummaryPathResult | src/multi_ping_grapher.py:193-201 | when the reply path does not apply, there is a value exactly when all three words are present and some token qualifies; that value is positive; without the words the result is `None` |
| LatencyParser.PositiveUnlessReplyLine | src/multi_ping_grapher.py:182-201 | a result of 0 or below can only come from the reply path |
| LatencyParser.ReplyValueOfLine | src/multi_ping_grapher.py:184-189 | a line `a + "time=" + v + "ms" + b` with a marker, no earlier `time=` and no earlier `ms` yields the value text `v` |
| LatencyParser.ReplyValueOfPlainLine | src/multi_ping_grapher.py:184-189 | the same, when no `i` comes before `time=` and no `m` is in `v` |
| LatencyExamples.ExampleReplyLine | src/multi_ping_grapher.py:182-192 | "Reply from 8.8.8.8: bytes=32 time=14ms TTL=56" gives 14 |
| LatencyExamples.ExampleLinuxLine | src/multi_ping_grapher.py:182-192 | "64 bytes from 8.8.8.8: icmp_seq=1 ttl=117 time=14.2 ms" gives 14.2 |
| LatencyExamples.ExampleSummaryLine | src/multi_ping_grapher.py:193-201 | "Minimum = 10ms, Maximum = 20ms, Average = 15ms" gives 15 |
| LatencyExamples.ExampleTimeout | src/multi_ping_grapher.py:182-201 | "Request timed out." gives `None` |
| TargetState.LastPresent | src/multi_ping_grapher.py:229-237 | the previous RTT is absent exactly when no sample got a reply; otherwise it is the last reply's RTT |
| TargetState.JitterPoints | src/multi_ping_grapher.py:229-236 | a history produces one jitter point per reply |
| TargetState.JitterPointsAppend | src/multi_ping_grapher.py:225-236 | a timeout adds no jitter point; a reply adds one, at its time, holding the new average |
| TargetState.JitterPointsBounded | src/multi_ping_grapher.py:229-236 | every jitter point lies between 0 and the largest change seen |
| TargetState.EmptyTargetOk | src/multi_ping_grapher.py:19-23 | a target never seen is in the initial state: empty series, no previous RTT, average 0 |
| TargetState.JitterPartBounds | src/multi_ping_grapher.py:229-237 | under the invariant the jitter deque holds at most 900 points, and they and the average lie between 0 and the largest change |
| TargetState.SeriesPartStep | src/multi_ping_grapher.py:226-240 | a sample appends one latency point and one loss point; the latency deque stays the last 900 samples and the loss values stay in [0, 100] |
| TargetState.TimeoutStep | src/multi_ping_grapher.py:225-226 | a timeout leaves the jitter deque, the previous RTT and the average as they were |
| TargetState.ReplyStep | src/multi_ping_grapher.py:227-237 | a reply appends its jitter value, makes its RTT the previous one, and updates the average only when there was a previous RTT |
| TargetState.SampleStep | src/multi_ping_grapher.py:221-240 | any sample keeps one target's invariant |
| SeriesTables.WithSeries | src/multi_ping_grapher.py:222-224 | `setdefault(t, deque())` adds `t` and changes no series |
| SeriesTables.Setdefault | src/multi_ping_grapher.py:222-224 | the three `setdefault` calls add `t` to each of the three series dictionaries, leave the previous RTTs and averages as they were, and change nothing any target reads |
| SeriesTables.SetdefaultOk | src/multi_ping_grapher.py:222-224 | creating a target's series keeps the invariant, and the target then has its three series within capacity |
| SeriesTables.WithSeriesAll | src/multi_ping_grapher.py:135-138 | creating the histories for a list of targets adds exactly those targets and changes no history |
| SeriesTables.SetdefaultAll | src/multi_ping_grapher.py:135-138 | the loop of `start` adds exactly the listed targets to each of the three series dictionaries and leaves the previous RTTs and averages as they were |
| SeriesTables.SetdefaultAllKeeps | src/multi_ping_grapher.py:135-138 | the loop of `start` changes nothing any target reads |
| SeriesTables.SetdefaultAllOk | src/multi_ping_grapher.py:135-138 | the loop of `start` keeps the invariant, and every listed target has its series |
| SeriesTables.EmptyOk | src/multi_ping_grapher.py:19-23 | the empty dictionaries with the empty history satisfy the invariant |
| SeriesTables.RecordSeries | src/multi_ping_grapher.py:225-228 | recording a sample appends it to its own target's history and to no other |
| SeriesTables.SampleOk | src/multi_ping_grapher.py:221-240 | handling a sample keeps the invariant of every target |
| SeriesTables.InvMeaning | src/multi_ping_grapher.py:221-256 | under the invariant: latency deque = last 900 samples; loss deque as long, with values in [0, 100]; jitter deque = last 900 jitter points, each in [0, largest change]; previous RTT = last reply's; average = EWMA of the replies, in [0, largest change] |
| Engine.ProbeOutput | src/multi_ping_grapher.py:174 | `stdout or stderr`: standard output unless it is empty |
| Engine.ProbeSample | src/multi_ping_grapher.py:174-180 | the queued item carries the target and start time; after a run, the parsed RTT and the stripped output; after an exception, no RTT and "Error: " plus the message |
| Engine.RecordAllSeries | src/multi_ping_grapher.py:206-213 | handling a queue appends to each target's history exactly its own samples, in queue order |
| Engine.DrainedSeries | src/multi_ping_grapher.py:206-213 | after a queue is handled, a target's latency deque is the last 900 of its earlier samples followed by its samples in the queue |
| Engine.DrainHistoryPrefix | src/multi_ping_grapher.py:206-213 | the history behind a queued sample's record does not depend on the samples queued after it |
| Engine.RecordsExtend | src/multi_ping_grapher.py:206-213 | the record of the next queued sample, over its history up to it, extends the records of the samples before it |
| Engine.RecordAllSnoc | src/multi_ping_grapher.py:206-213 | handling one more queued sample records it on top of the earlier ones, and its target's history is then its history up to it |
| Engine.LossPointsForAppend | src/multi_ping_grapher.py:240 | one more record adds its loss point to its own target's points and to no other's |
| Engine.LossDrainStep | src/multi_ping_grapher.py:239-240 | pushing one more record's loss point onto its target's deque keeps every loss deque the last 900 of its earlier points and its records' losses |
| SeriesTables.AfterSampleLoss | src/multi_ping_grapher.py:239-240 | handling a sample of a target appends one loss point to that target's deque and leaves every other target's loss deque as it was |
| SeriesTables.SetdefaultAllSnoc | src/multi_ping_grapher.py:135-138 | creating the series of one more target is one more `setdefault` after those of the targets before it |
| Engine.CountersStep | src/multi_ping_grapher.py:159-177 | one more sent, and one more received only with a reply, keeps received ≤ sent |
| Engine.MetricsEngine.constructor | src/multi_ping_grapher.py:18-25 | `__init__`: no series, previous RTTs, averages or counters, and the invariant holds |
| Engine.MetricsEngine.Clear | src/multi_ping_grapher.py:107-110 | `clear_graphs` empties all five dictionaries, both counters and the history, and the invariant holds |
| Engine.MetricsEngine.EnsureSeries | src/multi_ping_grapher.py:222-224 | the three `setdefault` calls keep the invariant and leave the counters alone |
| Engine.MetricsEngine.RegisterTargets | src/multi_ping_grapher.py:135-138 | the loop of `start` gives every target its series, keeps the invariant and leaves the counters alone |
| Engine.MetricsEngine.ProbeOnce | src/multi_ping_grapher.py:158-180 | `sent` goes up by one; `received` goes up by one exactly when an RTT was parsed; the series are untouched; the invariant (with received ≤ sent) holds |
| Engine.MetricsEngine.CountProbe | src/multi_ping_grapher.py:159-177 | the two counter updates of one probe, keeping received ≤ sent |
| Engine.MetricsEngine.HandleSample | src/multi_ping_grapher.py:221-242 | the state after `setdefault` and one sample; the loss over `max(1, window)` of the new latency deque; the record holds the CSV fields (target, time, RTT, sent, received, loss, average); the invariant holds and the counters are unchanged |
| Engine.MetricsEngine.HandleItem | src/multi_ping_grapher.py:209-212 | one queued sample is handled as `_handle_sample` handles it (the same new state); its record holds its target, time and RTT, the target's counters, the loss over `max(1, window)` of the last 900 samples of its history and the EWMA of its replies |
| Engine.MetricsEngine.DrainQueue | src/multi_ping_grapher.py:206-213 | queued samples are handled in order, one record each; the `k`-th record holds sample `k`'s loss and average over its target's history up to and including sample `k`; the history grows by exactly the queued samples; each target's loss deque is the last 900 of its earlier loss points followed by the losses of its own records, in order; the invariant holds and the counters are unchanged |
| Startup.StrippedNonBlank | src/multi_ping_grapher.py:120 | the filter never adds lines |
| Startup.StrippedNonBlankOne | src/multi_ping_grapher.py:120 | one line gives its stripped form when that is non-empty, and nothing otherwise |
| Startup.StrippedNonBlankAppend | src/multi_ping_grapher.py:120 | the filter works line by line: filtering two runs of lines concatenates their results |
| Startup.TargetsWellFormed | src/multi_ping_grapher.py:120 | every target is non-empty, has no white space at its ends and holds no line break |
| Startup.NoTargetsIffBlank | src/multi_ping_grapher.py:120-122 | there is no target exactly when every line of the text is blank |
| Startup.TargetsRoundTrip | src/multi_ping_grapher.py:120 | trimmed, non-empty targets written one per line come back unchanged and in order |
| Startup.ValidateStart | src/multi_ping_grapher.py:120-130 | no targets gives the "no targets" error; otherwise a field that fails to convert gives the "invalid number" error; otherwise the targets are kept, the interval is `max(0.1, ·)`, and the timeout and size are `max(1, ·)` |

## Left out

- The tkinter UI, dialogs, the log text box and `_log`: these are user interface.
  - The log lines of `_handle_sample` (243-247) are also left out.
- matplotlib plotting, `colors`, the axes reset in `clear_graphs` (111-117) and `_redraw` with its 0.5 s throttle: these are rendering and wall-clock timing.
- `subprocess.run` of `ping` and its Windows flags: a foreign process is not modelled.
  - Its outcome is a parameter of `Engine.MetricsEngine.ProbeOnce`: both output streams, or the message of the exception.
  - The probe time from `time.time()` is also a parameter.
- `_scheduler`, the probing threads, `stop_event` and `queue.Queue`: concurrency and timing are not modelled.
  - `Engine.MetricsEngine.DrainQueue` takes the queued items as a sequence in arrival order.
  - Scheduling and the redraw call are not modelled.
- Engine.MetricsEngine.ProbeOnce: modelled as one atomic step. The source increments `sent` and `received` on a worker thread, so a `clear_graphs` between lines 159 and 177 could leave `received` above `sent`. The invariant received ≤ sent holds for the sequential model only.
- `_csv_write` and `datetime` formatting: file output and time formatting. `Engine.MetricsEngine.HandleSample` returns the row's values in the row's order. The decimal formatting (`:.3f`, `:.2f`) is not modelled.
- IEEE-754 floating point: RTTs, jitter and loss are exact reals. The miss marker NaN is `None`.
- Decimal.ParseDecimalAccepts: `float()` is modelled only for plain decimal literals: an optional sign, ASCII digits and at most one `.`. On the summary path, inputs such as `inf`, `nan`, exponents and underscores would be accepted by Python but give `None` in the model. On the reply path the two can also differ: Python's `isdigit` keeps characters such as `²`, so "reply from x time=1²ms" gives `None` in Python (`float` rejects "1²") but 1.0 in the model, whose filter drops the `²`.
- Text.Lower, Text.Strip, LatencyParser.KeepNumeric, Decimal.ParseDecimal: only ASCII letters are lower-cased and only ASCII digits count, where Python's `lower`, `isdigit` and `float` also act on other Unicode letters and digits. Unicode case mapping is not modelled. White space follows Python's `str.isspace` for the characters listed in `Text.IsSpace`.
- `defaultdict` reads that insert a key (`self.jitter_ewma[target]`, `self.sent_counts[target]`, `self.recv_counts[target]`) are modelled as reads with a default. The keys they would add hold default values, so no value a later read sees changes.
- The loss window is a parameter of `Engine.MetricsEngine.HandleSample` rather than a read of the form field, and an `int` rather than a string converted by `int()`.
- Engine.MetricsEngine.HandleSample: the failure of `int(self.window_loss.get())` (line 239) on a field that is not an integer is not modelled. In the source it raises after lines 225-237 have appended the latency point and updated the jitter deque, the previous RTT and the average, so no loss point is appended. The exception is not `queue.Empty`, so it leaves `_drain_queue` (lines 205-215) before line 219 reschedules it, and the queue is never drained again. The model's window is always an integer, so `SeriesTables.InvMeaning`'s equal lengths of the latency and loss deques hold for the model only.
- `_drain_queue` stops at a falsy item and skips items whose kind is not `"sample"` (lines 208-210). `_probe_once` (lines 178 and 180) only enqueues `("sample", ...)` tuples, so the model's queue holds samples only.
- `window_jitter` (line 128) is converted and clamped but never used, so its value is not kept.
- SeriesTables.InvMeaning: the loss deque is only stated to be as long as the latency deque and bounded in [0, 100]. Each loss value depends on the window in force when its sample arrived, which the model does not record.
- The five dictionaries of the source are one value of type `SeriesTables.Tables` in one field of `Engine.MetricsEngine`. Aliasing between the dictionaries cannot arise in the source, so nothing is lost.
