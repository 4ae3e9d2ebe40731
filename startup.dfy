/**
  What `start` does with the form before any probing begins: the target list
  from the text box, and the numeric fields with their lower bounds.
 */
module Startup {
  import opened Options
  import opened Text

  /** The stripped lines that are not blank, in order. */
  function StrippedNonBlank(lines: seq<string>): (r: seq<string>)
    ensures |r| <= |lines|
    decreases |lines|
  {
    if lines == [] then []
    else (if Strip(lines[0]) != [] then [Strip(lines[0])] else []) + StrippedNonBlank(lines[1..])
  }

  /** One line gives its stripped text, or nothing when it is blank. */
  lemma StrippedNonBlankOne(l: string)
    ensures StrippedNonBlank([l]) == if Strip(l) != [] then [Strip(l)] else []
  {
    assert [l][1..] == [];
  }

  /** The filter works line by line: the lines of `a + b` give those of `a`, then those of `b`. */
  lemma {:induction false} StrippedNonBlankAppend(a: seq<string>, b: seq<string>)
    ensures StrippedNonBlank(a + b) == StrippedNonBlank(a) + StrippedNonBlank(b)
    decreases |a|
  {
    if a == [] {
      assert a + b == b;
    } else {
      var head := if Strip(a[0]) != [] then [Strip(a[0])] else [];
      assert (a + b)[0] == a[0];
      assert (a + b)[1..] == a[1..] + b;
      assert StrippedNonBlank(a + b) == head + StrippedNonBlank(a[1..] + b);
      StrippedNonBlankAppend(a[1..], b);
    }
  }

  /** `[l.strip() for l in text.splitlines() if l.strip()]`. */
  function NormaliseTargets(text: string): seq<string> {
    StrippedNonBlank(SplitLines(text))
  }

  lemma SliceNoLineBreak(l: string, a: nat, b: nat)
    requires NoLineBreak(l) && a <= b <= |l|
    ensures NoLineBreak(l[a..b])
  {
    assert forall i :: 0 <= i < b - a ==> l[a..b][i] == l[a + i];
  }

  /** A piece of a line holds no line break either. */
  lemma StripKeepsNoLineBreak(l: string)
    requires NoLineBreak(l)
    ensures NoLineBreak(Strip(l))
  {
    var r := Strip(l);
    var a :| 0 <= a <= |l| - |r| && r == l[a..a + |r|] && AllSpace(l[..a]) && AllSpace(l[a + |r|..]);
    SliceNoLineBreak(l, a, a + |r|);
  }

  /** Every target is non-empty, has no whitespace at either end and no line break. */
  lemma {:induction false} StrippedNonBlankWellFormed(lines: seq<string>)
    requires forall k :: 0 <= k < |lines| ==> NoLineBreak(lines[k])
    ensures forall k :: 0 <= k < |StrippedNonBlank(lines)| ==>
      var t := StrippedNonBlank(lines)[k]; t != [] && Stripped(t) && NoLineBreak(t)
    decreases |lines|
  {
    if lines != [] {
      StrippedNonBlankWellFormed(lines[1..]);
      StripKeepsNoLineBreak(lines[0]);
    }
  }

  lemma TargetsWellFormed(text: string)
    ensures forall k :: 0 <= k < |NormaliseTargets(text)| ==>
      var t := NormaliseTargets(text)[k]; t != [] && Stripped(t) && NoLineBreak(t)
  {
    StrippedNonBlankWellFormed(SplitLines(text));
  }

  lemma {:induction false} StrippedNonBlankEmpty(lines: seq<string>)
    ensures StrippedNonBlank(lines) == [] <==> forall k :: 0 <= k < |lines| ==> AllSpace(lines[k])
    decreases |lines|
  {
    if lines != [] {
      StripEmptyIffBlank(lines[0]);
      StrippedNonBlankEmpty(lines[1..]);
      assert forall k :: 1 <= k < |lines| ==> lines[k] == lines[1..][k - 1];
    }
  }

  /** `start` finds no target exactly when every line of the text box is blank. */
  lemma NoTargetsIffBlank(text: string)
    ensures NormaliseTargets(text) == [] <==> forall k :: 0 <= k < |SplitLines(text)| ==> AllSpace(SplitLines(text)[k])
  {
    StrippedNonBlankEmpty(SplitLines(text));
  }

  lemma {:induction false} StrippedNonBlankKeeps(lines: seq<string>)
    requires forall k :: 0 <= k < |lines| ==> lines[k] != [] && Stripped(lines[k])
    ensures StrippedNonBlank(lines) == lines
    decreases |lines|
  {
    if lines != [] {
      var l, rest := lines[0], lines[1..];
      StripStripped(l);
      forall k | 0 <= k < |rest|
        ensures rest[k] != [] && Stripped(rest[k])
      {
        assert rest[k] == lines[k + 1];
      }
      StrippedNonBlankKeeps(rest);
      assert [l] + rest == lines;
    }
  }

  /** Targets written one per line, already trimmed, come back unchanged and in order. */
  lemma TargetsRoundTrip(targets: seq<string>)
    requires forall k :: 0 <= k < |targets| ==> targets[k] != [] && Stripped(targets[k]) && NoLineBreak(targets[k])
    ensures NormaliseTargets(JoinLines(targets)) == targets
  {
    SplitJoinLines(targets);
    StrippedNonBlankKeeps(targets);
  }

  datatype StartError = NoTargets | InvalidNumber

  /** The settings a run starts with. */
  datatype Params = Params(targets: seq<string>, interval: real, timeoutMs: int, size: int)

  function MaxReal(a: real, b: real): real { if a < b then b else a }

  function MaxInt(a: int, b: int): int { if a < b then b else a }

  /**
    `start`'s checks. Each numeric argument is the field's value, or `None`
    when reading or converting it raises. The loss and jitter windows are
    converted and clamped only to be checked: their values are not kept.
   */
  function ValidateStart(text: string, interval: Option<real>, timeoutMs: Option<int>, size: Option<int>,
                         windowLoss: Option<int>, windowJitter: Option<int>): (r: Result<Params, StartError>)
    ensures r == Err(NoTargets) <==> NormaliseTargets(text) == []
    ensures r == Err(InvalidNumber) <==>
      NormaliseTargets(text) != [] &&
      (interval.None? || timeoutMs.None? || size.None? || windowLoss.None? || windowJitter.None?)
    ensures r.Ok? ==>
      && interval.Some? && timeoutMs.Some? && size.Some?
      && r.value.targets == NormaliseTargets(text) && r.value.targets != []
      && r.value.interval >= 0.1 && r.value.interval >= interval.value
      && (r.value.interval == 0.1 || r.value.interval == interval.value)
      && r.value.timeoutMs >= 1 && r.value.timeoutMs >= timeoutMs.value
      && (r.value.timeoutMs == 1 || r.value.timeoutMs == timeoutMs.value)
      && r.value.size >= 1 && r.value.size >= size.value
      && (r.value.size == 1 || r.value.size == size.value)
  {
    var tlist := NormaliseTargets(text);
    if tlist == [] then Err(NoTargets)
    else if interval.None? || timeoutMs.None? || size.None? || windowLoss.None? || windowJitter.None? then Err(InvalidNumber)
    else Ok(Params(tlist, MaxReal(0.1, interval.value), MaxInt(1, timeoutMs.value), MaxInt(1, size.value)))
  }
}
