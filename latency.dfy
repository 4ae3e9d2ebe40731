/**
  The latency parser: extracts a round-trip time in milliseconds from the text
  a `ping` run printed, or reports that there is none. Two paths: a per-reply
  line ("... time=14ms ...") and, failing that, a summary line carrying
  "minimum", "average" and "maximum".
 */
module LatencyParser {
  import opened Options
  import opened Text
  import opened Decimal

  /** Phrases announcing a per-probe reply: English (Windows and Unix), Spanish, German. */
  predicate HasReplyMarker(s: string) {
    || Contains(s, "reply from")
    || Contains(s, "bytes from")
    || Contains(s, "respuesta desde")
    || Contains(s, "antwort von")
  }

  /** The characters the reply path keeps: digits, '.' and '-'. */
  predicate KeepChar(c: char) { IsDigit(c) || c == '.' || c == '-' }

  /** `"".join(ch for ch in v if ch.isdigit() or ch == "." or ch == "-")`. */
  function KeepNumeric(v: string): (r: string)
    ensures |r| <= |v|
    ensures forall i :: 0 <= i < |r| ==> KeepChar(r[i])
    ensures (forall i :: 0 <= i < |v| ==> KeepChar(v[i])) ==> r == v
  {
    if v == [] then []
    else (if KeepChar(v[0]) then [v[0]] else []) + KeepNumeric(v[1..])
  }

  lemma {:induction false} KeepNumericAppend(a: string, b: string)
    ensures KeepNumeric(a + b) == KeepNumeric(a) + KeepNumeric(b)
    decreases |a|
  {
    if a != [] {
      assert (a + b)[1..] == a[1..] + b;
      KeepNumericAppend(a[1..], b);
    } else {
      assert a + b == b;
    }
  }

  /** The filter keeps each character exactly when it is a digit, '.' or '-', and keeps the order. */
  lemma KeepNumericChar(a: string, c: char, b: string)
    ensures KeepNumeric(a + [c] + b) == KeepNumeric(a) + (if KeepChar(c) then [c] else []) + KeepNumeric(b)
  {
    KeepNumericAppend(a + [c], b);
    KeepNumericAppend(a, [c]);
    assert [c][1..] == [];
  }

  /**
    The reply path on lower-cased text `s`: when a reply marker is present,
    "time=" occurs, and "ms" occurs after it, the text between the first
    "time=" and the first "ms" after it.
   */
  function ReplyValueText(s: string): Option<string> {
    if !HasReplyMarker(s) then None
    else
      var i := FindFrom(s, "time=", 0);
      if i < 0 then None
      else
        var j := FindFrom(s, "ms", i);
        TimeKeyIsNotMs(s, i);
        if j > i then Some(s[i + 5..j]) else None
  }

  /** "ms" cannot start inside "time=", so the first "ms" after "time=" lies past its '='. */
  lemma TimeKeyIsNotMs(s: string, i: nat)
    requires OccursAt(s, "time=", i)
    ensures forall m :: i <= m < i + 5 ==> !OccursAt(s, "ms", m)
    ensures FindFrom(s, "ms", i) == -1 || FindFrom(s, "ms", i) >= i + 5
  {
    var t := s[i..i + 5];
    assert t == "time=";
    assert s[i] == t[0] && s[i + 1] == t[1] && s[i + 2] == t[2] && s[i + 3] == t[3] && s[i + 4] == t[4];
    forall m | i <= m < i + 5
      ensures !OccursAt(s, "ms", m)
    {
      if m + 2 <= |s| {
        assert s[m..m + 2][0] == s[m] && s[m..m + 2][1] == s[m + 1];
      }
    }
  }

  /**
    What the reply path finds: it applies exactly when a marker, "time=" and a
    later "ms" are present, and then its text starts right after the first
    "time=" and ends right before the first "ms" that follows.
   */
  lemma ReplyValueTextSpec(s: string)
    ensures ReplyValueText(s).None? <==>
      !HasReplyMarker(s) || !Contains(s, "time=") || FindFrom(s, "ms", FindFrom(s, "time=", 0)) < 0
    ensures ReplyValueText(s).Some? ==>
      var v := ReplyValueText(s).value;
      var i := FindFrom(s, "time=", 0);
      && HasReplyMarker(s)
      && OccursAt(s, "time=", i)
      && (forall m :: 0 <= m < i ==> !OccursAt(s, "time=", m))
      && i + 5 + |v| <= |s| && s[i + 5..i + 5 + |v|] == v
      && OccursAt(s, "ms", i + 5 + |v|)
      && (forall m :: i <= m < i + 5 + |v| ==> !OccursAt(s, "ms", m))
  {
    ReplyValueTextApplies(s);
    if ReplyValueText(s).Some? {
      ReplyValueTextFound(s);
    }
  }

  /** When the reply path applies. */
  lemma ReplyValueTextApplies(s: string)
    ensures ReplyValueText(s).None? <==>
      !HasReplyMarker(s) || !Contains(s, "time=") || FindFrom(s, "ms", FindFrom(s, "time=", 0)) < 0
  {
    ContainsIffFound(s, "time=");
    var i := FindFrom(s, "time=", 0);
    if HasReplyMarker(s) && i >= 0 {
      TimeKeyIsNotMs(s, i);
    }
  }

  /** Where the text of the reply path lies, when it applies. */
  lemma ReplyValueTextFound(s: string)
    requires ReplyValueText(s).Some?
    ensures
      var v := ReplyValueText(s).value;
      var i := FindFrom(s, "time=", 0);
      && HasReplyMarker(s)
      && OccursAt(s, "time=", i)
      && (forall m :: 0 <= m < i ==> !OccursAt(s, "time=", m))
      && i + 5 + |v| <= |s| && s[i + 5..i + 5 + |v|] == v
      && OccursAt(s, "ms", i + 5 + |v|)
      && (forall m :: i <= m < i + 5 + |v| ==> !OccursAt(s, "ms", m))
  {
    var i := FindFrom(s, "time=", 0);
    TimeKeyIsNotMs(s, i);
    var j := FindFrom(s, "ms", i);
    assert ReplyValueText(s) == Some(s[i + 5..j]);
    assert i + 5 + |s[i + 5..j]| == j;
  }


  /** The value a summary token stands for: the number before a trailing "ms". */
  function MsValue(tok: string): Option<real> {
    if EndsWith(tok, "ms") then ParseDecimal(tok[..|tok| - 2]) else None
  }

  /** A token the summary path accepts: "<number>ms" with a number above zero. */
  predicate Qualifies(tok: string) {
    MsValue(tok).Some? && MsValue(tok).value > 0.0
  }

  /** The token loop of the summary path: the first qualifying token's number. */
  function FirstPositiveMs(toks: seq<string>): (r: Option<real>)
    ensures r.Some? <==> exists k :: 0 <= k < |toks| && Qualifies(toks[k])
    ensures r.Some? ==> r.value > 0.0
    ensures r.Some? ==>
      exists k :: 0 <= k < |toks| && Qualifies(toks[k]) && MsValue(toks[k]) == r
        && forall m :: 0 <= m < k ==> !Qualifies(toks[m])
  {
    if toks == [] then None
    else if Qualifies(toks[0]) then MsValue(toks[0])
    else
      var r := FirstPositiveMs(toks[1..]);
      assert forall k :: 1 <= k < |toks| ==> toks[k] == toks[1..][k - 1];
      r
  }

  /** Tokens that do not qualify are passed over. */
  lemma {:induction false} FirstPositiveMsSkip(x: seq<string>, y: seq<string>)
    requires forall k :: 0 <= k < |x| ==> !Qualifies(x[k])
    ensures FirstPositiveMs(x + y) == FirstPositiveMs(y)
    decreases |x|
  {
    if x != [] {
      assert (x + y)[0] == x[0];
      assert (x + y)[1..] == x[1..] + y;
      FirstPositiveMsSkip(x[1..], y);
    } else {
      assert x + y == y;
    }
  }

  predicate HasSummaryWords(s: string) {
    Contains(s, "minimum") && Contains(s, "average") && Contains(s, "maximum")
  }

  /** The summary path on lower-cased text `s`. */
  function SummaryValue(s: string): Option<real> {
    if HasSummaryWords(s) then FirstPositiveMs(Split(s)) else None
  }

  /** `_parse_latency_ms`: the round-trip time in milliseconds, or `None`. */
  function ParseLatency(out: string): Option<real> {
    var s := Lower(out);
    match ReplyValueText(s)
    case Some(v) => ParseDecimal(KeepNumeric(v))
    case None => SummaryValue(s)
  }

  // ---------------------------------------------------------------------------
  // Properties of the two paths

  /**
    Once a marker, "time=" and a later "ms" are present the reply path decides
    alone: a value text that does not parse gives `None` without consulting the
    summary line.
   */
  lemma ReplyPathDecides(out: string)
    requires ReplyValueText(Lower(out)).Some?
    ensures ParseLatency(out) == ParseDecimal(KeepNumeric(ReplyValueText(Lower(out)).value))
    ensures ParseLatency(out).Some? ==> IsDecimalLiteral(KeepNumeric(ReplyValueText(Lower(out)).value))
  {
    ParseDecimalAccepts(KeepNumeric(ReplyValueText(Lower(out)).value));
  }

  /**
    The summary path is tried only when the reply path does not apply; it needs
    all three words, and what it returns is positive and is the number of the
    first qualifying whitespace-separated token.
   */
  lemma SummaryPathResult(out: string)
    requires ReplyValueText(Lower(out)).None?
    ensures ParseLatency(out).Some? ==> HasSummaryWords(Lower(out)) && ParseLatency(out).value > 0.0
    ensures ParseLatency(out).Some? <==>
      HasSummaryWords(Lower(out)) && exists k :: 0 <= k < |Split(Lower(out))| && Qualifies(Split(Lower(out))[k])
    ensures !HasSummaryWords(Lower(out)) ==> ParseLatency(out) == None
  {
  }

  /** Any value obtained without a reply line is positive; a reply line's value can have either sign. */
  lemma PositiveUnlessReplyLine(out: string)
    requires ParseLatency(out).Some? && ParseLatency(out).value <= 0.0
    ensures ReplyValueText(Lower(out)).Some?
  {
    if ReplyValueText(Lower(out)).None? {
      SummaryPathResult(out);
    }
  }

  /**
    A reply line `a + "time=" + v + "ms" + b` (after lower-casing) where `a`
    has no "time=" and no "ms" starts between "time=" and the end of `v`
    yields exactly the value text `v`.
   */
  lemma ReplyValueOfLine(s: string, a: string, v: string, b: string)
    requires s == a + "time=" + v + "ms" + b && HasReplyMarker(s)
    requires forall m :: 0 <= m < |a| ==> !OccursAt(s, "time=", m)
    requires forall m :: |a| <= m < |a| + 5 + |v| ==> !OccursAt(s, "ms", m)
    ensures ReplyValueText(s) == Some(v)
  {
    var i, j := |a|, |a| + 5 + |v|;
    assert s == (a + "time=" + v) + "ms" + b;
    OccursAtJoin(a, "time=", v + "ms" + b);
    assert s == a + "time=" + (v + "ms" + b);
    FindFromIs(s, "time=", 0, i);
    OccursAtJoin(a + "time=" + v, "ms", b);
    FindFromIs(s, "ms", i, j);
    assert s == (a + "time=") + v + ("ms" + b);
    OccursAtJoin(a + "time=", v, "ms" + b);
  }

  /**
    The common shape of a reply line: when no 'i' comes before "time=" and no
    'm' occurs in the value text `v`, the reply path yields exactly `v`.
   */
  lemma ReplyValueOfPlainLine(a: string, v: string, b: string)
    requires HasReplyMarker(a + "time=" + v + "ms" + b)
    requires 'i' !in a && 'm' !in v
    ensures ReplyValueText(a + "time=" + v + "ms" + b) == Some(v)
  {
    var s := a + "time=" + v + "ms" + b;
    var t: string := "time=";
    assert s == a + "time=" + (v + "ms" + b);
    OccursAtJoin(a, "time=", v + "ms" + b);
    forall m | 0 <= m < |a|
      ensures !OccursAt(s, "time=", m)
    {
      if m + 1 < |a| {
        assert s[m + 1] == a[m + 1];
      } else {
        assert s[m + 1] == t[0];
      }
      NotAtIndex(s, "time=", m, 1);
    }
    TimeKeyIsNotMs(s, |a|);
    forall m | |a| + 5 <= m < |a| + 5 + |v|
      ensures !OccursAt(s, "ms", m)
    {
      assert s[m] == v[m - |a| - 5];
      NotAtIndex(s, "ms", m, 0);
    }
    ReplyValueOfLine(s, a, v, b);
  }
}
