/**
  The Python `str` operations that the latency parser and the start-up
  validation rely on: `lower`, `find`, `in`, `endswith`, `strip`, `split()`
  and `splitlines()`, each written out over `seq<char>`.
 */
module Text {

  /** `c.isdigit()`, restricted to the ASCII digits. */
  predicate IsDigit(c: char) { '0' <= c <= '9' }

  predicate IsUpper(c: char) { 'A' <= c <= 'Z' }

  /** `c.isspace()`: the characters Python's `str.split()` and `str.strip()` treat as whitespace. */
  predicate IsSpace(c: char) {
    var n := c as int;
    n == 0x20 || 0x09 <= n <= 0x0D || 0x1C <= n <= 0x1F || n == 0x85 || n == 0xA0
    || n == 0x1680 || 0x2000 <= n <= 0x200A || n == 0x2028 || n == 0x2029
    || n == 0x202F || n == 0x205F || n == 0x3000
  }

  /** The characters at which `str.splitlines()` ends a line ("\r\n" counts as one break). */
  predicate IsLineBreak(c: char) {
    var n := c as int;
    0x0A <= n <= 0x0D || 0x1C <= n <= 0x1E || n == 0x85 || n == 0x2028 || n == 0x2029
  }

  predicate NoSpace(s: string) { forall i :: 0 <= i < |s| ==> !IsSpace(s[i]) }

  predicate NoLineBreak(s: string) { forall i :: 0 <= i < |s| ==> !IsLineBreak(s[i]) }

  predicate AllSpace(s: string) { forall i :: 0 <= i < |s| ==> IsSpace(s[i]) }

  /** A string with no whitespace at either end, as `str.strip()` leaves it. */
  predicate Stripped(s: string) { s == [] || (!IsSpace(s[0]) && !IsSpace(s[|s| - 1])) }

  // ---------------------------------------------------------------------------
  // str.lower()

  function LowerChar(c: char): char {
    if IsUpper(c) then (c as int + 32) as char else c
  }

  /** `s.lower()` for ASCII letters. */
  function Lower(s: string): (r: string)
    ensures |r| == |s|
    ensures forall i :: 0 <= i < |r| ==> !IsUpper(r[i])
    ensures forall i :: 0 <= i < |s| && !IsUpper(s[i]) ==> r[i] == s[i]
    ensures forall i :: 0 <= i < |s| && IsUpper(s[i]) ==> r[i] as int == s[i] as int + 32
  {
    seq(|s|, i requires 0 <= i < |s| => LowerChar(s[i]))
  }

  lemma LowerAppend(a: string, b: string)
    ensures Lower(a + b) == Lower(a) + Lower(b)
  {
    assert forall i :: 0 <= i < |a + b| ==> Lower(a + b)[i] == (Lower(a) + Lower(b))[i];
  }

  /** Text without capitals is left as it is; in particular `Lower` is idempotent. */
  lemma LowerNoUpper(s: string)
    requires forall c :: c in s ==> !IsUpper(c)
    ensures Lower(s) == s
  {
    assert forall i :: 0 <= i < |s| ==> s[i] in s;
  }

  lemma LowerIdempotent(s: string)
    ensures Lower(Lower(s)) == Lower(s)
  {
    LowerNoUpper(Lower(s));
  }

  // ---------------------------------------------------------------------------
  // str.find, `in`, str.endswith

  /** `p` occurs in `s` starting at index `m`. */
  predicate OccursAt(s: string, p: string, m: int) {
    0 <= m && m + |p| <= |s| && s[m..m + |p|] == p
  }

  /** `s.find(p, k)`: the lowest index at or after `k` where `p` occurs, or -1. */
  function FindFrom(s: string, p: string, k: nat): (r: int)
    ensures r == -1 || (k <= r && OccursAt(s, p, r))
    ensures r >= 0 ==> forall m :: k <= m < r ==> !OccursAt(s, p, m)
    ensures r == -1 <==> forall m :: k <= m ==> !OccursAt(s, p, m)
    decreases |s| - k
  {
    if k + |p| > |s| then -1
    else if s[k..k + |p|] == p then k
    else FindFrom(s, p, k + 1)
  }

  /** `p in s`. */
  predicate Contains(s: string, p: string) {
    exists m | 0 <= m <= |s| - |p| :: OccursAt(s, p, m)
  }

  lemma ContainsIffFound(s: string, p: string)
    ensures Contains(s, p) <==> FindFrom(s, p, 0) >= 0
  {
    var r := FindFrom(s, p, 0);
    if r >= 0 {
      assert OccursAt(s, p, r);
    }
  }

  /** `s.endswith(p)`. */
  predicate EndsWith(s: string, p: string) {
    |p| <= |s| && s[|s| - |p|..] == p
  }

  /** `FindFrom`'s contract determines its result: the first occurrence at or after `k`. */
  lemma FindFromIs(s: string, p: string, k: nat, j: int)
    requires k <= j && OccursAt(s, p, j)
    requires forall m :: k <= m < j ==> !OccursAt(s, p, m)
    ensures FindFrom(s, p, k) == j
  {
  }

  lemma OccursAtShift(a: string, b: string, p: string, m: int)
    requires 0 <= m
    ensures OccursAt(a + b, p, |a| + m) <==> OccursAt(b, p, m)
  {
    if m + |p| <= |b| {
      assert (a + b)[|a| + m..|a| + m + |p|] == b[m..m + |p|];
    }
  }

  lemma OccursAtJoin(a: string, p: string, b: string)
    ensures OccursAt(a + p + b, p, |a|)
  {
    assert (a + p + b)[|a|..|a| + |p|] == p;
  }

  /**
    If the first character of `p` does not appear in `a`, searching `a + b`
    finds the same occurrence as searching `b`, shifted by `|a|`.
   */
  lemma FindPastPrefix(a: string, b: string, p: string)
    requires p != [] && p[0] !in a
    ensures FindFrom(a + b, p, 0) == (if FindFrom(b, p, 0) < 0 then -1 else |a| + FindFrom(b, p, 0))
  {
    var s := a + b;
    forall m | 0 <= m < |a|
      ensures !OccursAt(s, p, m)
    {
      if m + |p| <= |s| {
        assert s[m..m + |p|][0] == a[m] != p[0];
      }
    }
    forall m | 0 <= m
      ensures OccursAt(s, p, |a| + m) <==> OccursAt(b, p, m)
    {
      OccursAtShift(a, b, p, m);
    }
    var j := FindFrom(b, p, 0);
    if j >= 0 {
      forall m | 0 <= m < |a| + j
        ensures !OccursAt(s, p, m)
      {
        if m >= |a| {
          assert !OccursAt(b, p, m - |a|);
        }
      }
      FindFromIs(s, p, 0, |a| + j);
    } else {
      forall m | 0 <= m
        ensures !OccursAt(s, p, m)
      {
        if m >= |a| {
          assert !OccursAt(b, p, m - |a|);
        }
      }
    }
  }

  /** An occurrence in `b` at or after `k` is the first one in `a + b` at or after `|a| + k`, shifted. */
  lemma FindFromShiftFound(a: string, b: string, p: string, k: nat)
    requires FindFrom(b, p, k) >= 0
    ensures FindFrom(a + b, p, |a| + k) == |a| + FindFrom(b, p, k)
  {
    var j := FindFrom(b, p, k);
    OccursAtShift(a, b, p, j);
    forall m | |a| + k <= m < |a| + j
      ensures !OccursAt(a + b, p, m)
    {
      OccursAtShift(a, b, p, m - |a|);
    }
    FindFromIs(a + b, p, |a| + k, |a| + j);
  }

  /** No occurrence in `b` at or after `k` means none in `a + b` at or after `|a| + k`. */
  lemma FindFromShiftMissing(a: string, b: string, p: string, k: nat)
    requires FindFrom(b, p, k) < 0
    ensures FindFrom(a + b, p, |a| + k) == -1
  {
    forall m | |a| + k <= m
      ensures !OccursAt(a + b, p, m)
    {
      OccursAtShift(a, b, p, m - |a|);
    }
  }

  /** Searching `a + b` from inside `b` is searching `b`, shifted by `|a|`. */
  lemma FindFromShift(a: string, b: string, p: string, k: nat)
    ensures FindFrom(a + b, p, |a| + k) == (if FindFrom(b, p, k) < 0 then -1 else |a| + FindFrom(b, p, k))
  {
    if FindFrom(b, p, k) >= 0 {
      FindFromShiftFound(a, b, p, k);
    } else {
      FindFromShiftMissing(a, b, p, k);
    }
  }


  /** A pattern does not occur where one of its characters differs. */
  lemma NotAtIndex(s: string, p: string, m: nat, j: nat)
    requires j < |p| && (m + |p| > |s| || s[m + j] != p[j])
    ensures !OccursAt(s, p, m)
  {
    if m + |p| <= |s| {
      assert s[m..m + |p|][j] == s[m + j];
    }
  }

  /** A search that meets no occurrence between `k` and `k2` answers as one from `k2`. */
  lemma FindFromSkip(s: string, p: string, k: nat, k2: nat)
    requires k <= k2 && forall m :: k <= m < k2 ==> !OccursAt(s, p, m)
    ensures FindFrom(s, p, k) == FindFrom(s, p, k2)
    decreases k2 - k
  {
    if k < k2 {
      FindFromSkip(s, p, k + 1, k2);
    }
  }

  /** `p` placed after text lacking its first character is found right there. */
  lemma FindFirstAfter(x: string, p: string, y: string)
    requires p != [] && p[0] !in x
    ensures FindFrom(x + p + y, p, 0) == |x|
  {
    assert x + p + y == x + (p + y);
    FindPastPrefix(x, p + y, p);
    OccursAtJoin([], p, y);
    assert [] + p + y == p + y;
    FindFromIs(p + y, p, 0, 0);
  }

  /**
    If character `j` of `p` appears neither in `a` nor in the first `j`
    characters of `b`, no occurrence of `p` in `a + b` starts inside `a`.
   */
  lemma FindPastPrefixAt(a: string, b: string, p: string, j: nat)
    requires j < |p| && j <= |b| && p[j] !in a && p[j] !in b[..j]
    ensures FindFrom(a + b, p, 0) == (if FindFrom(b, p, 0) < 0 then -1 else |a| + FindFrom(b, p, 0))
  {
    var s := a + b;
    forall m | 0 <= m < |a|
      ensures !OccursAt(s, p, m)
    {
      if m + |p| <= |s| {
        if m + j < |a| {
          assert s[m + j] == a[m + j];
        } else {
          assert s[m + j] == b[..j][m + j - |a|];
        }
        NotAtIndex(s, p, m, j);
      }
    }
    FindFromSkip(s, p, 0, |a|);
    FindFromShift(a, b, p, 0);
  }

  /** If some character of `p` is missing from `s`, then `p` is not in `s`. */
  lemma NotContainsMissingChar(s: string, p: string, c: char)
    requires c in p && c !in s
    ensures !Contains(s, p)
  {
    var i :| 0 <= i < |p| && p[i] == c;
    forall m | 0 <= m <= |s| - |p|
      ensures !OccursAt(s, p, m)
    {
      assert s[m..m + |p|][i] == s[m + i] != c;
    }
  }

  lemma ContainsJoin(a: string, p: string, b: string)
    ensures Contains(a + p + b, p)
  {
    OccursAtJoin(a, p, b);
  }

  // ---------------------------------------------------------------------------
  // str.strip()

  /** The index of the first non-whitespace character of `s` at or after `i` (`|s|` when there is none). */
  function SkipSpace(s: string, i: nat): (r: nat)
    requires i <= |s|
    ensures i <= r <= |s|
    ensures forall k :: i <= k < r ==> IsSpace(s[k])
    ensures r < |s| ==> !IsSpace(s[r])
    decreases |s| - i
  {
    if i < |s| && IsSpace(s[i]) then SkipSpace(s, i + 1) else i
  }

  /** The end of `s[lo..j]` once the whitespace before `j` is dropped. */
  function SkipSpaceBack(s: string, lo: nat, j: nat): (r: nat)
    requires lo <= j <= |s|
    ensures lo <= r <= j
    ensures forall k :: r <= k < j ==> IsSpace(s[k])
    ensures r > lo ==> !IsSpace(s[r - 1])
    decreases j
  {
    if j > lo && IsSpace(s[j - 1]) then SkipSpaceBack(s, lo, j - 1) else j
  }

  /**
    `s.strip()`: the result is a contiguous piece `s[a..b]` of `s`, everything
    outside it is whitespace, and it neither begins nor ends with whitespace.
   */
  function Strip(s: string): (r: string)
    ensures Stripped(r)
    ensures exists a :: 0 <= a <= |s| - |r| && r == s[a..a + |r|]
                         && AllSpace(s[..a]) && AllSpace(s[a + |r|..])
  {
    var a := SkipSpace(s, 0);
    var b := SkipSpaceBack(s, a, |s|);
    assert AllSpace(s[..a]) && AllSpace(s[b..]);
    s[a..b]
  }

  lemma StripEmptyIffBlank(s: string)
    ensures Strip(s) == [] <==> AllSpace(s)
  {
    if Strip(s) == [] {
      var a :| 0 <= a <= |s| && AllSpace(s[..a]) && AllSpace(s[a..]);
      assert forall i :: 0 <= i < |s| ==> (if i < a then s[..a][i] else s[a..][i - a]) == s[i];
    }
  }

  /** Stripping text that has no whitespace at its ends changes nothing. */
  lemma StripStripped(s: string)
    requires Stripped(s)
    ensures Strip(s) == s
  {
  }

  // ---------------------------------------------------------------------------
  // str.split() with no separator

  /** The words of `s`, `cur` being the word read so far. */
  function Words(s: string, cur: string): (r: seq<string>)
    requires NoSpace(cur)
    ensures forall k :: 0 <= k < |r| ==> r[k] != [] && NoSpace(r[k])
    decreases |s|
  {
    if s == [] then (if cur == [] then [] else [cur])
    else if IsSpace(s[0]) then (if cur == [] then [] else [cur]) + Words(s[1..], [])
    else Words(s[1..], cur + [s[0]])
  }

  /** `s.split()`: the maximal runs of non-whitespace characters, in order. */
  function Split(s: string): (r: seq<string>)
    ensures forall k :: 0 <= k < |r| ==> r[k] != [] && NoSpace(r[k])
  {
    Words(s, [])
  }

  /** `" ".join(words)`. */
  function JoinWords(words: seq<string>): string {
    if words == [] then []
    else if |words| == 1 then words[0]
    else words[0] + " " + JoinWords(words[1..])
  }

  lemma {:induction false} WordsRun(t: string, rest: string, cur: string)
    requires NoSpace(cur) && NoSpace(t)
    ensures Words(t + rest, cur) == Words(rest, cur + t)
    decreases |t|
  {
    if t != [] {
      assert (t + rest)[1..] == t[1..] + rest;
      assert cur + t == (cur + [t[0]]) + t[1..];
      WordsRun(t[1..], rest, cur + [t[0]]);
    } else {
      assert t + rest == rest;
      assert cur + t == cur;
    }
  }

  lemma {:induction false} JoinWordsAppend(x: seq<string>, y: seq<string>)
    requires x != [] && y != []
    ensures JoinWords(x + y) == JoinWords(x) + " " + JoinWords(y)
    decreases |x|
  {
    if |x| == 1 {
      assert (x + y)[1..] == y;
    } else {
      assert (x + y)[1..] == x[1..] + y;
      JoinWordsAppend(x[1..], y);
    }
  }

  /** A white-space character ends the word being read; the words after it start afresh. */
  lemma {:induction false} WordsAtSpace(a: string, c: char, b: string, cur: string)
    requires NoSpace(cur) && IsSpace(c)
    ensures Words(a + [c] + b, cur) == Words(a, cur) + Words(b, [])
    decreases |a|
  {
    var close: seq<string> := if cur == [] then [] else [cur];
    if a == [] {
      assert a + [c] + b == [c] + b;
      assert ([c] + b)[1..] == b;
    } else {
      assert (a + [c] + b)[0] == a[0];
      assert (a + [c] + b)[1..] == a[1..] + [c] + b;
      if IsSpace(a[0]) {
        WordsAtSpace(a[1..], c, b, []);
        assert Words(a + [c] + b, cur) == close + (Words(a[1..], []) + Words(b, []));
      } else {
        WordsAtSpace(a[1..], c, b, cur + [a[0]]);
      }
    }
  }

  /** `split()` cuts at every white-space character: the words on either side, in order. */
  lemma SplitAtSpace(a: string, c: char, b: string)
    requires IsSpace(c)
    ensures Split(a + [c] + b) == Split(a) + Split(b)
  {
    WordsAtSpace(a, c, b, []);
  }

  /** A non-empty run without white space is one word. */
  lemma SplitWord(w: string)
    requires w != [] && NoSpace(w)
    ensures Split(w) == [w]
  {
    WordsRun(w, [], []);
    assert w + [] == w && [] + w == w;
  }

  /** Text made only of white space has no words. */
  lemma {:induction false} SplitBlank(s: string)
    requires AllSpace(s)
    ensures Split(s) == []
    decreases |s|
  {
    if s != [] {
      SplitBlank(s[1..]);
    }
  }

  /** Splitting words joined by single spaces gives the words back. */
  lemma {:induction false} SplitJoinWords(words: seq<string>)
    requires forall k :: 0 <= k < |words| ==> words[k] != [] && NoSpace(words[k])
    ensures Split(JoinWords(words)) == words
    decreases |words|
  {
    if |words| == 1 {
      var w := words[0];
      WordsRun(w, [], []);
      assert w + [] == w && [] + w == w;
    } else if |words| > 1 {
      var w, rest := words[0], JoinWords(words[1..]);
      assert JoinWords(words) == w + (" " + rest);
      WordsRun(w, " " + rest, []);
      assert [] + w == w;
      assert (" " + rest)[1..] == rest;
      SplitJoinWords(words[1..]);
    }
  }

  // ---------------------------------------------------------------------------
  // str.splitlines()

  /** The lines of `s`, `cur` being the line read so far. */
  function LinesFrom(s: string, cur: string): (r: seq<string>)
    requires NoLineBreak(cur)
    ensures forall k :: 0 <= k < |r| ==> NoLineBreak(r[k])
    decreases |s|
  {
    if s == [] then (if cur == [] then [] else [cur])
    else if s[0] == '\r' && |s| > 1 && s[1] == '\n' then [cur] + LinesFrom(s[2..], [])
    else if IsLineBreak(s[0]) then [cur] + LinesFrom(s[1..], [])
    else LinesFrom(s[1..], cur + [s[0]])
  }

  /**
    `s.splitlines()`: the pieces between line breaks. A final line break does
    not start an empty last line.
   */
  function SplitLines(s: string): (r: seq<string>)
    ensures forall k :: 0 <= k < |r| ==> NoLineBreak(r[k])
  {
    LinesFrom(s, [])
  }

  /** Each line followed by "\n", as a text widget returns its contents. */
  function JoinLines(lines: seq<string>): string {
    if lines == [] then [] else lines[0] + "\n" + JoinLines(lines[1..])
  }

  lemma {:induction false} LinesRun(t: string, rest: string, cur: string)
    requires NoLineBreak(cur) && NoLineBreak(t)
    ensures LinesFrom(t + rest, cur) == LinesFrom(rest, cur + t)
    decreases |t|
  {
    if t != [] {
      assert (t + rest)[1..] == t[1..] + rest;
      assert cur + t == (cur + [t[0]]) + t[1..];
      LinesRun(t[1..], rest, cur + [t[0]]);
    } else {
      assert t + rest == rest;
      assert cur + t == cur;
    }
  }

  /** Splitting newline-terminated lines with no line breaks in them gives the lines back. */
  lemma {:induction false} SplitJoinLines(lines: seq<string>)
    requires forall k :: 0 <= k < |lines| ==> NoLineBreak(lines[k])
    ensures SplitLines(JoinLines(lines)) == lines
    decreases |lines|
  {
    if lines != [] {
      var l, rest := lines[0], JoinLines(lines[1..]);
      assert JoinLines(lines) == l + ("\n" + rest);
      LinesRun(l, "\n" + rest, []);
      assert [] + l == l;
      assert ("\n" + rest)[1..] == rest;
      SplitJoinLines(lines[1..]);
    }
  }
}
