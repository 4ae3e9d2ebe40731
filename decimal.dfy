/**
  Python's `float(text)` on the inputs the latency parser gives it: decimal
  literals with an optional sign, digits and at most one '.', and at least one
  digit. Exponents, `inf`, `nan`, digit-group underscores and non-ASCII digits
  are not part of this model.
 */
module Decimal {
  import opened Options
  import opened Text

  predicate AllDigits(s: string) { forall i :: 0 <= i < |s| ==> IsDigit(s[i]) }

  function DigitValue(c: char): nat
    requires IsDigit(c)
  {
    c as int - '0' as int
  }

  /** The value of a run of decimal digits, most significant first; 0 for the empty run. */
  function DigitsValue(s: string): nat
    requires AllDigits(s)
  {
    if s == [] then 0 else DigitsValue(s[..|s| - 1]) * 10 + DigitValue(s[|s| - 1])
  }

  function Pow10(n: nat): (r: nat)
    ensures r >= 1
  {
    if n == 0 then 1 else 10 * Pow10(n - 1)
  }

  function Sign(c: char): bool { c == '-' || c == '+' }

  /** The text after an optional leading sign. */
  function Unsigned(s: string): string {
    if |s| > 0 && Sign(s[0]) then s[1..] else s
  }

  predicate Negative(s: string) { |s| > 0 && s[0] == '-' }

  /** The value of fraction digits `fp` written after a '.'. */
  function Fraction(fp: string): real
    requires AllDigits(fp)
  {
    if fp == [] then 0.0 else DigitsValue(fp) as real / Pow10(|fp|) as real
  }

  /** The value of integer digits `ip` followed by fraction digits `fp`. */
  function PartsValue(ip: string, fp: string): real
    requires AllDigits(ip) && AllDigits(fp)
  {
    DigitsValue(ip) as real + Fraction(fp)
  }

  function Parts(ip: string, fp: string): Option<real> {
    if AllDigits(ip) && AllDigits(fp) && |ip| + |fp| > 0 then Some(PartsValue(ip, fp)) else None
  }

  /** An unsigned literal: split at the first '.', if any, into integer and fraction digits. */
  function Magnitude(body: string): Option<real> {
    var dot := FindFrom(body, ".", 0);
    if dot < 0 then Parts(body, []) else Parts(body[..dot], body[dot + 1..])
  }

  /** `float(s)`: `None` where Python raises `ValueError`. */
  function ParseDecimal(s: string): Option<real> {
    match Magnitude(Unsigned(s))
    case None => None
    case Some(m) => Some(if Negative(s) then -m else m)
  }

  // ---------------------------------------------------------------------------
  // Which strings are accepted

  function CountOf(s: string, c: char): nat {
    if s == [] then 0 else (if s[0] == c then 1 else 0) + CountOf(s[1..], c)
  }

  /** After an optional sign: only digits and '.', at most one '.', and at least one digit. */
  predicate IsUnsignedLiteral(body: string) {
    && (forall i :: 0 <= i < |body| ==> IsDigit(body[i]) || body[i] == '.')
    && CountOf(body, '.') <= 1
    && (exists i :: 0 <= i < |body| && IsDigit(body[i]))
  }

  /** The accepted language, stated by character classes. */
  predicate IsDecimalLiteral(s: string) {
    IsUnsignedLiteral(Unsigned(s))
  }

  lemma {:induction false} CountOfAppend(a: string, b: string, c: char)
    ensures CountOf(a + b, c) == CountOf(a, c) + CountOf(b, c)
    decreases |a|
  {
    if a != [] {
      assert (a + b)[1..] == a[1..] + b;
      CountOfAppend(a[1..], b, c);
    } else {
      assert a + b == b;
    }
  }

  lemma {:induction false} CountOfAbsent(s: string, c: char)
    requires forall i :: 0 <= i < |s| ==> s[i] != c
    ensures CountOf(s, c) == 0
    decreases |s|
  {
    if s != [] {
      CountOfAbsent(s[1..], c);
    }
  }

  lemma {:induction false} CountOfPresent(s: string, c: char, i: int)
    requires 0 <= i < |s| && s[i] == c
    ensures CountOf(s, c) >= 1
    decreases |s|
  {
    if i > 0 {
      CountOfPresent(s[1..], c, i - 1);
    }
  }

  /** Every character before the first '.' (or everywhere, if there is none) is not a '.'. */
  lemma NoDotBefore(body: string)
    ensures forall m :: 0 <= m < |body| && (FindFrom(body, ".", 0) < 0 || m < FindFrom(body, ".", 0)) ==> body[m] != '.'
  {
    var dot := FindFrom(body, ".", 0);
    forall m | 0 <= m < |body| && (dot < 0 || m < dot)
      ensures body[m] != '.'
    {
      assert !OccursAt(body, ".", m);
      assert body[m..m + 1] == [body[m]];
    }
  }

  /** A body with a first '.' at `dot`: the literal is the digits around it. */
  lemma UnsignedLiteralAtDot(body: string, dot: nat)
    requires dot < |body| && body[dot] == '.' && forall m :: 0 <= m < dot ==> body[m] != '.'
    ensures IsUnsignedLiteral(body) <==>
      AllDigits(body[..dot]) && AllDigits(body[dot + 1..]) && |body[..dot]| + |body[dot + 1..]| > 0
  {
    var ip, fp := body[..dot], body[dot + 1..];
    assert body == ip + ("." + fp);
    CountOfAbsent(ip, '.');
    CountOfAppend(ip, "." + fp, '.');
    CountOfAppend(".", fp, '.');
    assert CountOf(".", '.') == 1 by {
      assert "."[1..] == [];
    }
    assert CountOf(body, '.') == 1 + CountOf(fp, '.');
    forall i | 0 <= i < |body|
      ensures body[i] == (if i < dot then ip[i] else if i == dot then '.' else fp[i - dot - 1])
    {
    }
    if IsUnsignedLiteral(body) {
      forall i | 0 <= i < |fp|
        ensures IsDigit(fp[i])
      {
        assert body[dot + 1 + i] == fp[i];
        if fp[i] == '.' {
          CountOfPresent(fp, '.', i);
        }
      }
      var i :| 0 <= i < |body| && IsDigit(body[i]);
      assert i != dot;
    }
    if AllDigits(ip) && AllDigits(fp) && |ip| + |fp| > 0 {
      CountOfAbsent(fp, '.');
      if |ip| > 0 {
        assert IsDigit(body[0]);
      } else {
        assert IsDigit(body[dot + 1]);
      }
    }
  }

  lemma MagnitudeAcceptsDot(body: string)
    requires FindFrom(body, ".", 0) >= 0
    ensures Magnitude(body).Some? <==> IsUnsignedLiteral(body)
  {
    var dot := FindFrom(body, ".", 0);
    NoDotBefore(body);
    assert body[dot..dot + 1] == ".";
    assert body[dot] == body[dot..dot + 1][0];
    UnsignedLiteralAtDot(body, dot);
  }

  lemma MagnitudeAccepts(body: string)
    ensures Magnitude(body).Some? <==> IsUnsignedLiteral(body)
  {
    if FindFrom(body, ".", 0) < 0 {
      NoDotBefore(body);
      CountOfAbsent(body, '.');
    } else {
      MagnitudeAcceptsDot(body);
    }
  }

  /** `ParseDecimal` succeeds exactly on the decimal literals. */
  lemma ParseDecimalAccepts(s: string)
    ensures ParseDecimal(s).Some? <==> IsDecimalLiteral(s)
  {
    MagnitudeAccepts(Unsigned(s));
  }

  // ---------------------------------------------------------------------------
  // The value of an accepted string

  lemma MagnitudeOfParts(ip: string, fp: string)
    requires AllDigits(ip) && AllDigits(fp) && |ip| + |fp| > 0
    ensures Magnitude(ip + "." + fp) == Some(PartsValue(ip, fp))
  {
    var body := ip + "." + fp;
    assert '.' !in ip by {
      forall i | 0 <= i < |ip| ensures ip[i] != '.' { assert IsDigit(ip[i]); }
    }
    assert body == ip + ("." + fp);
    FindPastPrefix(ip, "." + fp, ".");
    assert FindFrom("." + fp, ".", 0) == 0 by {
      assert ("." + fp)[0..1] == ".";
    }
    assert FindFrom(body, ".", 0) == |ip|;
    assert body[..|ip|] == ip;
    assert body[|ip| + 1..] == fp;
  }

  /** The literal written as an optional '-', integer digits `ip`, '.', and fraction digits `fp`. */
  lemma ParseDecimalValue(neg: bool, ip: string, fp: string)
    requires AllDigits(ip) && AllDigits(fp) && |ip| + |fp| > 0
    ensures ParseDecimal((if neg then "-" else "") + ip + "." + fp)
         == Some(if neg then -PartsValue(ip, fp) else PartsValue(ip, fp))
  {
    var body := ip + "." + fp;
    var s := (if neg then "-" else "") + ip + "." + fp;
    assert s == (if neg then "-" else "") + body;
    assert body[0] == (if ip == [] then '.' else ip[0]);
    ParseSigned(neg, body);
    MagnitudeOfParts(ip, fp);
    assert Magnitude(Unsigned(s)) == Some(PartsValue(ip, fp));
  }

  /** A '+' in front of an unsigned literal, or of nothing, changes nothing: `float("+" + s) == float(s)`. */
  lemma ParsePlus(body: string)
    requires body == [] || !Sign(body[0])
    ensures ParseDecimal("+" + body) == ParseDecimal(body)
  {
    assert ("+" + body)[0] == '+';
    assert Unsigned("+" + body) == body && !Negative("+" + body);
    assert Unsigned(body) == body && !Negative(body);
  }

  lemma MagnitudeOfDigits(ip: string)
    requires AllDigits(ip) && |ip| > 0
    ensures Magnitude(ip) == Some(DigitsValue(ip) as real)
  {
    forall m | 0 <= m
      ensures !OccursAt(ip, ".", m)
    {
      if m < |ip| && m + 1 <= |ip| {
        assert ip[m..m + 1][0] == ip[m];
        assert IsDigit(ip[m]);
      }
    }
    assert FindFrom(ip, ".", 0) == -1;
    assert Parts(ip, []) == Some(PartsValue(ip, []));
  }

  /** A sign in front of an unsigned literal negates its value or leaves it. */
  lemma ParseSigned(neg: bool, body: string)
    requires body != [] && !Sign(body[0])
    ensures Unsigned((if neg then "-" else "") + body) == body
    ensures Negative((if neg then "-" else "") + body) == neg
  {
    if !neg {
      assert "" + body == body;
    } else {
      assert ("-" + body)[1..] == body;
    }
  }

  /** A run of digits parses to its integer value. */
  lemma ParseUnsignedInteger(ip: string)
    requires AllDigits(ip) && |ip| > 0
    ensures ParseDecimal(ip) == Some(DigitsValue(ip) as real)
  {
    assert IsDigit(ip[0]);
    assert Unsigned(ip) == ip && !Negative(ip);
    MagnitudeOfDigits(ip);
  }

  /** A '-' in front of an unsigned literal negates its magnitude. */
  lemma ParseNegated(body: string)
    requires body != [] && !Sign(body[0]) && Magnitude(body).Some?
    ensures ParseDecimal("-" + body) == Some(-Magnitude(body).value)
  {
    assert ("-" + body)[0] == '-';
    assert ("-" + body)[1..] == body;
  }

  /** A '-' followed by a run of digits parses to the negated integer value. */
  lemma ParseNegativeInteger(ip: string)
    requires AllDigits(ip) && |ip| > 0
    ensures ParseDecimal("-" + ip).Some? && ParseDecimal("-" + ip).value == -(DigitsValue(ip) as real)
  {
    assert IsDigit(ip[0]);
    MagnitudeOfDigits(ip);
    ParseNegated(ip);
  }

  // ---------------------------------------------------------------------------
  // Round trip with the decimal rendering of a natural number

  function DigitChar(d: nat): (c: char)
    requires d < 10
    ensures IsDigit(c) && DigitValue(c) == d
  {
    ('0' as int + d) as char
  }

  /** `str(n)` for a natural number n. */
  function NatToString(n: nat): (r: string)
    ensures |r| > 0 && AllDigits(r)
    decreases n
  {
    if n < 10 then [DigitChar(n)] else NatToString(n / 10) + [DigitChar(n % 10)]
  }

  lemma {:induction false} DigitsOfNatToString(n: nat)
    ensures DigitsValue(NatToString(n)) == n
    decreases n
  {
    var r := NatToString(n);
    if n >= 10 {
      DigitsOfNatToString(n / 10);
      assert r[..|r| - 1] == NatToString(n / 10);
    } else {
      assert r[..|r| - 1] == [];
    }
  }

  /** `float(str(n)) == n`. */
  lemma ParseNatToString(n: nat)
    ensures ParseDecimal(NatToString(n)) == Some(n as real)
  {
    DigitsOfNatToString(n);
    ParseUnsignedInteger(NatToString(n));
  }
}
