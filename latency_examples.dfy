/** The parser on sample outputs of the kind the program is written for. */
module LatencyExamples {
  import opened Options
  import opened Text
  import opened Decimal
  import opened LatencyParser

  // ---------------------------------------------------------------------------
  // A Windows reply line

  lemma LowerReplyHead()
    ensures Lower("Reply from 8.8.8") == "reply from 8.8.8"
  {
    assert "Reply from 8.8.8" == "R" + "eply from" + " 8.8.8";
    assert "reply from 8.8.8" == "r" + "eply from" + " 8.8.8";
    LowerNoUpper("eply from");
    LowerNoUpper(" 8.8.8");
    LowerAppend("R" + "eply from", " 8.8.8");
    LowerAppend("R", "eply from");
    assert Lower("R") == "r";
  }

  lemma LowerReplyTail()
    ensures Lower("ms TTL=56") == "ms" + " ttl=56"
  {
    assert "ms TTL=56" == "ms " + "TTL" + "=56";
    assert "ms" + " ttl=56" == "ms " + "ttl" + "=56";
    LowerNoUpper("ms ");
    LowerNoUpper("=56");
    LowerAppend("ms " + "TTL", "=56");
    LowerAppend("ms ", "TTL");
    assert Lower("TTL") == "ttl";
  }

  /** The lower-cased reply line, in the pieces the searches below work on. */
  lemma LowerReplyLine()
    ensures Lower("Reply from 8.8.8.8: bytes=32 time=14ms TTL=56")
         == "reply from 8.8.8" + ".8: bytes=32 " + "time=" + "14" + "ms" + " ttl=56"
  {
    assert "Reply from 8.8.8.8: bytes=32 time=14ms TTL=56"
        == "Reply from 8.8.8" + ".8: bytes=32 " + "time=" + "14" + "ms TTL=56";
    LowerAppend("Reply from 8.8.8" + ".8: bytes=32 " + "time=" + "14", "ms TTL=56");
    LowerAppend("Reply from 8.8.8" + ".8: bytes=32 " + "time=", "14");
    LowerAppend("Reply from 8.8.8" + ".8: bytes=32 ", "time=");
    LowerAppend("Reply from 8.8.8", ".8: bytes=32 ");
    LowerReplyHead();
    LowerNoUpper(".8: bytes=32 ");
    LowerNoUpper("time=");
    LowerNoUpper("14");
    LowerReplyTail();
  }

  lemma ReplyLineMarker()
    ensures HasReplyMarker("reply from 8.8.8" + ".8: bytes=32 " + "time=" + "14" + "ms" + " ttl=56")
  {
    var rest := " 8.8.8" + ".8: bytes=32 " + "time=" + "14" + "ms" + " ttl=56";
    assert "reply from 8.8.8" == "reply from" + " 8.8.8";
    ContainsJoin([], "reply from", rest);
    assert [] + "reply from" + rest
        == "reply from 8.8.8" + ".8: bytes=32 " + "time=" + "14" + "ms" + " ttl=56";
  }

  lemma ValueFourteen()
    ensures ParseDecimal(KeepNumeric("14")) == Some(14.0)
  {
    assert KeepNumeric("14") == "14";
    ParseUnsignedInteger("14");
    assert "14"[..1] == "1";
  }

  /** A Windows reply line gives its `time=` field: 14 ms. */
  lemma ExampleReplyLine()
    ensures ParseLatency("Reply from 8.8.8.8: bytes=32 time=14ms TTL=56") == Some(14.0)
  {
    var a := "reply from 8.8.8" + ".8: bytes=32 ";
    LowerReplyLine();
    ReplyLineMarker();
    assert 'i' !in "reply from 8.8.8" && 'i' !in ".8: bytes=32 ";
    assert 'm' !in "14";
    ReplyValueOfPlainLine(a, "14", " ttl=56");
    assert a + "time=" + "14" + "ms" + " ttl=56"
        == "reply from 8.8.8" + ".8: bytes=32 " + "time=" + "14" + "ms" + " ttl=56";
    ValueFourteen();
  }

  // ---------------------------------------------------------------------------
  // A Windows timeout line

  lemma LowerTimeout()
    ensures Lower("Request timed out.") == "r" + "equest timed out."
  {
    assert "Request timed out." == "R" + "equest timed out.";
    LowerAppend("R", "equest timed out.");
    assert Lower("R") == "r";
    LowerNoUpper("equest timed out.");
  }

  /** "Request timed out." matches neither path. */
  lemma ExampleTimeout()
    ensures ParseLatency("Request timed out.") == None
  {
    var s := "r" + "equest timed out.";
    assert Lower("Request timed out.") == s by {
      LowerTimeout();
    }
    assert 'y' !in s && 'p' !in s && 'w' !in s && 'n' !in s by {
      forall c | c in "equest timed out."
        ensures c != 'y' && c != 'p' && c != 'w' && c != 'n'
      {
      }
    }
    assert !HasReplyMarker(s) by {
      NotContainsMissingChar(s, "reply from", 'y');
      NotContainsMissingChar(s, "bytes from", 'y');
      NotContainsMissingChar(s, "respuesta desde", 'p');
      NotContainsMissingChar(s, "antwort von", 'w');
    }
    assert !HasSummaryWords(s) by {
      NotContainsMissingChar(s, "minimum", 'n');
    }
  }

  // ---------------------------------------------------------------------------
  // A Windows summary line

  lemma LowerSummaryMin()
    ensures Lower("Minimum = 10ms,") == "minimum = 10ms,"
  {
    assert "Minimum = 10ms," == "M" + "inimum = 10ms,";
    assert "minimum = 10ms," == "m" + "inimum = 10ms,";
    LowerAppend("M", "inimum = 10ms,");
    assert Lower("M") == "m";
    LowerNoUpper("inimum = 10ms,");
  }

  lemma LowerSummaryMax()
    ensures Lower("Maximum = 20ms,") == "maximum = 20ms,"
  {
    assert "Maximum = 20ms," == "M" + "aximum = 20ms,";
    assert "maximum = 20ms," == "m" + "aximum = 20ms,";
    LowerAppend("M", "aximum = 20ms,");
    assert Lower("M") == "m";
    LowerNoUpper("aximum = 20ms,");
  }

  lemma LowerSummaryAvg()
    ensures Lower("Average = 15ms") == "average = 15ms"
  {
    assert "Average = 15ms" == "A" + "verage = 15ms";
    assert "average = 15ms" == "a" + "verage = 15ms";
    LowerAppend("A", "verage = 15ms");
    assert Lower("A") == "a";
    LowerNoUpper("verage = 15ms");
  }

  lemma LowerSummaryLine()
    ensures Lower("Minimum = 10ms, Maximum = 20ms, Average = 15ms")
         == "minimum = 10ms," + " " + ("maximum = 20ms," + " " + "average = 15ms")
  {
    assert "Minimum = 10ms, Maximum = 20ms, Average = 15ms"
        == "Minimum = 10ms," + " " + "Maximum = 20ms," + " " + "Average = 15ms";
    assert "Minimum = 10ms," + " " + "Maximum = 20ms," + " " + "Average = 15ms"
        == "Minimum = 10ms," + " " + ("Maximum = 20ms," + " " + "Average = 15ms");
    LowerAppend("Minimum = 10ms," + " ", "Maximum = 20ms," + " " + "Average = 15ms");
    LowerAppend("Minimum = 10ms,", " ");
    LowerAppend("Maximum = 20ms," + " ", "Average = 15ms");
    LowerAppend("Maximum = 20ms,", " ");
    LowerNoUpper(" ");
    LowerSummaryMin();
    LowerSummaryMax();
    LowerSummaryAvg();
  }

  lemma SummaryWords()
    ensures HasSummaryWords("minimum = 10ms," + " " + ("maximum = 20ms," + " " + "average = 15ms"))
  {
    var s := "minimum = 10ms," + " " + ("maximum = 20ms," + " " + "average = 15ms");
    assert "minimum = 10ms," == "minimum" + " = 10ms,";
    assert s == [] + "minimum" + (" = 10ms," + " " + ("maximum = 20ms," + " " + "average = 15ms"));
    ContainsJoin([], "minimum", " = 10ms," + " " + ("maximum = 20ms," + " " + "average = 15ms"));
    assert "maximum = 20ms," == "maximum" + " = 20ms,";
    assert s == ("minimum = 10ms," + " ") + "maximum" + (" = 20ms," + " " + "average = 15ms");
    ContainsJoin("minimum = 10ms," + " ", "maximum", " = 20ms," + " " + "average = 15ms");
    assert "average = 15ms" == "average" + " = 15ms";
    assert s == ("minimum = 10ms," + " " + ("maximum = 20ms," + " ")) + "average" + " = 15ms";
    ContainsJoin("minimum = 10ms," + " " + ("maximum = 20ms," + " "), "average", " = 15ms");
  }

  lemma SummaryTokens()
    ensures Split("minimum = 10ms," + " " + ("maximum = 20ms," + " " + "average = 15ms"))
         == ["minimum", "=", "10ms,"] + (["maximum", "=", "20ms,"] + ["average", "=", "15ms"])
  {
    var w1, w2, w3 := ["minimum", "=", "10ms,"], ["maximum", "=", "20ms,"], ["average", "=", "15ms"];
    JoinWordsAppend(w1, w2 + w3);
    JoinWordsAppend(w2, w3);
    assert JoinWords(w1) == "minimum = 10ms,";
    assert JoinWords(w2) == "maximum = 20ms,";
    assert JoinWords(w3) == "average = 15ms";
    var w := w1 + (w2 + w3);
    forall k | 0 <= k < |w|
      ensures w[k] != [] && NoSpace(w[k])
    {
      assert w[k] in {"minimum", "=", "10ms,", "maximum", "20ms,", "average", "15ms"};
    }
    SplitJoinWords(w);
  }

  lemma MsValueFifteen()
    ensures MsValue("15ms") == Some(15.0)
  {
    assert "15ms"[2..] == "ms";
    assert "15ms"[..2] == "15";
    ParseUnsignedInteger("15");
    assert "15"[..1] == "1";
  }

  lemma AverageNotQualifies()
    ensures !Qualifies("average") && !Qualifies("=")
  {
    assert "average"[5..] == "ge";
  }

  lemma ValueFifteen()
    ensures FirstPositiveMs(["average", "=", "15ms"]) == Some(15.0)
  {
    AverageNotQualifies();
    MsValueFifteen();
    assert ["average", "=", "15ms"][1..] == ["=", "15ms"];
    assert ["=", "15ms"][1..] == ["15ms"];
  }


  lemma NoEarlyToken()
    ensures forall k :: 0 <= k < 6 ==> !Qualifies((["minimum", "=", "10ms,"] + ["maximum", "=", "20ms,"])[k])
  {
    assert !EndsWith("minimum", "ms") by {
      assert "minimum"[5..] == "um";
    }
    assert !EndsWith("maximum", "ms") by {
      assert "maximum"[5..] == "um";
    }
    assert !EndsWith("10ms,", "ms") by {
      assert "10ms,"[3..] == "s,";
    }
    assert !EndsWith("20ms,", "ms") by {
      assert "20ms,"[3..] == "s,";
    }
  }

  lemma SummaryNoReply()
    ensures !HasReplyMarker("minimum = 10ms," + " " + ("maximum = 20ms," + " " + "average = 15ms"))
  {
    var s := "minimum = 10ms," + " " + ("maximum = 20ms," + " " + "average = 15ms");
    assert 'y' !in s && 'p' !in s && 'w' !in s by {
      forall c | c in "minimum = 10ms," || c in "maximum = 20ms," || c in "average = 15ms"
        ensures c != 'y' && c != 'p' && c != 'w'
      {
      }
    }
    NotContainsMissingChar(s, "reply from", 'y');
    NotContainsMissingChar(s, "bytes from", 'y');
    NotContainsMissingChar(s, "respuesta desde", 'p');
    NotContainsMissingChar(s, "antwort von", 'w');
  }

  /** A Windows summary line gives the average: the first positive "<n>ms" token, 15 ms. */
  lemma ExampleSummaryLine()
    ensures ParseLatency("Minimum = 10ms, Maximum = 20ms, Average = 15ms") == Some(15.0)
  {
    LowerSummaryLine();
    SummaryNoReply();
    SummaryWords();
    SummaryTokens();
    var w1, w2, w3 := ["minimum", "=", "10ms,"], ["maximum", "=", "20ms,"], ["average", "=", "15ms"];
    assert w1 + (w2 + w3) == (w1 + w2) + w3;
    NoEarlyToken();
    FirstPositiveMsSkip(w1 + w2, w3);
    ValueFifteen();
  }

  // ---------------------------------------------------------------------------
  // A Linux reply line

  lemma LinuxLinePieces()
    ensures "64 bytes from 8.8.8.8: " + "icmp_seq=1 ttl=117 " + "time=14.2 ms"
         == "64 " + "bytes from" + " 8.8.8.8: " + "icmp" + "_seq=1 ttl=117 " + "time=" + "14.2 " + "ms"
  {
    assert "64 bytes from 8.8.8.8: " == "64 " + "bytes from" + " 8.8.8.8: ";
    assert "icmp_seq=1 ttl=117 " == "icmp" + "_seq=1 ttl=117 ";
    assert "time=14.2 ms" == "time=" + "14.2 " + "ms";
  }

  lemma LinuxLineChunks()
    ensures "64 bytes from 8.8.8.8: icmp_seq=1 ttl=117 time=14.2 ms"
         == "64 bytes from 8.8.8.8: " + "icmp_seq=1 ttl=117 " + "time=14.2 ms"
  {
  }

  lemma LinuxLineNoCapitals()
    ensures Lower("64 bytes from 8.8.8.8: ") == "64 bytes from 8.8.8.8: "
    ensures Lower("icmp_seq=1 ttl=117 ") == "icmp_seq=1 ttl=117 "
    ensures Lower("time=14.2 ms") == "time=14.2 ms"
  {
    LowerNoUpper("64 bytes from 8.8.8.8: ");
    LowerNoUpper("icmp_seq=1 ttl=117 ");
    LowerNoUpper("time=14.2 ms");
  }

  lemma LinuxLineLower()
    ensures Lower("64 bytes from 8.8.8.8: icmp_seq=1 ttl=117 time=14.2 ms")
         == "64 " + "bytes from" + " 8.8.8.8: " + "icmp" + "_seq=1 ttl=117 " + "time=" + "14.2 " + "ms"
  {
    LinuxLineChunks();
    LowerAppend("64 bytes from 8.8.8.8: " + "icmp_seq=1 ttl=117 ", "time=14.2 ms");
    LowerAppend("64 bytes from 8.8.8.8: ", "icmp_seq=1 ttl=117 ");
    LinuxLineNoCapitals();
    LinuxLinePieces();
  }

  lemma LinuxTimeKeyTail()
    ensures FindFrom("_seq=1 ttl=117 " + ("time=" + "14.2 " + "ms"), "time=", 0) == 15
  {
    var w := "time=" + "14.2 " + "ms";
    OccursAtJoin([], "time=", "14.2 " + "ms");
    assert [] + "time=" + ("14.2 " + "ms") == w;
    FindFromIs(w, "time=", 0, 0);
    assert w[..2] == "ti";
    assert 'm' !in "_seq=1 ttl=117 ";
    FindPastPrefixAt("_seq=1 ttl=117 ", w, "time=", 2);
  }

  lemma LinuxTimeKeyMiddle()
    ensures FindFrom("icmp" + ("_seq=1 ttl=117 " + ("time=" + "14.2 " + "ms")), "time=", 0) == 19
  {
    LinuxTimeKeyTail();
    assert 't' !in "icmp";
    FindPastPrefixAt("icmp", "_seq=1 ttl=117 " + ("time=" + "14.2 " + "ms"), "time=", 0);
  }

  /** "time=" first occurs at index 42, found in three hops over the text before it. */
  lemma LinuxLineTimeKey()
    ensures FindFrom("64 " + "bytes from" + " 8.8.8.8: " + "icmp" + "_seq=1 ttl=117 " + "time=" + "14.2 " + "ms", "time=", 0) == 42
  {
    var y := "icmp" + ("_seq=1 ttl=117 " + ("time=" + "14.2 " + "ms"));
    var x := "64 " + "bytes from" + " 8.8.8.8: ";
    assert x + y == "64 " + "bytes from" + " 8.8.8.8: " + "icmp" + "_seq=1 ttl=117 " + "time=" + "14.2 " + "ms";
    LinuxTimeKeyMiddle();
    assert y[..4] == "icmp";
    assert '=' !in "64 " && '=' !in "bytes from" && '=' !in " 8.8.8.8: ";
    FindPastPrefixAt(x, y, "time=", 4);
  }

  /** The first "ms" after index 42 is at index 52, so the value text is "14.2 ". */
  lemma LinuxLineMsKey()
    ensures FindFrom("64 " + "bytes from" + " 8.8.8.8: " + "icmp" + "_seq=1 ttl=117 " + "time=" + "14.2 " + "ms", "ms", 42) == 52
  {
    var s := "64 " + "bytes from" + " 8.8.8.8: " + "icmp" + "_seq=1 ttl=117 " + "time=" + "14.2 " + "ms";
    var a := "64 " + "bytes from" + " 8.8.8.8: " + "icmp" + "_seq=1 ttl=117 " + "time=";
    assert s == a + ("14.2 " + "ms" + []);
    LinuxLineTimeKey();
    ContainsIffFound(s, "time=");
    TimeKeyIsNotMs(s, 42);
    FindFromSkip(s, "ms", 42, 47);
    assert 'm' !in "14.2 ";
    FindFirstAfter("14.2 ", "ms", []);
    FindFromShift(a, "14.2 " + "ms" + [], "ms", 0);
  }

  lemma FractionTwo()
    ensures Fraction("2") == 0.2
  {
    assert DigitsValue("2") == 2;
    assert Pow10(|"2"|) == 10;
  }

  lemma KeepFourteenPointTwo()
    ensures KeepNumeric("14.2 ") == "14.2"
  {
    KeepNumericAppend("14.2", " ");
    assert "14.2 " == "14.2" + " ";
    assert KeepNumeric(" ") == [];
    assert KeepNumeric("14.2") == "14.2";
  }

  lemma ParseFourteenPointTwo()
    ensures ParseDecimal("14.2") == Some(14.2)
  {
    ParseDecimalValue(false, "14", "2");
    assert "" + "14" + "." + "2" == "14.2";
    assert "14"[..1] == "1";
    assert DigitsValue("14") == 14;
    FractionTwo();
  }

  lemma ValueFourteenPointTwo()
    ensures ParseDecimal(KeepNumeric("14.2 ")) == Some(14.2)
  {
    KeepFourteenPointTwo();
    ParseFourteenPointTwo();
  }

  lemma LinuxLineMarker()
    ensures HasReplyMarker("64 " + "bytes from" + " 8.8.8.8: " + "icmp" + "_seq=1 ttl=117 " + "time=" + "14.2 " + "ms")
  {
    var b := " 8.8.8.8: " + "icmp" + "_seq=1 ttl=117 " + "time=" + "14.2 " + "ms";
    assert "64 " + "bytes from" + " 8.8.8.8: " + "icmp" + "_seq=1 ttl=117 " + "time=" + "14.2 " + "ms"
        == "64 " + "bytes from" + b;
    ContainsJoin("64 ", "bytes from", b);
  }

  /** On the Linux line the reply path yields the text between "time=" and "ms", "14.2 ". */
  lemma LinuxLineValueText()
    ensures ReplyValueText("64 " + "bytes from" + " 8.8.8.8: " + "icmp" + "_seq=1 ttl=117 " + "time=" + "14.2 " + "ms")
         == Some("14.2 ")
  {
    var a := "64 " + "bytes from" + " 8.8.8.8: " + "icmp" + "_seq=1 ttl=117 " + "time=";
    LinuxLineMarker();
    LinuxLineTimeKey();
    LinuxLineMsKey();
    OccursAtJoin(a, "14.2 ", "ms");
  }

  /** A Linux reply line: the space before "ms" is filtered out and the fraction kept, 14.2 ms. */
  lemma ExampleLinuxLine()
    ensures ParseLatency("64 bytes from 8.8.8.8: icmp_seq=1 ttl=117 time=14.2 ms") == Some(14.2)
  {
    LinuxLineLower();
    LinuxLineValueText();
    ValueFourteenPointTwo();
  }
}
