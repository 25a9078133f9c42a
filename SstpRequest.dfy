/** The text of an SSTP/1.1 NOTIFY request as `UkagakaSSTPConnection.SendNotify1_1` frames it:
    CRLF-terminated header lines (version, Sender, Event, Reference0..n-1, Charset) and an
    empty line closing the header block. Values are copied verbatim, without escaping.
    A reference parser, which the connection itself never runs, recovers the fields. */
module SstpRequest {
  import opened Wrappers
  import opened Text

  const CrLf: string := "\r\n"
  const VersionLine: string := "NOTIFY SSTP/1.1"

  /** A notification as the request carries it. */
  datatype Notification = Notification(sender: string, eventName: string, references: seq<string>, charset: string)

  /** True when no CR in `s` is immediately followed by LF: a CRLF is the only thing that
      breaks the framing of a value. */
  predicate FreeOfCrLf(s: string) {
    forall k :: 0 <= k < |s| - 1 ==> !(s[k] == '\r' && s[k + 1] == '\n')
  }

  /** No carriage return at all. */
  predicate FreeOfCr(s: string) {
    forall k :: 0 <= k < |s| ==> s[k] != '\r'
  }

  /** Each line followed by CRLF, in order. */
  function JoinLines(lines: seq<string>): (s: string)
    ensures lines == [] <==> s == []
    decreases |lines|
  {
    if lines == [] then "" else lines[0] + CrLf + JoinLines(lines[1..])
  }

  /** The `Reference<i>` header for the argument at position `i`. */
  function ReferenceLine(i: nat, value: string): string {
    "Reference" + DecimalString(i) + ": " + value
  }

  function ReferenceLines(references: seq<string>): (lines: seq<string>) {
    seq(|references|, i requires 0 <= i < |references| => ReferenceLine(i, references[i]))
  }

  lemma ReferenceLinesSnoc(references: seq<string>, i: nat)
    requires i < |references|
    ensures ReferenceLines(references[..i + 1]) == ReferenceLines(references[..i]) + [ReferenceLine(i, references[i])]
  {
  }

  function HeaderLines(sender: string, eventName: string): seq<string> {
    [VersionLine, "Sender: " + sender, "Event: " + eventName]
  }

  /** The lines of the request, in the order they are written. */
  function RequestLines(sender: string, eventName: string, references: seq<string>, charset: string): seq<string> {
    HeaderLines(sender, eventName) + ReferenceLines(references) + ["Charset: " + charset, ""]
  }

  /** The request text handed to the transport. */
  function Request(sender: string, eventName: string, references: seq<string>, charset: string): string {
    JoinLines(RequestLines(sender, eventName, references, charset))
  }

  // ---------------------------------------------------------------- joining lines

  lemma {:induction false} JoinLinesAppend(a: seq<string>, b: seq<string>)
    ensures JoinLines(a + b) == JoinLines(a) + JoinLines(b)
    decreases |a|
  {
    if a != [] {
      assert (a + b)[0] == a[0];
      assert (a + b)[1..] == a[1..] + b;
      JoinLinesAppend(a[1..], b);
      calc {
        JoinLines(a + b);
        a[0] + CrLf + JoinLines(a[1..] + b);
        a[0] + CrLf + (JoinLines(a[1..]) + JoinLines(b));
        (a[0] + CrLf + JoinLines(a[1..])) + JoinLines(b);
      }
    } else {
      assert a + b == b;
    }
  }

  lemma JoinLinesSnoc(a: seq<string>, line: string)
    ensures JoinLines(a + [line]) == JoinLines(a) + line + CrLf
  {
    JoinLinesAppend(a, [line]);
    assert JoinLines([line]) == line + CrLf + JoinLines([]);
  }

  // ---------------------------------------------------------------- splitting lines

  /** Splits off the text before the first CRLF; None when there is no CRLF at all. */
  function FirstLine(s: string): (r: Option<(string, string)>)
    ensures r.Some? ==> s == r.value.0 + CrLf + r.value.1 && FreeOfCrLf(r.value.0)
    ensures r.None? ==> FreeOfCrLf(s)
    decreases |s|
  {
    if |s| < 2 then None
    else if s[0] == '\r' && s[1] == '\n' then Some(("", s[2..]))
    else match FirstLine(s[1..])
      case None => None
      case Some((line, rest)) =>
        assert s[1..] == line + CrLf + rest;
        Some(([s[0]] + line, rest))
  }

  /** Splits text made of CRLF-terminated lines; None when text is left after the last CRLF. */
  function SplitLines(s: string): (r: Option<seq<string>>)
    ensures r.Some? ==> JoinLines(r.value) == s
    ensures r.Some? ==> forall k :: 0 <= k < |r.value| ==> FreeOfCrLf(r.value[k])
    decreases |s|
  {
    if s == [] then Some([])
    else match FirstLine(s)
      case None => None
      case Some((line, rest)) =>
        match SplitLines(rest)
        case None => None
        case Some(lines) =>
          assert ([line] + lines)[1..] == lines;
          Some([line] + lines)
  }

  lemma {:induction false} FirstLineOf(line: string, rest: string)
    requires FreeOfCrLf(line)
    ensures FirstLine(line + CrLf + rest) == Some((line, rest))
    decreases |line|
  {
    var s := line + CrLf + rest;
    if line != [] {
      assert s[1..] == line[1..] + CrLf + rest;
      assert FreeOfCrLf(line[1..]) by {
        forall k | 0 <= k < |line[1..]| - 1
          ensures !(line[1..][k] == '\r' && line[1..][k + 1] == '\n')
        {
          assert line[1..][k] == line[k + 1] && line[1..][k + 1] == line[k + 2];
        }
      }
      assert !(s[0] == '\r' && s[1] == '\n') by {
        if |line| >= 2 {
          assert s[0] == line[0] && s[1] == line[1];
        }
      }
      FirstLineOf(line[1..], rest);
      assert [s[0]] + line[1..] == line;
    }
  }

  lemma {:induction false} SplitJoinLines(lines: seq<string>)
    requires forall k :: 0 <= k < |lines| ==> FreeOfCrLf(lines[k])
    ensures SplitLines(JoinLines(lines)) == Some(lines)
    decreases |lines|
  {
    if lines != [] {
      FirstLineOf(lines[0], JoinLines(lines[1..]));
      SplitJoinLines(lines[1..]);
      assert [lines[0]] + lines[1..] == lines;
    }
  }

  // ---------------------------------------------------------------- the reference parser

  function StripPrefix(prefix: string, s: string): (r: Option<string>)
    ensures r.Some? <==> |prefix| <= |s| && s[..|prefix|] == prefix
    ensures r.Some? ==> s == prefix + r.value
  {
    if |prefix| <= |s| && s[..|prefix|] == prefix then Some(s[|prefix|..]) else None
  }

  /** Reads `Reference<from>`, `Reference<from+1>`, ... headers in order. */
  function ParseReferences(lines: seq<string>, from: nat): (r: Option<seq<string>>)
    ensures r.Some? ==> |r.value| == |lines|
    decreases |lines|
  {
    if lines == [] then Some([])
    else match StripPrefix("Reference" + DecimalString(from) + ": ", lines[0])
      case None => None
      case Some(value) =>
        match ParseReferences(lines[1..], from + 1)
        case None => None
        case Some(values) => Some([value] + values)
  }

  /** Recovers the notification from a request text; None when the text is not a request. */
  function ParseRequest(s: string): Option<Notification> {
    match SplitLines(s)
    case None => None
    case Some(lines) =>
      if |lines| < 5 || lines[0] != VersionLine || lines[|lines| - 1] != "" then None
      else
        var sender := StripPrefix("Sender: ", lines[1]);
        var eventName := StripPrefix("Event: ", lines[2]);
        var references := ParseReferences(lines[3..|lines| - 2], 0);
        var charset := StripPrefix("Charset: ", lines[|lines| - 2]);
        if sender.None? || eventName.None? || references.None? || charset.None? then None
        else Some(Notification(sender.value, eventName.value, references.value, charset.value))
  }

  // ---------------------------------------------------------------- properties of the request

  lemma StripPrefixOf(prefix: string, value: string)
    ensures StripPrefix(prefix, prefix + value) == Some(value)
  {
    assert (prefix + value)[..|prefix|] == prefix;
  }

  lemma {:induction false} ParseReferenceLines(lines: seq<string>, from: nat, references: seq<string>)
    requires |lines| == |references|
    requires forall k :: 0 <= k < |lines| ==> lines[k] == ReferenceLine(from + k, references[k])
    ensures ParseReferences(lines, from) == Some(references)
    decreases |lines|
  {
    if lines != [] {
      StripPrefixOf("Reference" + DecimalString(from) + ": ", references[0]);
      assert lines[0] == ("Reference" + DecimalString(from) + ": ") + references[0];
      ParseReferenceLines(lines[1..], from + 1, references[1..]);
      assert [references[0]] + references[1..] == references;
    }
  }

  /** A line made of a CRLF-free prefix ending in a space and a CRLF-free value is CRLF-free. */
  lemma FreeOfCrLfAfterSpace(prefix: string, value: string)
    requires FreeOfCrLf(prefix) && FreeOfCrLf(value)
    requires |prefix| > 0 && prefix[|prefix| - 1] == ' '
    ensures FreeOfCrLf(prefix + value)
  {
    var s := prefix + value;
    forall k | 0 <= k < |s| - 1
      ensures !(s[k] == '\r' && s[k + 1] == '\n')
    {
      if k + 1 < |prefix| {
        assert s[k] == prefix[k] && s[k + 1] == prefix[k + 1];
      } else if k + 1 == |prefix| {
        assert s[k] == ' ';
      } else {
        assert s[k] == value[k - |prefix|] && s[k + 1] == value[k + 1 - |prefix|];
      }
    }
  }

  lemma FreeOfCrLfWithoutCr(s: string)
    requires FreeOfCr(s)
    ensures FreeOfCrLf(s)
  {
  }

  lemma ReferenceLineFreeOfCrLf(i: nat, value: string)
    requires FreeOfCrLf(value)
    ensures FreeOfCrLf(ReferenceLine(i, value))
  {
    var d := DecimalString(i);
    var prefix := "Reference" + d + ": ";
    forall k | 0 <= k < |prefix| ensures prefix[k] != '\r' {
      if 9 <= k < 9 + |d| {
        assert prefix[k] == d[k - 9];
      } else if k < 9 {
        assert prefix[k] == "Reference"[k];
      } else {
        assert prefix[k] == ": "[k - 9 - |d|];
      }
    }
    FreeOfCrLfWithoutCr(prefix);
    FreeOfCrLfAfterSpace(prefix, value);
    assert ReferenceLine(i, value) == prefix + value;
  }

  /** The request always opens with the version, Sender and Event lines. */
  lemma RequestStartsWithHeader(sender: string, eventName: string, references: seq<string>, charset: string)
    ensures var head := "NOTIFY SSTP/1.1\r\n" + "Sender: " + sender + "\r\n" + "Event: " + eventName + "\r\n";
      |head| <= |Request(sender, eventName, references, charset)|
      && Request(sender, eventName, references, charset)[..|head|] == head
  {
    var head := "NOTIFY SSTP/1.1\r\n" + "Sender: " + sender + "\r\n" + "Event: " + eventName + "\r\n";
    HeaderText(sender, eventName);
    JoinLinesAppend(HeaderLines(sender, eventName), ReferenceLines(references) + ["Charset: " + charset, ""]);
    assert RequestLines(sender, eventName, references, charset)
        == HeaderLines(sender, eventName) + (ReferenceLines(references) + ["Charset: " + charset, ""]);
  }

  lemma HeaderText(sender: string, eventName: string)
    ensures JoinLines(HeaderLines(sender, eventName))
         == "NOTIFY SSTP/1.1\r\n" + "Sender: " + sender + "\r\n" + "Event: " + eventName + "\r\n"
  {
    var h := HeaderLines(sender, eventName);
    assert h[1..] == ["Sender: " + sender, "Event: " + eventName];
    assert h[1..][1..] == ["Event: " + eventName];
    assert h[1..][1..][1..] == [];
    assert JoinLines(h[1..][1..]) == "Event: " + eventName + CrLf;
    assert JoinLines(h[1..]) == "Sender: " + sender + CrLf + ("Event: " + eventName + CrLf);
    assert JoinLines(h) == VersionLine + CrLf + ("Sender: " + sender + CrLf + ("Event: " + eventName + CrLf));
  }

  lemma CharsetText(charset: string)
    ensures JoinLines(["Charset: " + charset, ""]) == "Charset: " + charset + "\r\n\r\n"
  {
    var t := ["Charset: " + charset, ""];
    assert t[1..] == [""];
    assert [""][1..] == [];
    assert JoinLines(t[1..]) == "\r\n";
  }

  /** The request always closes with the Charset line and the empty line, right after the
      last Reference line. */
  lemma RequestEndsWithCharset(sender: string, eventName: string, references: seq<string>, charset: string)
    ensures var tail := "Charset: " + charset + "\r\n\r\n";
      var r := Request(sender, eventName, references, charset);
      r == JoinLines(HeaderLines(sender, eventName) + ReferenceLines(references)) + tail
      && |tail| <= |r| && r[|r| - |tail|..] == tail
  {
    var body := HeaderLines(sender, eventName) + ReferenceLines(references);
    JoinLinesAppend(body, ["Charset: " + charset, ""]);
    CharsetText(charset);
  }

  /** With no references the Charset line follows the Event line directly. */
  lemma RequestWithoutReferences(sender: string, eventName: string, charset: string)
    ensures Request(sender, eventName, [], charset)
         == "NOTIFY SSTP/1.1\r\n" + "Sender: " + sender + "\r\n" + "Event: " + eventName + "\r\n"
          + "Charset: " + charset + "\r\n\r\n"
  {
    RequestEndsWithCharset(sender, eventName, [], charset);
    assert HeaderLines(sender, eventName) + ReferenceLines([]) == HeaderLines(sender, eventName);
    HeaderText(sender, eventName);
    assert Request(sender, eventName, [], charset)
        == JoinLines(HeaderLines(sender, eventName)) + ("Charset: " + charset + "\r\n\r\n");
  }

  /** Where each header sits among the request's lines. */
  lemma RequestLinesAt(sender: string, eventName: string, references: seq<string>, charset: string)
    ensures var lines := RequestLines(sender, eventName, references, charset);
      var n := |references|;
      |lines| == 5 + n
      && lines[0] == VersionLine && lines[1] == "Sender: " + sender && lines[2] == "Event: " + eventName
      && (forall i :: 0 <= i < n ==> lines[3 + i] == ReferenceLine(i, references[i]))
      && lines[3 + n] == "Charset: " + charset && lines[4 + n] == ""
  {
  }

  /** The request is 4 + n non-empty lines and one empty line: the version, Sender and Event
      lines, the n Reference lines in argument order with unpadded decimal indices, and the
      Charset line; exactly the lines at 3 .. 3+n are Reference headers. */
  lemma RequestLineStructure(sender: string, eventName: string, references: seq<string>, charset: string)
    ensures var lines := RequestLines(sender, eventName, references, charset);
      var n := |references|;
      |lines| == 5 + n
      && (forall i :: 0 <= i < n ==> lines[3 + i] == "Reference" + DecimalString(i) + ": " + references[i])
      && (forall j :: 0 <= j < 4 + n ==> lines[j] != "")
      && lines[4 + n] == ""
      && (forall j :: 0 <= j < |lines| ==> (IsReferenceHeader(lines[j]) <==> 3 <= j < 3 + n))
  {
    var lines := RequestLines(sender, eventName, references, charset);
    var n := |references|;
    RequestLinesAt(sender, eventName, references, charset);
    forall j | 0 <= j < |lines|
      ensures IsReferenceHeader(lines[j]) <==> 3 <= j < 3 + n
      ensures j < 4 + n ==> lines[j] != ""
    {
      if 3 <= j < 3 + n {
        assert lines[j] == ReferenceLine(j - 3, references[j - 3]);
        assert lines[j][..9] == "Reference";
      } else if j == 0 {
        assert lines[j][0] == 'N';
      } else if j == 1 {
        assert lines[j][0] == 'S';
      } else if j == 2 {
        assert lines[j][0] == 'E';
      } else if j == 3 + n {
        assert lines[j][0] == 'C';
      }
    }
  }

  /** A header line that starts with "Reference". */
  predicate IsReferenceHeader(line: string) {
    |line| >= 9 && line[..9] == "Reference"
  }

  /** Every line of a request is free of CRLF when every value is. */
  lemma RequestLinesFreeOfCrLf(sender: string, eventName: string, references: seq<string>, charset: string)
    requires FreeOfCrLf(sender) && FreeOfCrLf(eventName) && FreeOfCrLf(charset)
    requires forall i :: 0 <= i < |references| ==> FreeOfCrLf(references[i])
    ensures var lines := RequestLines(sender, eventName, references, charset);
      forall k :: 0 <= k < |lines| ==> FreeOfCrLf(lines[k])
  {
    var lines := RequestLines(sender, eventName, references, charset);
    var n := |references|;
    RequestLinesAt(sender, eventName, references, charset);
    forall k | 0 <= k < |lines| ensures FreeOfCrLf(lines[k]) {
      if k == 0 {
        FreeOfCrLfWithoutCr(VersionLine);
      } else if k == 1 {
        FreeOfCrLfWithoutCr("Sender: ");
        FreeOfCrLfAfterSpace("Sender: ", sender);
      } else if k == 2 {
        FreeOfCrLfWithoutCr("Event: ");
        FreeOfCrLfAfterSpace("Event: ", eventName);
      } else if k < 3 + n {
        ReferenceLineFreeOfCrLf(k - 3, references[k - 3]);
      } else if k == 3 + n {
        FreeOfCrLfWithoutCr("Charset: ");
        FreeOfCrLfAfterSpace("Charset: ", charset);
      }
    }
  }

  /** Framing round trip: when no value holds a CRLF, splitting the request on CRLF gives
      back its lines and parsing them gives back the sender, event, references (in order)
      and charset. */
  lemma ParseRequestRoundTrip(sender: string, eventName: string, references: seq<string>, charset: string)
    requires FreeOfCrLf(sender) && FreeOfCrLf(eventName) && FreeOfCrLf(charset)
    requires forall i :: 0 <= i < |references| ==> FreeOfCrLf(references[i])
    ensures SplitLines(Request(sender, eventName, references, charset))
         == Some(RequestLines(sender, eventName, references, charset))
    ensures ParseRequest(Request(sender, eventName, references, charset))
         == Some(Notification(sender, eventName, references, charset))
  {
    var lines := RequestLines(sender, eventName, references, charset);
    RequestLinesFreeOfCrLf(sender, eventName, references, charset);
    SplitJoinLines(lines);
    assert SplitLines(Request(sender, eventName, references, charset)) == Some(lines);
    RequestFieldsParse(sender, eventName, references, charset);
  }

  /** Each header of the request reads back as the value it was built from. */
  lemma RequestFieldsParse(sender: string, eventName: string, references: seq<string>, charset: string)
    ensures var lines := RequestLines(sender, eventName, references, charset);
      |lines| >= 5 && lines[0] == VersionLine && lines[|lines| - 1] == ""
      && StripPrefix("Sender: ", lines[1]) == Some(sender)
      && StripPrefix("Event: ", lines[2]) == Some(eventName)
      && ParseReferences(lines[3..|lines| - 2], 0) == Some(references)
      && StripPrefix("Charset: ", lines[|lines| - 2]) == Some(charset)
  {
    var lines := RequestLines(sender, eventName, references, charset);
    RequestLinesAt(sender, eventName, references, charset);
    StripPrefixOf("Sender: ", sender);
    StripPrefixOf("Event: ", eventName);
    StripPrefixOf("Charset: ", charset);
    assert lines[3..|lines| - 2] == ReferenceLines(references);
    ParseReferenceLines(lines[3..|lines| - 2], 0, references);
  }

  /** Two notifications are framed as the same request exactly when they are equal
      (when none of their values holds a CRLF). */
  lemma RequestInjective(a: Notification, b: Notification)
    requires FreeOfCrLf(a.sender) && FreeOfCrLf(a.eventName) && FreeOfCrLf(a.charset)
    requires forall i :: 0 <= i < |a.references| ==> FreeOfCrLf(a.references[i])
    requires FreeOfCrLf(b.sender) && FreeOfCrLf(b.eventName) && FreeOfCrLf(b.charset)
    requires forall i :: 0 <= i < |b.references| ==> FreeOfCrLf(b.references[i])
    ensures (Request(a.sender, a.eventName, a.references, a.charset)
             == Request(b.sender, b.eventName, b.references, b.charset)) <==> a == b
  {
    ParseRequestRoundTrip(a.sender, a.eventName, a.references, a.charset);
    ParseRequestRoundTrip(b.sender, b.eventName, b.references, b.charset);
  }

  /** An example request, line by line: sender `GIPS.NET`, event `OnGIPSStart`,
      references `0.1` and `0`. The text is these lines, each followed by CRLF. */
  lemma StartRequestExample()
    ensures RequestLines("GIPS.NET", "OnGIPSStart", ["0.1", "0"], "Shift-JIS")
         == ["NOTIFY SSTP/1.1", "Sender: GIPS.NET", "Event: OnGIPSStart",
             "Reference0: 0.1", "Reference1: 0", "Charset: Shift-JIS", ""]
  {
    assert DecimalString(0) == "0" && DecimalString(1) == "1";
    assert ReferenceLine(0, "0.1") == "Reference0: 0.1";
    assert ReferenceLine(1, "0") == "Reference1: 0";
    assert ReferenceLines(["0.1", "0"]) == ["Reference0: 0.1", "Reference1: 0"];
    assert "Sender: " + "GIPS.NET" == "Sender: GIPS.NET";
    assert "Event: " + "OnGIPSStart" == "Event: OnGIPSStart";
    assert "Charset: " + "Shift-JIS" == "Charset: Shift-JIS";
  }
}
