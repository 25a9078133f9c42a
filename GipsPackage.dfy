/** The decision rules of the Visual Studio debugger hook `GIPSPackage`: which message a
    mode change shows, when an unhandled exception is forwarded to the companion listener,
    and the `lineAt` text cut from the first stack-trace line. What the debugger reports
    (mode, last break reason, exception type and value, first stack-trace line, language)
    arrives as plain inputs. */
module GipsPackage {
  import opened Wrappers
  import opened Text
  import opened SstpRequest
  import opened SstpConnection

  /** The debugger's DBGMODE: a 32-bit enumeration whose top nibble holds the
      Edit-and-Continue flags. */
  type DbgMode = bv32

  const DbgModeDesign: DbgMode := 0
  const DbgModeBreak: DbgMode := 1
  const DbgModeRun: DbgMode := 2
  const DbgModeEnc: DbgMode := 0x1000_0000
  const DbgModeEncMask: DbgMode := 0xF000_0000

  /** The debugger's last break reason; only "exception not handled" is told apart. */
  datatype BreakReason = ExceptionNotHandled | OtherReason(code: int)

  /** What the debugger answers when the hook queries it. */
  datatype DebuggerState = DebuggerState(
    lastBreakReason: BreakReason,
    exceptionType: string,
    exceptionValue: string,
    firstStackTrace: string,
    language: string)

  /** The exceptions `OnModeChange` can raise: `Substring` out of range while cutting
      `lineAt`, or a failure of the notification's transport. */
  datatype HookFault = SubstringOutOfRange | TransportFault(error: TransportError)

  const ExceptionSender: string := "test"
  const ExceptionEvent: string := "OnExceptionOccured"

  /** `mode & ~DBGMODE_EncMask`: clears exactly the Edit-and-Continue bits. */
  function ClearEnc(mode: DbgMode): (r: DbgMode)
    ensures r & DbgModeEncMask == 0
    ensures r | (mode & DbgModeEncMask) == mode
  {
    mode & !DbgModeEncMask
  }

  /** The line `ShowMode` writes for a mode. */
  function ModeMessage(mode: DbgMode): string {
    var m := ClearEnc(mode);
    if m == DbgModeDesign then "Entered mode: Design"
    else if m == DbgModeBreak then "Entered mode: Break"
    else if m == DbgModeRun then "Entered mode: Run"
    else ""
  }

  /** The message for the mode with its Edit-and-Continue bits cleared: one of the three
      known modes, or "" for anything else. This is the imperative rendering of
      `ModeMessage`, which the lemmas below use; the four clauses determine it. */
  method ShowMode(mode: DbgMode) returns (msg: string)
    ensures msg == "Entered mode: Design" <==> ClearEnc(mode) == DbgModeDesign
    ensures msg == "Entered mode: Break" <==> ClearEnc(mode) == DbgModeBreak
    ensures msg == "Entered mode: Run" <==> ClearEnc(mode) == DbgModeRun
    ensures msg == "" <==> ClearEnc(mode) !in {DbgModeDesign, DbgModeBreak, DbgModeRun}
  {
    msg := "";
    var m := mode & !DbgModeEncMask;
    if m == DbgModeDesign {
      msg := "Entered mode: Design";
    } else if m == DbgModeBreak {
      msg := "Entered mode: Break";
    } else if m == DbgModeRun {
      msg := "Entered mode: Run";
    }
  }

  /** Setting any Edit-and-Continue bits leaves the message unchanged, and clearing them
      twice is clearing them once. */
  lemma ModeMessageIgnoresEnc(mode: DbgMode, enc: DbgMode)
    ensures ModeMessage(mode | (enc & DbgModeEncMask)) == ModeMessage(mode)
    ensures ClearEnc(ClearEnc(mode)) == ClearEnc(mode)
  {
    assert ClearEnc(mode | (enc & DbgModeEncMask)) == ClearEnc(mode);
  }

  /** The hook forwards an exception only for the unmasked Break mode after an unhandled
      exception; unlike `ShowMode`, it does not clear the Edit-and-Continue bits. */
  predicate NotifiesException(dbgmodeNew: DbgMode, reason: BreakReason) {
    dbgmodeNew == DbgModeBreak && reason == ExceptionNotHandled
  }

  /** Break with the Edit-and-Continue flag set shows "Break" but forwards nothing, while
      every forwarding mode change shows "Break". */
  lemma EncBreakShowsBreakWithoutNotifying(mode: DbgMode, reason: BreakReason)
    ensures ModeMessage(DbgModeBreak | DbgModeEnc) == "Entered mode: Break"
    ensures !NotifiesException(DbgModeBreak | DbgModeEnc, reason)
    ensures NotifiesException(mode, reason) ==> ModeMessage(mode) == "Entered mode: Break"
  {
  }

  /** `lineAt`: the text between one past the last space (0 when there is none) and the
      last double quote; None stands for the ArgumentOutOfRangeException `Substring`
      raises when that quote does not come after the last space, or there is no quote. */
  function LineAt(firstStackTrace: string): (r: Option<string>)
    ensures var start := LastIndexOf(firstStackTrace, ' ') + 1;
      var end := LastIndexOf(firstStackTrace, '"');
      (r.Some? <==> start <= end) && (r.Some? ==> r.value == firstStackTrace[start..end])
    ensures '"' !in firstStackTrace ==> r.None?
    ensures r.Some? ==> ' ' !in r.value
  {
    var start := LastIndexOf(firstStackTrace, ' ') + 1;
    var end := LastIndexOf(firstStackTrace, '"');
    Substring(firstStackTrace, start, end - start)
  }

  /** The debugger shows a stack-trace line as a quoted string; when it ends in a space,
      a text without spaces or quotes (the line number) and the closing quote, `lineAt`
      is that text. */
  lemma LineAtOfQuotedFrame(prefix: string, num: string)
    requires ' ' !in num && '"' !in num
    ensures LineAt(prefix + " " + num + "\"") == Some(num)
  {
    var s := prefix + " " + num + "\"";
    assert s[|s| - 1] == '"';
    assert LastIndexOf(s, '"') == |s| - 1;
    assert s[|prefix|] == ' ';
    forall k | |prefix| < k < |s| ensures s[k] != ' ' {
      if k < |s| - 1 {
        assert s[k] == num[k - |prefix| - 1];
      }
    }
    assert LastIndexOf(s, ' ') == |prefix|;
    assert s[|prefix| + 1..|s| - 1] == num;
  }

  /** The request that reports an exception: sender "test", event "OnExceptionOccured",
      the exception type as the only reference. */
  function ExceptionRequest(exceptionType: string): string {
    Request(ExceptionSender, ExceptionEvent, [exceptionType], DefaultCharset)
  }

  /** That request has exactly one Reference header, `Reference0`, carrying the type. */
  lemma ExceptionRequestShape(exceptionType: string)
    ensures var lines := RequestLines(ExceptionSender, ExceptionEvent, [exceptionType], DefaultCharset);
      |lines| == 6 && lines[3] == "Reference0: " + exceptionType
      && forall j :: 0 <= j < |lines| ==> (IsReferenceHeader(lines[j]) <==> j == 3)
  {
    RequestLineStructure(ExceptionSender, ExceptionEvent, [exceptionType], DefaultCharset);
    assert DecimalString(0) == "0";
  }

  /** Handles a debugger mode change: shows the mode, and on Break after an unhandled
      exception cuts `lineAt` and sends the exception notification through a new
      connection with the default endpoint. Returns 0 on every path that does not raise;
      `notification` is the request handed to the transport, if any. */
  method OnModeChange(dbgmodeNew: DbgMode, debugger: DebuggerState, transport: Transport)
    returns (shown: string, notification: Option<string>, result: Result<int, HookFault>)
    ensures shown == ModeMessage(dbgmodeNew)
    ensures result.Success? ==> result.value == 0
    ensures !NotifiesException(dbgmodeNew, debugger.lastBreakReason)
      ==> notification == None && result == Success(0)
    ensures NotifiesException(dbgmodeNew, debugger.lastBreakReason) && LineAt(debugger.firstStackTrace).None?
      ==> notification == None && result == Failure(SubstringOutOfRange)
    ensures NotifiesException(dbgmodeNew, debugger.lastBreakReason) && LineAt(debugger.firstStackTrace).Some?
      ==> notification == Some(ExceptionRequest(debugger.exceptionType))
          && var outcome := transport(DefaultHost, DefaultPort, DefaultCharset, ExceptionRequest(debugger.exceptionType));
          result == if outcome.Failed? then Failure(TransportFault(outcome.error)) else Success(0)
  {
    shown := ShowMode(dbgmodeNew);
    notification := None;
    if dbgmodeNew == DbgModeBreak && debugger.lastBreakReason == ExceptionNotHandled {
      var exceptionType := debugger.exceptionType;
      var lineAt := LineAt(debugger.firstStackTrace);
      if lineAt.None? {
        return shown, None, Failure(SubstringOutOfRange);
      }
      var ukgkConn := new UkagakaSSTPConnection(ExceptionSender);
      var request, response := ukgkConn.SendNotify1_1(ExceptionEvent, [exceptionType], transport);
      notification := Some(request);
      if response.Failure? {
        return shown, notification, Failure(TransportFault(response.error));
      }
    }
    result := Success(0);
  }
}
