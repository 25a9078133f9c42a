/** `UkagakaSSTPConnection`: a client that frames one SSTP/1.1 NOTIFY request per call and
    hands it to a fresh TCP connection. The encode-connect-write-read sequence of `Send` is
    a parameter (`Transport`), since it is network I/O and a foreign codec. */
module SstpConnection {
  import opened Wrappers
  import opened Text
  import opened SstpRequest

  /** The ways the transport step can raise: the charset has no encoder, the connection
      cannot be opened, or writing or reading the stream fails. */
  datatype TransportError = EncodingUnavailable | ConnectFailed | StreamFailed

  /** What one request does on the wire: either a (possibly absent) reply line was read,
      or an exception was raised. */
  datatype TransportOutcome = Replied(line: Option<string>) | Failed(error: TransportError)

  /** The transport step for (host, port, charset, request text). */
  type Transport = (string, int, string, string) -> TransportOutcome

  const DefaultHost: string := "127.0.0.1"
  const DefaultPort: int := 9801
  const DefaultCharset: string := "Shift-JIS"

  class UkagakaSSTPConnection {
    // Set once at construction and never reassigned.
    const sender: string
    const address: string
    const charset: string := DefaultCharset
    const port: int

    /** Only the sender is required; host and port default to the local companion
        listener, and the charset is always Shift-JIS. */
    constructor (sender: string, hostname: string := DefaultHost, port: int := DefaultPort)
      ensures this.sender == sender && address == hostname && this.port == port
      ensures charset == DefaultCharset
    {
      this.sender := sender;
      this.port := port;
      address := hostname;
    }

    /** Frames a NOTIFY request for `eventName` with one `Reference<i>` header per element
        of `reference`, and sends it. `request` is the text handed to the transport. The
        result is "" whenever the transport completes, whatever the listener replied; a
        transport failure propagates, as no handler surrounds the call. */
    method SendNotify1_1(eventName: string, reference: seq<string>, transport: Transport)
      returns (request: string, response: Result<string, TransportError>)
      ensures request == Request(sender, eventName, reference, charset)
      ensures |request| >= |"Charset: Shift-JIS\r\n\r\n"|
        && request[|request| - |"Charset: Shift-JIS\r\n\r\n"|..] == "Charset: Shift-JIS\r\n\r\n"
      ensures transport(address, port, charset, request).Replied? ==> response == Success("")
      ensures transport(address, port, charset, request).Failed?
        ==> response == Failure(transport(address, port, charset, request).error)
    {
      var sendDataStr := "NOTIFY SSTP/1.1\r\n" + "Sender: " + sender + "\r\n" + "Event: " + eventName + "\r\n";
      var sb := sendDataStr;
      HeaderText(sender, eventName);
      assert HeaderLines(sender, eventName) + ReferenceLines(reference[..0]) == HeaderLines(sender, eventName);
      for i := 0 to |reference|
        invariant sb == JoinLines(HeaderLines(sender, eventName) + ReferenceLines(reference[..i]))
      {
        sb := sb + "Reference";
        sb := sb + DecimalString(i);
        sb := sb + ": ";
        sb := sb + reference[i];
        sb := sb + "\r\n";
        ReferenceLinesSnoc(reference, i);
        JoinLinesSnoc(HeaderLines(sender, eventName) + ReferenceLines(reference[..i]), ReferenceLine(i, reference[i]));
        assert HeaderLines(sender, eventName) + ReferenceLines(reference[..i + 1])
            == HeaderLines(sender, eventName) + ReferenceLines(reference[..i]) + [ReferenceLine(i, reference[i])];
      }
      sb := sb + ("Charset: " + charset + "\r\n\r\n");
      assert reference[..|reference|] == reference;
      RequestEndsWithCharset(sender, eventName, reference, charset);
      assert "Charset: " + charset + "\r\n\r\n" == "Charset: Shift-JIS\r\n\r\n";
      request := sb;
      response := Send(request, transport);
    }

    /** Sends the text and always answers "": the reply line read from the listener is
        discarded. Transport failures are not caught. */
    method Send(sendDataStr: string, transport: Transport) returns (response: Result<string, TransportError>)
      ensures transport(address, port, charset, sendDataStr).Replied? ==> response == Success("")
      ensures transport(address, port, charset, sendDataStr).Failed?
        ==> response == Failure(transport(address, port, charset, sendDataStr).error)
    {
      var outcome := transport(address, port, charset, sendDataStr);
      match outcome
      case Failed(e) =>
        response := Failure(e);
      case Replied(line) =>
        response := Success("");
    }
  }
}
