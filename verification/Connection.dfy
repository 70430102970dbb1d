/** The connection class: the receive loop, sending, the loop of a server connection, and requests
    received end to end, singly and as a stream. The socket is represented by the results its calls
    return. */
module Connection {
  import opened Strings
  import opened Framing
  import opened HttpTokens
  import RequestGrammar
  import RequestTheorems
  import ResponseGrammar
  import ResponseTheorems
  import opened HttpRequest

  const SOCKET_ERROR: int := -1

  /** The code `send_raw_message` returns. */
  datatype SendCode = Sent | SendFailed(code: int) | MessageSize

  /** What `receive_request` returns: a request, the error of the connection, the parse error, the
      exception of the parser, or nothing yet. */
  datatype ReceivedRequest =
    | Accepted(request: RequestGrammar.Request)
    | Refused(error: Error)
    | Thrown
    | Disconnected(reason: Received)

  /** A signed 32-bit value converted to `size_t`. */
  function ToSize(n: int): nat {
    n % SIZE_MODULUS
  }

  /** A `size_t` converted to a signed 32-bit value. */
  function ToInt(n: nat): int {
    var low := n % 0x1_0000_0000;
    if low < 0x8000_0000 then low else low - 0x1_0000_0000
  }

  function RequestOf(received: Received): ReceivedRequest {
    match received
    case Message(text) =>
      (match RequestGrammar.ParseRequest(text)
       case Ok(request) => Accepted(request)
       case Err(e) => Refused(e)
       case OutOfRange => Thrown)
    case _ => Disconnected(received)
  }

  /** What `n` calls of `receive_request` in a row return, and what they leave on the connection. */
  function Requests(script: seq<RecvResult>, n: nat): (seq<ReceivedRequest>, seq<RecvResult>)
    decreases n
  {
    if n == 0 then ([], script)
    else
      var (received, left) := Outcome(script);
      var (more, rest) := Requests(left, n - 1);
      ([RequestOf(received)] + more, rest)
  }

  function AcceptedAll(requests: seq<RequestGrammar.Request>): (r: seq<ReceivedRequest>)
    ensures |r| == |requests|
  {
    seq(|requests|, i requires 0 <= i < |requests| => Accepted(requests[i]))
  }

  lemma {:induction false} OneMoreRequest(script: seq<RecvResult>, n: nat)
    ensures var (all, left) := Requests(script, n);
            var (received, rest) := Outcome(left);
            Requests(script, n + 1) == (all + [RequestOf(received)], rest)
    decreases n
  {
    hide Outcome, RequestOf;
    var (received, left) := Outcome(script);
    if n > 0 {
      OneMoreRequest(left, n - 1);
      var (more, rest) := Requests(left, n - 1);
      var last := RequestOf(Outcome(rest).0);
      assert Requests(script, n) == ([RequestOf(received)] + more, rest);
      assert [RequestOf(received)] + (more + [last]) == ([RequestOf(received)] + more) + [last];
    } else {
      assert Requests(left, 0) == ([], left);
      assert [RequestOf(received)] + [] == [] + [RequestOf(received)];
    }
  }

  lemma NoneYet(script: seq<RecvResult>)
    ensures Requests(script, 0) == (AcceptedAll([]), script)
  {
  }

  lemma OneMoreAccepted(requests: seq<RequestGrammar.Request>, r: RequestGrammar.Request)
    ensures AcceptedAll(requests + [r]) == AcceptedAll(requests) + [Accepted(r)]
  {
  }

  /** Every message that is received before the first failure is shorter than 2^64 characters. */
  predicate MessagesFit(script: seq<RecvResult>)
    decreases |script|
  {
    var (received, left) := Outcome(script);
    received.Message? ==>
      |received.text| < SIZE_MODULUS && (RequestOf(received).Accepted? ==> MessagesFit(left))
  }

  lemma NextMessage(script: seq<RecvResult>)
    requires MessagesFit(script)
    ensures var (received, left) := Outcome(script);
            && (received.Message? ==> |received.text| < SIZE_MODULUS)
            && (RequestOf(received).Accepted? ==> |left| < |script| && MessagesFit(left))
  {
  }

  /** The conversions between `int` and `size_t`: -1 becomes the largest `size_t`, and a size keeps its
      lowest 32 bits. */
  lemma Conversions(n: int, size: nat)
    ensures -0x8000_0000 <= n < 0 ==> ToSize(n) == 0x1_0000_0000_0000_0000 + n
    ensures 0 <= n < 0x8000_0000 ==> ToSize(n) == n
    ensures -0x8000_0000 <= ToInt(size) < 0x8000_0000 && (size - ToInt(size)) % 0x1_0000_0000 == 0
  {
  }

  class Connection {
    /** The results the next calls of `recv` will yield. */
    var incoming: seq<RecvResult>

    constructor (incoming: seq<RecvResult>)
      ensures this.incoming == incoming
    {
      this.incoming := incoming;
    }

    ghost predicate Valid()
      reads this
    {
      forall i | 0 <= i < |incoming| :: Possible(incoming[i])
    }

    /** One call of `recv`: it overwrites the start of the buffer and returns a count, or an error. */
    method Recv(buffer: array<char>) returns (count: int, code: int)
      requires Valid() && incoming != [] && buffer.Length == CHUNK_SIZE
      modifies this, buffer
      ensures Valid() && incoming == old(incoming)[1..]
      ensures match old(incoming)[0]
              case Data(bytes) => count == |bytes| && buffer[..count] == bytes
              case Closed => count == 0
              case Failed(c) => count == -1 && code == c
    {
      var r := incoming[0];
      assert Possible(r);
      incoming := incoming[1..];
      count, code := 0, 0;
      match r
      case Data(bytes) =>
        while count < |bytes|
          invariant 0 <= count <= |bytes|
          invariant buffer[..count] == bytes[..count]
          modifies buffer
        {
          buffer[count] := bytes[count];
          count := count + 1;
        }
      case Closed =>
      case Failed(c) =>
        count, code := SOCKET_ERROR, c;
    }

    /** The receive loop: the message is what the framing says, for every script of results. */
    method ReceiveRawMessage() returns (r: Received)
      requires Valid()
      modifies this
      ensures Valid() && (r, incoming) == Outcome(old(incoming))
      ensures exists n: nat ::
                && n <= |old(incoming)|
                && (forall i | 0 <= i < n :: old(incoming)[i].Data? && |old(incoming)[i].bytes| == 1024)
                && if n == |old(incoming)| then r == Waiting && incoming == []
                   else
                     && incoming == old(incoming)[n + 1..]
                     && match old(incoming)[n]
                        case Data(bytes) => |bytes| < 1024 && r == Message(Glue(old(incoming)[..n]) + bytes)
                        case Closed => r == ConnectionReset
                        case Failed(code) => r == SocketError(code)
    {
      GlueNone();
      hide Glue, FullPrefix;
      var buffer := new char[CHUNK_SIZE];
      var message := "";
      ghost var script, n := incoming, 0;
      while true
        invariant Valid() && n <= |script| && incoming == script[n..]
        invariant forall i | 0 <= i < n :: Full(script[i])
        invariant message == Glue(script[..n])
        decreases |incoming|
      {
        if incoming == [] {
          FullPrefixIs(script, n);
          return Waiting;
        }
        ghost var result := incoming[0];
        assert result == script[n] && Possible(result);
        var count, code := Recv(buffer);
        var bytesReceived := ToSize(count);
        assert incoming == script[n + 1..];
        if bytesReceived == 0 {
          FullPrefixIs(script, n);
          return ConnectionReset;
        }
        if bytesReceived == ToSize(SOCKET_ERROR) {
          FullPrefixIs(script, n);
          return SocketError(code);
        }
        message := message + buffer[..bytesReceived];
        GlueAppend(script[..n], result);
        assert script[..n] + [result] == script[..n + 1];
        if bytesReceived < buffer.Length {
          FullPrefixIs(script, n);
          return Message(message);
        }
        n := n + 1;
      }
    }

    /** Receiving a request: the loop, then the parser. */
    method ReceiveRequest() returns (r: ReceivedRequest)
      requires Valid()
      requires var r := Outcome(incoming).0; r.Message? ==> |r.text| < SIZE_MODULUS
      modifies this
      ensures Valid()
      ensures incoming == Outcome(old(incoming)).1 && r == RequestOf(Outcome(old(incoming)).0)
      ensures var received := Outcome(old(incoming)).0;
              if !received.Message? then r == Disconnected(received)
              else
                match RequestGrammar.ParseRequest(received.text)
                case Ok(request) => r == Accepted(request)
                case Err(e) => r == Refused(e)
                case OutOfRange => r == Thrown
    {
      var received := ReceiveRawMessage();
      match received
      case Message(text) =>
        var result := HttpRequest.Parse(text);
        match result {
          case Ok(request) =>
            return Accepted(request.Value());
          case Err(e) =>
            return Refused(e);
          case OutOfRange =>
            return Thrown;
        }
      case _ =>
        return Disconnected(received);
    }

    /** The loop of a server connection: requests are received until the first failure, or until the
        results are used up and the call still waits. */
    method Start() returns (end: ReceivedRequest, ghost accepted: seq<RequestGrammar.Request>)
      requires Valid() && MessagesFit(incoming)
      modifies this
      ensures Valid() && !end.Accepted?
      ensures Requests(old(incoming), |accepted| + 1) == (AcceptedAll(accepted) + [end], incoming)
    {
      hide Outcome, RequestOf, Requests, MessagesFit, AcceptedAll, Possible, RequestGrammar.ParseRequest;
      accepted := [];
      NoneYet(incoming);
      while true
        invariant Valid() && MessagesFit(incoming)
        invariant Requests(old(incoming), |accepted|) == (AcceptedAll(accepted), incoming)
        decreases |incoming|
      {
        ghost var before := incoming;
        NextMessage(before);
        end := ReceiveRequest();
        OneMoreRequest(old(incoming), |accepted|);
        if !end.Accepted? {
          return;
        }
        OneMoreAccepted(accepted, end.request);
        accepted := accepted + [end.request];
      }
    }

    /** Sending is all or nothing for the caller: only a `send` that took the whole message counts as
        success. `sent` and `code` are what `send` and the error query return; `send` is given the
        length as a signed 32-bit value and takes no more than that. */
    method SendRawMessage(rawMessage: string, sent: int, code: int) returns (r: SendCode)
      requires |rawMessage| < SIZE_MODULUS
      requires sent == -1 || 0 <= sent <= ToInt(|rawMessage|)
      ensures r == Sent <==> rawMessage == "" || sent == |rawMessage|
      ensures |rawMessage| >= 0x8000_0000 ==> r != Sent
      ensures rawMessage != "" && sent == -1 <==> r == SendFailed(code)
      ensures r != Sent && sent != -1 <==> r == MessageSize
    {
      if rawMessage == "" {
        return Sent;
      }
      var bytesSent := ToSize(sent);
      if bytesSent == ToSize(SOCKET_ERROR) {
        return SendFailed(code);
      }
      if bytesSent != |rawMessage| {
        return MessageSize;
      }
      return Sent;
    }
  }

  /** End to end: the text of a safe request, cut into full chunks and a short last one, is received
      and parsed as exactly that request, and whatever follows on the connection is untouched. */
  lemma EndToEnd(r: RequestGrammar.Request, script: seq<RecvResult>, later: seq<RecvResult>)
    requires RequestTheorems.SafeRequest(r)
    requires Chunks(script) && EndsShort(script) && Glue(script) == RequestGrammar.PrintRequest(r)
    ensures RequestOf(Outcome(script + later).0) == Accepted(r)
    ensures Outcome(script + later).1 == later
  {
    Delivered(script, later);
    RequestTheorems.RoundTrip(r);
  }

  /** The same on the way back: the text of a safe response is received and parsed as that response. */
  lemma ResponseEndToEnd(r: ResponseGrammar.Response, script: seq<RecvResult>, later: seq<RecvResult>)
    requires ResponseTheorems.SafeResponse(r)
    requires Chunks(script) && EndsShort(script) && Glue(script) == ResponseGrammar.PrintResponse(r)
    ensures Outcome(script + later) == (Message(ResponseGrammar.PrintResponse(r)), later)
    ensures ResponseGrammar.ParseResponse(Outcome(script + later).0.text) == Ok(r)
  {
    Delivered(script, later);
    ResponseTheorems.RoundTrip(r);
  }

  function Concat(scripts: seq<seq<RecvResult>>): seq<RecvResult> {
    if scripts == [] then [] else scripts[0] + Concat(scripts[1..])
  }

  /** The chunks carry the text of a safe request, and end short. */
  predicate Carries(script: seq<RecvResult>, r: RequestGrammar.Request) {
    && RequestTheorems.SafeRequest(r)
    && Chunks(script) && EndsShort(script) && Glue(script) == RequestGrammar.PrintRequest(r)
  }

  /** A whole stream: the texts of any list of safe requests, each cut into chunks that end short, are
      received one after the other as exactly that list, and whatever follows is untouched. */
  lemma {:induction false} StreamReceived(
    requests: seq<RequestGrammar.Request>, scripts: seq<seq<RecvResult>>, later: seq<RecvResult>)
    requires |requests| == |scripts| && forall i | 0 <= i < |scripts| :: Carries(scripts[i], requests[i])
    ensures Requests(Concat(scripts) + later, |requests|) == (AcceptedAll(requests), later)
  {
    hide Outcome, RequestOf, Carries;
    if requests == [] {
      assert [] + later == later;
    } else {
      var left := Concat(scripts[1..]) + later;
      assert Concat(scripts) + later == scripts[0] + left;
      FirstReceived(requests[0], scripts[0], left);
      StreamReceived(requests[1..], scripts[1..], later);
      assert AcceptedAll(requests) == [Accepted(requests[0])] + AcceptedAll(requests[1..]);
    }
  }

  lemma FirstReceived(r: RequestGrammar.Request, script: seq<RecvResult>, left: seq<RecvResult>)
    requires Carries(script, r)
    ensures RequestOf(Outcome(script + left).0) == Accepted(r) && Outcome(script + left).1 == left
  {
    EndToEnd(r, script, left);
  }

  lemma {:induction false} EarlierRequests(script: seq<RecvResult>, m: nat, n: nat)
    requires m <= n
    ensures |Requests(script, n).0| == n && Requests(script, m).0 == Requests(script, n).0[..m]
    decreases n
  {
    hide Outcome, RequestOf;
    if m > 0 {
      EarlierRequests(Outcome(script).1, m - 1, n - 1);
    } else if n > 0 {
      EarlierRequests(Outcome(script).1, 0, n - 1);
    }
  }

  /** What the loop of a server connection does with such a stream, followed by something that is no
      request: it accepts exactly the list, and ends with what follows. */
  lemma StreamServed(
    requests: seq<RequestGrammar.Request>, scripts: seq<seq<RecvResult>>, later: seq<RecvResult>,
    accepted: seq<RequestGrammar.Request>, end: ReceivedRequest, left: seq<RecvResult>)
    requires |requests| == |scripts| && forall i | 0 <= i < |scripts| :: Carries(scripts[i], requests[i])
    requires !RequestOf(Outcome(later).0).Accepted? && !end.Accepted?
    requires Requests(Concat(scripts) + later, |accepted| + 1) == (AcceptedAll(accepted) + [end], left)
    ensures accepted == requests && end == RequestOf(Outcome(later).0) && left == Outcome(later).1
  {
    hide Outcome, RequestOf, Carries, Requests, Concat, AcceptedAll;
    var script, k, n := Concat(scripts) + later, |accepted|, |requests|;
    StreamReceived(requests, scripts, later);
    OneMoreRequest(script, n);
    assert Requests(script, n + 1).0 == AcceptedAll(requests) + [RequestOf(Outcome(later).0)];
    if k <= n {
      EarlierRequests(script, k + 1, n + 1);
      SameUpToEnd(accepted, end, requests, RequestOf(Outcome(later).0));
    } else {
      EarlierRequests(script, n + 1, k + 1);
      SameUpToEnd(requests, RequestOf(Outcome(later).0), accepted, end);
    }
  }

  lemma SameUpToEnd(
    a: seq<RequestGrammar.Request>, c: ReceivedRequest, b: seq<RequestGrammar.Request>, d: ReceivedRequest)
    requires !c.Accepted? && |a| <= |b| && AcceptedAll(a) + [c] == (AcceptedAll(b) + [d])[..|a| + 1]
    ensures a == b && c == d
  {
    var few, many := AcceptedAll(a) + [c], AcceptedAll(b) + [d];
    assert few[|a|] == c && few[|a|] == many[|a|];
    forall i | 0 <= i < |a| ensures a[i] == b[i] {
      assert few[i] == Accepted(a[i]) && many[i] == Accepted(b[i]);
    }
  }

  /** For a safe request some way of cutting its text delivers it, and nothing more, exactly when the
      length of the text is not a multiple of the chunk size. */
  lemma RequestDeliverableIff(r: RequestGrammar.Request)
    requires RequestTheorems.SafeRequest(r)
    ensures (exists script: seq<RecvResult> ::
               ReceivedAlone(script, RequestGrammar.PrintRequest(r)) && RequestOf(Outcome(script).0) == Accepted(r))
       <==> |RequestGrammar.PrintRequest(r)| % 1024 != 0
  {
    DeliverableIff(RequestGrammar.PrintRequest(r));
    RequestTheorems.RoundTrip(r);
  }
}
