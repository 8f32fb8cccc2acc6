/** The two ends of the protocol: `handlerLink` of protocol/server_tcp.hpp and `ClientTCP::run` of
    protocol/client_tcp.hpp, over arbitrarily chopped byte streams. */
module Link {
  import opened Basics
  import opened Decimal
  import opened Text
  import opened Framing
  import opened Codec

  /** The loop breaks and the connection is closed, or an exception ends the process. */
  datatype Ended = Dropped | Crashed

  /** The requests handed to `func`, the bytes written, what is left, and how it ended. */
  datatype Session = Session(served: seq<Req>, sent: string, inbuffer: string, script: seq<Read>, ended: Ended)

  /** The payload of what `recvPackage` left in its out parameter: on failure that is the empty
      string, and `deLength` then fails. */
  function PayloadOf(outcome: Outcome): Parse<string> {
    match outcome
    case Threw => Thrown
    case NoPackage => Rejected
    case Package(text) =>
      match DeLength(text)
      case NoHeader => Rejected
      case BadHeader => Thrown
      case Payload(payload) => Accepted(payload)
  }

  function RequestIn(outcome: Outcome): Parse<Req> {
    match PayloadOf(outcome)
    case Accepted(payload) => ParseReq(payload)
    case Rejected => Rejected
    case Thrown => Thrown
  }

  function ResponseIn(outcome: Outcome): Parse<Resp> {
    match PayloadOf(outcome)
    case Accepted(payload) => ParseResp(payload)
    case Rejected => Rejected
    case Thrown => Thrown
  }

  /** One request served before the session s. */
  function Reply(func: Req -> Resp, req: Req, s: Session): Session {
    s.(served := [req] + s.served, sent := EnLength(PrintResp(func(req))) + s.sent)
  }

  /** `handlerLink`. */
  function Handle(func: Req -> Resp, script: seq<Read>, inbuffer: string): Session
    decreases |script|
  {
    var r := Recv(script, inbuffer);
    match RequestIn(r.outcome)
    case Thrown => Session([], "", r.inbuffer, r.script, Crashed)
    case Rejected => Session([], "", r.inbuffer, r.script, Dropped)
    case Accepted(req) => Reply(func, req, Handle(func, r.script, r.inbuffer))
  }

  /** `recvPackage` and `deLength`, whose failures both ends handle alike. */
  method ReadPayload(sock: Socket, inbuffer: string) returns (payload: Parse<string>, buffer: string)
    modifies sock`script
    ensures var r := Recv(old(sock.script), inbuffer);
            payload == PayloadOf(r.outcome) && buffer == r.inbuffer && sock.script == r.script
  {
    var text := "";
    var outcome;
    outcome, buffer := RecvPackage(sock, inbuffer);
    match outcome {
      case Threw => return Thrown, buffer;
      case NoPackage =>
      case Package(t) => text := t;
    }
    var decoded := DeLength(text);
    payload := match decoded
      case NoHeader => Rejected
      case BadHeader => Thrown
      case Payload(p) => Accepted(p);
  }

  /** The server's read: a request, or the reason to stop. */
  method ReadRequest(sock: Socket, inbuffer: string) returns (request: Parse<Req>, buffer: string)
    modifies sock`script
    ensures var r := Recv(old(sock.script), inbuffer);
            request == RequestIn(r.outcome) && buffer == r.inbuffer && sock.script == r.script
  {
    var payload;
    payload, buffer := ReadPayload(sock, inbuffer);
    match payload {
      case Rejected => request := Rejected;
      case Thrown => request := Thrown;
      case Accepted(text) =>
        var req := new Request();
        request := req.Deserialize(text);
    }
  }

  /** The client's read: a response, or the reason to stop. The buffer is a fresh local. */
  method ReadResponse(sock: Socket) returns (response: Parse<Resp>)
    modifies sock`script
    ensures var r := Recv(old(sock.script), "");
            response == ResponseIn(r.outcome) && sock.script == r.script
  {
    var payload, inbuffer := ReadPayload(sock, "");
    match payload {
      case Rejected => response := Rejected;
      case Thrown => response := Thrown;
      case Accepted(text) =>
        var res := new Response();
        response := res.Deserialize(text);
    }
  }

  /** The session so far, followed by the session `rest` that remains, is the whole session. */
  ghost predicate Continues(goal: Session, start: string, served: seq<Req>, sent: string, rest: Session) {
    && goal.served == served + rest.served && start + goal.sent == sent + rest.sent
    && goal.inbuffer == rest.inbuffer && goal.script == rest.script && goal.ended == rest.ended
  }

  lemma ContinuesAfter(goal: Session, start: string, served: seq<Req>, sent: string,
                       func: Req -> Resp, req: Req, rest: Session)
    requires Continues(goal, start, served, sent, Reply(func, req, rest))
    ensures Continues(goal, start, served + [req], sent + EnLength(PrintResp(func(req))), rest)
  {
    assert served + ([req] + rest.served) == served + [req] + rest.served;
    var message := EnLength(PrintResp(func(req)));
    assert sent + (message + rest.sent) == sent + message + rest.sent;
  }

  /** The server's write: the response, serialized and framed. */
  method WriteResponse(sock: Socket, resp: Resp)
    modifies sock`sent
    ensures sock.sent == old(sock.sent) + EnLength(PrintResp(resp))
  {
    var res := new Response.Of(resp);
    var message := res.Serialize();
    message := EnLength(message);
    sock.Write(message);
  }

  method HandlerLink(sock: Socket, func: Req -> Resp) returns (served: seq<Req>, ended: Ended)
    modifies sock
    ensures var s := Handle(func, old(sock.script), "");
            && served == s.served && ended == s.ended
            && sock.sent == old(sock.sent) + s.sent && sock.script == s.script
  {
    ghost var goal := Handle(func, sock.script, "");
    ghost var start := sock.sent;
    var inbuffer := "";
    served := [];
    while true
      invariant Continues(goal, start, served, sock.sent, Handle(func, sock.script, inbuffer))
      decreases |sock.script|
    {
      ghost var now := Handle(func, sock.script, inbuffer);
      var request;
      request, inbuffer := ReadRequest(sock, inbuffer);
      if !request.Accepted? {
        return served, if request.Thrown? then Crashed else Dropped;
      }
      var req := request.value;
      ghost var rest := Handle(func, sock.script, inbuffer);
      assert now == Reply(func, req, rest);
      ContinuesAfter(goal, start, served, sock.sent, func, req, rest);
      WriteResponse(sock, func(req));
      served := served + [req];
    }
  }

  // ---------- Streams ----------

  function ReqStream(reqs: seq<Req>): string {
    if reqs == [] then "" else EnLength(PrintReq(reqs[0])) + ReqStream(reqs[1..])
  }

  function RespStream(func: Req -> Resp, reqs: seq<Req>): string {
    if reqs == [] then "" else EnLength(PrintResp(func(reqs[0]))) + RespStream(func, reqs[1..])
  }

  function ReqTexts(reqs: seq<Req>): (texts: seq<string>)
    ensures |texts| == |reqs|
  {
    if reqs == [] then [] else [PrintReq(reqs[0])] + ReqTexts(reqs[1..])
  }

  lemma {:induction false} ReqStreamFrames(reqs: seq<Req>)
    ensures Frames(ReqTexts(reqs)) == ReqStream(reqs)
  {
    if reqs == [] {
    } else {
      assert ReqTexts(reqs)[1..] == ReqTexts(reqs[1..]);
      ReqStreamFrames(reqs[1..]);
    }
  }

  /** A request the wire can carry: int operands, and an operator that is not NUL. */
  predicate Sendable(r: Req) {
    ReqInRange(r) && r.op != '\0'
  }

  predicate AllSendable(reqs: seq<Req>) {
    forall i :: 0 <= i < |reqs| ==> Sendable(reqs[i])
  }

  lemma ShortFrame(text: string)
    requires |text| < 100
    ensures FrameLen(text) <= INT_MAX
  {
    assert Pow10(2) == 100;
    PrintNatLength(|text|, 2);
  }

  lemma ReqFrameShort(r: Req)
    requires ReqInRange(r)
    ensures FrameLen(PrintReq(r)) <= INT_MAX
  {
    ToStringLength(r.x);
    ToStringLength(r.y);
    ShortFrame(PrintReq(r));
  }

  lemma RespFrameShort(r: Resp)
    requires RespInRange(r)
    ensures FrameLen(PrintResp(r)) <= INT_MAX
  {
    ToStringLength(r.result);
    ToStringLength(r.exitcode);
    ShortFrame(PrintResp(r));
  }

  // ---------- Served requests are a prefix of sent requests ----------

  /** The bytes the client's writes put on the wire, as the reads cut them. */
  function Wire(script: seq<Read>): string {
    if script == [] then "" else (if script[0].Data? then script[0].bytes else "") + Wire(script[1..])
  }

  lemma {:induction false} NulFreeReqStream(reqs: seq<Req>)
    requires AllSendable(reqs)
    ensures NulFree(ReqStream(reqs))
  {
    if reqs == [] {
    } else {
      ToStringBytes(reqs[0].x);
      ToStringBytes(reqs[0].y);
      assert NulFree(PrintReq(reqs[0]));
      NulFreeReqStream(reqs[1..]);
    }
  }

  lemma {:induction false} ReqTextsNulFree(reqs: seq<Req>)
    requires AllSendable(reqs)
    ensures AllNulFree(ReqTexts(reqs))
  {
    if reqs == [] {
    } else {
      ToStringBytes(reqs[0].x);
      ToStringBytes(reqs[0].y);
      assert NulFree(PrintReq(reqs[0]));
      ReqTextsNulFree(reqs[1..]);
    }
  }

  lemma {:induction false} WireIsBytes(script: seq<Read>)
    requires NulFree(Wire(script))
    ensures Bytes(script) == Wire(script)
  {
    if script == [] {
    } else {
      var head := if script[0].Data? then script[0].bytes else "";
      assert forall c :: c in head ==> c in Wire(script);
      assert forall c :: c in Wire(script[1..]) ==> c in Wire(script);
      WireIsBytes(script[1..]);
    }
  }

  lemma DropFrame(frame: string, left: string, bytes: string, rest: string)
    requires frame + left + bytes <= frame + rest
    ensures left + bytes <= rest
  {
    assert frame + left + bytes == frame + (left + bytes);
    assert (frame + (left + bytes))[|frame|..] == left + bytes;
    assert (frame + rest)[|frame|..] == rest;
  }

  lemma RequestFrameDecodes(req: Req)
    requires ReqInRange(req)
    ensures RequestIn(Package(EnLength(PrintReq(req)))) == Accepted(req)
  {
    ReqFrameShort(req);
    FrameDecodes(PrintReq(req), "");
    assert EnLength(PrintReq(req)) + "" == EnLength(PrintReq(req));
    ReqRoundTrip(req);
  }

  /** One turn of the server's loop on a stream of request frames. */
  lemma HandleTurn(func: Req -> Resp, reqs: seq<Req>, script: seq<Read>, inbuffer: string)
    requires AllSendable(reqs) && reqs != []
    requires inbuffer + Bytes(script) <= ReqStream(reqs)
    ensures var r := Recv(script, inbuffer);
            if r.outcome.Package?
            then r.inbuffer + Bytes(r.script) <= ReqStream(reqs[1..]) &&
                 Handle(func, script, inbuffer) == Reply(func, reqs[0], Handle(func, r.script, r.inbuffer))
            else Handle(func, script, inbuffer) == Session([], "", r.inbuffer, r.script, Dropped)
  {
    var text, rest := PrintReq(reqs[0]), ReqStream(reqs[1..]);
    var r := Recv(script, inbuffer);
    ReqFrameShort(reqs[0]);
    RecvReturnsTheFrame(script, inbuffer, text, rest);
    if r.outcome.Package? {
      RecvConservesBytes(script, inbuffer);
      DropFrame(EnLength(text), r.inbuffer, Bytes(r.script), rest);
      RequestFrameDecodes(reqs[0]);
    }
  }

  lemma ResponseFrameDecodes(resp: Resp)
    requires RespInRange(resp)
    ensures ResponseIn(Package(EnLength(PrintResp(resp)))) == Accepted(resp)
  {
    RespFrameShort(resp);
    FrameDecodes(PrintResp(resp), "");
    assert EnLength(PrintResp(resp)) + "" == EnLength(PrintResp(resp));
    RespRoundTrip(resp);
  }

  lemma NothingToReceive(script: seq<Read>)
    requires Bytes(script) == ""
    ensures Recv(script, "").outcome == NoPackage
  {
    if script != [] && script[0].Data? {
      assert CString(script[0].bytes) == "";
      assert "" + CString(script[0].bytes) == "";
    }
  }

  lemma ConsPrefix(head: Req, s: seq<Req>, t: seq<Req>)
    requires s <= t
    ensures [head] + s <= [head] + t
  {
  }

  lemma {:induction false} ServedFromStream(func: Req -> Resp, reqs: seq<Req>, script: seq<Read>, inbuffer: string)
    requires AllSendable(reqs) && inbuffer + Bytes(script) <= ReqStream(reqs)
    ensures Handle(func, script, inbuffer).served <= reqs
    decreases |reqs|
  {
    if reqs == [] {
      NothingToReceive(script);
    } else {
      HandleTurn(func, reqs, script, inbuffer);
      var r := Recv(script, inbuffer);
      if r.outcome.Package? {
        ServedFromStream(func, reqs[1..], r.script, r.inbuffer);
        ConsPrefix(reqs[0], Handle(func, r.script, r.inbuffer).served, reqs[1..]);
      }
    }
  }

  lemma StreamCons(func: Req -> Resp, req: Req, rest: seq<Req>)
    ensures RespStream(func, [req] + rest) == EnLength(PrintResp(func(req))) + RespStream(func, rest)
  {
    assert ([req] + rest)[1..] == rest;
  }

  /** Whatever arrives, the bytes written are the framed responses to the requests served, in
      order. */
  lemma {:induction false} AnswersWhatItServes(func: Req -> Resp, script: seq<Read>, inbuffer: string)
    ensures Handle(func, script, inbuffer).sent == RespStream(func, Handle(func, script, inbuffer).served)
    decreases |script|
  {
    var r := Recv(script, inbuffer);
    if RequestIn(r.outcome).Accepted? {
      AnswersWhatItServes(func, r.script, r.inbuffer);
      StreamCons(func, RequestIn(r.outcome).value, Handle(func, r.script, r.inbuffer).served);
    }
  }

  lemma {:induction false} NeverCrashes(func: Req -> Resp, reqs: seq<Req>, script: seq<Read>, inbuffer: string)
    requires AllSendable(reqs) && inbuffer + Bytes(script) <= ReqStream(reqs)
    ensures Handle(func, script, inbuffer).ended == Dropped
    decreases |reqs|
  {
    if reqs == [] {
      NothingToReceive(script);
    } else {
      HandleTurn(func, reqs, script, inbuffer);
      var r := Recv(script, inbuffer);
      if r.outcome.Package? {
        NeverCrashes(func, reqs[1..], r.script, r.inbuffer);
      }
    }
  }

  lemma ArrivedBytes(reqs: seq<Req>, script: seq<Read>)
    requires AllSendable(reqs) && Wire(script) <= ReqStream(reqs)
    ensures "" + Bytes(script) <= ReqStream(reqs)
  {
    NulFreeReqStream(reqs);
    assert forall c :: c in Wire(script) ==> c in ReqStream(reqs);
    WireIsBytes(script);
    assert "" + Bytes(script) == Wire(script);
  }

  /** Whatever part of the client's request stream has arrived, and however it was cut, the server
      hands to `func` a prefix of the client's requests, none torn, merged, repeated or reordered,
      answers exactly those, in order, and never crashes. */
  lemma ServedIsPrefixOfSent(func: Req -> Resp, reqs: seq<Req>, script: seq<Read>)
    requires AllSendable(reqs) && Wire(script) <= ReqStream(reqs)
    ensures Handle(func, script, "").served <= reqs
    ensures Handle(func, script, "").sent == RespStream(func, Handle(func, script, "").served)
    ensures Handle(func, script, "").ended == Dropped
  {
    ArrivedBytes(reqs, script);
    ServedFromStream(func, reqs, script, "");
    AnswersWhatItServes(func, script, "");
    NeverCrashes(func, reqs, script, "");
  }

  /** Every request costs the server a read of its own, even when several have arrived together. */
  lemma {:induction false} OneRequestPerRead(func: Req -> Resp, script: seq<Read>, inbuffer: string)
    ensures |Handle(func, script, inbuffer).served| <= |script| - |Handle(func, script, inbuffer).script|
    decreases |script|
  {
    var r := Recv(script, inbuffer);
    if RequestIn(r.outcome).Accepted? {
      OneRequestPerRead(func, r.script, r.inbuffer);
    }
  }

  lemma RecvAllAtOnce(text: string, rest: string, tail: seq<Read>)
    requires FrameLen(text) <= INT_MAX && NulFree(EnLength(text)) && NulFree(rest)
    ensures Recv([Data(EnLength(text) + rest)] + tail, "") == Received(Package(EnLength(text)), rest, tail)
  {
    var script := [Data(EnLength(text) + rest)] + tail;
    assert script[0] == Data(EnLength(text) + rest) && script[1..] == tail;
    var stream := EnLength(text) + rest;
    ScanPrefix(text, rest, stream);
    assert "" + CString(stream) == stream;
    assert stream[FrameLen(text)..] == rest;
  }

  /** So the server does not answer all it has received: of any number of requests that arrive in
      one read, only the first is answered before the server waits for more. */
  lemma CoalescedRequests(func: Req -> Resp, reqs: seq<Req>)
    requires AllSendable(reqs) && reqs != []
    ensures Handle(func, [Data(ReqStream(reqs))], "").served == [reqs[0]]
    ensures Handle(func, [Data(ReqStream(reqs))], "").inbuffer == ReqStream(reqs[1..])
  {
    NulFreeReqStream(reqs);
    ReqFrameShort(reqs[0]);
    assert forall c :: c in EnLength(PrintReq(reqs[0])) || c in ReqStream(reqs[1..]) ==> c in ReqStream(reqs);
    RecvAllAtOnce(PrintReq(reqs[0]), ReqStream(reqs[1..]), []);
    assert [Data(ReqStream(reqs))] + [] == [Data(ReqStream(reqs))];
    RequestFrameDecodes(reqs[0]);
  }

  // ---------- The client ----------

  datatype Client = Client(answers: seq<Resp>, sent: string, script: seq<Read>, stopped: bool)

  /** `ClientTCP::run` for a list of requests: each is written, then one package is received into a
      fresh buffer and decoded; any failure ends the run. */
  function Ask(reqs: seq<Req>, script: seq<Read>): Client
    decreases |reqs|
  {
    if reqs == [] then Client([], "", script, false)
    else
      var message := EnLength(PrintReq(reqs[0]));
      var r := Recv(script, "");
      var answer := ResponseIn(r.outcome);
      if answer.Accepted? then
        var c := Ask(reqs[1..], r.script);
        c.(answers := [answer.value] + c.answers, sent := message + c.sent)
      else Client([], message, r.script, true)
  }

  ghost predicate AsksOn(goal: Client, start: string, answers: seq<Resp>, sent: string, rest: Client) {
    && goal.answers == answers + rest.answers && start + goal.sent == sent + rest.sent
    && goal.script == rest.script && goal.stopped == rest.stopped
  }

  lemma AsksOnAfter(goal: Client, start: string, answers: seq<Resp>, sent: string,
                    message: string, answer: Resp, rest: Client)
    requires AsksOn(goal, start, answers, sent, rest.(answers := [answer] + rest.answers, sent := message + rest.sent))
    ensures AsksOn(goal, start, answers + [answer], sent + message, rest)
  {
    assert answers + ([answer] + rest.answers) == answers + [answer] + rest.answers;
    assert sent + (message + rest.sent) == sent + message + rest.sent;
  }

  method ClientRun(sock: Socket, reqs: seq<Req>) returns (answers: seq<Resp>, stopped: bool)
    modifies sock
    ensures var c := Ask(reqs, old(sock.script));
            && answers == c.answers && stopped == c.stopped
            && sock.sent == old(sock.sent) + c.sent && sock.script == c.script
  {
    ghost var goal := Ask(reqs, sock.script);
    ghost var start := sock.sent;
    answers := [];
    for i := 0 to |reqs|
      invariant AsksOn(goal, start, answers, sock.sent, Ask(reqs[i..], sock.script))
    {
      ghost var now := Ask(reqs[i..], sock.script);
      ghost var sent := sock.sent;
      assert reqs[i..][1..] == reqs[i + 1..];
      var req := new Request.Of(reqs[i]);
      var message := req.Serialize();
      message := EnLength(message);
      sock.Write(message);
      var response := ReadResponse(sock);
      if !response.Accepted? {
        return answers, true;
      }
      AsksOnAfter(goal, start, answers, sent, message, response.value, Ask(reqs[i + 1..], sock.script));
      answers := answers + [response.value];
    }
    return answers, false;
  }
}
