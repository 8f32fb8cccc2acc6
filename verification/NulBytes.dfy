/** What a NUL byte in a request does to the server, which appends its reads as C strings. */
module NulBytes {
  import opened Basics
  import opened Decimal
  import opened Text
  import opened Framing
  import opened Codec
  import opened Link

  lemma {:induction false} RecvNulFree(script: seq<Read>, inbuffer: string)
    requires NulFree(inbuffer)
    ensures NulFree(TextOf(Recv(script, inbuffer).outcome)) && NulFree(Recv(script, inbuffer).inbuffer)
  {
    if script == [] || !script[0].Data? {
    } else {
      RecvNulFree(script[1..], inbuffer + CString(script[0].bytes));
    }
  }

  lemma ParsedOperator(text: string)
    requires NulFree(text) && RequestIn(Package(text)).Accepted?
    ensures RequestIn(Package(text)).value.op != '\0'
  {
    var payload := DeLength(text).text;
    assert forall c :: c in payload ==> c in text;
    var pos := Find(payload, ' ');
    assert payload[pos + 1] in payload;
  }

  lemma TurnOperator(script: seq<Read>, inbuffer: string)
    requires NulFree(inbuffer) && RequestIn(Recv(script, inbuffer).outcome).Accepted?
    ensures NulFree(Recv(script, inbuffer).inbuffer)
    ensures RequestIn(Recv(script, inbuffer).outcome).value.op != '\0'
  {
    RecvNulFree(script, inbuffer);
    ParsedOperator(Recv(script, inbuffer).outcome.text);
  }

  ghost predicate NoNulOperator(reqs: seq<Req>) {
    forall i :: 0 <= i < |reqs| ==> reqs[i].op != '\0'
  }

  lemma NoNulCons(req: Req, reqs: seq<Req>)
    requires req.op != '\0' && NoNulOperator(reqs)
    ensures NoNulOperator([req] + reqs)
  {
  }

  /** Whatever arrives, no request with a NUL operator is ever handed to `func`: the server appends
      its reads as C strings. This is why `Sendable` excludes such requests. */
  lemma {:induction false} NulOperatorIsNeverServed(func: Req -> Resp, script: seq<Read>, inbuffer: string)
    requires NulFree(inbuffer)
    ensures NoNulOperator(Handle(func, script, inbuffer).served)
    decreases |script|
  {
    var r := Recv(script, inbuffer);
    if RequestIn(r.outcome).Accepted? {
      TurnOperator(script, inbuffer);
      NulOperatorIsNeverServed(func, r.script, r.inbuffer);
      NoNulCons(RequestIn(r.outcome).value, Handle(func, r.script, r.inbuffer).served);
    } else {
      assert Handle(func, script, inbuffer).served == [];
    }
  }

  lemma NulInFrame(text: string, k: nat)
    requires k < |text| && text[k] == '\0'
    ensures '\0' in EnLength(text)
  {
    assert EnLength(text)[HeaderLen(text) + k] == '\0';
  }

  lemma TruncatedFrame(text: string)
    requires FrameLen(text) <= INT_MAX && '\0' in EnLength(text)
    ensures Recv([Data(EnLength(text))], "").outcome == NoPackage
  {
    var frame := EnLength(text);
    var seen := CString(frame);
    assert seen != frame;
    assert seen <= frame + "" && "" + seen == seen;
    ScanPrefix(text, "", seen);
  }

  /** A request with a NUL operator that arrives whole, with nothing after it, never completes. */
  lemma NulOperatorIsLost(func: Req -> Resp, req: Req)
    requires ReqInRange(req) && req.op == '\0'
    ensures Handle(func, [Data(EnLength(PrintReq(req)))], "").served == []
  {
    ReqFrameShort(req);
    NulInFrame(PrintReq(req), |ToString(req.x)| + 1);
    TruncatedFrame(PrintReq(req));
  }

  /** The buffer starts with the header of a five-byte payload. */
  predicate Five(buffer: string) {
    |buffer| >= 3 && buffer[0] == '5' && buffer[1] == '\r' && buffer[2] == '\n'
  }

  lemma ScanFive(buffer: string)
    requires Five(buffer)
    ensures FindCrlf(buffer) == 1 && Stoi(buffer[..1]) == Number(5)
    ensures ScanBuffer(buffer) == if |buffer| >= 10 then Complete(10) else Incomplete
  {
    FindCrlfIsFirst(buffer);
    assert CrlfAt(buffer, 1) && !CrlfAt(buffer, 0);
    StoiToString(5, "");
    assert buffer[..1] == ToString(5) + "";
  }

  /** One read of `recvPackage` while the frame is incomplete. */
  lemma FiveIncomplete(bytes: string, tail: seq<Read>, inbuffer: string, buffer: string)
    requires Five(buffer) && |buffer| < 10 && inbuffer + CString(bytes) == buffer
    ensures Recv([Data(bytes)] + tail, inbuffer) == Recv(tail, buffer)
  {
    ScanFive(buffer);
  }

  lemma FiveComplete(bytes: string, tail: seq<Read>, inbuffer: string, text: string, rest: string)
    requires Five(text) && |text| == 10 && inbuffer + CString(bytes) == text + rest
    ensures Recv([Data(bytes)] + tail, inbuffer) == Received(Package(text), rest, tail)
  {
    var buffer := text + rest;
    assert buffer[..3] == text[..3];
    ScanFive(buffer);
    assert buffer[..10] == text && buffer[10..] == rest;
  }

  lemma {:induction false} CStringEnds(s: string, k: nat)
    requires k < |s| && s[k] == '\0' && NulFree(s[..k])
    ensures CString(s) == s[..k]
  {
    if k == 0 {
    } else {
      assert s[..k] == [s[0]] + s[1..][..k - 1];
      CStringEnds(s[1..], k - 1);
    }
  }

  lemma Joins(a: string, b: string)
    requires NulFree(b)
    ensures a + CString(b) == a + b
  {
  }

  lemma ThreeReads(a: string, b: string, c: string, one: string, two: string, text: string, rest: string)
    requires Five(one) && |one| < 10 && "" + CString(a) == one
    requires Five(two) && |two| < 10 && one + CString(b) == two
    requires Five(text) && |text| == 10 && two + CString(c) == text + rest
    ensures Recv([Data(a), Data(b), Data(c)], "") == Received(Package(text), rest, [])
  {
    assert [Data(a), Data(b), Data(c)] == [Data(a)] + [Data(b), Data(c)];
    FiveIncomplete(a, [Data(b), Data(c)], "", one);
    assert [Data(b), Data(c)] == [Data(b)] + [Data(c)];
    FiveIncomplete(b, [Data(c)], one, two);
    assert [Data(c)] == [Data(c)] + [];
    FiveComplete(c, [], two, text, rest);
  }

  lemma NulCut(a: string, one: string)
    requires a == "5\r\n1 \0" && one == "5\r\n1 "
    ensures "" + CString(a) == one
  {
    CStringEnds(a, 5);
    NoneTaken(one);
  }

  lemma NulFilled(one: string, b: string, c: string, text: string, rest: string)
    requires one == "5\r\n1 " && b == " 2\r\n" && text == "5\r\n1  2\r\n5"
    requires c == "5" + rest
    ensures one + b + c == text + rest
  {
    Regroup(one + b, "5", rest);
    assert one + b + "5" == text;
  }

  lemma FiveText(one: string, b: string, text: string)
    requires one == "5\r\n1 " && b == " 2\r\n" && text == "5\r\n1  2\r\n5"
    ensures Five(one) && |one| == 5
    ensures Five(one + b) && |one + b| == 9
    ensures Five(text) && |text| == 10
  {
  }

  /** The second request's first byte completes the frame the NUL has shortened. */
  lemma NulFrameFilled(a: string, b: string, c: string, one: string, text: string, rest: string)
    requires a == "5\r\n1 \0" && b == " 2\r\n" && c == "5" + rest && NulFree(c)
    requires one == "5\r\n1 " && text == "5\r\n1  2\r\n5"
    ensures Recv([Data(a), Data(b), Data(c)], "") == Received(Package(text), rest, [])
  {
    NulCut(a, one);
    Joins(one, b);
    Joins(one + b, c);
    NulFilled(one, b, c, text, rest);
    FiveText(one, b, text);
    ThreeReads(a, b, c, one, one + b, text, rest);
  }

  lemma NulFrameDecodes()
    ensures DeLength("5\r\n1  2\r\n5") == Payload("1  2\r")
  {
    ScanFive("5\r\n1  2\r\n5");
    assert "5\r\n1  2\r\n5"[3..][..5] == "1  2\r";
  }

  lemma NulFrameParses()
    ensures ParseReq("1  2\r") == Accepted(Req(1, 2, ' '))
  {
    var text := "1  2\r";
    StoiToString(1, "");
    StoiToString(2, "\r");
    assert text[..1] == ToString(1) + "" && text[3..] == ToString(2) + "\r";
    assert Find(text, ' ') == 1;
    assert text[2] == ' ' && FindLast(text, ' ') == 2;
  }

  lemma NulFrames()
    ensures EnLength(PrintReq(Req(1, 2, '\0'))) == "5\r\n1 \0" + " 2\r\n"
    ensures EnLength(PrintReq(Req(1, 2, '+'))) == "5\r\n1 + 2\r\n"
  {
    assert PrintNat(1) == "1" && PrintNat(2) == "2" && PrintNat(5) == "5";
    assert PrintReq(Req(1, 2, '\0')) == "1 \0 2" && PrintReq(Req(1, 2, '+')) == "1 + 2";
  }

  lemma HandleOnce(func: Req -> Resp, script: seq<Read>, inbuffer: string, req: Req)
    requires var r := Recv(script, inbuffer); RequestIn(r.outcome) == Accepted(req) && r.script == []
    ensures Handle(func, script, inbuffer).served == [req]
  {
    assert Handle(func, [], Recv(script, inbuffer).inbuffer).served == [];
  }

  /** Cut by a read, such a request does worse than get lost: with the first bytes of the valid
      request after it, the server serves one that nobody sent, and loses the valid one. */
  lemma NulOperatorServesAnother(func: Req -> Resp)
    ensures EnLength(PrintReq(Req(1, 2, '\0'))) == "5\r\n1 \0" + " 2\r\n"
    ensures EnLength(PrintReq(Req(1, 2, '+'))) == "5\r\n1 + 2\r\n"
    ensures Handle(func, [Data("5\r\n1 \0"), Data(" 2\r\n"), Data("5\r\n1 + 2\r\n")], "").served ==
            [Req(1, 2, ' ')]
  {
    NulFrames();
    NulFrameFilled("5\r\n1 \0", " 2\r\n", "5\r\n1 + 2\r\n", "5\r\n1 ", "5\r\n1  2\r\n5", "\r\n1 + 2\r\n");
    NulFrameDecodes();
    NulFrameParses();
    HandleOnce(func, [Data("5\r\n1 \0"), Data(" 2\r\n"), Data("5\r\n1 + 2\r\n")], "", Req(1, 2, ' '));
  }
}
