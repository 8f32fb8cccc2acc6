/** Client and server in dialogue: every frame arrives in reads of its own. */
module Dialogue {
  import opened Basics
  import opened Decimal
  import opened Text
  import opened Framing
  import opened Codec
  import opened Link

  // ---------- Lockstep ----------

  /** The reads for a list of frames, each cut into its own chunks. */
  function Reads(groups: seq<seq<string>>): seq<Read> {
    if groups == [] then [] else Datas(groups[0]) + Reads(groups[1..])
  }

  /** Each group of chunks delivers the frame of one request. */
  ghost predicate CarriesRequests(groups: seq<seq<string>>, reqs: seq<Req>) {
    |groups| == |reqs| && forall i :: 0 <= i < |reqs| ==> Delivers(groups[i], EnLength(PrintReq(reqs[i])))
  }

  /** The first chunk reaches the end of the header of the frame for text. */
  predicate HeaderFirst(chunks: seq<string>, text: string) {
    chunks != [] && |chunks[0]| >= HeaderLen(text)
  }

  /** The number of frames before the first one whose first chunk cuts its header. */
  function Unbroken(groups: seq<seq<string>>, reqs: seq<Req>): (n: nat)
    requires |groups| == |reqs|
    ensures n <= |reqs|
  {
    if reqs == [] || !HeaderFirst(groups[0], PrintReq(reqs[0])) then 0 else 1 + Unbroken(groups[1..], reqs[1..])
  }

  lemma TailCarries(groups: seq<seq<string>>, reqs: seq<Req>)
    requires reqs != [] && AllSendable(reqs) && CarriesRequests(groups, reqs)
    ensures AllSendable(reqs[1..]) && CarriesRequests(groups[1..], reqs[1..])
    ensures Sendable(reqs[0]) && Delivers(groups[0], EnLength(PrintReq(reqs[0])))
  {
  }

  lemma PrefixCons(func: Req -> Resp, reqs: seq<Req>, n: nat)
    requires n < |reqs|
    ensures reqs[..n + 1] == [reqs[0]] + reqs[1..][..n]
    ensures RespStream(func, reqs[..n + 1]) == EnLength(PrintResp(func(reqs[0]))) + RespStream(func, reqs[1..][..n])
  {
    assert reqs[..n + 1][1..] == reqs[1..][..n];
  }

  /** The server's turn on a frame that arrives on its own. */
  lemma LockstepTurn(func: Req -> Resp, req: Req, chunks: seq<string>, tail: seq<Read>)
    requires Sendable(req) && Delivers(chunks, EnLength(PrintReq(req)))
    ensures chunks != []
    ensures Handle(func, Datas(chunks) + tail, "") ==
            if HeaderFirst(chunks, PrintReq(req)) then Reply(func, req, Handle(func, tail, ""))
            else Session([], "", chunks[0], Datas(chunks[1..]) + tail, Dropped)
  {
    ReqFrameShort(req);
    FrameArrives(chunks, tail, PrintReq(req));
    RequestFrameDecodes(req);
  }

  /** When every frame arrives in reads of its own, the server serves exactly the requests before
      the first frame whose header did not arrive whole with its first read. */
  lemma {:induction false} LockstepServes(func: Req -> Resp, reqs: seq<Req>, groups: seq<seq<string>>)
    requires AllSendable(reqs) && CarriesRequests(groups, reqs)
    ensures Handle(func, Reads(groups), "").served == reqs[..Unbroken(groups, reqs)]
    decreases |reqs|
  {
    if reqs == [] {
    } else {
      LockstepTurn(func, reqs[0], groups[0], Reads(groups[1..]));
      if HeaderFirst(groups[0], PrintReq(reqs[0])) {
        TailCarries(groups, reqs);
        LockstepServes(func, reqs[1..], groups[1..]);
        PrefixCons(func, reqs, Unbroken(groups[1..], reqs[1..]));
      }
    }
  }

  /** It answers exactly those, in order. */
  lemma {:induction false} LockstepAnswers(func: Req -> Resp, reqs: seq<Req>, groups: seq<seq<string>>)
    requires AllSendable(reqs) && CarriesRequests(groups, reqs)
    ensures Handle(func, Reads(groups), "").sent == RespStream(func, reqs[..Unbroken(groups, reqs)])
    decreases |reqs|
  {
    if reqs == [] {
    } else {
      LockstepTurn(func, reqs[0], groups[0], Reads(groups[1..]));
      if HeaderFirst(groups[0], PrintReq(reqs[0])) {
        TailCarries(groups, reqs);
        LockstepAnswers(func, reqs[1..], groups[1..]);
        PrefixCons(func, reqs, Unbroken(groups[1..], reqs[1..]));
      }
    }
  }

  /** What stays in the server's buffer: the read that cut a header, if there was one. */
  function LeftOver(groups: seq<seq<string>>, n: nat): string {
    if n < |groups| && groups[n] != [] then groups[n][0] else ""
  }

  lemma LeftOverNext(groups: seq<seq<string>>, n: nat)
    requires groups != []
    ensures LeftOver(groups, n + 1) == LeftOver(groups[1..], n)
  {
  }

  /** Its buffer is then empty, unless a read cut a header. */
  lemma {:induction false} LockstepLeaves(func: Req -> Resp, reqs: seq<Req>, groups: seq<seq<string>>)
    requires AllSendable(reqs) && CarriesRequests(groups, reqs)
    ensures Handle(func, Reads(groups), "").inbuffer == LeftOver(groups, Unbroken(groups, reqs))
    decreases |reqs|
  {
    if reqs == [] {
    } else {
      LockstepTurn(func, reqs[0], groups[0], Reads(groups[1..]));
      if HeaderFirst(groups[0], PrintReq(reqs[0])) {
        TailCarries(groups, reqs);
        LockstepLeaves(func, reqs[1..], groups[1..]);
        LeftOverNext(groups, Unbroken(groups[1..], reqs[1..]));
      }
    }
  }

  // ---------- End to end ----------

  function RespTexts(func: Req -> Resp, reqs: seq<Req>): (texts: seq<string>)
    ensures |texts| == |reqs|
  {
    if reqs == [] then [] else [PrintResp(func(reqs[0]))] + RespTexts(func, reqs[1..])
  }

  lemma {:induction false} RespStreamFrames(func: Req -> Resp, reqs: seq<Req>)
    ensures Frames(RespTexts(func, reqs)) == RespStream(func, reqs)
  {
    if reqs == [] {
    } else {
      assert RespTexts(func, reqs)[1..] == RespTexts(func, reqs[1..]);
      RespStreamFrames(func, reqs[1..]);
    }
  }

  /** The stream of the frames of these payloads, cut frame by frame, each header whole in the first
      chunk of its frame. */
  ghost predicate CutByFrame(groups: seq<seq<string>>, texts: seq<string>) {
    && |groups| == |texts|
    && forall i :: 0 <= i < |texts| ==> Delivers(groups[i], EnLength(texts[i])) && HeaderFirst(groups[i], texts[i])
  }

  lemma {:induction false} WireOfChunks(chunks: seq<string>, tail: seq<Read>)
    ensures Wire(Datas(chunks) + tail) == Concat(chunks) + Wire(tail)
  {
    if chunks == [] {
      assert Datas(chunks) + tail == tail;
    } else {
      assert (Datas(chunks) + tail)[1..] == Datas(chunks[1..]) + tail;
      WireOfChunks(chunks[1..], tail);
      Regroup(chunks[0], Concat(chunks[1..]), Wire(tail));
    }
  }

  lemma {:induction false} WireOfFrames(groups: seq<seq<string>>, texts: seq<string>)
    requires CutByFrame(groups, texts)
    ensures Wire(Reads(groups)) == Frames(texts)
    decreases |texts|
  {
    if texts == [] {
    } else {
      WireOfChunks(groups[0], Reads(groups[1..]));
      WireOfFrames(groups[1..], texts[1..]);
    }
  }

  lemma CutNext(groups: seq<seq<string>>, text: string, texts: seq<string>)
    requires CutByFrame(groups, [text] + texts)
    ensures Delivers(groups[0], EnLength(text)) && HeaderFirst(groups[0], text)
    ensures CutByFrame(groups[1..], texts)
  {
    var all := [text] + texts;
    assert all[0] == text && forall i :: 0 <= i < |texts| ==> all[i + 1] == texts[i];
  }

  /** Every frame's header is whole in its first chunk. */
  ghost predicate EachHeaderFirst(groups: seq<seq<string>>, reqs: seq<Req>) {
    |groups| == |reqs| && forall i :: 0 <= i < |reqs| ==> HeaderFirst(groups[i], PrintReq(reqs[i]))
  }

  lemma {:induction false} AllUnbroken(groups: seq<seq<string>>, reqs: seq<Req>)
    requires EachHeaderFirst(groups, reqs)
    ensures Unbroken(groups, reqs) == |reqs|
    decreases |reqs|
  {
    if reqs == [] {
    } else {
      AllUnbroken(groups[1..], reqs[1..]);
    }
  }

  lemma CarriesCons(groups: seq<seq<string>>, reqs: seq<Req>)
    requires groups != [] && reqs != []
    requires CarriesRequests(groups[1..], reqs[1..]) && EachHeaderFirst(groups[1..], reqs[1..])
    requires Delivers(groups[0], EnLength(PrintReq(reqs[0]))) && HeaderFirst(groups[0], PrintReq(reqs[0]))
    ensures CarriesRequests(groups, reqs) && EachHeaderFirst(groups, reqs)
  {
    forall i | 0 <= i < |reqs|
      ensures Delivers(groups[i], EnLength(PrintReq(reqs[i]))) && HeaderFirst(groups[i], PrintReq(reqs[i]))
    {
      if i > 0 {
        assert groups[1..][i - 1] == groups[i] && reqs[1..][i - 1] == reqs[i];
      }
    }
  }

  lemma {:induction false} RequestsCarried(groups: seq<seq<string>>, reqs: seq<Req>)
    requires CutByFrame(groups, ReqTexts(reqs))
    ensures CarriesRequests(groups, reqs) && EachHeaderFirst(groups, reqs)
    decreases |reqs|
  {
    if reqs == [] {
    } else {
      CutNext(groups, PrintReq(reqs[0]), ReqTexts(reqs[1..]));
      RequestsCarried(groups[1..], reqs[1..]);
      CarriesCons(groups, reqs);
    }
  }

  /** The number of requests the client writes: one more than it gets answers, if it stops early. */
  function Written(reqs: seq<Req>, answers: nat): (m: nat)
    ensures m <= |reqs|
  {
    if answers < |reqs| then answers + 1 else |reqs|
  }

  /** One turn of the client. */
  lemma AskTurn(reqs: seq<Req>, script: seq<Read>)
    requires reqs != []
    ensures var message, r := EnLength(PrintReq(reqs[0])), Recv(script, "");
            var answer, c, rest := ResponseIn(r.outcome), Ask(reqs, script), Ask(reqs[1..], r.script);
            if answer.Accepted?
            then c.answers == [answer.value] + rest.answers && c.sent == message + rest.sent
            else c.answers == [] && c.sent == message
  {
  }

  lemma {:induction false} AnswersAtMost(reqs: seq<Req>, script: seq<Read>)
    ensures |Ask(reqs, script).answers| <= |reqs|
    decreases |reqs|
  {
    if reqs == [] {
    } else {
      AskTurn(reqs, script);
      AnswersAtMost(reqs[1..], Recv(script, "").script);
    }
  }

  lemma TakeStream(reqs: seq<Req>, m: nat)
    requires m < |reqs|
    ensures ReqStream(reqs[..m + 1]) == EnLength(PrintReq(reqs[0])) + ReqStream(reqs[1..][..m])
  {
    assert reqs[..m + 1][1..] == reqs[1..][..m];
  }

  lemma NothingFollows(s: string)
    ensures s + "" == s
  {
  }

  /** The client that got n answers has written this. */
  function SentFor(reqs: seq<Req>, n: nat): string {
    ReqStream(reqs[..Written(reqs, n)])
  }

  lemma SentForNext(reqs: seq<Req>, n: nat)
    requires n < |reqs|
    ensures SentFor(reqs, n + 1) == EnLength(PrintReq(reqs[0])) + SentFor(reqs[1..], n)
  {
    TakeStream(reqs, Written(reqs[1..], n));
  }

  lemma SentForNone(reqs: seq<Req>)
    requires reqs != []
    ensures SentFor(reqs, 0) == EnLength(PrintReq(reqs[0]))
  {
    TakeStream(reqs, 0);
    NothingFollows(EnLength(PrintReq(reqs[0])));
  }

  lemma SendsOn(reqs: seq<Req>, script: seq<Read>, rest: Client)
    requires reqs != [] && ResponseIn(Recv(script, "").outcome).Accepted?
    requires rest == Ask(reqs[1..], Recv(script, "").script)
    requires rest.sent == SentFor(reqs[1..], |rest.answers|) && |rest.answers| < |reqs|
    ensures Ask(reqs, script).sent == SentFor(reqs, |Ask(reqs, script).answers|)
  {
    AskTurn(reqs, script);
    SentForNext(reqs, |rest.answers|);
  }

  lemma SendsNoMore(reqs: seq<Req>, script: seq<Read>)
    requires reqs != [] && !ResponseIn(Recv(script, "").outcome).Accepted?
    ensures Ask(reqs, script).sent == SentFor(reqs, |Ask(reqs, script).answers|)
  {
    AskTurn(reqs, script);
    SentForNone(reqs);
  }

  /** Whatever the client reads, it has written the frames of its first requests. */
  lemma {:induction false} AskSends(reqs: seq<Req>, script: seq<Read>)
    ensures Ask(reqs, script).sent == SentFor(reqs, |Ask(reqs, script).answers|)
    decreases |reqs|
  {
    if reqs == [] {
    } else if ResponseIn(Recv(script, "").outcome).Accepted? {
      var left := Recv(script, "").script;
      AskSends(reqs[1..], left);
      AnswersAtMost(reqs[1..], left);
      SendsOn(reqs, script, Ask(reqs[1..], left));
    } else {
      SendsNoMore(reqs, script);
    }
  }

  predicate AllAnswerable(func: Req -> Resp, reqs: seq<Req>) {
    forall i :: 0 <= i < |reqs| ==> RespInRange(func(reqs[i]))
  }

  /** The client's turn on a response that arrives on its own. */
  lemma ClientTurn(req: Req, reqs: seq<Req>, resp: Resp, chunks: seq<string>, tail: seq<Read>)
    requires RespInRange(resp) && Delivers(chunks, EnLength(PrintResp(resp))) && HeaderFirst(chunks, PrintResp(resp))
    ensures Ask([req] + reqs, Datas(chunks) + tail) ==
            var c := Ask(reqs, tail);
            c.(answers := [resp] + c.answers, sent := EnLength(PrintReq(req)) + c.sent)
  {
    assert ([req] + reqs)[1..] == reqs;
    RespFrameShort(resp);
    FrameArrives(chunks, tail, PrintResp(resp));
    ResponseFrameDecodes(resp);
  }

  lemma AskNothing(reqs: seq<Req>)
    ensures Ask(reqs, []).answers == [] && Ask(reqs, []).stopped == (reqs != [])
  {
  }

  lemma RespTextsNext(func: Req -> Resp, reqs: seq<Req>, m: nat)
    requires 0 < m <= |reqs|
    ensures RespTexts(func, reqs[..m]) == [PrintResp(func(reqs[0]))] + RespTexts(func, reqs[1..][..m - 1])
  {
    assert reqs[..m] == [reqs[0]] + reqs[1..][..m - 1];
  }

  /** The client has the answers to its first m requests and stops if these are not all. */
  ghost predicate AnsweredFirst(c: Client, func: Req -> Resp, reqs: seq<Req>, m: nat)
    requires m <= |reqs|
  {
    && |c.answers| == m && (forall i :: 0 <= i < m ==> c.answers[i] == func(reqs[i]))
    && c.stopped == (m < |reqs|)
  }

  lemma AnsweredCons(c: Client, rest: Client, func: Req -> Resp, reqs: seq<Req>, m: nat)
    requires 0 < m <= |reqs| && AnsweredFirst(rest, func, reqs[1..], m - 1)
    requires c.answers == [func(reqs[0])] + rest.answers && c.stopped == rest.stopped
    ensures AnsweredFirst(c, func, reqs, m)
  {
    forall i | 0 <= i < m ensures c.answers[i] == func(reqs[i]) {
      if i > 0 {
        assert rest.answers[i - 1] == func(reqs[1..][i - 1]);
      }
    }
  }

  lemma ClientNext(func: Req -> Resp, reqs: seq<Req>, m: nat, chunks: seq<string>, tail: seq<Read>)
    requires 0 < m <= |reqs| && RespInRange(func(reqs[0]))
    requires Delivers(chunks, EnLength(PrintResp(func(reqs[0])))) && HeaderFirst(chunks, PrintResp(func(reqs[0])))
    requires AnsweredFirst(Ask(reqs[1..], tail), func, reqs[1..], m - 1)
    ensures AnsweredFirst(Ask(reqs, Datas(chunks) + tail), func, reqs, m)
  {
    ClientTurn(reqs[0], reqs[1..], func(reqs[0]), chunks, tail);
    assert reqs == [reqs[0]] + reqs[1..];
    AnsweredCons(Ask(reqs, Datas(chunks) + tail), Ask(reqs[1..], tail), func, reqs, m);
  }

  lemma ResponsesNext(func: Req -> Resp, reqs: seq<Req>, m: nat, groups: seq<seq<string>>)
    requires 0 < m <= |reqs| && AllAnswerable(func, reqs) && CutByFrame(groups, RespTexts(func, reqs[..m]))
    ensures RespInRange(func(reqs[0])) && AllAnswerable(func, reqs[1..])
    ensures var text := PrintResp(func(reqs[0])); Delivers(groups[0], EnLength(text)) && HeaderFirst(groups[0], text)
    ensures CutByFrame(groups[1..], RespTexts(func, reqs[1..][..m - 1]))
  {
    RespTextsNext(func, reqs, m);
    CutNext(groups, PrintResp(func(reqs[0])), RespTexts(func, reqs[1..][..m - 1]));
  }

  /** When the responses to the first m requests arrive, the client decodes exactly these. */
  lemma {:induction false} LockstepClient(func: Req -> Resp, reqs: seq<Req>, m: nat, groups: seq<seq<string>>)
    requires m <= |reqs| && AllAnswerable(func, reqs) && CutByFrame(groups, RespTexts(func, reqs[..m]))
    ensures AnsweredFirst(Ask(reqs, Reads(groups)), func, reqs, m)
    decreases |reqs|
  {
    if m == 0 {
      AskNothing(reqs);
    } else {
      ResponsesNext(func, reqs, m, groups);
      LockstepClient(func, reqs[1..], m - 1, groups[1..]);
      ClientNext(func, reqs, m, groups[0], Reads(groups[1..]));
    }
  }

  /** The server has served these requests, sent their responses, and has nothing left over. */
  ghost predicate ServedAll(s: Session, func: Req -> Resp, reqs: seq<Req>) {
    s.served == reqs && s.sent == RespStream(func, reqs) && s.inbuffer == ""
  }

  lemma ServerWhole(func: Req -> Resp, reqs: seq<Req>, up: seq<seq<string>>)
    requires AllSendable(reqs) && CarriesRequests(up, reqs) && EachHeaderFirst(up, reqs)
    ensures ServedAll(Handle(func, Reads(up), ""), func, reqs)
  {
    AllUnbroken(up, reqs);
    assert reqs[..|reqs|] == reqs;
    LockstepServes(func, reqs, up);
    LockstepAnswers(func, reqs, up);
    LockstepLeaves(func, reqs, up);
  }

  lemma PrefixCarries(reqs: seq<Req>, up: seq<seq<string>>, k: nat)
    requires CarriesRequests(up, reqs) && EachHeaderFirst(up, reqs) && k <= |reqs|
    ensures CarriesRequests(up[..k], reqs[..k]) && EachHeaderFirst(up[..k], reqs[..k])
  {
    forall i | 0 <= i < k
      ensures Delivers(up[..k][i], EnLength(PrintReq(reqs[..k][i])))
      ensures HeaderFirst(up[..k][i], PrintReq(reqs[..k][i]))
    {
      assert up[..k][i] == up[i] && reqs[..k][i] == reqs[i];
    }
  }

  /** What the server does with its reads of the first k frames. */
  lemma ServerDialogue(func: Req -> Resp, reqs: seq<Req>, up: seq<seq<string>>, k: nat)
    requires AllSendable(reqs) && CutByFrame(up, ReqTexts(reqs)) && k <= |reqs|
    ensures ServedAll(Handle(func, Reads(up[..k]), ""), func, reqs[..k])
  {
    RequestsCarried(up, reqs);
    PrefixCarries(reqs, up, k);
    ServerWhole(func, reqs[..k], up[..k]);
  }

  lemma ServerAlways(func: Req -> Resp, reqs: seq<Req>, up: seq<seq<string>>)
    requires AllSendable(reqs) && CutByFrame(up, ReqTexts(reqs))
    ensures Handle(func, Reads(up), "").served == reqs
    ensures forall k :: 0 <= k <= |reqs| ==> ServedAll(Handle(func, Reads(up[..k]), ""), func, reqs[..k])
  {
    forall k | 0 <= k <= |reqs| ensures ServedAll(Handle(func, Reads(up[..k]), ""), func, reqs[..k]) {
      ServerDialogue(func, reqs, up, k);
    }
    RequestsCarried(up, reqs);
    ServerWhole(func, reqs, up);
  }

  /** Each end reads what the other wrote: the payload lists are the requests the client wrote and
      the server's responses to them. */
  lemma PayloadsMeet(func: Req -> Resp, reqs: seq<Req>, up: seq<seq<string>>, down: seq<seq<string>>,
                     ups: seq<string>, downs: seq<string>)
    requires AllSendable(reqs) && CutByFrame(up, ups) && CutByFrame(down, downs)
    requires Wire(Reads(up)) == Ask(reqs, Reads(down)).sent
    requires Wire(Reads(down)) == Handle(func, Reads(up), "").sent
    ensures var m := Written(reqs, |Ask(reqs, Reads(down)).answers|);
            ups == ReqTexts(reqs[..m]) && downs == RespTexts(func, reqs[..m])
  {
    var m := Written(reqs, |Ask(reqs, Reads(down)).answers|);
    WireOfFrames(up, ups);
    AskSends(reqs, Reads(down));
    ReqStreamFrames(reqs[..m]);
    FramesInjective(ups, ReqTexts(reqs[..m]));
    ServerDialogue(func, reqs[..m], up, m);
    assert up[..m] == up && reqs[..m][..m] == reqs[..m];
    WireOfFrames(down, downs);
    RespStreamFrames(func, reqs[..m]);
    FramesInjective(downs, RespTexts(func, reqs[..m]));
  }

  /** End to end, as a closed loop: the server's reads carry what the client wrote and the client's
      reads what the server wrote, frame by frame, header first. Then the i-th answer the client
      decodes is `func` of its i-th request, and it gets all of them. At every point of the dialogue
      the server, given the first k frames, has served exactly the first k requests, has sent exactly
      their responses, and its buffer is empty. */
  lemma EndToEnd(func: Req -> Resp, reqs: seq<Req>, up: seq<seq<string>>, down: seq<seq<string>>,
                 ups: seq<string>, downs: seq<string>)
    requires AllSendable(reqs) && AllAnswerable(func, reqs)
    requires CutByFrame(up, ups) && CutByFrame(down, downs)
    requires Wire(Reads(up)) == Ask(reqs, Reads(down)).sent
    requires Wire(Reads(down)) == Handle(func, Reads(up), "").sent
    ensures Handle(func, Reads(up), "").served == reqs
    ensures var c := Ask(reqs, Reads(down));
            && |c.answers| == |reqs| && (forall i :: 0 <= i < |reqs| ==> c.answers[i] == func(reqs[i]))
            && !c.stopped
    ensures |up| == |reqs| && forall k :: 0 <= k <= |reqs| ==>
              ServedAll(Handle(func, Reads(up[..k]), ""), func, reqs[..k])
  {
    PayloadsMeet(func, reqs, up, down, ups, downs);
    var m := Written(reqs, |Ask(reqs, Reads(down)).answers|);
    LockstepClient(func, reqs, m, down);
    assert reqs[..|reqs|] == reqs;
    ServerAlways(func, reqs, up);
  }

  /** The closed loop can be run: reads cut from the requests and from their responses meet it. */
  lemma EndsMeet(func: Req -> Resp, reqs: seq<Req>, up: seq<seq<string>>, down: seq<seq<string>>)
    requires AllSendable(reqs) && AllAnswerable(func, reqs)
    requires CutByFrame(up, ReqTexts(reqs)) && CutByFrame(down, RespTexts(func, reqs))
    ensures Wire(Reads(up)) == Ask(reqs, Reads(down)).sent
    ensures Wire(Reads(down)) == Handle(func, Reads(up), "").sent
  {
    assert reqs[..|reqs|] == reqs && up[..|reqs|] == up;
    WireOfFrames(up, ReqTexts(reqs));
    ReqStreamFrames(reqs);
    LockstepClient(func, reqs, |reqs|, down);
    AskSends(reqs, Reads(down));
    WireOfFrames(down, RespTexts(func, reqs));
    RespStreamFrames(func, reqs);
    ServerDialogue(func, reqs, up, |reqs|);
  }

  /** Each frame whole in one chunk. */
  function WholeFrames(texts: seq<string>): (groups: seq<seq<string>>)
    ensures |groups| == |texts|
  {
    seq(|texts|, i requires 0 <= i < |texts| => [EnLength(texts[i])])
  }

  lemma WholeFrameDelivers(text: string)
    requires NulFree(text)
    ensures Delivers([EnLength(text)], EnLength(text)) && HeaderFirst([EnLength(text)], text)
  {
    var frame := EnLength(text);
    assert [frame][1..] == [];
    NothingFollows(frame);
    assert Concat([frame]) == frame;
    assert NulFree(PrintNat(|text|) + CRLF);
  }

  lemma WholeFramesCut(texts: seq<string>)
    requires AllNulFree(texts)
    ensures CutByFrame(WholeFrames(texts), texts)
  {
    forall i | 0 <= i < |texts|
      ensures Delivers(WholeFrames(texts)[i], EnLength(texts[i])) && HeaderFirst(WholeFrames(texts)[i], texts[i])
    {
      WholeFrameDelivers(texts[i]);
    }
  }

  lemma {:induction false} RespTextsNulFree(func: Req -> Resp, reqs: seq<Req>)
    ensures AllNulFree(RespTexts(func, reqs))
  {
    if reqs == [] {
    } else {
      ToStringBytes(func(reqs[0]).result);
      ToStringBytes(func(reqs[0]).exitcode);
      assert NulFree(PrintResp(func(reqs[0])));
      RespTextsNulFree(func, reqs[1..]);
    }
  }

  /** And there are such reads for every list of requests: each frame in one read. */
  lemma LoopCloses(func: Req -> Resp, reqs: seq<Req>)
    requires AllSendable(reqs) && AllAnswerable(func, reqs)
    ensures var ups, downs := ReqTexts(reqs), RespTexts(func, reqs);
            && CutByFrame(WholeFrames(ups), ups) && CutByFrame(WholeFrames(downs), downs)
            && Wire(Reads(WholeFrames(ups))) == Ask(reqs, Reads(WholeFrames(downs))).sent
            && Wire(Reads(WholeFrames(downs))) == Handle(func, Reads(WholeFrames(ups)), "").sent
  {
    ReqTextsNulFree(reqs);
    RespTextsNulFree(func, reqs);
    WholeFramesCut(ReqTexts(reqs));
    WholeFramesCut(RespTexts(func, reqs));
    EndsMeet(func, reqs, WholeFrames(ReqTexts(reqs)), WholeFrames(RespTexts(func, reqs)));
  }

  lemma NulFreeFrame(text: string)
    requires NulFree(text)
    ensures NulFree(EnLength(text))
  {
    assert NulFree(PrintNat(|text|) + CRLF);
  }

  /** The client receives every answer into a fresh buffer: what arrives in the same read behind an
      answer is lost, and the next answer is read from the reads that follow. */
  lemma ClientForgets(req: Req, reqs: seq<Req>, resp: Resp, rest: string, tail: seq<Read>)
    requires RespInRange(resp) && NulFree(rest)
    ensures Ask([req] + reqs, [Data(EnLength(PrintResp(resp)) + rest)] + tail).answers ==
            [resp] + Ask(reqs, tail).answers
    ensures Ask([req] + reqs, [Data(EnLength(PrintResp(resp)) + rest)] + tail).stopped == Ask(reqs, tail).stopped
  {
    var text := PrintResp(resp);
    assert ([req] + reqs)[0] == req && ([req] + reqs)[1..] == reqs;
    ToStringBytes(resp.result);
    ToStringBytes(resp.exitcode);
    NulFreeFrame(text);
    RespFrameShort(resp);
    RecvAllAtOnce(text, rest, tail);
    ResponseFrameDecodes(resp);
  }

  /** The calculator over the wire: every list of defined requests gets the answers that the protocol
      promises, those of `callback`. */
  lemma CalculatorEndToEnd(reqs: seq<Req>, up: seq<seq<string>>, down: seq<seq<string>>,
                           ups: seq<string>, downs: seq<string>)
    requires AllSendable(reqs) && forall i :: 0 <= i < |reqs| ==> Defined(reqs[i])
    requires CutByFrame(up, ups) && CutByFrame(down, downs)
    requires Wire(Reads(up)) == Ask(reqs, Reads(down)).sent
    requires Wire(Reads(down)) == Handle(Compute, Reads(up), "").sent
    ensures Handle(Compute, Reads(up), "").served == reqs
    ensures var c := Ask(reqs, Reads(down));
            && |c.answers| == |reqs|
            && (forall i :: 0 <= i < |reqs| ==> c.answers[i] == Compute(reqs[i]) && IsAnswer(reqs[i], c.answers[i]))
  {
    forall i | 0 <= i < |reqs| ensures RespInRange(Compute(reqs[i])) {
      ComputeInRange(reqs[i]);
    }
    EndToEnd(Compute, reqs, up, down, ups, downs);
    forall i | 0 <= i < |reqs| ensures IsAnswer(reqs[i], Compute(reqs[i])) {
      ComputeAnswers(reqs[i]);
    }
  }
}
