/** The exact service of `handlerLink` for every chunking of a stream of frames, whether or not their
    payloads are requests. */
module Service {
  import opened Basics
  import opened Decimal
  import opened Text
  import opened Framing
  import opened Codec
  import opened Link
  import Backlog

  function Shape(text: string): Backlog.Frame {
    Backlog.Frame(HeaderLen(text), |text| + 2)
  }

  /** The lengths of the frames of these payloads. */
  function Shapes(texts: seq<string>): (shapes: seq<Backlog.Frame>)
    ensures |shapes| == |texts|
  {
    if texts == [] then [] else [Shape(texts[0])] + Shapes(texts[1..])
  }

  function Sizes(chunks: seq<string>): seq<nat> {
    seq(|chunks|, i requires 0 <= i < |chunks| => |chunks[i]|)
  }

  /** The chunks, with what is in the buffer, are a part of the stream. */
  ghost predicate Chops(chunks: seq<string>, inbuffer: string, stream: string) {
    inbuffer + Concat(chunks) <= stream
  }

  predicate AllShort(texts: seq<string>) {
    forall i :: 0 <= i < |texts| ==> FrameLen(texts[i]) <= INT_MAX
  }

  /** The reads that follow the chunks: none, or an end of file or a failed read first. */
  predicate Ends(tail: seq<Read>) {
    tail == [] || !tail[0].Data?
  }

  // ---------- One read ----------

  lemma ChunkScript(chunks: seq<string>, tail: seq<Read>)
    requires chunks != []
    ensures (Datas(chunks) + tail)[0] == Data(chunks[0])
    ensures (Datas(chunks) + tail)[1..] == Datas(chunks[1..]) + tail
  {
  }

  lemma PayloadDecodes(text: string)
    requires FrameLen(text) <= INT_MAX
    ensures RequestIn(Package(EnLength(text))) == ParseReq(text)
  {
    FrameDecodes(text, "");
    assert EnLength(text) + "" == EnLength(text);
  }

  /** What the server does with a complete frame: serve, drop the connection, or die. */
  function Taken(func: Req -> Resp, text: string, rest: Session): Session {
    match ParseReq(text)
    case Accepted(req) => Reply(func, req, rest)
    case Rejected => Session([], "", rest.inbuffer, rest.script, Dropped)
    case Thrown => Session([], "", rest.inbuffer, rest.script, Crashed)
  }

  /** The session from here on, as far as requests and end are concerned. */
  ghost predicate Like(s: Session, t: Session) {
    s.served == t.served && s.ended == t.ended
  }

  /** One read of the server, when the stream goes on with this frame. */
  lemma ChunkTurn(func: Req -> Resp, text: string, rest: string, chunks: seq<string>, tail: seq<Read>,
                  inbuffer: string)
    requires FrameLen(text) <= INT_MAX && chunks != [] && NulFree(chunks[0])
    requires inbuffer + chunks[0] <= EnLength(text) + rest
    ensures var buffer, script := inbuffer + chunks[0], Datas(chunks[1..]) + tail;
            var s := Handle(func, Datas(chunks) + tail, inbuffer);
            if |buffer| < HeaderLen(text) then Like(s, Session([], "", "", [], Dropped))
            else if |buffer| < FrameLen(text) then s == Handle(func, script, buffer)
            else Like(s, Taken(func, text, Handle(func, script, buffer[FrameLen(text)..])))
  {
    ChunkScript(chunks, tail);
    PayloadDecodes(text);
    ScanPrefix(text, rest, inbuffer + chunks[0]);
  }

  lemma NextFrame(text: string, rest: string, chunks: seq<string>, buffer: string)
    requires Chops(chunks, buffer, EnLength(text) + rest) && |buffer| >= FrameLen(text)
    ensures Chops(chunks, buffer[FrameLen(text)..], rest)
  {
    var frame, left := EnLength(text), buffer[FrameLen(text)..];
    PrefixOf(buffer, Concat(chunks), frame + rest);
    assert buffer[..|frame|] == (frame + rest)[..|frame|] == frame;
    assert buffer == frame + left;
    DropFrame(frame, left, Concat(chunks), rest);
  }

  /** A read takes its chunk off the stream, and the first frame if it is complete. */
  lemma ChopsOn(text: string, rest: string, chunks: seq<string>, inbuffer: string)
    requires Chops(chunks, inbuffer, EnLength(text) + rest) && chunks != []
    ensures inbuffer + chunks[0] <= EnLength(text) + rest
    ensures Chops(chunks[1..], inbuffer + chunks[0], EnLength(text) + rest)
    ensures |inbuffer + chunks[0]| >= FrameLen(text) ==>
              Chops(chunks[1..], (inbuffer + chunks[0])[FrameLen(text)..], rest)
  {
    Regroup(inbuffer, chunks[0], Concat(chunks[1..]));
    PrefixOf(inbuffer + chunks[0], Concat(chunks[1..]), EnLength(text) + rest);
    if |inbuffer + chunks[0]| >= FrameLen(text) {
      NextFrame(text, rest, chunks[1..], inbuffer + chunks[0]);
    }
  }

  // ---------- The count ----------

  function CountOf(texts: seq<string>, b: nat, chunks: seq<string>): (n: nat)
    ensures n <= |texts|
  {
    Backlog.Count(Shapes(texts), b, Sizes(chunks))
  }

  lemma ShapesNext(texts: seq<string>)
    requires texts != []
    ensures Shapes(texts)[0] == Shape(texts[0])
    ensures Shapes(texts)[1..] == Shapes(texts[1..])
  {
  }

  lemma SizesNext(chunks: seq<string>)
    requires chunks != []
    ensures Sizes(chunks) != [] && Sizes(chunks)[0] == |chunks[0]| && Sizes(chunks)[1..] == Sizes(chunks[1..])
  {
  }

  lemma CountNext(texts: seq<string>, b: nat, chunks: seq<string>, seen: nat)
    requires chunks != [] && texts != [] && seen == b + |chunks[0]|
    ensures CountOf(texts, b, chunks) ==
            if seen < HeaderLen(texts[0]) then 0
            else if seen < FrameLen(texts[0]) then CountOf(texts, seen, chunks[1..])
            else 1 + CountOf(texts[1..], seen - FrameLen(texts[0]), chunks[1..])
  {
    ShapesNext(texts);
    SizesNext(chunks);
    Backlog.CountTurn(Shapes(texts), b, Sizes(chunks), Shape(texts[0]), seen);
  }

  // ---------- The law ----------

  /** The requests that these payloads spell, up to the first payload that is none. */
  function Requests(texts: seq<string>): (reqs: seq<Req>)
    ensures |reqs| <= |texts|
  {
    if texts == [] || !ParseReq(texts[0]).Accepted? then [] else [ParseReq(texts[0]).value] + Requests(texts[1..])
  }

  /** Reading the first payload that is no request throws. */
  predicate Dies(texts: seq<string>) {
    texts != [] && if ParseReq(texts[0]).Accepted? then Dies(texts[1..]) else ParseReq(texts[0]).Thrown?
  }

  /** The session when the first n frames are taken, of which these are the requests before the first
      bad payload: they are served; the bad one, if it is among the n frames, ends the session, dropping
      the connection or, if reading it throws, the program. */
  ghost predicate TakesFirst(s: Session, reqs: seq<Req>, dies: bool, n: nat) {
    s.served == reqs[..Min(n, |reqs|)] && s.ended == if n > |reqs| && dies then Crashed else Dropped
  }

  lemma TakesGood(func: Req -> Resp, s: Session, rest: Session, req: Req, reqs: seq<Req>, all: seq<Req>, dies: bool,
                  n: nat, m: nat)
    requires TakesFirst(rest, reqs, dies, n) && Like(s, Reply(func, req, rest))
    requires all == [req] + reqs && m == n + 1
    ensures TakesFirst(s, all, dies, m)
  {
  }

  lemma NothingArrives(func: Req -> Resp, chunks: seq<string>, tail: seq<Read>)
    requires Concat(chunks) == "" && Ends(tail)
    ensures Like(Handle(func, Datas(chunks) + tail, ""), Session([], "", "", [], Dropped))
  {
    if chunks == [] {
      assert Datas(chunks) + tail == tail;
    } else {
      ChunkScript(chunks, tail);
      assert CString(chunks[0]) == "" && "" + CString(chunks[0]) == "";
    }
  }

  lemma NothingMore(func: Req -> Resp, tail: seq<Read>, inbuffer: string)
    requires Ends(tail)
    ensures Like(Handle(func, Datas([]) + tail, inbuffer), Session([], "", "", [], Dropped))
  {
    assert Datas([]) + tail == tail;
  }

  /** The law for one state of the server. */
  ghost predicate Lawful(func: Req -> Resp, texts: seq<string>, chunks: seq<string>, tail: seq<Read>,
                         inbuffer: string)
  {
    TakesFirst(Handle(func, Datas(chunks) + tail, inbuffer), Requests(texts), Dies(texts),
               CountOf(texts, |inbuffer|, chunks))
  }

  lemma LawWaits(func: Req -> Resp, texts: seq<string>, rest: string, chunks: seq<string>, tail: seq<Read>,
                 inbuffer: string, buffer: string)
    requires texts != [] && FrameLen(texts[0]) <= INT_MAX && chunks != [] && NulFree(chunks[0])
    requires buffer == inbuffer + chunks[0] && buffer <= EnLength(texts[0]) + rest && |buffer| < FrameLen(texts[0])
    requires Lawful(func, texts, chunks[1..], tail, buffer)
    ensures Lawful(func, texts, chunks, tail, inbuffer)
  {
    ChunkTurn(func, texts[0], rest, chunks, tail, inbuffer);
    CountNext(texts, |inbuffer|, chunks, |buffer|);
  }

  lemma GoodFirst(texts: seq<string>, req: Req)
    requires texts != [] && ParseReq(texts[0]) == Accepted(req)
    ensures Requests(texts) == [req] + Requests(texts[1..]) && Dies(texts) == Dies(texts[1..])
  {
  }

  lemma ServesOne(func: Req -> Resp, texts: seq<string>, req: Req, reqs: seq<Req>, all: seq<Req>, dies: bool,
                  b: nat, chunks: seq<string>, left: nat, s: Session, later: Session)
    requires texts != [] && chunks != [] && b + |chunks[0]| == FrameLen(texts[0]) + left
    requires all == [req] + reqs && Like(s, Reply(func, req, later))
    requires TakesFirst(later, reqs, dies, CountOf(texts[1..], left, chunks[1..]))
    ensures TakesFirst(s, all, dies, CountOf(texts, b, chunks))
  {
    CountNext(texts, b, chunks, b + |chunks[0]|);
    var n, m := CountOf(texts[1..], left, chunks[1..]), CountOf(texts, b, chunks);
    TakesGood(func, s, later, req, reqs, all, dies, n, m);
  }

  lemma LawServes(func: Req -> Resp, texts: seq<string>, rest: string, chunks: seq<string>, tail: seq<Read>,
                  inbuffer: string, left: string)
    requires texts != [] && FrameLen(texts[0]) <= INT_MAX && chunks != [] && NulFree(chunks[0])
    requires inbuffer + chunks[0] <= EnLength(texts[0]) + rest
    requires |inbuffer| + |chunks[0]| == FrameLen(texts[0]) + |left|
    requires left == (inbuffer + chunks[0])[FrameLen(texts[0])..]
    requires ParseReq(texts[0]).Accepted? && Lawful(func, texts[1..], chunks[1..], tail, left)
    ensures Lawful(func, texts, chunks, tail, inbuffer)
  {
    ChunkTurn(func, texts[0], rest, chunks, tail, inbuffer);
    GoodFirst(texts, ParseReq(texts[0]).value);
    ServesOne(func, texts, ParseReq(texts[0]).value, Requests(texts[1..]), Requests(texts), Dies(texts),
              |inbuffer|, chunks, |left|, Handle(func, Datas(chunks) + tail, inbuffer),
              Handle(func, Datas(chunks[1..]) + tail, left));
  }

  lemma TakesBad(func: Req -> Resp, s: Session, rest: Session, text: string, n: nat)
    requires !ParseReq(text).Accepted? && Like(s, Taken(func, text, rest)) && n > 0
    ensures TakesFirst(s, [], ParseReq(text).Thrown?, n)
  {
  }

  lemma BadFirst(texts: seq<string>)
    requires texts != [] && !ParseReq(texts[0]).Accepted?
    ensures Requests(texts) == [] && Dies(texts) == ParseReq(texts[0]).Thrown?
  {
  }

  lemma LawEnds(func: Req -> Resp, texts: seq<string>, rest: string, chunks: seq<string>, tail: seq<Read>,
                inbuffer: string, left: string)
    requires texts != [] && FrameLen(texts[0]) <= INT_MAX && chunks != [] && NulFree(chunks[0])
    requires inbuffer + chunks[0] <= EnLength(texts[0]) + rest
    requires |inbuffer| + |chunks[0]| == FrameLen(texts[0]) + |left|
    requires left == (inbuffer + chunks[0])[FrameLen(texts[0])..]
    requires !ParseReq(texts[0]).Accepted?
    ensures Lawful(func, texts, chunks, tail, inbuffer)
  {
    BadFirst(texts);
    ChunkTurn(func, texts[0], rest, chunks, tail, inbuffer);
    CountNext(texts, |inbuffer|, chunks, |inbuffer| + |chunks[0]|);
    TakesBad(func, Handle(func, Datas(chunks) + tail, inbuffer), Handle(func, Datas(chunks[1..]) + tail, left),
             texts[0], CountOf(texts, |inbuffer|, chunks));
  }

  /** What follows the frames, if anything, comes after a payload that is no request. */
  predicate Bounded(texts: seq<string>, rest: string) {
    rest == "" || |Requests(texts)| < |texts|
  }

  lemma FramesNext(texts: seq<string>, rest: string)
    requires texts != []
    ensures Frames(texts) + rest == EnLength(texts[0]) + (Frames(texts[1..]) + rest)
  {
    Regroup(EnLength(texts[0]), Frames(texts[1..]), rest);
  }

  /** The service law. A server reads any list of frames, cut into reads in any way, with an end of file
      or a failed read at any point. It takes as many frames as counting lengths says; it serves those
      that are requests, and the first that is none ends the session. */
  lemma {:induction false} FramesLaw(func: Req -> Resp, texts: seq<string>, rest: string, chunks: seq<string>,
                                     tail: seq<Read>, inbuffer: string)
    requires AllShort(texts) && AllNulFree(chunks) && Ends(tail) && Bounded(texts, rest)
    requires Chops(chunks, inbuffer, Frames(texts) + rest)
    ensures Lawful(func, texts, chunks, tail, inbuffer)
    decreases |chunks|
  {
    if chunks == [] {
      NothingMore(func, tail, inbuffer);
    } else if texts == [] {
      assert |inbuffer + Concat(chunks)| == 0;
      NothingArrives(func, chunks, tail);
    } else {
      var follow := Frames(texts[1..]) + rest;
      FramesNext(texts, rest);
      ChopsOn(texts[0], follow, chunks, inbuffer);
      var buffer, f := inbuffer + chunks[0], FrameLen(texts[0]);
      if |buffer| < f {
        FramesLaw(func, texts, rest, chunks[1..], tail, buffer);
        LawWaits(func, texts, follow, chunks, tail, inbuffer, buffer);
      } else if ParseReq(texts[0]).Accepted? {
        FramesLaw(func, texts[1..], rest, chunks[1..], tail, buffer[f..]);
        LawServes(func, texts, follow, chunks, tail, inbuffer, buffer[f..]);
      } else {
        LawEnds(func, texts, follow, chunks, tail, inbuffer, buffer[f..]);
      }
    }
  }

  // ---------- Streams of requests ----------

  lemma RequestsCons(req: Req, texts: seq<string>)
    requires Sendable(req)
    ensures Requests([PrintReq(req)] + texts) == [req] + Requests(texts)
    ensures Dies([PrintReq(req)] + texts) == Dies(texts)
  {
    var all := [PrintReq(req)] + texts;
    ReqRoundTrip(req);
    assert all[0] == PrintReq(req) && all[1..] == texts;
  }

  lemma {:induction false} RequestsOf(reqs: seq<Req>)
    requires AllSendable(reqs)
    ensures Requests(ReqTexts(reqs)) == reqs
  {
    if reqs == [] {
    } else {
      RequestsOf(reqs[1..]);
      RequestsCons(reqs[0], ReqTexts(reqs[1..]));
    }
  }

  lemma {:induction false} RequestsShort(reqs: seq<Req>)
    requires AllSendable(reqs)
    ensures AllShort(ReqTexts(reqs))
  {
    if reqs == [] {
    } else {
      ReqFrameShort(reqs[0]);
      RequestsShort(reqs[1..]);
    }
  }

  lemma {:induction false} ChunksNulFree(chunks: seq<string>, inbuffer: string, stream: string)
    requires NulFree(stream) && Chops(chunks, inbuffer, stream)
    ensures AllNulFree(chunks)
  {
    if chunks == [] {
    } else {
      forall c | c in chunks[0] ensures c in stream {
        assert c in inbuffer + (chunks[0] + Concat(chunks[1..]));
      }
      Regroup(inbuffer, chunks[0], Concat(chunks[1..]));
      ChunksNulFree(chunks[1..], inbuffer + chunks[0], stream);
    }
  }

  lemma RequestStream(reqs: seq<Req>, chunks: seq<string>, inbuffer: string)
    requires AllSendable(reqs) && Chops(chunks, inbuffer, ReqStream(reqs))
    ensures AllNulFree(chunks) && Chops(chunks, inbuffer, Frames(ReqTexts(reqs)) + "")
  {
    NulFreeReqStream(reqs);
    ChunksNulFree(chunks, inbuffer, ReqStream(reqs));
    ReqStreamFrames(reqs);
    assert Frames(ReqTexts(reqs)) + "" == ReqStream(reqs);
  }

  lemma RequestsLaw(func: Req -> Resp, reqs: seq<Req>, chunks: seq<string>, tail: seq<Read>, inbuffer: string)
    requires AllSendable(reqs) && Chops(chunks, inbuffer, ReqStream(reqs)) && Ends(tail)
    ensures Lawful(func, ReqTexts(reqs), chunks, tail, inbuffer)
  {
    RequestStream(reqs, chunks, inbuffer);
    RequestsShort(reqs);
    FramesLaw(func, ReqTexts(reqs), "", chunks, tail, inbuffer);
  }

  lemma TakesAllGood(s: Session, texts: seq<string>, reqs: seq<Req>, n: nat)
    requires n <= |texts| == |reqs| && Requests(texts) == reqs && TakesFirst(s, Requests(texts), Dies(texts), n)
    ensures s.served == reqs[..n] && (s.served == reqs <==> n == |reqs|) && s.ended == Dropped
  {
  }

  /** For every chunking of a stream of requests, up to an end of file or a failed read, the server
      serves exactly the first requests, as many as counting lengths says, and so all of them if and only
      if that number does. */
  lemma ServiceLaw(func: Req -> Resp, reqs: seq<Req>, chunks: seq<string>, tail: seq<Read>, inbuffer: string)
    requires AllSendable(reqs) && Chops(chunks, inbuffer, ReqStream(reqs)) && Ends(tail)
    ensures var n, s := CountOf(ReqTexts(reqs), |inbuffer|, chunks), Handle(func, Datas(chunks) + tail, inbuffer);
            s.served == reqs[..n] && (s.served == reqs <==> n == |reqs|) && s.ended == Dropped
  {
    RequestsLaw(func, reqs, chunks, tail, inbuffer);
    RequestsOf(reqs);
    TakesAllGood(Handle(func, Datas(chunks) + tail, inbuffer), ReqTexts(reqs), reqs,
                 CountOf(ReqTexts(reqs), |inbuffer|, chunks));
  }

  /** The number of request frames complete in the first j chunks. */
  function CompleteAfter(reqs: seq<Req>, chunks: seq<string>, j: nat): nat
    requires j <= |chunks|
  {
    Backlog.FramesIn(Shapes(ReqTexts(reqs)), Backlog.Seen(Sizes(chunks), j))
  }

  /** When no read cuts a header, the number of requests served after n reads is the minimum over j
      of the frames complete after j reads plus n - j. */
  lemma ServiceBacklog(func: Req -> Resp, reqs: seq<Req>, chunks: seq<string>, tail: seq<Read>) returns (at: nat)
    requires AllSendable(reqs) && Chops(chunks, "", ReqStream(reqs)) && Ends(tail)
    requires Backlog.NonEmpty(Sizes(chunks)) && Backlog.HeadersWhole(Shapes(ReqTexts(reqs)), 0, Sizes(chunks))
    ensures at <= |chunks|
    ensures |Handle(func, Datas(chunks) + tail, "").served| == CompleteAfter(reqs, chunks, at) + |chunks| - at
    ensures forall j :: 0 <= j <= |chunks| ==>
              |Handle(func, Datas(chunks) + tail, "").served| <= CompleteAfter(reqs, chunks, j) + |chunks| - j
  {
    ServiceLaw(func, reqs, chunks, tail, "");
    assert |Handle(func, Datas(chunks) + tail, "").served| == CountOf(ReqTexts(reqs), 0, chunks);
    at := Backlog.CountLaw(Shapes(ReqTexts(reqs)), Sizes(chunks));
  }

  // ---------- A payload that is no request ----------

  lemma {:induction false} FramesAppend(xs: seq<string>, ys: seq<string>)
    ensures Frames(xs + ys) == Frames(xs) + Frames(ys)
  {
    if xs == [] {
      assert xs + ys == ys;
    } else {
      assert (xs + ys)[1..] == xs[1..] + ys;
      FramesAppend(xs[1..], ys);
      Regroup(EnLength(xs[0]), Frames(xs[1..]), Frames(ys));
    }
  }

  lemma BadLater(good: seq<Req>, bad: string)
    requires good != []
    ensures ReqTexts(good) + [bad] == [PrintReq(good[0])] + (ReqTexts(good[1..]) + [bad])
  {
  }

  lemma {:induction false} RequestsBefore(good: seq<Req>, bad: string)
    requires AllSendable(good) && !ParseReq(bad).Accepted?
    ensures Requests(ReqTexts(good) + [bad]) == good
    ensures Dies(ReqTexts(good) + [bad]) == ParseReq(bad).Thrown?
  {
    if good == [] {
      assert ReqTexts(good) + [bad] == [bad];
    } else {
      var later := ReqTexts(good[1..]) + [bad];
      RequestsBefore(good[1..], bad);
      RequestsCons(good[0], later);
      BadLater(good, bad);
    }
  }

  lemma BadStream(good: seq<Req>, bad: string)
    ensures Frames(ReqTexts(good) + [bad]) == ReqStream(good) + EnLength(bad)
  {
    FramesAppend(ReqTexts(good), [bad]);
    ReqStreamFrames(good);
    assert Frames([bad][1..]) == "";
    assert EnLength(bad) + "" == EnLength(bad);
  }

  /** The payloads of such a stream. */
  lemma BadTexts(good: seq<Req>, bad: string, texts: seq<string>)
    requires AllSendable(good) && FrameLen(bad) <= INT_MAX && texts == ReqTexts(good) + [bad]
    ensures |texts| == |good| + 1 && AllShort(texts)
  {
    RequestsShort(good);
    forall i | 0 <= i < |texts| ensures FrameLen(texts[i]) <= INT_MAX {
      assert i < |good| ==> texts[i] == ReqTexts(good)[i];
    }
  }

  lemma BadLaw(func: Req -> Resp, good: seq<Req>, bad: string, rest: string, texts: seq<string>, chunks: seq<string>,
               tail: seq<Read>, inbuffer: string)
    requires AllSendable(good) && !ParseReq(bad).Accepted? && FrameLen(bad) <= INT_MAX
    requires texts == ReqTexts(good) + [bad]
    requires AllNulFree(chunks) && Ends(tail) && Chops(chunks, inbuffer, ReqStream(good) + EnLength(bad) + rest)
    ensures Lawful(func, texts, chunks, tail, inbuffer)
  {
    RequestsBefore(good, bad);
    BadTexts(good, bad, texts);
    BadStream(good, bad);
    FramesLaw(func, texts, rest, chunks, tail, inbuffer);
  }

  lemma TakesToBad(s: Session, texts: seq<string>, good: seq<Req>, dies: bool, n: nat)
    requires n <= |texts| == |good| + 1 && Requests(texts) == good && Dies(texts) == dies
    requires TakesFirst(s, Requests(texts), Dies(texts), n)
    ensures s.served == good[..Min(n, |good|)]
    ensures s.ended == if n == |good| + 1 && dies then Crashed else Dropped
  {
  }

  /** Requests, then the frame of a payload that is none, then anything, in any chunking: no more than
      the requests are served, each as soon as counting lengths says; and as soon as the bad frame is
      counted too, the session has ended, with the connection dropped if the payload is rejected and the
      program dead if reading it throws. */
  lemma BadPayloadEnds(func: Req -> Resp, good: seq<Req>, bad: string, rest: string, chunks: seq<string>,
                       tail: seq<Read>, inbuffer: string)
    requires AllSendable(good) && !ParseReq(bad).Accepted? && FrameLen(bad) <= INT_MAX
    requires AllNulFree(chunks) && Ends(tail) && Chops(chunks, inbuffer, ReqStream(good) + EnLength(bad) + rest)
    ensures var n := CountOf(ReqTexts(good) + [bad], |inbuffer|, chunks);
            var s := Handle(func, Datas(chunks) + tail, inbuffer);
            && n <= |good| + 1
            && s.served == good[..Min(n, |good|)]
            && s.ended == if n == |good| + 1 && ParseReq(bad).Thrown? then Crashed else Dropped
  {
    var texts := ReqTexts(good) + [bad];
    BadLaw(func, good, bad, rest, texts, chunks, tail, inbuffer);
    RequestsBefore(good, bad);
    TakesToBad(Handle(func, Datas(chunks) + tail, inbuffer), texts, good, ParseReq(bad).Thrown?,
               CountOf(texts, |inbuffer|, chunks));
  }

  /** A header that is no int, in whatever read it is completed, kills the program. */
  lemma BadHeaderCrashes(func: Req -> Resp, inbuffer: string, bytes: string, h: string, rest: string, tail: seq<Read>)
    requires NulFree(bytes) && inbuffer + bytes == h + "\r\n" + rest
    requires '\r' !in h && !Stoi(h).Number?
    ensures Handle(func, [Data(bytes)] + tail, inbuffer) == Session([], "", inbuffer + bytes, tail, Crashed)
  {
    BadHeaderThrows(inbuffer, bytes, h, rest, tail);
  }

  lemma SumFrames()
    ensures EnLength(PrintReq(Req(1, 2, '+'))) == "5\r\n1 + 2\r\n"
    ensures EnLength(PrintResp(Resp(3, 0))) == "5\r\n3 0\r\n\r\n"
  {
    assert PrintNat(0) == "0" && PrintNat(1) == "1" && PrintNat(2) == "2" && PrintNat(3) == "3" && PrintNat(5) == "5";
    assert PrintReq(Req(1, 2, '+')) == "1 + 2" && PrintResp(Resp(3, 0)) == "3 0\r\n";
  }

  /** The calculator on the wire, for instance. */
  lemma SumOnTheWire()
    ensures Handle(Compute, [Data("5\r\n1 + 2\r\n")], "").served == [Req(1, 2, '+')]
    ensures Handle(Compute, [Data("5\r\n1 + 2\r\n")], "").sent == "5\r\n3 0\r\n\r\n"
  {
    var q := Req(1, 2, '+');
    SumFrames();
    assert ReqStream([q]) == EnLength(PrintReq(q)) by {
      assert ReqStream([q][1..]) == "";
      assert EnLength(PrintReq(q)) + "" == EnLength(PrintReq(q));
    }
    CoalescedRequests(Compute, [q]);
    AnswersWhatItServes(Compute, [Data("5\r\n1 + 2\r\n")], "");
    assert RespStream(Compute, [q]) == EnLength(PrintResp(Resp(3, 0))) by {
      assert RespStream(Compute, [q][1..]) == "";
      assert EnLength(PrintResp(Resp(3, 0))) + "" == EnLength(PrintResp(Resp(3, 0)));
    }
  }

  /** For instance, the valid request after a payload without spaces is not served. */
  lemma NotServedAfterBad(func: Req -> Resp)
    ensures Handle(func, [Data("1\r\nX\r\n"), Data("5\r\n1 + 2\r\n")], "").served == []
    ensures Handle(func, [Data("1\r\nX\r\n"), Data("5\r\n1 + 2\r\n")], "").ended == Dropped
  {
    var a, b := "1\r\nX\r\n", "5\r\n1 + 2\r\n";
    assert PrintNat(1) == "1";
    assert EnLength("X") == a;
    RejectsWithoutTwoSpaces("X");
    assert [a, b][1..] == [b] && [b][1..] == [];
    assert Concat([b]) == b + "" == b;
    assert Concat([a, b]) == a + b;
    assert [Data(a), Data(b)] == Datas([a, b]) + [];
    assert ReqStream([]) + EnLength("X") + b == a + b;
    BadPayloadEnds(func, [], "X", b, [a, b], [], "");
  }
}
