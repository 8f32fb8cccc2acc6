/** The length-prefixed frames of protocol/protocol.hpp: `enLength`, `deLength` and `recvPackage`. */
module Framing {
  import opened Basics
  import opened Decimal
  import opened Text

  /** `enLength`: decimal length, CRLF, payload, CRLF. */
  function EnLength(text: string): string {
    PrintNat(|text|) + CRLF + text + CRLF
  }

  datatype Decoded = Payload(text: string) | NoHeader | BadHeader

  /** `deLength`. A negative length becomes a huge size_t, so `substr` takes all the rest. */
  function DeLength(package: string): Decoded {
    var pos := FindCrlf(package);
    if pos < 0 then NoHeader
    else
      match Stoi(package[..pos])
      case Number(n) =>
        var rest := package[pos + 2..];
        Payload(if 0 <= n < |rest| then rest[..n] else rest)
      case _ => BadHeader
  }

  /** What `recvPackage` makes of its buffer after a read. */
  datatype Scan = HeaderMissing | HeaderBad | Incomplete | Complete(total: nat)

  /** `total_len` is an int: the sum is taken modulo 2^32, and a negative one compares as a huge
      size_t. */
  function ScanBuffer(buffer: string): (r: Scan)
    ensures r.Complete? ==> r.total <= |buffer|
  {
    var pos := FindCrlf(buffer);
    if pos < 0 then HeaderMissing
    else
      match Stoi(buffer[..pos])
      case Number(n) =>
        var total := Wrap32(n + pos + 4);
        if 0 <= total <= |buffer| then Complete(total) else Incomplete
      case _ => HeaderBad
  }

  /** The result of one `read`: some bytes, whose number is not bounded here, end of file, or an
      error. */
  datatype Read = Data(bytes: string) | Closed | Failed

  /** What `recvPackage` returns: true and a package, false, or a thrown exception. */
  datatype Outcome = Package(text: string) | NoPackage | Threw

  datatype Received = Received(outcome: Outcome, inbuffer: string, script: seq<Read>)

  /** `recvPackage` on a script of read results; a script that has run out reads as end of file. */
  function Recv(script: seq<Read>, inbuffer: string): (r: Received)
    ensures |r.script| <= |script|
    ensures r.outcome.Package? ==> |r.script| < |script|
  {
    if script == [] then Received(NoPackage, inbuffer, [])
    else if !script[0].Data? then Received(NoPackage, inbuffer, script[1..])
    else
      var buffer := inbuffer + CString(script[0].bytes);
      match ScanBuffer(buffer)
      case HeaderMissing => Received(NoPackage, buffer, script[1..])
      case HeaderBad => Received(Threw, buffer, script[1..])
      case Incomplete => Recv(script[1..], buffer)
      case Complete(total) => Received(Package(buffer[..total]), buffer[total..], script[1..])
  }

  /** A connected socket: what its reads will return, and what has been written to it. */
  class Socket {
    var script: seq<Read>
    var sent: string

    constructor (script: seq<Read>)
      ensures this.script == script && sent == ""
    {
      this.script, sent := script, "";
    }

    method ReadChunk() returns (r: Read)
      modifies this`script
      ensures r == if old(script) == [] then Closed else old(script)[0]
      ensures script == if old(script) == [] then [] else old(script)[1..]
    {
      if script == [] {
        r := Closed;
      } else {
        r := script[0];
        script := script[1..];
      }
    }

    method Write(message: string)
      modifies this`sent
      ensures sent == old(sent) + message
    {
      sent := sent + message;
    }
  }

  /** The part of the loop that looks at the buffer. */
  method Examine(buffer: string) returns (r: Scan)
    ensures r == ScanBuffer(buffer)
  {
    var pos := FindCrlf(buffer);
    if pos < 0 {
      return HeaderMissing;
    }
    var textLen := Stoi(buffer[..pos]);
    if !textLen.Number? {
      return HeaderBad;
    }
    var total := Wrap32(textLen.n + pos + 4);
    if total < 0 || total > |buffer| {
      return Incomplete;
    }
    return Complete(total);
  }

  method RecvPackage(sock: Socket, inbuffer: string) returns (outcome: Outcome, buffer: string)
    modifies sock`script
    ensures Received(outcome, buffer, sock.script) == Recv(old(sock.script), inbuffer)
  {
    ghost var goal := Recv(sock.script, inbuffer);
    buffer := inbuffer;
    while true
      invariant Recv(sock.script, buffer) == goal
      decreases |sock.script|
    {
      var r := sock.ReadChunk();
      if !r.Data? {
        return NoPackage, buffer;
      }
      buffer := buffer + CString(r.bytes);
      var scan := Examine(buffer);
      match scan {
        case HeaderMissing => return NoPackage, buffer;
        case HeaderBad => return Threw, buffer;
        case Incomplete =>
        case Complete(total) => return Package(buffer[..total]), buffer[total..];
      }
    }
  }

  // ---------- Byte conservation ----------

  /** The bytes a run of reads appends to the buffer. */
  function Bytes(script: seq<Read>): string {
    if script == [] then ""
    else (if script[0].Data? then CString(script[0].bytes) else "") + Bytes(script[1..])
  }

  function TextOf(outcome: Outcome): string {
    if outcome.Package? then outcome.text else ""
  }

  /** The sides of a split, with what follows. */
  lemma SplitKeeps(s: string, k: nat, tail: string)
    requires k <= |s|
    ensures s[..k] + s[k..] + tail == s + tail
  {
    assert s[..k] + s[k..] == s;
  }

  /** The bytes `recvPackage` hands out, those it keeps, and those not yet read. */
  function Accounted(r: Received): string {
    TextOf(r.outcome) + r.inbuffer + Bytes(r.script)
  }

  lemma NoneTaken(s: string)
    ensures "" + s == s
  {
  }

  lemma NoReadConserves(script: seq<Read>, inbuffer: string)
    requires script == [] || !script[0].Data?
    ensures inbuffer + Bytes(script) == Accounted(Recv(script, inbuffer))
  {
    NoneTaken(inbuffer);
    if script != [] {
      NoneTaken(Bytes(script[1..]));
    }
  }

  lemma LastReadConserves(script: seq<Read>, inbuffer: string, buffer: string)
    requires script != [] && script[0].Data? && buffer == inbuffer + CString(script[0].bytes)
    requires !ScanBuffer(buffer).Incomplete?
    ensures buffer + Bytes(script[1..]) == Accounted(Recv(script, inbuffer))
  {
    var tail := Bytes(script[1..]);
    if ScanBuffer(buffer).Complete? {
      SplitKeeps(buffer, ScanBuffer(buffer).total, tail);
    } else {
      SplitKeeps(buffer, 0, tail);
    }
  }

  /** No byte is lost, duplicated or reordered by `recvPackage`, whatever the reads return and
      whether it succeeds, fails or throws. */
  lemma {:induction false} RecvConservesBytes(script: seq<Read>, inbuffer: string)
    ensures inbuffer + Bytes(script) == Accounted(Recv(script, inbuffer))
  {
    if script == [] || !script[0].Data? {
      NoReadConserves(script, inbuffer);
    } else {
      var buffer := inbuffer + CString(script[0].bytes);
      Regroup(inbuffer, CString(script[0].bytes), Bytes(script[1..]));
      if ScanBuffer(buffer).Incomplete? {
        RecvConservesBytes(script[1..], buffer);
      } else {
        LastReadConserves(script, inbuffer, buffer);
      }
    }
  }

  // ---------- Unique decodability ----------

  /** The bytes up to and including the header's CRLF. */
  function HeaderLen(text: string): nat {
    |PrintNat(|text|)| + 2
  }

  function FrameLen(text: string): nat {
    HeaderLen(text) + |text| + 2
  }

  /** The stream starts with these digits and a CRLF. */
  ghost predicate StartsWith(stream: string, digits: string) {
    digits + CRLF <= stream
  }

  lemma CrlfAfterDigits(digits: string, stream: string, seen: string)
    requires AllDigits(digits) && StartsWith(stream, digits) && seen <= stream
    ensures FindCrlf(seen) == if |seen| >= |digits| + 2 then |digits| else -1
  {
    forall i | 0 <= i < |digits| ensures !CrlfAt(seen, i) {
      if i < |seen| {
        assert seen[i] == (digits + CRLF)[i] == digits[i] && IsDigit(digits[i]);
      }
    }
    if |seen| >= |digits| + 2 {
      assert seen[|digits|] == (digits + CRLF)[|digits|] == '\r';
      assert seen[|digits| + 1] == (digits + CRLF)[|digits| + 1] == '\n';
      assert CrlfAt(seen, |digits|);
    }
    FindCrlfIsFirst(seen);
  }

  lemma HeaderIsPrefix(text: string, rest: string)
    ensures StartsWith(EnLength(text) + rest, PrintNat(|text|))
  {
    var digits := PrintNat(|text|);
    Regroup(digits + CRLF, text, CRLF);
    Regroup(digits + CRLF, text + CRLF, rest);
    assert EnLength(text) + rest == digits + CRLF + (text + CRLF + rest);
  }

  lemma DigitsSeen(digits: string, stream: string, seen: string)
    requires StartsWith(stream, digits) && seen <= stream && |seen| >= |digits|
    ensures seen[..|digits|] == digits
  {
    assert seen[..|digits|] == stream[..|digits|] == (digits + CRLF)[..|digits|];
  }

  /** In any prefix of a stream that starts with a frame, the first CRLF is the header's; it is
      found as soon as it has arrived, whatever the payload contains. */
  lemma FirstCrlfIsHeader(text: string, rest: string, seen: string)
    requires seen <= EnLength(text) + rest
    ensures FindCrlf(seen) == if |seen| >= HeaderLen(text) then HeaderLen(text) - 2 else -1
    ensures |seen| >= HeaderLen(text) ==> seen[..HeaderLen(text) - 2] == PrintNat(|text|)
  {
    var digits, stream := PrintNat(|text|), EnLength(text) + rest;
    HeaderIsPrefix(text, rest);
    CrlfAfterDigits(digits, stream, seen);
    if |seen| >= HeaderLen(text) {
      DigitsSeen(digits, stream, seen);
    }
  }

  lemma HeaderParses(text: string)
    ensures Stoi(PrintNat(|text|)) == if |text| <= INT_MAX then Number(|text|) else OutOfRange
  {
    StoiToString(|text|, "");
    assert ToString(|text|) + "" == PrintNat(|text|);
  }

  /** How `recvPackage` judges any prefix of a stream that starts with a frame. */
  lemma ScanPrefix(text: string, rest: string, seen: string)
    requires seen <= EnLength(text) + rest && FrameLen(text) <= INT_MAX
    ensures |seen| < HeaderLen(text) ==> ScanBuffer(seen) == HeaderMissing
    ensures HeaderLen(text) <= |seen| < FrameLen(text) ==> ScanBuffer(seen) == Incomplete
    ensures FrameLen(text) <= |seen| ==> ScanBuffer(seen) == Complete(FrameLen(text))
    ensures FrameLen(text) <= |seen| ==> seen[..FrameLen(text)] == EnLength(text)
  {
    FirstCrlfIsHeader(text, rest, seen);
    HeaderParses(text);
    if FrameLen(text) <= |seen| {
      assert (EnLength(text) + rest)[..FrameLen(text)] == EnLength(text);
    }
  }

  lemma ScanFrame(text: string, rest: string)
    ensures ScanBuffer(EnLength(text) + rest) == Complete(FrameLen(text)) <==> FrameLen(text) <= INT_MAX
  {
    var stream := EnLength(text) + rest;
    FirstCrlfIsHeader(text, rest, stream);
    HeaderParses(text);
    if FrameLen(text) <= INT_MAX {
      ScanPrefix(text, rest, stream);
    }
  }

  lemma DecodeFrame(text: string, rest: string)
    requires |text| <= INT_MAX
    ensures DeLength(EnLength(text) + rest) == Payload(text)
  {
    var stream := EnLength(text) + rest;
    FirstCrlfIsHeader(text, rest, stream);
    HeaderParses(text);
    assert stream[HeaderLen(text)..] == text + (CRLF + rest);
    assert (text + (CRLF + rest))[..|text|] == text;
  }

  /** Decoding a frame followed by anything yields the payload and leaves the rest, exactly when
      the whole frame is at most 2^31 - 1 bytes long. */
  lemma FrameDecodes(text: string, rest: string)
    ensures ScanBuffer(EnLength(text) + rest) == Complete(|EnLength(text)|) <==> |EnLength(text)| <= INT_MAX
    ensures |EnLength(text)| <= INT_MAX ==> DeLength(EnLength(text) + rest) == Payload(text)
  {
    ScanFrame(text, rest);
    assert |EnLength(text)| == FrameLen(text);
    if FrameLen(text) <= INT_MAX {
      DecodeFrame(text, rest);
    }
  }

  function Frames(texts: seq<string>): string {
    if texts == [] then "" else EnLength(texts[0]) + Frames(texts[1..])
  }

  lemma FramesEmpty(xs: seq<string>)
    ensures Frames(xs) == "" <==> xs == []
  {
    if xs != [] {
      assert |EnLength(xs[0])| > 0;
    }
  }

  lemma SameFirstFrame(x: string, xrest: string, y: string, yrest: string)
    requires EnLength(x) + xrest == EnLength(y) + yrest
    ensures x == y && xrest == yrest
  {
    var s := EnLength(x) + xrest;
    FirstCrlfIsHeader(x, xrest, s);
    FirstCrlfIsHeader(y, yrest, s);
    PrintNatInjective(|x|, |y|);
    var h := HeaderLen(x);
    assert s[h..h + |x|] == x;
    assert s[h..h + |x|] == y;
    assert s[FrameLen(x)..] == xrest;
    assert s[FrameLen(x)..] == yrest;
  }

  /** The frames form a uniquely decodable code: a stream of frames determines the payloads. */
  lemma {:induction false} FramesInjective(xs: seq<string>, ys: seq<string>)
    requires Frames(xs) == Frames(ys)
    ensures xs == ys
  {
    FramesEmpty(xs);
    FramesEmpty(ys);
    if xs != [] && ys != [] {
      SameFirstFrame(xs[0], Frames(xs[1..]), ys[0], Frames(ys[1..]));
      FramesInjective(xs[1..], ys[1..]);
    }
  }

  // ---------- Receiving a frame ----------

  lemma PrefixOf(a: string, b: string, stream: string)
    requires a + b <= stream
    ensures a <= stream
  {
  }

  /** However the stream is cut into reads, `recvPackage` on a stream that starts with a frame
      returns exactly that frame or fails; it never throws and never returns anything else. */
  lemma {:induction false} RecvReturnsTheFrame(script: seq<Read>, inbuffer: string, text: string, rest: string)
    requires inbuffer + Bytes(script) <= EnLength(text) + rest && FrameLen(text) <= INT_MAX
    ensures Recv(script, inbuffer).outcome in {Package(EnLength(text)), NoPackage}
  {
    if script != [] && script[0].Data? {
      var buffer := inbuffer + CString(script[0].bytes);
      Regroup(inbuffer, CString(script[0].bytes), Bytes(script[1..]));
      PrefixOf(buffer, Bytes(script[1..]), EnLength(text) + rest);
      ScanPrefix(text, rest, buffer);
      if ScanBuffer(buffer).Incomplete? {
        RecvReturnsTheFrame(script[1..], buffer, text, rest);
      }
    }
  }

  function Datas(chunks: seq<string>): seq<Read> {
    seq(|chunks|, i requires 0 <= i < |chunks| => Data(chunks[i]))
  }

  /** The chunks are non-empty, free of NUL, and spell s. */
  predicate Delivers(chunks: seq<string>, s: string) {
    && Concat(chunks) == s
    && (forall i :: 0 <= i < |chunks| ==> chunks[i] != "" && NulFree(chunks[i]))
  }

  /** One read of `recvPackage` while a frame is arriving. */
  lemma RecvStep(chunks: seq<string>, tail: seq<Read>, inbuffer: string, text: string)
    requires FrameLen(text) <= INT_MAX && chunks != []
    requires inbuffer + Concat(chunks) == EnLength(text)
    requires Delivers(chunks, Concat(chunks))
    ensures var buffer := inbuffer + chunks[0];
            && buffer + Concat(chunks[1..]) == EnLength(text)
            && Delivers(chunks[1..], Concat(chunks[1..]))
            && Recv(Datas(chunks) + tail, inbuffer) ==
               if |buffer| < HeaderLen(text) then Received(NoPackage, buffer, Datas(chunks[1..]) + tail)
               else if |buffer| < FrameLen(text) then Recv(Datas(chunks[1..]) + tail, buffer)
               else Received(Package(EnLength(text)), "", tail)
  {
    var buffer := inbuffer + chunks[0];
    var script := Datas(chunks) + tail;
    assert buffer + Concat(chunks[1..]) == EnLength(text);
    assert script[0] == Data(chunks[0]) && script[1..] == Datas(chunks[1..]) + tail;
    assert buffer <= EnLength(text) + "";
    ScanPrefix(text, "", buffer);
    if |buffer| == FrameLen(text) {
      assert Concat(chunks[1..]) == "";
      assert chunks[1..] == [];
      assert buffer[..|buffer|] == buffer && buffer[|buffer|..] == "";
    }
  }

  /** Once the header is in the buffer, the rest of the frame may arrive in any pieces. */
  lemma {:induction false} RecvRest(chunks: seq<string>, tail: seq<Read>, inbuffer: string, text: string)
    requires FrameLen(text) <= INT_MAX
    requires chunks != [] && inbuffer + Concat(chunks) == EnLength(text)
    requires HeaderLen(text) <= |inbuffer| < FrameLen(text)
    requires Delivers(chunks, Concat(chunks))
    ensures Recv(Datas(chunks) + tail, inbuffer) == Received(Package(EnLength(text)), "", tail)
  {
    RecvStep(chunks, tail, inbuffer, text);
    var buffer := inbuffer + chunks[0];
    if |buffer| < FrameLen(text) {
      assert |Concat(chunks[1..])| > 0;
      RecvRest(chunks[1..], tail, buffer, text);
    }
  }

  /** A frame that arrives on its own is received, in whatever pieces, if and only if its first
      piece reaches the end of the header; otherwise the first read makes `recvPackage` fail. */
  lemma FrameArrives(chunks: seq<string>, tail: seq<Read>, text: string)
    requires FrameLen(text) <= INT_MAX && Delivers(chunks, EnLength(text))
    ensures chunks != []
    ensures var r := Recv(Datas(chunks) + tail, "");
            if |chunks[0]| >= HeaderLen(text)
            then r == Received(Package(EnLength(text)), "", tail)
            else r == Received(NoPackage, chunks[0], Datas(chunks[1..]) + tail)
  {
    assert "" + Concat(chunks) == EnLength(text);
    RecvStep(chunks, tail, "", text);
    assert "" + chunks[0] == chunks[0];
    if HeaderLen(text) <= |chunks[0]| < FrameLen(text) {
      assert |Concat(chunks[1..])| > 0;
      RecvRest(chunks[1..], tail, chunks[0], text);
    }
  }

  // ---------- Any header ----------

  lemma HeaderEnds(h: string, rest: string)
    requires '\r' !in h
    ensures FindCrlf(h + "\r\n" + rest) == |h|
    ensures (h + "\r\n" + rest)[..|h|] == h && (h + "\r\n" + rest)[|h| + 2..] == rest
  {
    var b := h + "\r\n" + rest;
    FindCrlfIsFirst(b);
    assert b[|h|] == '\r' && b[|h| + 1] == '\n';
    assert CrlfAt(b, |h|);
    forall i | 0 <= i < |h| ensures !CrlfAt(b, i) {
      assert b[i] == h[i] && h[i] in h;
    }
  }

  lemma WrapsNegative(total: int)
    ensures INT_MAX < total <= 0xffff_ffff ==> Wrap32(total) < 0
  {
  }

  /** What any text before the first CRLF makes of the buffer: an exception if it is no int; else the
      frame is complete once as many bytes are there as it announces with header and trailer. A sum
      that is negative, or exceeds an int and wraps, is never reached. */
  lemma HeaderLaw(h: string, rest: string)
    requires '\r' !in h
    ensures !Stoi(h).Number? ==> ScanBuffer(h + "\r\n" + rest) == HeaderBad
    ensures Stoi(h).Number? ==>
              var total := Stoi(h).n + |h| + 4;
              && (0 <= total <= INT_MAX ==>
                    ScanBuffer(h + "\r\n" + rest) ==
                    if total <= |h| + 2 + |rest| then Complete(total) else Incomplete)
              && (total < 0 || INT_MAX < total <= 0xffff_ffff ==> ScanBuffer(h + "\r\n" + rest) == Incomplete)
  {
    HeaderEnds(h, rest);
    if Stoi(h).Number? {
      WrapsNegative(Stoi(h).n + |h| + 4);
    }
  }

  /** Decoding takes as many bytes after the header as it says, all there are if there are fewer or if
      it says a negative number. */
  lemma DecodeLaw(h: string, rest: string)
    requires '\r' !in h
    ensures DeLength(h + "\r\n" + rest) ==
            if !Stoi(h).Number? then BadHeader
            else if 0 <= Stoi(h).n < |rest| then Payload(rest[..Stoi(h).n])
            else Payload(rest)
  {
    HeaderEnds(h, rest);
  }

  /** Without a CRLF there is no header. */
  lemma NoHeaderLaw(s: string)
    requires forall i :: 0 <= i < |s| - 1 ==> !(s[i] == '\r' && s[i + 1] == '\n')
    ensures ScanBuffer(s) == HeaderMissing && DeLength(s) == NoHeader
  {
    FindCrlfIsFirst(s);
    assert FindCrlf(s) >= 0 ==> CrlfAt(s, FindCrlf(s));
  }

  /** A header that is no int makes `recvPackage` throw; the bytes stay in the buffer. */
  lemma BadHeaderThrows(inbuffer: string, bytes: string, h: string, rest: string, tail: seq<Read>)
    requires NulFree(bytes) && inbuffer + bytes == h + "\r\n" + rest
    requires '\r' !in h && !Stoi(h).Number?
    ensures Recv([Data(bytes)] + tail, inbuffer) == Received(Threw, inbuffer + bytes, tail)
  {
    HeaderLaw(h, rest);
    var script := [Data(bytes)] + tail;
    assert script[0] == Data(bytes) && script[1..] == tail;
  }

  /** After a header whose sum is negative or wraps, `recvPackage` reads all there is and never
      returns a package. */
  lemma {:induction false} SwallowsAll(chunks: seq<string>, inbuffer: string, h: string, rest: string)
    requires (forall i :: 0 <= i < |chunks| ==> NulFree(chunks[i])) && inbuffer == h + "\r\n" + rest
    requires '\r' !in h && Stoi(h).Number?
    requires Stoi(h).n + |h| + 4 < 0 || INT_MAX < Stoi(h).n + |h| + 4 <= 0xffff_ffff
    ensures Recv(Datas(chunks), inbuffer) == Received(NoPackage, inbuffer + Concat(chunks), [])
  {
    if chunks == [] {
      assert inbuffer + "" == inbuffer;
    } else {
      HeaderLaw(h, rest + chunks[0]);
      Regroup(h + "\r\n", rest, chunks[0]);
      assert Datas(chunks)[0] == Data(chunks[0]) && Datas(chunks)[1..] == Datas(chunks[1..]);
      SwallowsAll(chunks[1..], inbuffer + chunks[0], h, rest + chunks[0]);
      Regroup(inbuffer, chunks[0], Concat(chunks[1..]));
    }
  }

  // ---------- The end of the reads ----------

  /** An end of file or a failed read ends `recvPackage`: what comes after is not read. */
  lemma {:induction false} RecvBeforeEnd(pre: seq<Read>, stop: Read, rest: seq<Read>, inbuffer: string)
    requires !stop.Data?
    ensures var r, r' := Recv(pre, inbuffer), Recv(pre + [stop] + rest, inbuffer);
            && r'.outcome == r.outcome && r'.inbuffer == r.inbuffer
            && (r.outcome.Package? ==> r'.script == r.script + [stop] + rest)
  {
    var script := pre + [stop] + rest;
    if pre == [] {
      assert script[0] == stop;
    } else {
      assert script[0] == pre[0] && script[1..] == pre[1..] + [stop] + rest;
      if pre[0].Data? {
        RecvBeforeEnd(pre[1..], stop, rest, inbuffer + CString(pre[0].bytes));
      }
    }
  }
}
