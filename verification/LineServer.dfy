/** One connection of the Reactor as a value: Reactor/reactor.cc's calculator, the send loop, and
    the effect of every received chunk. */
module LineServer {
  import opened Basics
  import opened Decimal
  import opened Text
  import opened Lines
  import Codec

  // ---------- The calculator ----------

  predicate IsOperator(c: char) {
    c in "+-*/"
  }

  /** `find_first_of`: the first operator, -1 if there is none. */
  function FindOperator(s: string): (p: int)
    ensures -1 <= p < |s|
    ensures p >= 0 ==> IsOperator(s[p]) && forall i :: 0 <= i < p ==> !IsOperator(s[i])
    ensures p < 0 ==> forall i :: 0 <= i < |s| ==> !IsOperator(s[i])
  {
    if s == "" then -1
    else if IsOperator(s[0]) then 0
    else
      var p := FindOperator(s[1..]);
      assert forall i :: 1 <= i < |s| ==> s[i] == s[1..][i - 1];
      if p < 0 then -1 else p + 1
  }

  /** What `HandlerCalTask` does: writes its out parameter, leaves it alone, or ends the program:
      `stoi` throws, or the arithmetic overflows, which C++ leaves undefined. */
  datatype Effect = Writes(text: string) | LeavesAlone | Fault

  function Calculate(x: int, y: int, op: char): Effect {
    if !IsOperator(op) then Writes("Invalid operator")
    else if op == '/' && y == 0 then Writes("Divide by zero")
    else if !Codec.Defined(Codec.Req(x, y, op)) then Fault
    else Writes(ToString(Codec.Compute(Codec.Req(x, y, op)).result))
  }

  function EvalLine(text: string): Effect {
    var p := FindOperator(text);
    if p < 0 then LeavesAlone
    else
      var x, y := Stoi(text[..p]), Stoi(text[p + 1..]);
      if x.Number? && y.Number? then Calculate(x.n, y.n, text[p]) else Fault
  }

  /** The printed number, or the end of the program if it is no int. */
  function Printed(n: int): Effect {
    if IsInt32(n) then Writes(ToString(n)) else Fault
  }

  /** What the calculator promises for two ints, the quotient truncated toward zero. */
  ghost predicate IsEffect(x: int, y: int, op: char, e: Effect) {
    && (op == '+' ==> e == Printed(x + y))
    && (op == '-' ==> e == Printed(x - y))
    && (op == '*' ==> e == Printed(x * y))
    && (op == '/' && y == 0 ==> e == Writes("Divide by zero"))
    && (op == '/' && y != 0 ==> exists q, r :: Codec.Divides(x, y, q, r) && e == Printed(q))
    && (op !in "+-*/" ==> e == Writes("Invalid operator"))
  }

  lemma CalculateEffect(x: int, y: int, op: char)
    requires IsInt32(x) && IsInt32(y)
    ensures IsEffect(x, y, op, Calculate(x, y, op))
  {
    if op == '/' && y != 0 {
      Codec.QuotientDivides(x, y);
    }
  }

  lemma OperatorAt(a: string, op: char, b: string)
    requires op in "+-*/" && forall i :: 0 <= i < |a| ==> a[i] !in "+-*/"
    ensures FindOperator(a + [op] + b) == |a|
    ensures (a + [op] + b)[..|a|] == a && (a + [op] + b)[|a|] == op && (a + [op] + b)[|a| + 1..] == b
  {
    var s := a + [op] + b;
    assert s[|a|] == op && IsOperator(s[|a|]);
    forall i | 0 <= i < |a| ensures !IsOperator(s[i]) {
      assert s[i] == a[i];
    }
  }

  /** A line is read like this: the operator is the first of the four characters, the operands are
      what `stoi` makes of both sides, and the program dies if either is no int. */
  lemma LineLaw(a: string, op: char, b: string)
    requires op in "+-*/" && forall i :: 0 <= i < |a| ==> a[i] !in "+-*/"
    ensures EvalLine(a + [op] + b) ==
            if Stoi(a).Number? && Stoi(b).Number? then Calculate(Stoi(a).n, Stoi(b).n, op) else Fault
  {
    OperatorAt(a, op, b);
  }

  /** A line has no effect on the output buffer exactly if none of the four characters occurs. */
  lemma NoOperatorLaw(text: string)
    ensures EvalLine(text).LeavesAlone? <==> forall i :: 0 <= i < |text| ==> text[i] !in "+-*/"
  {
    var p := FindOperator(text);
    assert p >= 0 ==> text[p] in "+-*/";
  }

  /** An operand is missing: nothing but white space before or behind the operator. */
  lemma MissingOperand(w: string, op: char, b: string)
    requires White(w) && op in "+-*/"
    ensures EvalLine(w + [op] + b) == Fault
    ensures (forall i :: 0 <= i < |b| ==> b[i] !in "+-*/") ==> EvalLine(b + [op] + w) == Fault
  {
    StoiLaw(w, "", "", "");
    assert w + "" + "" + "" == w;
    forall i | 0 <= i < |w| ensures w[i] !in "+-*/" {
      assert w[i] in SPACES;
    }
    LineLaw(w, op, b);
    if forall i :: 0 <= i < |b| ==> b[i] !in "+-*/" {
      LineLaw(b, op, w);
    }
  }

  lemma NoOperatorIn(w: string, x: nat, u: string)
    requires White(w) && White(u)
    ensures forall i :: 0 <= i < |w + ToString(x) + u| ==> (w + ToString(x) + u)[i] !in "+-*/"
  {
    var a := w + ToString(x) + u;
    forall i | 0 <= i < |a| ensures a[i] !in "+-*/" {
      if i < |w| {
        assert a[i] == w[i] && w[i] in SPACES;
      } else if i < |w| + |ToString(x)| {
        assert a[i] == ToString(x)[i - |w|] && IsDigit(a[i]);
      } else {
        assert a[i] == u[i - |w| - |ToString(x)|] && u[i - |w| - |ToString(x)|] in SPACES;
      }
    }
  }

  /** A written expression, with white space anywhere and with anything but a digit behind it, yields
      the arithmetic result, the message for a zero divisor, or the end of the program if an operand or
      the result is no int. */
  lemma WrittenExpression(w: string, x: nat, u: string, op: char, v: string, y: int, rest: string)
    requires White(w) && White(u) && White(v) && op in "+-*/" && (rest == "" || !IsDigit(rest[0]))
    ensures var e := EvalLine(w + ToString(x) + u + [op] + (v + ToString(y) + rest));
            if IsInt32(x) && IsInt32(y) then IsEffect(x, y, op, e) else e == Fault
  {
    NoOperatorIn(w, x, u);
    LineLaw(w + ToString(x) + u, op, v + ToString(y) + rest);
    assert u != "" ==> u[0] in SPACES && !IsDigit(u[0]);
    StoiAfterWhite(w, x, u);
    StoiAfterWhite(v, y, rest);
    if IsInt32(x) && IsInt32(y) {
      CalculateEffect(x, y, op);
    }
  }

  /** A leading minus sign is taken for the operator. */
  lemma NegativeOperand(x: int, rest: string)
    requires x < 0
    ensures EvalLine(ToString(x) + rest) == Fault
  {
    MissingOperand("", '-', PrintNat(-x) + rest);
    Regroup("-", PrintNat(-x), rest);
    assert "" + ['-'] + (PrintNat(-x) + rest) == ToString(x) + rest;
  }

  /** A printed expression of two ints is evaluated exactly if its first operand is not negative. */
  lemma PrintedExpression(x: int, y: int, op: char)
    requires IsOperator(op) && IsInt32(x) && IsInt32(y)
    ensures EvalLine(ToString(x) + [op] + ToString(y)) == if x < 0 then Fault else Calculate(x, y, op)
  {
    if x < 0 {
      NegativeOperand(x, [op] + ToString(y));
      Regroup(ToString(x), [op], ToString(y));
    } else {
      NoOperatorIn("", x, "");
      assert "" + ToString(x) + "" == ToString(x);
      LineLaw(ToString(x), op, ToString(y));
      Codec.StoiExact(x);
      Codec.StoiExact(y);
    }
  }

  // ---------- The send loop ----------

  type Count = n: nat | n > 0 witness 1

  /** A call of `send` on a non-empty buffer: up to n bytes are taken, or -1 with an errno. */
  datatype SendResult = Takes(n: Count) | Interrupted | WouldBlock | SendFails

  /** What `SendHandler` leaves: the bytes the kernel took, the rest of the buffer, the results not
      used, and whether `ControlEvent` was called. */
  datatype Sent = Sent(taken: string, out: string, script: seq<SendResult>, rearmed: bool)

  /** A script that has run out blocks. Of an empty buffer nothing can be taken: `send` returns 0,
      and the `errno` left from before is read as would-block. */
  function SendLoop(script: seq<SendResult>, out: string): (r: Sent)
    ensures |r.script| <= |script|
  {
    if script == [] then Sent("", out, [], false)
    else
      match script[0]
      case Takes(n) =>
        if out == "" then Sent("", out, script[1..], false)
        else if n >= |out| then Sent(out, "", script[1..], true)
        else
          var r := SendLoop(script[1..], out[n..]);
          r.(taken := out[..n] + r.taken)
      case Interrupted => SendLoop(script[1..], out)
      case WouldBlock => Sent("", out, script[1..], false)
      case SendFails => Sent("", out, script[1..], false)
  }

  function Interrupts(script: seq<SendResult>): nat {
    if script == [] then 0 else (if script[0].Interrupted? then 1 else 0) + Interrupts(script[1..])
  }

  /** Bytes are neither lost nor repeated by short writes and interrupts; the event mask is reset
      exactly when there was something to send and nothing remains; and the loop makes at most one
      call per byte taken and per interrupt, plus one. */
  lemma {:induction false} SendLoopConserves(script: seq<SendResult>, out: string)
    ensures var r := SendLoop(script, out);
            && r.taken + r.out == out
            && (r.rearmed <==> out != "" && r.out == "")
            && |script| - |r.script| <= |r.taken| + (Interrupts(script) - Interrupts(r.script)) + 1
  {
    if script == [] {
    } else if script[0].Takes? && script[0].n < |out| {
      SendLoopConserves(script[1..], out[script[0].n..]);
    } else if script[0].Interrupted? {
      SendLoopConserves(script[1..], out);
    }
  }

  /** The bytes the kernel is ready to take before it first blocks or fails. */
  function Room(script: seq<SendResult>): nat {
    if script == [] then 0
    else
      match script[0]
      case Takes(n) => n + Room(script[1..])
      case Interrupted => Room(script[1..])
      case _ => 0
  }

  predicate Open(script: seq<SendResult>) {
    forall i :: 0 <= i < |script| ==> script[i].Takes? || script[i].Interrupted?
  }

  /** The room is the sum of what the calls take before the first that blocks or fails, and an
      interrupt changes nothing. */
  lemma {:induction false} RoomLaw(front: seq<SendResult>, r: SendResult, back: seq<SendResult>)
    requires Open(front)
    ensures Room(front + [r] + back) ==
            if r.Takes? then Room(front) + r.n + Room(back)
            else if r.Interrupted? then Room(front) + Room(back)
            else Room(front)
  {
    var script := front + [r] + back;
    if front == [] {
      assert script[0] == r && script[1..] == back;
    } else {
      assert script[0] == front[0] && script[1..] == front[1..] + [r] + back;
      RoomLaw(front[1..], r, back);
    }
  }

  /** The loop sends as much of the buffer as there is room for, and completes exactly when there is
      room for all of it. */
  lemma {:induction false} SendCompletesIffRoom(script: seq<SendResult>, out: string)
    ensures |SendLoop(script, out).taken| == Min(Room(script), |out|)
    ensures SendLoop(script, out).rearmed <==> out != "" && Room(script) >= |out|
  {
    if script == [] {
    } else if script[0].Takes? && script[0].n < |out| {
      SendCompletesIffRoom(script[1..], out[script[0].n..]);
    } else if script[0].Interrupted? {
      SendCompletesIffRoom(script[1..], out);
    }
  }

  // ---------- A connection ----------

  /** `taken` records the lines taken out of the input buffer and `wire` the bytes sent; `sends`
      holds the results of the `send` calls, one list for each run of `SendHandler`. */
  datatype Conn = Conn(
    inbuffer: string,
    outbuffer: string,
    sends: seq<seq<SendResult>>,
    wire: string,
    taken: seq<string>,
    faulted: bool)

  function Fresh(sends: seq<seq<SendResult>>): Conn {
    Conn("", "", sends, "", [], false)
  }

  function Framed(body: string): string {
    "Server # " + body + CRLF
  }

  /** `SendHandler` on the reply in the output buffer. */
  function Flush(c: Conn): Conn {
    var script := if c.sends == [] then [] else c.sends[0];
    var r := SendLoop(script, c.outbuffer);
    c.(outbuffer := r.out, wire := c.wire + r.taken, sends := if c.sends == [] then [] else c.sends[1..])
  }

  /** `CalulateTask`: at most one line. */
  function Task(c: Conn): Conn {
    var p := FindCrlf(c.inbuffer);
    if p < 0 then c
    else
      var text := c.inbuffer[..p];
      var c' := c.(inbuffer := c.inbuffer[p + 2..], taken := c.taken + [text]);
      match EvalLine(text)
      case Fault => c'.(faulted := true)
      case LeavesAlone => Flush(c'.(outbuffer := Framed(c.outbuffer)))
      case Writes(s) => Flush(c'.(outbuffer := Framed(s)))
  }

  /** One successful `recv`; after a fault the program is gone. */
  function OnChunk(c: Conn, chunk: string): Conn {
    if c.faulted then c else Task(c.(inbuffer := c.inbuffer + CString(chunk)))
  }

  function Run(c: Conn, chunks: seq<string>): Conn {
    if chunks == [] then c else OnChunk(Run(c, chunks[..|chunks| - 1]), chunks[|chunks| - 1])
  }

  lemma RunSnoc(c: Conn, chunks: seq<string>, chunk: string)
    ensures Run(c, chunks + [chunk]) == OnChunk(Run(c, chunks), chunk)
  {
    assert (chunks + [chunk])[..|chunks|] == chunks;
  }

  /** The bytes that reach the input buffer. */
  function Arrived(chunks: seq<string>): string {
    if chunks == [] then "" else Arrived(chunks[..|chunks| - 1]) + CString(chunks[|chunks| - 1])
  }

  // ---------- Line extraction ----------

  predicate FollowsLines(taken: seq<string>, inbuffer: string, stream: string) {
    Split(stream).lines == taken + Split(inbuffer).lines && Split(stream).rest == Split(inbuffer).rest
  }

  predicate Spells(taken: seq<string>, inbuffer: string, stream: string) {
    Join(taken) + inbuffer == stream
  }

  /** The lines taken, followed by the lines still complete in the buffer, are the lines of the
      stream. */
  ghost predicate Follows(c: Conn, stream: string) {
    FollowsLines(c.taken, c.inbuffer, stream) && Spells(c.taken, c.inbuffer, stream)
  }

  lemma TakeLine(taken: seq<string>, text: string, rest: string)
    ensures taken + ([text] + Split(rest).lines) == taken + [text] + Split(rest).lines
    ensures Join(taken + [text]) + rest == Join(taken) + (text + CRLF + rest)
  {
    JoinAppend(taken, [text]);
    assert Join([text]) == text + CRLF;
  }

  lemma TakeFirstLine(taken: seq<string>, inbuffer: string, stream: string, p: nat)
    requires FollowsLines(taken, inbuffer, stream) && Spells(taken, inbuffer, stream)
    requires FindCrlf(inbuffer) == p
    ensures FollowsLines(taken + [inbuffer[..p]], inbuffer[p + 2..], stream)
    ensures Spells(taken + [inbuffer[..p]], inbuffer[p + 2..], stream)
  {
    FindCrlfIsFirst(inbuffer);
    var text, rest := inbuffer[..p], inbuffer[p + 2..];
    assert inbuffer == text + CRLF + rest;
    TakeLine(taken, text, rest);
  }

  lemma TaskInput(c: Conn)
    ensures var p := FindCrlf(c.inbuffer);
            if p < 0 then Task(c) == c
            else Task(c).taken == c.taken + [c.inbuffer[..p]] && Task(c).inbuffer == c.inbuffer[p + 2..]
  {
  }

  lemma TaskFollows(c: Conn, stream: string)
    requires Follows(c, stream)
    ensures Follows(Task(c), stream)
  {
    TaskInput(c);
    if FindCrlf(c.inbuffer) >= 0 {
      TakeFirstLine(c.taken, c.inbuffer, stream, FindCrlf(c.inbuffer));
    }
  }

  lemma TaskTakes(c: Conn)
    ensures |Task(c).taken| == |c.taken| + if Split(c.inbuffer).lines == [] then 0 else 1
  {
  }

  lemma ChunkFollowsLines(taken: seq<string>, inbuffer: string, stream: string, chunk: string)
    requires FollowsLines(taken, inbuffer, stream)
    ensures FollowsLines(taken, inbuffer + chunk, stream + chunk)
  {
    SplitAppend(stream, chunk);
    SplitAppend(inbuffer, chunk);
    Regroup(taken, Split(inbuffer).lines, Split(Split(inbuffer).rest + chunk).lines);
  }

  lemma ChunkFollows(c: Conn, stream: string, chunk: string)
    requires Follows(c, stream)
    ensures Follows(c.(inbuffer := c.inbuffer + chunk), stream + chunk)
  {
    ChunkFollowsLines(c.taken, c.inbuffer, stream, chunk);
    Regroup(Join(c.taken), c.inbuffer, chunk);
  }

  /** The number of complete lines in the first j chunks. */
  function LineCount(chunks: seq<string>, j: nat): nat
    requires j <= |chunks|
  {
    |Split(Arrived(chunks[..j])).lines|
  }

  /** The complete lines of the received stream. */
  function StreamLines(chunks: seq<string>): seq<string> {
    Split(Arrived(chunks)).lines
  }

  lemma StreamGrows(chunks: seq<string>)
    requires chunks != []
    ensures StreamLines(chunks[..|chunks| - 1]) <= StreamLines(chunks)
  {
    SplitAppend(Arrived(chunks[..|chunks| - 1]), CString(chunks[|chunks| - 1]));
  }

  /** The lines whose turn comes within the chunks, if the program lives: one per chunk, as far as
      they are complete. */
  function Due(chunks: seq<string>): (n: nat)
    ensures n <= |StreamLines(chunks)|
  {
    if chunks == [] then 0 else Min(Due(chunks[..|chunks| - 1]) + 1, |StreamLines(chunks)|)
  }

  /** Which of the lines end the program. */
  function Faults(lines: seq<string>): (flags: seq<bool>)
    ensures |flags| == |lines|
  {
    seq(|lines|, i requires 0 <= i < |lines| => EvalLine(lines[i]).Fault?)
  }

  function FirstTrue(flags: seq<bool>): (k: nat)
    ensures k <= |flags|
    ensures forall i :: 0 <= i < k ==> !flags[i]
    ensures k < |flags| ==> flags[k]
  {
    if flags == [] || flags[0] then 0 else 1 + FirstTrue(flags[1..])
  }

  /** The position of the first line that ends the program, |lines| if there is none. */
  function FirstFault(lines: seq<string>): (k: nat)
    ensures k <= |lines|
  {
    FirstTrue(Faults(lines))
  }

  lemma FirstTrueGrows(xs: seq<bool>, ys: seq<bool>)
    requires xs <= ys
    ensures FirstTrue(xs) < |xs| ==> FirstTrue(ys) == FirstTrue(xs)
    ensures FirstTrue(xs) == |xs| ==> FirstTrue(ys) >= |xs|
  {
    var k := FirstTrue(ys);
    assert k < |xs| ==> xs[k];
  }

  /** One chunk, while the program lives. */
  lemma ChunkTakes(c: Conn, stream: string, chunk: string)
    requires !c.faulted && Follows(c, stream)
    ensures var lines, c' := Split(stream + CString(chunk)).lines, OnChunk(c, chunk);
            && Follows(c', stream + CString(chunk))
            && |c.taken| <= |lines|
            && c'.taken == lines[..Min(|c.taken| + 1, |lines|)]
            && (c'.faulted <==> |c.taken| < |lines| && Faults(lines)[|c.taken|])
  {
    var fed := c.(inbuffer := c.inbuffer + CString(chunk));
    ChunkFollows(c, stream, CString(chunk));
    TaskFollows(fed, stream + CString(chunk));
    TaskTakes(fed);
  }

  /** One more flag becomes due, and none due before is set. */
  lemma NextDue(xs: seq<bool>, ys: seq<bool>, due: nat)
    requires xs <= ys && due <= FirstTrue(xs)
    ensures Min(Min(due + 1, |ys|), FirstTrue(ys) + 1) == Min(due + 1, |ys|)
    ensures FirstTrue(ys) < Min(due + 1, |ys|) <==> due < |ys| && ys[due]
  {
    FirstTrueGrows(xs, ys);
  }

  /** The lines taken are the `due` first lines, up to and including the first that faults; the
      program has died exactly if one of them faults. */
  ghost predicate HasTaken(c: Conn, lines: seq<string>, due: nat)
    requires due <= |lines|
  {
    && c.taken == lines[..Min(due, FirstFault(lines) + 1)]
    && (c.faulted <==> FirstFault(lines) < due)
  }

  lemma TakesOnAlive(c: Conn, c': Conn, xs: seq<string>, ys: seq<string>, due: nat)
    requires due <= |xs| && HasTaken(c, xs, due) && !c.faulted && xs <= ys
    requires c'.taken == ys[..Min(due + 1, |ys|)]
    requires c'.faulted <==> due < |ys| && Faults(ys)[due]
    ensures HasTaken(c', ys, Min(due + 1, |ys|))
  {
    assert Faults(xs) <= Faults(ys);
    NextDue(Faults(xs), Faults(ys), due);
  }

  lemma TakesOnDead(c: Conn, xs: seq<string>, ys: seq<string>, due: nat)
    requires due <= |xs| && HasTaken(c, xs, due) && c.faulted && xs <= ys
    ensures HasTaken(c, ys, Min(due + 1, |ys|))
  {
    assert Faults(xs) <= Faults(ys);
    FirstTrueGrows(Faults(xs), Faults(ys));
  }

  /** The exact state after the chunks, from the input alone. */
  ghost predicate TakenAfter(c: Conn, chunks: seq<string>) {
    HasTaken(c, StreamLines(chunks), Due(chunks)) && (!c.faulted ==> Follows(c, Arrived(chunks)))
  }

  lemma TakenAlive(c: Conn, before: seq<string>, chunks: seq<string>, chunk: string)
    requires chunks == before + [chunk] && TakenAfter(c, before) && !c.faulted
    ensures TakenAfter(OnChunk(c, chunk), chunks)
  {
    assert chunks[..|chunks| - 1] == before;
    StreamGrows(chunks);
    ChunkTakes(c, Arrived(before), chunk);
    TakesOnAlive(c, OnChunk(c, chunk), StreamLines(before), StreamLines(chunks), Due(before));
  }

  lemma TakenDead(c: Conn, before: seq<string>, chunks: seq<string>, chunk: string)
    requires chunks == before + [chunk] && TakenAfter(c, before) && c.faulted
    ensures TakenAfter(c, chunks)
  {
    assert chunks[..|chunks| - 1] == before;
    StreamGrows(chunks);
    TakesOnDead(c, StreamLines(before), StreamLines(chunks), Due(before));
  }

  lemma TakenNext(c: Conn, before: seq<string>, chunk: string)
    requires TakenAfter(c, before)
    ensures TakenAfter(OnChunk(c, chunk), before + [chunk])
  {
    if c.faulted {
      TakenDead(c, before, before + [chunk], chunk);
    } else {
      TakenAlive(c, before, before + [chunk], chunk);
    }
  }

  lemma NothingTaken(sends: seq<seq<SendResult>>)
    ensures TakenAfter(Fresh(sends), [])
  {
    assert Join([]) + "" == "";
  }

  lemma RunTakesOne(sends: seq<seq<SendResult>>, before: seq<string>, chunk: string)
    requires TakenAfter(Run(Fresh(sends), before), before)
    ensures TakenAfter(Run(Fresh(sends), before + [chunk]), before + [chunk])
  {
    RunSnoc(Fresh(sends), before, chunk);
    TakenNext(Run(Fresh(sends), before), before, chunk);
  }

  /** The law for the first n chunks. */
  ghost predicate TakenWithin(sends: seq<seq<SendResult>>, chunks: seq<string>, n: nat) {
    n <= |chunks| && TakenAfter(Run(Fresh(sends), chunks[..n]), chunks[..n])
  }

  lemma PrefixSnoc(chunks: seq<string>, n: nat)
    requires n < |chunks|
    ensures chunks[..n + 1] == chunks[..n] + [chunks[n]]
  {
  }

  lemma TakenWithinNext(sends: seq<seq<SendResult>>, chunks: seq<string>, n: nat)
    requires n < |chunks| && TakenWithin(sends, chunks, n)
    ensures TakenWithin(sends, chunks, n + 1)
  {
    PrefixSnoc(chunks, n);
    RunTakesOne(sends, chunks[..n], chunks[n]);
  }

  lemma {:induction false} TakenUpTo(sends: seq<seq<SendResult>>, chunks: seq<string>, n: nat)
    requires n <= |chunks|
    ensures TakenWithin(sends, chunks, n)
  {
    if n == 0 {
      NothingTaken(sends);
    } else {
      TakenUpTo(sends, chunks, n - 1);
      TakenWithinNext(sends, chunks, n - 1);
    }
  }

  /** The exact outcome of every run, from the input alone. */
  lemma RunTakes(sends: seq<seq<SendResult>>, chunks: seq<string>)
    ensures TakenAfter(Run(Fresh(sends), chunks), chunks)
  {
    TakenUpTo(sends, chunks, |chunks|);
    assert chunks[..|chunks|] == chunks;
  }

  lemma FaultsWithin(lines: seq<string>, due: nat)
    requires due <= |lines|
    ensures FirstFault(lines) < due <==> exists i :: 0 <= i < due && EvalLine(lines[i]).Fault?
  {
    var flags := Faults(lines);
    assert forall i :: 0 <= i < |lines| ==> flags[i] == EvalLine(lines[i]).Fault?;
    assert FirstTrue(flags) < due <==> exists i :: 0 <= i < due && flags[i];
  }

  /** The program dies exactly when a line that is due cannot be evaluated. */
  lemma FaultLaw(sends: seq<seq<SendResult>>, chunks: seq<string>)
    ensures Run(Fresh(sends), chunks).faulted <==>
            exists i :: 0 <= i < Due(chunks) && EvalLine(StreamLines(chunks)[i]).Fault?
  {
    RunTakes(sends, chunks);
    FaultsWithin(StreamLines(chunks), Due(chunks));
  }

  /** The lines due can all be evaluated. */
  predicate Survives(chunks: seq<string>) {
    forall i :: 0 <= i < Due(chunks) ==> !EvalLine(StreamLines(chunks)[i]).Fault?
  }

  /** The lines taken are always the first lines of the received stream. While the program lives they
      are all the lines due and, each with its CRLF, followed by the input buffer, they spell the
      stream. */
  lemma LinesAreTakenInOrder(sends: seq<seq<SendResult>>, chunks: seq<string>)
    ensures Run(Fresh(sends), chunks).taken <= StreamLines(chunks)
    ensures Survives(chunks) ==>
              && Run(Fresh(sends), chunks).taken == StreamLines(chunks)[..Due(chunks)]
              && Follows(Run(Fresh(sends), chunks), Arrived(chunks))
  {
    RunTakes(sends, chunks);
    FaultLaw(sends, chunks);
  }

  predicate TakesOne(before: nat, after: nat, available: nat) {
    after == if before + 1 <= available then before + 1 else available
  }

  /** Taking one of what is there, whenever something is there, keeps the minimum. */
  lemma {:induction false} MinimumLaw(taken: seq<nat>, count: seq<nat>, n: nat) returns (at: nat)
    requires n < |taken| == |count| && taken[0] == count[0] == 0
    requires forall i :: 0 <= i < n ==> TakesOne(taken[i], taken[i + 1], count[i + 1])
    ensures at <= n && taken[n] == count[at] + n - at
    ensures forall j :: 0 <= j <= n ==> taken[n] <= count[j] + n - j
  {
    if n == 0 {
      at := 0;
    } else {
      at := MinimumLaw(taken, count, n - 1);
      assert TakesOne(taken[n - 1], taken[n - 1 + 1], count[n - 1 + 1]);
      if taken[n] == count[n] {
        at := n;
      }
    }
  }

  /** The lines due are the minimum over j of the lines complete after j chunks plus n - j. */
  lemma DueIsMinimum(chunks: seq<string>) returns (at: nat)
    ensures at <= |chunks| && Due(chunks) == LineCount(chunks, at) + |chunks| - at
    ensures forall j :: 0 <= j <= |chunks| ==> Due(chunks) <= LineCount(chunks, j) + |chunks| - j
  {
    var n := |chunks|;
    var due := seq(n + 1, j requires 0 <= j <= n => Due(chunks[..j]));
    var count := seq(n + 1, j requires 0 <= j <= n => LineCount(chunks, j));
    forall i | 0 <= i < n
      ensures TakesOne(due[i], due[i + 1], count[i + 1])
    {
      assert chunks[..i + 1][..i] == chunks[..i];
    }
    at := MinimumLaw(due, count, n);
    assert chunks[..n] == chunks;
    assert forall j :: 0 <= j <= n ==> count[j] == LineCount(chunks, j);
  }

  /** The exact backlog law: with one line taken at most per chunk, the number of lines taken after
      n chunks is the minimum over j of the lines complete after j chunks plus n - j. */
  lemma BacklogLaw(sends: seq<seq<SendResult>>, chunks: seq<string>) returns (at: nat)
    requires Survives(chunks)
    ensures at <= |chunks|
    ensures |Run(Fresh(sends), chunks).taken| == LineCount(chunks, at) + |chunks| - at
    ensures forall j :: 0 <= j <= |chunks| ==>
              |Run(Fresh(sends), chunks).taken| <= LineCount(chunks, j) + |chunks| - j
  {
    LinesAreTakenInOrder(sends, chunks);
    at := DueIsMinimum(chunks);
  }

  // ---------- Replies ----------

  /** The reply to a line when the output buffer is empty. */
  function Reply(line: string): string {
    match EvalLine(line)
    case Writes(s) => Framed(s)
    case _ => Framed("")
  }

  lemma ReplyFramed(line: string, text: string)
    requires EvalLine(line) == Writes(text)
    ensures Reply(line) == "Server # " + text + "\r\n"
  {
  }

  lemma OneReply(x: nat, y: int, op: char, text: string)
    requires IsInt32(x) && IsInt32(y) && op in "+-*/" && Calculate(x, y, op) == Writes(text)
    ensures Reply(ToString(x) + [op] + ToString(y)) == "Server # " + text + "\r\n"
  {
    PrintedExpression(x, y, op);
    ReplyFramed(ToString(x) + [op] + ToString(y), text);
  }

  /** The reply to a sum, a difference or a product, as it appears on the wire. */
  lemma ArithmeticReply(x: nat, y: int, op: char, n: int)
    requires IsInt32(x) && IsInt32(y) && IsInt32(n)
    requires (op == '+' && n == x + y) || (op == '-' && n == x - y) || (op == '*' && n == x * y)
    ensures Reply(ToString(x) + [op] + ToString(y)) == "Server # " + ToString(n) + "\r\n"
  {
    CalculateEffect(x, y, op);
    OneReply(x, y, op, ToString(n));
  }

  lemma CalculateQuotient(x: nat, y: int)
    requires IsInt32(x) && IsInt32(y) && y != 0
    ensures Calculate(x, y, '/') == Writes(ToString(Codec.Quotient(x, y)))
  {
    Codec.NaturalQuotient(x, y);
  }

  /** The reply to a quotient. */
  lemma DivisionReply(x: nat, y: int) returns (q: int, r: int)
    requires IsInt32(x) && IsInt32(y) && y != 0
    ensures Codec.Divides(x, y, q, r)
    ensures Reply(ToString(x) + "/" + ToString(y)) == "Server # " + ToString(q) + "\r\n"
  {
    q, r := Codec.Quotient(x, y), Codec.Remainder(x, y);
    Codec.QuotientDivides(x, y);
    CalculateQuotient(x, y);
    OneReply(x, y, '/', ToString(q));
  }

  /** The reply to a division by zero. */
  lemma ZeroDivisionReply(x: nat)
    requires IsInt32(x)
    ensures Reply(ToString(x) + "/" + ToString(0)) == "Server # " + "Divide by zero" + "\r\n"
  {
    OneReply(x, 0, '/', "Divide by zero");
  }

  function ReplyList(lines: seq<string>): (replies: seq<string>)
    ensures |replies| == |lines|
  {
    seq(|lines|, i requires 0 <= i < |lines| => Reply(lines[i]))
  }

  function Replies(lines: seq<string>): string {
    Concat(ReplyList(lines))
  }

  lemma ReplyListSnoc(lines: seq<string>, line: string)
    ensures ReplyList(lines + [line]) == ReplyList(lines) + [Reply(line)]
  {
  }

  /** The room the kernel offers the i-th reply. */
  function RoomAt(sends: seq<seq<SendResult>>, i: nat): nat {
    if i < |sends| then Room(sends[i]) else 0
  }

  /** There is room for the reply to each of the lines. */
  predicate RoomForReplies(sends: seq<seq<SendResult>>, lines: seq<string>) {
    forall i :: 0 <= i < |lines| ==> RoomAt(sends, i) >= |Reply(lines[i])|
  }

  function After(sends: seq<seq<SendResult>>, k: nat): seq<seq<SendResult>> {
    if k <= |sends| then sends[k..] else []
  }

  /** The part of a reply that finds room. */
  function Fitting(room: nat, reply: string): string {
    reply[..Min(room, |reply|)]
  }

  lemma FlushSends(c: Conn)
    ensures Flush(c).wire == c.wire + Fitting(RoomAt(c.sends, 0), c.outbuffer)
    ensures Flush(c).sends == After(c.sends, if c.sends == [] then 0 else 1)
    ensures RoomAt(c.sends, 0) >= |c.outbuffer| ==> Flush(c).outbuffer == "" && Flush(c).wire == c.wire + c.outbuffer
  {
    var script := if c.sends == [] then [] else c.sends[0];
    var r := SendLoop(script, c.outbuffer);
    SendLoopConserves(script, c.outbuffer);
    SendCompletesIffRoom(script, c.outbuffer);
    assert r.taken == (r.taken + r.out)[..|r.taken|];
  }

  /** The lines a reply has been composed for: a line that faults gets none. */
  function Answered(c: Conn): seq<string> {
    if c.faulted && c.taken != [] then c.taken[..|c.taken| - 1] else c.taken
  }

  lemma RepliesSnoc(lines: seq<string>, line: string)
    ensures Replies(lines + [line]) == Replies(lines) + Reply(line)
  {
    ReplyListSnoc(lines, line);
    ConcatSnoc(ReplyList(lines), Reply(line));
  }

  /** The connection after its first line has been taken and the reply composed. */
  function Composed(c: Conn, text: string): Conn
    requires |text| + 2 <= |c.inbuffer|
  {
    c.(inbuffer := c.inbuffer[|text| + 2..], taken := c.taken + [text], outbuffer := Reply(text))
  }

  /** A line that does not fault is replaced by its reply, which is then sent. */
  lemma TaskAnswers(c: Conn)
    requires FindCrlf(c.inbuffer) >= 0
    requires var e := EvalLine(c.inbuffer[..FindCrlf(c.inbuffer)]);
             e.Writes? || (e.LeavesAlone? && c.outbuffer == "")
    ensures Task(c) == Flush(Composed(c, c.inbuffer[..FindCrlf(c.inbuffer)]))
  {
  }

  lemma ReplySent(c: Conn, sends: seq<seq<SendResult>>, lines: seq<string>, line: string)
    requires c.outbuffer == Reply(line) && c.wire == Replies(lines) && c.sends == After(sends, |lines|)
    requires RoomAt(sends, |lines|) >= |Reply(line)|
    ensures Flush(c).outbuffer == "" && Flush(c).wire == Replies(lines + [line])
    ensures Flush(c).sends == After(sends, |lines| + 1)
  {
    RepliesSnoc(lines, line);
    FlushSends(c);
  }

  /** The connection has answered these lines, each whole. */
  ghost predicate HasAnswered(c: Conn, sends: seq<seq<SendResult>>, lines: seq<string>) {
    c.outbuffer == "" && c.wire == Replies(lines) && c.sends == After(sends, |lines|)
  }

  lemma TaskAnswered(c: Conn)
    requires !c.faulted && FindCrlf(c.inbuffer) >= 0
    ensures var text := c.inbuffer[..FindCrlf(c.inbuffer)];
            Answered(Task(c)) == if EvalLine(text).Fault? then c.taken else c.taken + [text]
  {
  }

  lemma TaskReplies(c: Conn, sends: seq<seq<SendResult>>)
    requires !c.faulted && HasAnswered(c, sends, c.taken)
    requires RoomForReplies(sends, Answered(Task(c)))
    ensures HasAnswered(Task(c), sends, Answered(Task(c)))
  {
    var p := FindCrlf(c.inbuffer);
    if p >= 0 {
      var text := c.inbuffer[..p];
      TaskAnswered(c);
      if !EvalLine(text).Fault? {
        TaskAnswers(c);
        assert (c.taken + [text])[|c.taken|] == text;
        ReplySent(Composed(c, text), sends, c.taken, text);
      }
    }
  }

  lemma AnsweredGrows(c: Conn, chunk: string)
    ensures Answered(c) <= Answered(OnChunk(c, chunk))
  {
  }

  lemma {:induction false} RepliesSent(sends: seq<seq<SendResult>>, chunks: seq<string>)
    requires RoomForReplies(sends, Answered(Run(Fresh(sends), chunks)))
    ensures HasAnswered(Run(Fresh(sends), chunks), sends, Answered(Run(Fresh(sends), chunks)))
  {
    if chunks == [] {
    } else {
      var n := |chunks| - 1;
      var c := Run(Fresh(sends), chunks[..n]);
      AnsweredGrows(c, chunks[n]);
      RepliesSent(sends, chunks[..n]);
      if !c.faulted {
        TaskReplies(c.(inbuffer := c.inbuffer + CString(chunks[n])), sends);
      }
    }
  }

  /** The lines that get a reply: those due, before the first that faults. */
  function DueReplies(chunks: seq<string>): (lines: seq<string>)
    ensures lines <= StreamLines(chunks)
  {
    StreamLines(chunks)[..Min(Due(chunks), FirstFault(StreamLines(chunks)))]
  }

  lemma AnsweredIs(sends: seq<seq<SendResult>>, chunks: seq<string>)
    ensures Answered(Run(Fresh(sends), chunks)) == DueReplies(chunks)
  {
    RunTakes(sends, chunks);
  }

  /** The Reactor refines a pure line server: for every chunking, pattern of short writes and
      interrupts that leaves room for the replies, the bytes sent are the replies to the lines that
      are due, in order, up to the first that faults, and nothing is left to send. */
  lemma SendsTheReplies(sends: seq<seq<SendResult>>, chunks: seq<string>)
    requires RoomForReplies(sends, DueReplies(chunks))
    ensures Run(Fresh(sends), chunks).wire == Replies(DueReplies(chunks))
    ensures Run(Fresh(sends), chunks).outbuffer == ""
    ensures Run(Fresh(sends), chunks).sends == After(sends, |DueReplies(chunks)|)
    ensures Survives(chunks) ==> DueReplies(chunks) == StreamLines(chunks)[..Due(chunks)]
  {
    AnsweredIs(sends, chunks);
    RepliesSent(sends, chunks);
    FaultsWithin(StreamLines(chunks), Due(chunks));
  }

  // ---------- Replies without room ----------

  /** What a send left behind is overwritten by the next reply to an expression: the bytes sent are
      those of the new reply alone, as far as there is room. */
  lemma LeftoverIsOverwritten(c: Conn, text: string)
    requires FindCrlf(c.inbuffer) == |text| && c.inbuffer[..|text|] == text && EvalLine(text).Writes?
    ensures Task(c).wire == c.wire + Fitting(RoomAt(c.sends, 0), Reply(text))
    ensures forall other :: Task(c.(outbuffer := other)) == Task(c)
  {
    TaskAnswers(c);
    FlushSends(Composed(c, text));
  }

  /** The reply to a line without an operator frames what the output buffer holds. */
  lemma NoOperatorRepeats(c: Conn, text: string)
    requires FindCrlf(c.inbuffer) == |text| && c.inbuffer[..|text|] == text
    requires forall i :: 0 <= i < |text| ==> text[i] !in "+-*/"
    ensures Task(c).wire == c.wire + Fitting(RoomAt(c.sends, 0), "Server # " + c.outbuffer + "\r\n")
  {
    NoOperatorLaw(text);
    var c' := c.(inbuffer := c.inbuffer[|text| + 2..], taken := c.taken + [text], outbuffer := Framed(c.outbuffer));
    assert Task(c) == Flush(c');
    FlushSends(c');
  }

  predicate AllWrite(lines: seq<string>) {
    forall i :: 0 <= i < |lines| ==> EvalLine(lines[i]).Writes?
  }

  /** What is sent when each of these replies is cut to the room it finds. */
  function Cut(sends: seq<seq<SendResult>>, replies: seq<string>): string
    decreases |replies|
  {
    if replies == [] then "" else Fitting(RoomAt(sends, 0), replies[0]) + Cut(After(sends, 1), replies[1..])
  }

  lemma {:induction false} CutIsShorter(sends: seq<seq<SendResult>>, replies: seq<string>)
    ensures |Cut(sends, replies)| <= |Concat(replies)|
    decreases |replies|
  {
    if replies == [] {
    } else {
      CutIsShorter(After(sends, 1), replies[1..]);
    }
  }

  lemma {:induction false} CutLoses(sends: seq<seq<SendResult>>, replies: seq<string>, i: nat)
    requires i < |replies| && RoomAt(sends, i) < |replies[i]|
    ensures |Cut(sends, replies)| < |Concat(replies)|
    decreases i
  {
    if i == 0 {
      CutIsShorter(After(sends, 1), replies[1..]);
    } else {
      CutLoses(After(sends, 1), replies[1..], i - 1);
    }
  }

  lemma {:induction false} CutSnoc(sends: seq<seq<SendResult>>, replies: seq<string>, reply: string)
    ensures Cut(sends, replies + [reply]) == Cut(sends, replies) + Fitting(RoomAt(sends, |replies|), reply)
    decreases |replies|
  {
    if replies == [] {
      assert [reply][1..] == [];
    } else {
      assert (replies + [reply])[1..] == replies[1..] + [reply];
      CutSnoc(After(sends, 1), replies[1..], reply);
      Regroup(Fitting(RoomAt(sends, 0), replies[0]), Cut(After(sends, 1), replies[1..]),
              Fitting(RoomAt(sends, |replies|), reply));
    }
  }

  /** The replies to these lines, each cut to the room it finds. */
  function CutReplies(sends: seq<seq<SendResult>>, lines: seq<string>): string {
    Cut(sends, ReplyList(lines))
  }

  lemma FlushCuts(c: Conn, sends: seq<seq<SendResult>>, lines: seq<string>, line: string)
    requires c.wire == CutReplies(sends, lines) && c.sends == After(sends, |lines|) && c.outbuffer == Reply(line)
    ensures Flush(c).wire == CutReplies(sends, lines + [line])
    ensures Flush(c).sends == After(sends, |lines| + 1)
  {
    ReplyListSnoc(lines, line);
    CutSnoc(sends, ReplyList(lines), Reply(line));
    FlushSends(c);
  }

  ghost predicate HasCut(c: Conn, sends: seq<seq<SendResult>>, lines: seq<string>) {
    c.wire == CutReplies(sends, lines) && c.sends == After(sends, |lines|)
  }

  lemma TaskCuts(c: Conn, sends: seq<seq<SendResult>>)
    requires !c.faulted && HasCut(c, sends, c.taken)
    requires AllWrite(Answered(Task(c)))
    ensures HasCut(Task(c), sends, Answered(Task(c)))
  {
    var p := FindCrlf(c.inbuffer);
    if p >= 0 {
      var text := c.inbuffer[..p];
      TaskAnswered(c);
      if !EvalLine(text).Fault? {
        assert (c.taken + [text])[|c.taken|] == text;
        TaskAnswers(c);
        FlushCuts(Composed(c, text), sends, c.taken, text);
      }
    }
  }

  lemma {:induction false} WireLength(sends: seq<seq<SendResult>>, chunks: seq<string>)
    requires AllWrite(Answered(Run(Fresh(sends), chunks)))
    ensures HasCut(Run(Fresh(sends), chunks), sends, Answered(Run(Fresh(sends), chunks)))
  {
    if chunks == [] {
    } else {
      var n := |chunks| - 1;
      var c := Run(Fresh(sends), chunks[..n]);
      AnsweredGrows(c, chunks[n]);
      WireLength(sends, chunks[..n]);
      if !c.faulted {
        TaskCuts(c.(inbuffer := c.inbuffer + CString(chunks[n])), sends);
      }
    }
  }

  /** When every line that gets a reply is an expression, the bytes sent are the replies, each cut to
      the room it finds; they are the whole replies if and only if each of them finds room, and
      otherwise bytes are lost for good. */
  lemma RepliesWholeIffRoom(sends: seq<seq<SendResult>>, chunks: seq<string>)
    requires AllWrite(DueReplies(chunks))
    ensures var wire, lines := Run(Fresh(sends), chunks).wire, DueReplies(chunks);
            && wire == CutReplies(sends, lines)
            && (wire == Replies(lines) <==> RoomForReplies(sends, lines))
  {
    AnsweredIs(sends, chunks);
    WireLength(sends, chunks);
    var lines := DueReplies(chunks);
    CutIsShorter(sends, ReplyList(lines));
    if RoomForReplies(sends, lines) {
      RepliesSent(sends, chunks);
    } else {
      var i :| 0 <= i < |lines| && RoomAt(sends, i) < |Reply(lines[i])|;
      CutLoses(sends, ReplyList(lines), i);
    }
  }

  ghost predicate Appends(c: Conn, xs: seq<string>, ys: seq<string>) {
    Run(c, xs + ys) == Run(Run(c, xs), ys)
  }

  lemma AppendsNext(c: Conn, xs: seq<string>, ys: seq<string>, y: string)
    requires Appends(c, xs, ys)
    ensures Appends(c, xs, ys + [y])
  {
    Regroup(xs, ys, [y]);
    RunSnoc(c, xs + ys, y);
    RunSnoc(Run(c, xs), ys, y);
  }

  lemma AppendsNone(c: Conn, xs: seq<string>)
    ensures Appends(c, xs, [])
  {
    assert xs + [] == xs;
  }

  lemma {:induction false} AppendsUpTo(c: Conn, xs: seq<string>, ys: seq<string>, n: nat)
    requires n <= |ys|
    ensures Appends(c, xs, ys[..n])
  {
    if n == 0 {
      AppendsNone(c, xs);
    } else {
      AppendsUpTo(c, xs, ys, n - 1);
      AppendsNext(c, xs, ys[..n - 1], ys[n - 1]);
      PrefixSnoc(ys, n - 1);
    }
  }

  lemma RunAppend(c: Conn, xs: seq<string>, ys: seq<string>)
    ensures Run(c, xs + ys) == Run(Run(c, xs), ys)
  {
    AppendsUpTo(c, xs, ys, |ys|);
    assert ys[..|ys|] == ys;
  }
}
