/** The handlers of Reactor/reactor.hpp and Reactor/reactor.cc as methods on a `Connections` object,
    proved against the value model of `LineServer`. */
module Reactor {
  import opened Basics
  import opened Decimal
  import opened Text
  import opened LineServer
  import Codec

  /** A call of `recv` on a non-blocking socket. */
  datatype RecvResult = Bytes(chunk: string) | RecvInterrupted | RecvWouldBlock | Disconnected | RecvFails

  /** What the socket's calls will return, and what they did: `sends` has one list of results for
      each run of `SendHandler`; `current` belongs to the run in progress. */
  class Kernel {
    var recvs: seq<RecvResult>
    var sends: seq<seq<SendResult>>
    var current: seq<SendResult>
    var wire: string
    var rearms: nat

    method Recv() returns (r: RecvResult)
      modifies this`recvs
      ensures r == if old(recvs) == [] then RecvWouldBlock else old(recvs)[0]
      ensures recvs == if old(recvs) == [] then [] else old(recvs)[1..]
    {
      if recvs == [] {
        r := RecvWouldBlock;
      } else {
        r := recvs[0];
        recvs := recvs[1..];
      }
    }

    method BeginSend()
      modifies this`sends, this`current
      ensures current == if old(sends) == [] then [] else old(sends)[0]
      ensures sends == if old(sends) == [] then [] else old(sends)[1..]
    {
      if sends == [] {
        current := [];
      } else {
        current, sends := sends[0], sends[1..];
      }
    }

    /** Takes a prefix of the buffer, or reports an error. */
    method Send(buffer: string) returns (r: SendResult, n: nat)
      modifies this`current, this`wire
      ensures r == if old(current) == [] then WouldBlock else old(current)[0]
      ensures current == if old(current) == [] then [] else old(current)[1..]
      ensures n == if !r.Takes? then 0 else if r.n < |buffer| then r.n else |buffer|
      ensures wire == old(wire) + buffer[..n]
    {
      r := WouldBlock;
      if current != [] {
        r, current := current[0], current[1..];
      }
      n := if !r.Takes? then 0 else if r.n < |buffer| then r.n else |buffer|;
      wire := wire + buffer[..n];
    }

    method ControlEvent()
      modifies this`rearms
      ensures rearms == old(rearms) + 1
    {
      rearms := rearms + 1;
    }
  }

  /** The chunks one run of `RecvHandler` reads: interrupts are skipped, anything else stops it. */
  function Chunks(recvs: seq<RecvResult>): seq<string> {
    if recvs == [] then []
    else
      match recvs[0]
      case Bytes(chunk) => [chunk] + Chunks(recvs[1..])
      case RecvInterrupted => Chunks(recvs[1..])
      case _ => []
  }

  function Unread(recvs: seq<RecvResult>): seq<RecvResult> {
    if recvs == [] then []
    else if recvs[0].Bytes? || recvs[0].RecvInterrupted? then Unread(recvs[1..])
    else recvs[1..]
  }

  predicate GoesOn(recvs: seq<RecvResult>) {
    forall i :: 0 <= i < |recvs| ==> recvs[i].Bytes? || recvs[i].RecvInterrupted?
  }

  /** What one run reads: every chunk before the socket blocks, closes or fails, an interrupt making no
      difference; what comes after is left unread. */
  lemma {:induction false} ReadLaw(front: seq<RecvResult>, r: RecvResult, back: seq<RecvResult>)
    requires GoesOn(front)
    ensures Chunks(front + [r] + back) ==
            if r.Bytes? then Chunks(front) + [r.chunk] + Chunks(back)
            else if r.RecvInterrupted? then Chunks(front) + Chunks(back)
            else Chunks(front)
    ensures Unread(front + [r] + back) == if r.Bytes? || r.RecvInterrupted? then Unread(back) else back
  {
    var recvs := front + [r] + back;
    if front == [] {
      assert recvs[0] == r && recvs[1..] == back;
    } else {
      assert recvs[0] == front[0] && recvs[1..] == front[1..] + [r] + back;
      ReadLaw(front[1..], r, back);
    }
  }

  /** The bytes sent so far, followed by what `rest` will send, are what the whole loop sends. */
  ghost predicate StillSends(goal: Sent, start: string, wire: string, rest: Sent) {
    start + goal.taken == wire + rest.taken && goal.out == rest.out && goal.rearmed == rest.rearmed
  }

  lemma Unchanged(wire: string)
    ensures wire + "" == wire
  {
  }

  lemma {:induction false} FaultedRun(c: Conn, chunks: seq<string>)
    requires c.faulted
    ensures Run(c, chunks) == c
  {
    if chunks == [] {
    } else {
      FaultedRun(c, chunks[..|chunks| - 1]);
    }
  }

  class Connections {
    var inbuffer: string
    var outbuffer: string
    ghost var taken: seq<string>

    ghost function View(kernel: Kernel, faulted: bool): Conn
      reads this, kernel
    {
      Conn(inbuffer, outbuffer, kernel.sends, kernel.wire, taken, faulted)
    }

    /** `SendHandler`. */
    method SendHandler(kernel: Kernel)
      modifies this`outbuffer, kernel`sends, kernel`current, kernel`wire, kernel`rearms
      ensures View(kernel, false) == Flush(old(View(kernel, false)))
      ensures kernel.rearms == old(kernel.rearms) + if old(outbuffer) != "" && outbuffer == "" then 1 else 0
    {
      kernel.BeginSend();
      SendLoopConserves(kernel.current, outbuffer);
      SendUntilDone(kernel);
    }

    /** Its loop, on the results of this run. */
    method SendUntilDone(kernel: Kernel)
      modifies this`outbuffer, kernel`current, kernel`wire, kernel`rearms
      ensures var r := SendLoop(old(kernel.current), old(outbuffer));
              && outbuffer == r.out && kernel.wire == old(kernel.wire) + r.taken
              && kernel.rearms == old(kernel.rearms) + if r.rearmed then 1 else 0
    {
      ghost var goal := SendLoop(kernel.current, outbuffer);
      ghost var start := kernel.wire;
      while true
        invariant kernel.rearms == old(kernel.rearms)
        invariant StillSends(goal, start, kernel.wire, SendLoop(kernel.current, outbuffer))
        decreases |kernel.current|
      {
        ghost var wire := kernel.wire;
        var r, n := kernel.Send(outbuffer);
        match r {
          case Takes(_) =>
            if n == 0 {
              Unchanged(wire);
              return;
            }
            if n == |outbuffer| {
              assert outbuffer[..n] == outbuffer;
              outbuffer := "";
              kernel.ControlEvent();
              return;
            }
            outbuffer := outbuffer[n..];
          case Interrupted =>
            Unchanged(wire);
          case WouldBlock =>
            Unchanged(wire);
            return;
          case SendFails =>
            Unchanged(wire);
            return;
        }
      }
    }

    /** `CalulateTask`; reports whether the program died in `HandlerCalTask`. */
    method CalulateTask(kernel: Kernel) returns (faulted: bool)
      modifies this, kernel`sends, kernel`current, kernel`wire, kernel`rearms
      ensures View(kernel, faulted) == Task(old(View(kernel, false)))
    {
      var p := FindCrlf(inbuffer);
      if p < 0 {
        return false;
      }
      var text := inbuffer[..p];
      inbuffer := inbuffer[p + 2..];
      taken := taken + [text];
      faulted := HandlerCalTask(text);
      if !faulted {
        outbuffer := "Server # " + outbuffer + CRLF;
        SendHandler(kernel);
      }
    }

    /** `HandlerCalTask` with the output buffer as its out parameter. */
    method HandlerCalTask(text: string) returns (faulted: bool)
      modifies this`outbuffer
      ensures faulted == EvalLine(text).Fault?
      ensures outbuffer == if EvalLine(text).Writes? then EvalLine(text).text else old(outbuffer)
    {
      var p := FindOperator(text);
      if p < 0 {
        return false;
      }
      var x := Stoi(text[..p]);
      if !x.Number? {
        return true;
      }
      var y := Stoi(text[p + 1..]);
      if !y.Number? {
        return true;
      }
      faulted := Calculate(x.n, y.n, text[p]);
    }

    /** `Calculate`; arithmetic that overflows counts as the end of the program. */
    method Calculate(x: int, y: int, op: char) returns (faulted: bool)
      requires IsInt32(x) && IsInt32(y)
      modifies this`outbuffer
      ensures var r := LineServer.Calculate(x, y, op);
              && faulted == r.Fault?
              && outbuffer == if r.Writes? then r.text else old(outbuffer)
      ensures IsEffect(x, y, op, if faulted then Fault else Writes(outbuffer))
    {
      CalculateEffect(x, y, op);
      var result;
      match op {
        case '+' => result := x + y;
        case '-' => result := x - y;
        case '*' => result := x * y;
        case '/' =>
          if y == 0 {
            outbuffer := "Divide by zero";
            return false;
          }
          result := Codec.Quotient(x, y);
        case _ =>
          outbuffer := "Invalid operator";
          return false;
      }
      faulted := !IsInt32(result);
      if !faulted {
        outbuffer := ToString(result);
      }
    }

    /** `RecvHandler`: reads until the socket would block, handing every chunk to the task. */
    method RecvHandler(kernel: Kernel) returns (faulted: bool)
      modifies this, kernel
      ensures View(kernel, faulted) == Run(old(View(kernel, false)), Chunks(old(kernel.recvs)))
      ensures !faulted ==> kernel.recvs == Unread(old(kernel.recvs))
    {
      ghost var start := View(kernel, false);
      ghost var done: seq<string> := [];
      faulted := false;
      while true
        invariant !faulted && View(kernel, false) == Run(start, done)
        invariant Chunks(old(kernel.recvs)) == done + Chunks(kernel.recvs)
        invariant Unread(old(kernel.recvs)) == Unread(kernel.recvs)
        decreases |kernel.recvs|
      {
        var r := kernel.Recv();
        match r {
          case Bytes(chunk) =>
            inbuffer := inbuffer + CString(chunk);
            faulted := CalulateTask(kernel);
            ghost var rest := Chunks(kernel.recvs);
            Regroup(done, [chunk], rest);
            RunSnoc(start, done, chunk);
            done := done + [chunk];
            if faulted {
              RunAppend(start, done, rest);
              FaultedRun(Run(start, done), rest);
              return;
            }
          case RecvInterrupted =>
          case Disconnected =>
            assert done + [] == done;
            return;
          case RecvWouldBlock =>
            assert done + [] == done;
            return;
          case RecvFails =>
            assert done + [] == done;
            return;
        }
      }
    }
  }
}
