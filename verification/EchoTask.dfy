/** `socketIO` of tcp_socket/server_tcp.hpp: what a worker of the pool does with its socket. */
module EchoTask {
  import opened Basics
  import opened Text
  import opened Framing

  /** The calls on the socket, in order. */
  datatype Call = Reading | Writing(message: string) | Closing

  class Client {
    var script: seq<Read>
    ghost var calls: seq<Call>

    method ReadChunk() returns (r: Read)
      requires Closing !in calls
      modifies this
      ensures r == if old(script) == [] then Closed else old(script)[0]
      ensures script == if old(script) == [] then [] else old(script)[1..]
      ensures calls == old(calls) + [Reading]
    {
      r := Closed;
      if script != [] {
        r, script := script[0], script[1..];
      }
      calls := calls + [Reading];
    }

    method Write(message: string)
      requires Closing !in calls
      modifies this`calls
      ensures calls == old(calls) + [Writing(message)]
    {
      calls := calls + [Writing(message)];
    }

    method Close()
      requires Closing !in calls
      modifies this`calls
      ensures calls == old(calls) + [Closing]
    {
      calls := calls + [Closing];
    }
  }

  function Echo(chunk: string): string {
    CString(chunk) + " server[received]"
  }

  /** The calls `socketIO` makes for a script of read results. */
  function Service(script: seq<Read>): seq<Call> {
    if script == [] || !script[0].Data? then [Reading, Closing]
    else [Reading, Writing(Echo(script[0].bytes))] + Service(script[1..])
  }

  /** Nothing is called on the socket after it is closed: the calls' preconditions forbid it. */
  method SocketIO(socket: Client)
    requires Closing !in socket.calls
    modifies socket
    ensures socket.calls == old(socket.calls) + Service(old(socket.script))
  {
    ghost var goal := socket.calls + Service(socket.script);
    while true
      invariant Closing !in socket.calls
      invariant socket.calls + Service(socket.script) == goal
      decreases |socket.script|
    {
      ghost var calls, left := socket.calls, socket.script;
      var r := socket.ReadChunk();
      if !r.Data? {
        socket.Close();
        Regroup(calls, [Reading], [Closing]);
        return;
      }
      socket.Write(Echo(r.bytes));
      Regroup(calls, [Reading], [Writing(Echo(r.bytes))]);
      Regroup(calls, [Reading, Writing(Echo(r.bytes))], Service(socket.script));
    }
  }

  /** The chunks read before the connection ends. */
  function Chunks(script: seq<Read>): seq<string> {
    if script == [] || !script[0].Data? then [] else [script[0].bytes] + Chunks(script[1..])
  }

  function Written(calls: seq<Call>): seq<string> {
    if calls == [] then []
    else (if calls[0].Writing? then [calls[0].message] else []) + Written(calls[1..])
  }

  /** However the connection ends, the socket is closed exactly once, by the last call. */
  lemma {:induction false} ClosesOnce(script: seq<Read>)
    ensures Service(script) != []
    ensures forall i :: 0 <= i < |Service(script)| ==> (Service(script)[i] == Closing <==> i == |Service(script)| - 1)
  {
    if script != [] && script[0].Data? {
      ClosesOnce(script[1..]);
    }
  }

  /** The reads of a connection that delivers these chunks. */
  lemma {:induction false} ChunksDelivered(chunks: seq<string>, tail: seq<Read>)
    requires tail == [] || !tail[0].Data?
    ensures Chunks(Datas(chunks) + tail) == chunks
  {
    var script := Datas(chunks) + tail;
    if chunks == [] {
      assert script == tail;
    } else {
      assert script[0] == Data(chunks[0]) && script[1..] == Datas(chunks[1..]) + tail;
      ChunksDelivered(chunks[1..], tail);
    }
  }

  lemma {:induction false} CallCount(script: seq<Read>)
    ensures |Service(script)| == 2 * |Chunks(script)| + 2
  {
    if script == [] || !script[0].Data? {
    } else {
      CallCount(script[1..]);
    }
  }

  lemma {:induction false} CallsFor(script: seq<Read>, i: nat, k: nat)
    requires i < |Chunks(script)| && k == 2 * i
    ensures k + 1 < |Service(script)| && Service(script)[k] == Reading
    ensures Service(script)[k + 1] == Writing(CString(Chunks(script)[i]) + " server[received]")
  {
    if i > 0 {
      CallsFor(script[1..], i - 1, k - 2);
    }
  }

  lemma {:induction false} LastCalls(script: seq<Read>, k: nat)
    requires k == 2 * |Chunks(script)|
    ensures k + 2 == |Service(script)| && Service(script)[k] == Reading && Service(script)[k + 1] == Closing
  {
    if script == [] || !script[0].Data? {
    } else {
      LastCalls(script[1..], k - 2);
    }
  }

  /** Until the connection ends, calls alternate between a read and the write of the chunk read with
      " server[received]" behind it; then one more read finds the end and the socket is closed. */
  lemma CallsAre(script: seq<Read>)
    ensures |Service(script)| == 2 * |Chunks(script)| + 2
    ensures forall i :: 0 <= i < |Chunks(script)| ==>
              && Service(script)[2 * i] == Reading
              && Service(script)[2 * i + 1] == Writing(CString(Chunks(script)[i]) + " server[received]")
    ensures Service(script)[|Service(script)| - 2] == Reading && Service(script)[|Service(script)| - 1] == Closing
  {
    CallCount(script);
    LastCalls(script, 2 * |Chunks(script)|);
    forall i | 0 <= i < |Chunks(script)|
      ensures Service(script)[2 * i] == Reading
      ensures Service(script)[2 * i + 1] == Writing(CString(Chunks(script)[i]) + " server[received]")
    {
      CallsFor(script, i, 2 * i);
    }
  }

  function Echoes(chunks: seq<string>): seq<string> {
    seq(|chunks|, i requires 0 <= i < |chunks| => Echo(chunks[i]))
  }

  lemma EchoesCons(chunk: string, chunks: seq<string>)
    ensures Echoes([chunk] + chunks) == [Echo(chunk)] + Echoes(chunks)
  {
  }

  lemma WrittenCons(message: string, calls: seq<Call>)
    ensures Written([Reading, Writing(message)] + calls) == [message] + Written(calls)
  {
    var all := [Reading, Writing(message)] + calls;
    assert all[1..] == [Writing(message)] + calls && all[1..][1..] == calls;
  }

  lemma NothingWritten()
    ensures Written([Reading, Closing]) == []
  {
    assert [Reading, Closing][1..] == [Closing] && [Closing][1..] == [];
  }

  lemma {:induction false} WrittenAreEchoes(script: seq<Read>)
    ensures Written(Service(script)) == Echoes(Chunks(script))
  {
    if script == [] || !script[0].Data? {
      NothingWritten();
    } else {
      var chunk := script[0].bytes;
      WrittenAreEchoes(script[1..]);
      WrittenCons(Echo(chunk), Service(script[1..]));
      EchoesCons(chunk, Chunks(script[1..]));
    }
  }

  /** Every chunk read before the connection ends has been answered, in order: the i-th message is the
      i-th chunk up to its first NUL, followed by " server[received]". */
  lemma EchoesInOrder(script: seq<Read>)
    ensures |Written(Service(script))| == |Chunks(script)|
    ensures forall i :: 0 <= i < |Chunks(script)| ==>
              Written(Service(script))[i] == CString(Chunks(script)[i]) + " server[received]"
    ensures forall i :: 0 <= i < |Chunks(script)| && NulFree(Chunks(script)[i]) ==>
              Chunks(script)[i] <= Written(Service(script))[i]
  {
    WrittenAreEchoes(script);
  }
}
