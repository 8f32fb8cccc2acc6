/** The server of poll/pollServer.hpp: an array of pollfd entries whose freed slots keep their old
    `revents` until `poll` rewrites them. */
module PollServer {
  import opened Basics
  import opened FdTable

  const MAX_FDSET := 1024

  /** `pollin` is events & POLLIN, `ready` is revents & POLLIN. */
  datatype Slot = Slot(fd: int, pollin: bool, ready: bool)

  /** `lost` are accepted descriptors that found no slot. */
  datatype Polls = Polls(slots: seq<Slot>, open: set<int>, lost: set<int>, trace: seq<Event>)

  function Numbers(slots: seq<Slot>): (t: seq<int>)
    ensures |t| == |slots| && forall i :: 0 <= i < |t| ==> t[i] == slots[i].fd
  {
    seq(|slots|, i requires 0 <= i < |slots| => slots[i].fd)
  }

  /** The table of the descriptors that are not lost. */
  function Table(p: Polls): Fds {
    Fds(Numbers(p.slots), p.open - p.lost, p.trace)
  }

  function Polled(slots: seq<Slot>, ready: set<int>): (q: seq<Slot>)
    ensures |q| == |slots|
  {
    seq(|slots|, i requires 0 <= i < |slots| =>
      slots[i].(ready := slots[i].fd >= 0 && slots[i].pollin && slots[i].fd in ready))
  }

  /** `poll` rewrites every `revents`: entries with a negative descriptor get none. */
  function Poll(p: Polls, r: Round): Polls {
    p.(slots := Polled(p.slots, r.ready))
  }

  /** `ListenEvent`. The slot it fills keeps its `revents`. */
  function Listen(p: Polls, r: Round): Polls {
    var p' := p.(trace := p.trace + [Accepting]);
    if r.accept < 0 then p'
    else
      var k := SlotOf(Numbers(p.slots), NO_FD);
      if k < |p.slots|
      then p'.(slots := p.slots[k := Slot(r.accept, true, p.slots[k].ready)], open := p.open + {r.accept})
      else p'.(open := p.open + {r.accept}, lost := p.lost + {r.accept})
  }

  function RecvSlot(p: Polls, i: nat, r: Round): (p': Polls)
    requires i < |p.slots|
    ensures |p'.slots| == |p.slots|
  {
    var s := p.slots[i];
    if s.fd == NO_FD || !s.ready then p
    else
      var p' := p.(trace := p.trace + [Receiving(s.fd)]);
      if s.fd !in r.gone then p'
      else p'.(slots := p.slots[i := s.(fd := NO_FD)], open := p.open - {s.fd})
  }

  /** `RecvEvent` from slot i on. */
  function Recv(p: Polls, i: nat, r: Round): Polls
    decreases |p.slots| - i
  {
    if i >= |p.slots| then p else Recv(RecvSlot(p, i, r), i + 1, r)
  }

  /** `HandlerEvent` after a `poll`. */
  function Handle(p: Polls, r: Round): Polls {
    if p.slots != [] && p.slots[0].ready then Listen(p, r) else Recv(p, 1, r)
  }

  ghost predicate Inv(p: Polls, listener: int) {
    && Valid(Table(p), listener)
    && (forall i :: 0 <= i < |p.slots| && p.slots[i].fd != NO_FD ==> p.slots[i].pollin)
    && p.lost <= p.open
  }

  /** `poll` reports only watched descriptors; `accept` returns one that is not open. */
  ghost predicate LegalRound(p: Polls, r: Round) {
    Legal(Table(p), r) && (r.accept >= 0 ==> r.accept !in p.open)
  }

  /** Every `revents` in use is the answer of the latest `poll`. */
  predicate UpToDate(slots: seq<Slot>, i: nat, ready: set<int>) {
    forall j :: i <= j < |slots| && slots[j].fd != NO_FD ==> (slots[j].ready <==> slots[j].fd in ready)
  }

  lemma PollIsUpToDate(p: Polls, listener: int, r: Round)
    requires Inv(p, listener)
    ensures Inv(Poll(p, r), listener) && Table(Poll(p, r)) == Table(p)
    ensures UpToDate(Poll(p, r).slots, 0, r.ready)
  {
    assert Numbers(Poll(p, r).slots) == Numbers(p.slots);
    assert forall i :: 0 <= i < |p.slots| ==> p.slots[i].fd == NO_FD || p.slots[i].fd in Table(p).open;
  }

  lemma RecvSlotIsVisit(p: Polls, i: nat, listener: int, r: Round)
    requires Inv(p, listener) && 0 < i < |p.slots| && UpToDate(p.slots, i, r.ready) && NO_FD !in r.ready
    ensures Table(RecvSlot(p, i, r)) == Visit(Table(p), i, listener, r)
    ensures Inv(RecvSlot(p, i, r), listener)
    ensures UpToDate(RecvSlot(p, i, r).slots, i + 1, r.ready) && RecvSlot(p, i, r).lost == p.lost
  {
    var fd := p.slots[i].fd;
    VisitTail(Table(p), i, listener, r);
    if fd != NO_FD {
      assert Table(p).table[i] == fd && Table(p).table[0] == listener;
      ErasesItsSlot(Table(p), listener, i);
      assert Numbers(RecvSlot(p, i, r).slots) == Visit(Table(p), i, listener, r).table;
      assert fd in Table(p).open;
      assert p.open - {fd} - p.lost == p.open - p.lost - {fd};
    }
  }

  /** Reading through up-to-date `revents` is the pass of the select server over the same table. */
  lemma {:induction false} RecvIsSweep(p: Polls, i: nat, listener: int, r: Round)
    requires Inv(p, listener) && 0 < i && UpToDate(p.slots, i, r.ready) && NO_FD !in r.ready
    ensures Table(Recv(p, i, r)) == Sweep(Table(p), i, listener, r)
    ensures Inv(Recv(p, i, r), listener) && Recv(p, i, r).lost == p.lost
    decreases |p.slots| - i
  {
    if i < |p.slots| {
      RecvSlotIsVisit(p, i, listener, r);
      RecvIsSweep(RecvSlot(p, i, r), i + 1, listener, r);
    }
  }

  /** The descriptors an accept loses: the one it returned, when the table is full. */
  function LostBy(p: Polls, listener: int, r: Round): set<int> {
    if listener in r.ready && r.accept >= 0 && NO_FD !in Numbers(p.slots) then {r.accept} else {}
  }

  lemma ListenKeepsInv(p: Polls, listener: int, r: Round)
    requires Inv(p, listener) && LegalRound(p, r)
    ensures Inv(Listen(p, r), listener)
    ensures Listen(p, r).lost == p.lost + if r.accept >= 0 && NO_FD !in Numbers(p.slots) then {r.accept} else {}
  {
    if r.accept >= 0 {
      var k := SlotOf(Numbers(p.slots), NO_FD);
      if k < |p.slots| {
        AcceptKeepsValid(Table(p), listener, r);
        assert Numbers(p.slots)[k] == NO_FD;
        assert Numbers(Listen(p, r).slots) == Accept(Table(p), r).table;
        assert p.open + {r.accept} - p.lost == p.open - p.lost + {r.accept};
      } else {
        assert p.open + {r.accept} - (p.lost + {r.accept}) == p.open - p.lost;
      }
    }
  }

  /** Readiness is never stale: whatever `revents` the slots held before, in one round the server
      either accepts once, or reads, in slot order, exactly the registered descriptors that this
      `poll` reported. */
  lemma NeverStale(p: Polls, listener: int, r: Round)
    requires Inv(p, listener) && LegalRound(p, r)
    ensures Handle(Poll(p, r), r).trace == p.trace +
              if listener in r.ready then [Accepting] else Snapshot(Numbers(p.slots), 1, listener, r.ready)
  {
    var q := Poll(p, r);
    PollIsUpToDate(p, listener, r);
    assert q.slots[0].fd == Table(q).table[0] == listener;
    if listener !in r.ready {
      RecvIsSweep(q, 1, listener, r);
      SweepTail(Table(q), 1, listener, r);
    }
  }

  /** One round keeps the table equal to the set of open descriptors that are not lost, and a
      descriptor is lost exactly when it is accepted into a full table. */
  lemma RoundKeepsInv(p: Polls, listener: int, r: Round)
    requires Inv(p, listener) && LegalRound(p, r)
    ensures Inv(Handle(Poll(p, r), r), listener)
    ensures Handle(Poll(p, r), r).lost == p.lost + LostBy(p, listener, r)
  {
    var q := Poll(p, r);
    PollIsUpToDate(p, listener, r);
    assert Numbers(q.slots) == Numbers(p.slots);
    assert q.slots[0].fd == Table(q).table[0] == listener;
    if listener in r.ready {
      ListenKeepsInv(q, listener, r);
    } else {
      RecvIsSweep(q, 1, listener, r);
    }
  }

  lemma SweepCloses(q: Polls, listener: int, r: Round)
    requires Inv(q, listener) && LegalRound(q, r) && UpToDate(q.slots, 0, r.ready) && listener !in r.ready
    ensures Recv(q, 1, r).open == q.open - r.ready * r.gone
  {
    var q' := Recv(q, 1, r);
    RecvIsSweep(q, 1, listener, r);
    SweepTail(Table(q), 1, listener, r);
    GoneFromOne(Table(q), listener, r);
    assert q'.open - q.lost == q.open - q.lost - r.ready * r.gone;
    assert q'.open == (q'.open - q.lost) + q.lost;
  }

  lemma ListenRegisters(q: Polls, listener: int, r: Round)
    requires Inv(q, listener) && r.accept >= 0 && NO_FD in Numbers(q.slots)
    ensures r.accept in Numbers(Listen(q, r).slots)
  {
    var k := SlotOf(Numbers(q.slots), NO_FD);
    assert Numbers(Listen(q, r).slots)[k] == r.accept;
  }

  /** What a round changes: an accept opens the descriptor and, if there is a free slot, enters it
      into the table; otherwise exactly the reported descriptors found gone are closed. */
  lemma RoundOpens(p: Polls, listener: int, r: Round)
    requires Inv(p, listener) && LegalRound(p, r)
    ensures Handle(Poll(p, r), r).open ==
            if listener in r.ready then p.open + (if r.accept >= 0 then {r.accept} else {})
            else p.open - r.ready * r.gone
    ensures listener in r.ready && r.accept >= 0 && NO_FD in Numbers(p.slots) ==>
              r.accept in Numbers(Handle(Poll(p, r), r).slots)
  {
    var q := Poll(p, r);
    PollIsUpToDate(p, listener, r);
    assert Numbers(q.slots) == Numbers(p.slots);
    assert q.slots[0].fd == Table(q).table[0] == listener;
    if listener !in r.ready {
      SweepCloses(q, listener, r);
    } else if r.accept >= 0 && NO_FD in Numbers(p.slots) {
      ListenRegisters(q, listener, r);
    }
  }

  /** The slot filled is the first free one, and its `revents` stay. */
  lemma ListenFillsFirst(p: Polls, r: Round, k: nat)
    requires r.accept >= 0 && k < |p.slots| && p.slots[k].fd == NO_FD
    requires forall j :: 0 <= j < k ==> p.slots[j].fd != NO_FD
    ensures Listen(p, r).slots == p.slots[k := Slot(r.accept, true, p.slots[k].ready)]
  {
    var n := SlotOf(Numbers(p.slots), NO_FD);
    assert Numbers(p.slots)[k] == NO_FD;
    assert n == k;
  }

  /** Each descriptor read in a round is registered and was reported by this round's `poll`, and
      each such descriptor is read exactly once. */
  lemma ReadsExactlyTheReady(p: Polls, listener: int, r: Round, fd: int)
    requires Inv(p, listener) && LegalRound(p, r) && listener !in r.ready
    ensures var calls := Snapshot(Numbers(p.slots), 1, listener, r.ready);
            && Handle(Poll(p, r), r).trace == p.trace + calls
            && multiset(calls)[Receiving(fd)] == Bit(fd in r.ready)
            && (fd in r.ready ==> fd in Numbers(p.slots))
  {
    NeverStale(p, listener, r);
    var t := Numbers(p.slots);
    EachOnce(t, 1, listener, r.ready, fd);
    assert t == [t[0]] + t[1..] && t[0] == listener;
    assert t == Table(p).table;
  }

  ghost predicate LegalRun(p: Polls, rounds: seq<Round>)
    decreases |rounds|
  {
    rounds == [] || (LegalRound(p, rounds[0]) && LegalRun(Handle(Poll(p, rounds[0]), rounds[0]), rounds[1..]))
  }

  function Served(p: Polls, rounds: seq<Round>): Polls
    decreases |rounds|
  {
    if rounds == [] then p else Served(Handle(Poll(p, rounds[0]), rounds[0]), rounds[1..])
  }

  /** In every run the entries stay distinct and are exactly the open descriptors, except those
      lost; and as long as none has been lost, all of them. */
  lemma {:induction false} TableIsOpenSet(p: Polls, listener: int, rounds: seq<Round>)
    requires Inv(p, listener) && LegalRun(p, rounds)
    ensures Inv(Served(p, rounds), listener)
    ensures Served(p, rounds).lost == {} ==>
              Valid(Fds(Numbers(Served(p, rounds).slots), Served(p, rounds).open, []), listener)
    decreases |rounds|
  {
    if rounds != [] {
      RoundKeepsInv(p, listener, rounds[0]);
      TableIsOpenSet(Handle(Poll(p, rounds[0]), rounds[0]), listener, rounds[1..]);
    } else if p.lost == {} {
      assert p.open - {} == p.open;
    }
  }

  function Initial(listener: int): Polls {
    Polls([Slot(listener, true, false)] + seq(MAX_FDSET - 1, _ => Slot(NO_FD, false, false)), {listener}, {}, [])
  }

  lemma InitialInv(listener: int)
    requires listener >= 0
    ensures Inv(Initial(listener), listener)
  {
    assert Numbers(Initial(listener).slots)[0] == listener;
    assert {listener} - {} == {listener};
  }

  class Server {
    var listenFd: int
    var rfds: array<Slot>
    ghost var open: set<int>
    ghost var lost: set<int>
    ghost var trace: seq<Event>

    ghost function View(): Polls
      reads this, rfds
    {
      Polls(rfds[..], open, lost, trace)
    }

    /** `ServerInit`, with the descriptor the listening socket got. */
    constructor (listener: int)
      requires listener >= 0
      ensures View() == Initial(listener) && listenFd == listener && fresh(rfds)
      ensures Inv(View(), listenFd)
      ensures rfds.Length == 1024 && rfds[0].fd == listener && open == {listener}
      ensures forall i :: 1 <= i < rfds.Length ==> rfds[i].fd == -1
    {
      listenFd := listener;
      rfds := new Slot[MAX_FDSET](_ => Slot(NO_FD, false, false));
      open, lost, trace := {listener}, {}, [];
      new;
      rfds[0] := Slot(listener, true, false);
      assert rfds[..] == Initial(listener).slots;
      InitialInv(listener);
    }

    method ListenEvent(r: Round)
      modifies this`open, this`lost, this`trace, rfds
      ensures View() == Listen(old(View()), r)
      ensures r.accept >= 0 && old(exists i :: 0 <= i < rfds.Length && rfds[i].fd == NO_FD) ==>
                exists i :: 0 <= i < rfds.Length && rfds[i].fd == r.accept
    {
      trace := trace + [Accepting];
      if r.accept < 0 {
        return;
      }
      open := open + {r.accept};
      ghost var t := Numbers(rfds[..]);
      for i := 0 to rfds.Length
        invariant rfds[..] == old(rfds[..]) && SlotOf(t, NO_FD) == SlotOf(t, NO_FD, i)
      {
        if rfds[i].fd == NO_FD {
          rfds[i] := rfds[i].(fd := r.accept, pollin := true);
          return;
        }
      }
      lost := lost + {r.accept};
    }

    method RecvEvent(r: Round)
      requires rfds.Length > 0
      modifies this`open, this`trace, rfds
      ensures View() == Recv(old(View()), 1, r)
    {
      for i := 1 to rfds.Length
        invariant lost == old(lost) && Recv(View(), i, r) == Recv(old(View()), 1, r)
      {
        if rfds[i].fd == NO_FD {
          continue;
        }
        if rfds[i].ready {
          trace := trace + [Receiving(rfds[i].fd)];
          if rfds[i].fd in r.gone {
            open := open - {rfds[i].fd};
            rfds[i] := rfds[i].(fd := NO_FD);
          }
        }
      }
    }

    method HandlerEvent(r: Round)
      requires rfds.Length > 0
      modifies this`open, this`lost, this`trace, rfds
      ensures View() == Handle(old(View()), r)
    {
      if rfds[0].ready {
        ListenEvent(r);
      } else {
        RecvEvent(r);
      }
    }

    /** `ServerStart`, for a list of rounds: `poll`, then the handlers. */
    method ServerStart(rounds: seq<Round>)
      requires Inv(View(), listenFd) && LegalRun(View(), rounds)
      modifies this`open, this`lost, this`trace, rfds
      ensures View() == Served(old(View()), rounds)
      ensures Inv(View(), listenFd)
    {
      for n := 0 to |rounds|
        invariant Inv(View(), listenFd) && LegalRun(View(), rounds[n..])
        invariant Served(View(), rounds[n..]) == Served(old(View()), rounds)
      {
        assert rounds[n..][0] == rounds[n] && rounds[n..][1..] == rounds[n + 1..];
        RoundKeepsInv(View(), listenFd, rounds[n]);
        ghost var p := Poll(View(), rounds[n]);
        forall i | 0 <= i < rfds.Length {
          rfds[i] := rfds[i].(ready := rfds[i].fd >= 0 && rfds[i].pollin && rfds[i].fd in rounds[n].ready);
        }
        assert rfds[..] == p.slots;
        HandlerEvent(rounds[n]);
      }
    }
  }
}
