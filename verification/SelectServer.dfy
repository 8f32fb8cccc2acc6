/** The server of select/select_server/select_server.hpp: its descriptor array, scanned and changed
    in place. */
module SelectServer {
  import opened FdTable

  /** sizeof(fd_set) * 8 */
  const MAX_FDSET := 1024

  /** Every open descriptor fits the set, and so does the one `accept` returns. */
  predicate Fits(s: Fds, r: Round) {
    (forall fd :: fd in s.open ==> fd < |s.table|) && r.accept < |s.table|
  }

  ghost predicate LegalRound(s: Fds, r: Round) {
    Legal(s, r) && Fits(s, r)
  }

  ghost predicate LegalRun(s: Fds, listener: int, rounds: seq<Round>)
    decreases |rounds|
  {
    rounds == [] || (LegalRound(s, rounds[0]) && LegalRun(Sweep(s, 0, listener, rounds[0]), listener, rounds[1..]))
  }

  function Served(s: Fds, listener: int, rounds: seq<Round>): Fds
    decreases |rounds|
  {
    if rounds == [] then s else Served(Sweep(s, 0, listener, rounds[0]), listener, rounds[1..])
  }

  function Initial(listener: int): Fds {
    Fds([listener] + seq(MAX_FDSET - 1, _ => NO_FD), {listener}, [])
  }

  lemma InitialValid(listener: int)
    requires listener >= 0
    ensures Valid(Initial(listener), listener)
  {
    assert Initial(listener).table[0] == listener;
  }

  /** The scan in `ListenFunc` always finds a free slot. */
  lemma AcceptFindsRoom(s: Fds, listener: int, r: Round)
    requires Valid(s, listener) && LegalRound(s, r)
    ensures r.accept >= 0 ==> NO_FD in s.table
  {
    if r.accept >= 0 {
      RoomForFresh(s.table, r.accept);
    }
  }

  /** At every point of every run, slot 0 is the listener and the table is exactly the set of open
      descriptors. */
  lemma {:induction false} TableIsOpenSet(s: Fds, listener: int, rounds: seq<Round>)
    requires Valid(s, listener) && LegalRun(s, listener, rounds)
    ensures Valid(Served(s, listener, rounds), listener)
    decreases |rounds|
  {
    if rounds == [] {
    } else {
      AcceptFindsRoom(s, listener, rounds[0]);
      PassIsSnapshot(s, listener, rounds[0]);
      TableIsOpenSet(Sweep(s, 0, listener, rounds[0]), listener, rounds[1..]);
    }
  }

  class Server {
    var listenFd: int
    var fdArray: array<int>
    ghost var open: set<int>
    ghost var trace: seq<Event>

    ghost function View(): Fds
      reads this, fdArray
    {
      Fds(fdArray[..], open, trace)
    }

    /** `init`, with the descriptor the listening socket got. */
    constructor (listener: int)
      requires listener >= 0
      ensures View() == Initial(listener) && listenFd == listener && fresh(fdArray)
      ensures Valid(View(), listenFd)
      ensures fdArray.Length == 1024 && fdArray[0] == listener && open == {listener}
      ensures forall i :: 1 <= i < fdArray.Length ==> fdArray[i] == -1
    {
      listenFd := listener;
      fdArray := new int[MAX_FDSET](_ => NO_FD);
      open, trace := {listener}, [];
      new;
      fdArray[0] := listener;
      assert fdArray[..] == Initial(listener).table;
      InitialValid(listener);
    }

    method ListenFunc(r: Round)
      modifies this`open, this`trace, fdArray
      ensures View() == Accept(old(View()), r)
    {
      trace := trace + [Accepting];
      if r.accept < 0 {
        return;
      }
      open := open + {r.accept};
      ReplaceFirst(NO_FD, r.accept);
    }

    method RecvFunc(fd: int, r: Round)
      modifies this`open, this`trace, fdArray
      ensures View() == Receive(old(View()), fd, r)
    {
      trace := trace + [Receiving(fd)];
      if fd in r.gone {
        open := open - {fd};
        ReplaceFirst(fd, NO_FD);
      }
    }

    /** The loop over the array that both handlers contain. */
    method ReplaceFirst(fd: int, with: int)
      modifies fdArray
      ensures fdArray[..] == Replace(old(fdArray[..]), fd, with)
    {
      ghost var t := fdArray[..];
      for j := 0 to fdArray.Length
        invariant fdArray[..] == t && SlotOf(t, fd) == SlotOf(t, fd, j)
      {
        if fdArray[j] == fd {
          fdArray[j] := with;
          return;
        }
      }
    }

    method HandlerEvent(r: Round)
      modifies this`open, this`trace, fdArray
      ensures View() == Sweep(old(View()), 0, listenFd, r)
    {
      for i := 0 to fdArray.Length
        invariant Sweep(View(), i, listenFd, r) == Sweep(old(View()), 0, listenFd, r)
      {
        if fdArray[i] == NO_FD {
          continue;
        }
        if fdArray[i] in r.ready {
          if fdArray[i] == listenFd {
            ListenFunc(r);
          } else {
            RecvFunc(fdArray[i], r);
          }
        }
      }
    }

    /** The set handed to `select` and the bound on its descriptors. */
    method Watch() returns (rfds: set<int>, maxFd: int)
      ensures rfds == Elements(fdArray[..]) - {NO_FD}
      ensures maxFd >= listenFd && forall fd :: fd in rfds ==> fd <= maxFd
      ensures maxFd == listenFd || maxFd in rfds
    {
      rfds, maxFd := {}, listenFd;
      for i := 0 to fdArray.Length
        invariant rfds == Elements(fdArray[..i]) - {NO_FD}
        invariant maxFd >= listenFd && forall fd :: fd in rfds ==> fd <= maxFd
        invariant maxFd == listenFd || maxFd in rfds
      {
        assert fdArray[..i + 1] == fdArray[..i] + [fdArray[i]];
        if fdArray[i] == NO_FD {
          continue;
        }
        rfds := rfds + {fdArray[i]};
        maxFd := if fdArray[i] > maxFd then fdArray[i] else maxFd;
      }
      assert fdArray[..fdArray.Length] == fdArray[..];
    }

    /** `start`, for a list of rounds. What `select` reports ready is part of what was watched. */
    method Start(rounds: seq<Round>)
      requires Valid(View(), listenFd) && LegalRun(View(), listenFd, rounds)
      modifies this`open, this`trace, fdArray
      ensures View() == Served(old(View()), listenFd, rounds)
      ensures Valid(View(), listenFd)
    {
      TableIsOpenSet(View(), listenFd, rounds);
      for n := 0 to |rounds|
        invariant Valid(View(), listenFd) && LegalRun(View(), listenFd, rounds[n..])
        invariant Served(View(), listenFd, rounds[n..]) == Served(old(View()), listenFd, rounds)
      {
        assert rounds[n..][0] == rounds[n] && rounds[n..][1..] == rounds[n + 1..];
        var rfds, maxFd := Watch();
        forall fd | fd in rounds[n].ready ensures fd in rfds {
          assert fd in View().open;
        }
        AcceptFindsRoom(View(), listenFd, rounds[n]);
        PassIsSnapshot(View(), listenFd, rounds[n]);
        HandlerEvent(rounds[n]);
      }
    }
  }
}
