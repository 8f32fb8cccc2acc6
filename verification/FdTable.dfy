/** The table of watched descriptors that the select and the poll server keep, and what one pass
    over it does while it changes the table. */
module FdTable {
  import opened Basics

  const NO_FD := -1

  /** What the operating system answers in one round: the ready descriptors, what `accept` returns
      (negative on failure), and the descriptors on which `recv` finds the connection gone. */
  datatype Round = Round(ready: set<int>, accept: int, gone: set<int>)

  datatype Event = Accepting | Receiving(fd: int)

  /** The table, the descriptors that are open, and the calls made so far. */
  datatype Fds = Fds(table: seq<int>, open: set<int>, trace: seq<Event>)

  // ---------- The two scans ----------

  /** The first slot at or after i that holds fd, |t| if there is none. */
  function SlotOf(t: seq<int>, fd: int, i: nat := 0): (k: nat)
    requires i <= |t|
    ensures i <= k <= |t|
    ensures k < |t| ==> t[k] == fd
    ensures forall j :: i <= j < k ==> t[j] != fd
    decreases |t| - i
  {
    if i == |t| || t[i] == fd then i else SlotOf(t, fd, i + 1)
  }

  /** Puts `with` where the first fd was, if fd is in the table. */
  function Replace(t: seq<int>, fd: int, with: int): (r: seq<int>)
    ensures |r| == |t|
  {
    var k := SlotOf(t, fd);
    if k < |t| then t[k := with] else t
  }

  // ---------- Well-formed tables ----------

  ghost predicate Distinct(t: seq<int>) {
    forall i, j :: 0 <= i < j < |t| && t[i] != NO_FD ==> t[i] != t[j]
  }

  /** Slot 0 is the listener and the entries are exactly the open descriptors, without repetition. */
  ghost predicate Valid(s: Fds, listener: int) {
    && s.table != [] && s.table[0] == listener && listener >= 0
    && Distinct(s.table)
    && (forall i :: 0 <= i < |s.table| ==> s.table[i] == NO_FD || s.table[i] in s.open)
    && (forall fd :: fd in s.open ==> fd >= 0 && fd in s.table)
  }

  /** What the operating system promises: only watched descriptors become ready, and `accept` returns
      a descriptor that is not open. */
  ghost predicate Legal(s: Fds, r: Round) {
    && (forall fd :: fd in r.ready ==> fd in s.open)
    && (r.accept >= 0 ==> r.accept !in s.open)
  }

  // ---------- Room ----------

  function Upto(n: nat): (r: set<int>)
    ensures forall x :: x in r <==> 0 <= x < n
    ensures |r| == n
  {
    if n == 0 then {} else Upto(n - 1) + {n - 1}
  }

  function Elements(t: seq<int>): (r: set<int>)
    ensures forall x :: x in r <==> x in t
  {
    set x | x in t
  }

  lemma {:induction false} DistinctCount(t: seq<int>)
    requires Distinct(t) && NO_FD !in t
    ensures |Elements(t)| == |t|
  {
    if t == [] {
    } else {
      var n := |t| - 1;
      assert forall x :: x in t[..n] ==> x in t;
      DistinctCount(t[..n]);
      assert t[n] !in t[..n] by {
        forall i | 0 <= i < n ensures t[i] != t[n] {
          assert t[i] in t;
        }
      }
      assert Elements(t) == Elements(t[..n]) + {t[n]};
    }
  }

  lemma SubsetCount(a: set<int>, b: set<int>)
    requires a <= b
    ensures |a| <= |b|
  {
    assert b == a + (b - a);
  }

  /** A table as long as the range of descriptors always has room for one more descriptor: if every
      slot were taken, the entries would be the whole range. */
  lemma RoomForFresh(t: seq<int>, fd: int)
    requires Distinct(t) && (forall i :: 0 <= i < |t| ==> t[i] == NO_FD || 0 <= t[i] < |t|)
    requires 0 <= fd < |t| && fd !in t
    ensures NO_FD in t
  {
    if NO_FD !in t {
      DistinctCount(t);
      SubsetCount(Elements(t), Upto(|t|) - {fd});
      assert false;
    }
  }

  // ---------- One visit ----------

  function Accept(s: Fds, r: Round): Fds {
    var s' := s.(trace := s.trace + [Accepting]);
    if r.accept < 0 then s'
    else s'.(table := Replace(s.table, NO_FD, r.accept), open := s.open + {r.accept})
  }

  /** The accepted descriptor goes into the first free slot. */
  lemma AcceptFillsFirst(s: Fds, r: Round, k: nat)
    requires r.accept >= 0 && k < |s.table| && s.table[k] == NO_FD
    requires forall j :: 0 <= j < k ==> s.table[j] != NO_FD
    ensures Accept(s, r).table == s.table[k := r.accept]
  {
    var n := SlotOf(s.table, NO_FD);
    assert n == k;
  }

  function Receive(s: Fds, fd: int, r: Round): Fds {
    var s' := s.(trace := s.trace + [Receiving(fd)]);
    if fd !in r.gone then s'
    else s'.(table := Replace(s.table, fd, NO_FD), open := s.open - {fd})
  }

  /** A table without room would lose the accepted descriptor. */
  lemma AcceptKeepsValid(s: Fds, listener: int, r: Round)
    requires Valid(s, listener)
    requires r.accept >= 0 ==> r.accept !in s.open && NO_FD in s.table
    ensures Valid(Accept(s, r), listener)
  {
    if r.accept >= 0 {
      var k := SlotOf(s.table, NO_FD);
      var t' := Accept(s, r).table;
      assert k < |s.table| && k > 0;
      assert t' == s.table[k := r.accept];
      forall fd | fd in Accept(s, r).open ensures fd >= 0 && fd in t' {
        if fd != r.accept {
          var i :| 0 <= i < |s.table| && s.table[i] == fd;
          assert t'[i] == fd;
        } else {
          assert t'[k] == fd;
        }
      }
    }
  }

  /** Closing a descriptor frees the very slot it was found in. */
  lemma ErasesItsSlot(s: Fds, listener: int, i: nat)
    requires Valid(s, listener) && i < |s.table| && s.table[i] != NO_FD
    ensures Replace(s.table, s.table[i], NO_FD) == s.table[i := NO_FD]
  {
    var k := SlotOf(s.table, s.table[i]);
    assert k == i;
  }

  lemma ReceiveKeepsValid(s: Fds, listener: int, i: nat, r: Round)
    requires Valid(s, listener) && 0 < i < |s.table| && s.table[i] != NO_FD
    ensures Valid(Receive(s, s.table[i], r), listener)
  {
    var fd := s.table[i];
    if fd in r.gone {
      ErasesItsSlot(s, listener, i);
      var t' := s.table[i := NO_FD];
      forall x | x in s.open && x != fd ensures x in t' {
        var j :| 0 <= j < |s.table| && s.table[j] == x;
        assert t'[j] == x;
      }
    }
  }

  // ---------- A pass over the table ----------

  function Visit(s: Fds, i: nat, listener: int, r: Round): (s': Fds)
    requires i < |s.table|
    ensures |s'.table| == |s.table|
  {
    var fd := s.table[i];
    if fd == NO_FD || fd !in r.ready then s
    else if fd == listener then Accept(s, r)
    else Receive(s, fd, r)
  }

  /** The pass from slot i on, reading each slot when it gets there. */
  function Sweep(s: Fds, i: nat, listener: int, r: Round): Fds
    decreases |s.table| - i
  {
    if i >= |s.table| then s else Sweep(Visit(s, i, listener, r), i + 1, listener, r)
  }

  /** The call a pass makes for one slot. */
  function CallFor(fd: int, listener: int, ready: set<int>): seq<Event> {
    if fd == NO_FD || fd !in ready then [] else if fd == listener then [Accepting] else [Receiving(fd)]
  }

  /** The calls a pass from slot i on would make if the table did not change under it. */
  function Snapshot(t: seq<int>, i: nat, listener: int, ready: set<int>): seq<Event>
    decreases |t| - i
  {
    if i >= |t| then [] else CallFor(t[i], listener, ready) + Snapshot(t, i + 1, listener, ready)
  }

  predicate SameCall(t: seq<int>, t': seq<int>, j: nat, listener: int, ready: set<int>)
    requires j < |t| == |t'|
  {
    CallFor(t[j], listener, ready) == CallFor(t'[j], listener, ready)
  }

  /** A snapshot depends only on the ready descriptors from slot i on. */
  lemma {:induction false} SnapshotDependsOn(t: seq<int>, t': seq<int>, i: nat, listener: int, ready: set<int>)
    requires |t| == |t'|
    requires forall j :: i <= j < |t| ==> SameCall(t, t', j, listener, ready)
    ensures Snapshot(t, i, listener, ready) == Snapshot(t', i, listener, ready)
    decreases |t| - i
  {
    if i < |t| {
      assert SameCall(t, t', i, listener, ready);
      SnapshotDependsOn(t, t', i + 1, listener, ready);
    }
  }

  /** The ready descriptors from slot i on that are found gone. */
  function GoneFrom(t: seq<int>, i: nat, r: Round): set<int> {
    set j | i <= j < |t| && t[j] in r.ready && t[j] in r.gone :: t[j]
  }

  lemma VisitTail(s: Fds, i: nat, listener: int, r: Round)
    requires Valid(s, listener) && 0 < i < |s.table| && NO_FD !in r.ready
    ensures Valid(Visit(s, i, listener, r), listener)
    ensures forall j :: i < j < |s.table| ==> Visit(s, i, listener, r).table[j] == s.table[j]
    ensures Visit(s, i, listener, r).open == s.open - (GoneFrom(s.table, i, r) - GoneFrom(s.table, i + 1, r))
  {
    var fd := s.table[i];
    if fd != NO_FD {
      assert fd != listener && fd != s.table[0];
      assert forall j :: i < j < |s.table| ==> s.table[j] != fd;
      ErasesItsSlot(s, listener, i);
      ReceiveKeepsValid(s, listener, i, r);
    }
  }

  /** From slot 1 on there is no accept, and the pass behaves as if it ran over a copy. */
  lemma {:induction false} SweepTail(s: Fds, i: nat, listener: int, r: Round)
    requires Valid(s, listener) && 0 < i && NO_FD !in r.ready
    ensures Valid(Sweep(s, i, listener, r), listener)
    ensures Sweep(s, i, listener, r).trace == s.trace + Snapshot(s.table, i, listener, r.ready)
    ensures Sweep(s, i, listener, r).open == s.open - GoneFrom(s.table, i, r)
    decreases |s.table| - i
  {
    if i < |s.table| {
      var v := Visit(s, i, listener, r);
      VisitTail(s, i, listener, r);
      SnapshotDependsOn(s.table, v.table, i + 1, listener, r.ready);
      SweepTail(v, i + 1, listener, r);
      assert GoneFrom(v.table, i + 1, r) == GoneFrom(s.table, i + 1, r);
      assert v.trace == s.trace + CallFor(s.table[i], listener, r.ready);
      Regroup(s.trace, CallFor(s.table[i], listener, r.ready), Snapshot(s.table, i + 1, listener, r.ready));
      assert GoneFrom(s.table, i + 1, r) <= GoneFrom(s.table, i, r);
    }
  }

  function AcceptedIn(listener: int, r: Round): set<int> {
    if listener in r.ready && r.accept >= 0 then {r.accept} else {}
  }

  /** The first slot: at most an accept, which fills a slot the pass will then skip. */
  lemma FirstVisit(s: Fds, listener: int, r: Round)
    requires Valid(s, listener) && Legal(s, r)
    requires AcceptedIn(listener, r) != {} ==> NO_FD in s.table
    ensures var v := Visit(s, 0, listener, r);
            && Valid(v, listener)
            && v.trace == s.trace + CallFor(listener, listener, r.ready)
            && v.open == s.open + AcceptedIn(listener, r)
            && forall j :: 1 <= j < |s.table| ==>
                 v.table[j] == s.table[j] || (s.table[j] == NO_FD && v.table[j] !in r.ready)
  {
    if listener in r.ready {
      AcceptKeepsValid(s, listener, r);
    }
  }

  lemma GoneFromOne(v: Fds, listener: int, r: Round)
    requires Valid(v, listener) && forall fd :: fd in r.ready ==> fd in v.open
    ensures GoneFrom(v.table, 1, r) == r.ready * r.gone - {listener}
  {
    forall fd | fd in r.ready * r.gone - {listener} ensures fd in GoneFrom(v.table, 1, r) {
      var j :| 0 <= j < |v.table| && v.table[j] == fd;
    }
  }

  /** One pass over a changing table makes exactly the calls a pass over a copy would make: this
      rests on the listener being in slot 0, so that the accept comes before every close. The table
      stays valid, with the accepted descriptor in and the vanished ones out. */
  lemma PassIsSnapshot(s: Fds, listener: int, r: Round)
    requires Valid(s, listener) && Legal(s, r)
    requires AcceptedIn(listener, r) != {} ==> NO_FD in s.table
    ensures Valid(Sweep(s, 0, listener, r), listener)
    ensures Sweep(s, 0, listener, r).trace == s.trace + Snapshot(s.table, 0, listener, r.ready)
    ensures Sweep(s, 0, listener, r).open == s.open + AcceptedIn(listener, r) - (r.ready * r.gone - {listener})
  {
    var v := Visit(s, 0, listener, r);
    FirstVisit(s, listener, r);
    SnapshotDependsOn(s.table, v.table, 1, listener, r.ready);
    SweepTail(v, 1, listener, r);
    GoneFromOne(v, listener, r);
    Regroup(s.trace, CallFor(listener, listener, r.ready), Snapshot(s.table, 1, listener, r.ready));
  }

  lemma CallCount(fd: int, listener: int, ready: set<int>, e: Event)
    requires NO_FD !in ready
    ensures multiset(CallFor(fd, listener, ready))[e] ==
            Bit(fd in ready && e == if fd == listener then Accepting else Receiving(fd))
  {
  }

  lemma TailHas(t: seq<int>, i: nat, fd: int)
    requires Distinct(t) && i < |t|
    ensures fd in t[i..] <==> fd == t[i] || fd in t[i + 1..]
    ensures fd == t[i] && fd in t[i + 1..] ==> fd == NO_FD
  {
    assert t[i..] == [t[i]] + t[i + 1..];
  }

  /** In the calls of a pass, the listener and every other ready descriptor appear exactly once, and
      nothing else appears. */
  lemma {:induction false} EachOnce(t: seq<int>, i: nat, listener: int, ready: set<int>, fd: int)
    requires Distinct(t) && NO_FD !in ready && i <= |t|
    ensures multiset(Snapshot(t, i, listener, ready))[Receiving(fd)] ==
            Bit(fd in t[i..] && fd in ready && fd != listener)
    ensures multiset(Snapshot(t, i, listener, ready))[Accepting] == Bit(listener in t[i..] && listener in ready)
    decreases |t| - i
  {
    if i < |t| {
      EachOnce(t, i + 1, listener, ready, fd);
      CallCount(t[i], listener, ready, Receiving(fd));
      CallCount(t[i], listener, ready, Accepting);
      TailHas(t, i, fd);
      TailHas(t, i, listener);
    }
  }

  /** In one pass every ready descriptor is served exactly once, no other is, and a descriptor
      accepted during the pass is not read in it. */
  lemma EachReadyOnce(s: Fds, listener: int, r: Round, fd: int)
    requires Valid(s, listener) && Legal(s, r)
    requires AcceptedIn(listener, r) != {} ==> NO_FD in s.table
    ensures var calls := Snapshot(s.table, 0, listener, r.ready);
            && Sweep(s, 0, listener, r).trace == s.trace + calls
            && multiset(calls)[Receiving(fd)] == Bit(fd in r.ready && fd != listener)
            && multiset(calls)[Accepting] == Bit(listener in r.ready)
            && (r.accept >= 0 ==> Receiving(r.accept) !in calls)
  {
    PassIsSnapshot(s, listener, r);
    EachOnce(s.table, 0, listener, r.ready, fd);
    EachOnce(s.table, 0, listener, r.ready, r.accept);
    assert s.table[0..] == s.table;
  }
}
