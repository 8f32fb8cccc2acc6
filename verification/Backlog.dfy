/** How many frames a receiver serves that takes at most one frame per read and stops when a read
    leaves it with part of a header only. Lengths are all that matters. */
module Backlog {

  type Positive = n: nat | n > 0 witness 1

  /** The length of a frame's header, with its CRLF, and of what follows it. */
  datatype Frame = Frame(header: Positive, body: nat)

  function Total(f: Frame): nat {
    f.header + f.body
  }

  /** The number of frames served: b bytes of the next frame are in the buffer, and reads of
      these sizes are still to come. */
  function Count(frames: seq<Frame>, b: nat, sizes: seq<nat>): (n: nat)
    ensures n <= |frames| && n <= |sizes|
    decreases |sizes|
  {
    if sizes == [] || frames == [] then 0
    else
      var seen := b + sizes[0];
      if seen < frames[0].header then 0
      else if seen < Total(frames[0]) then Count(frames, seen, sizes[1..])
      else 1 + Count(frames[1..], seen - Total(frames[0]), sizes[1..])
  }

  lemma CountTurn(frames: seq<Frame>, b: nat, sizes: seq<nat>, f: Frame, seen: nat)
    requires sizes != [] && frames != [] && f == frames[0] && seen == b + sizes[0]
    ensures Count(frames, b, sizes) ==
            if seen < f.header then 0
            else if seen < Total(f) then Count(frames, seen, sizes[1..])
            else 1 + Count(frames[1..], seen - Total(f), sizes[1..])
  {
  }

  /** The number of frames complete within the first bytes of the stream. */
  function FramesIn(frames: seq<Frame>, bytes: nat): (n: nat)
    ensures n <= |frames|
  {
    if frames == [] || bytes < Total(frames[0]) then 0 else 1 + FramesIn(frames[1..], bytes - Total(frames[0]))
  }

  /** The first bytes of the stream end inside a header. */
  predicate CutsHeader(frames: seq<Frame>, bytes: nat) {
    frames != [] &&
    if bytes < Total(frames[0]) then 0 < bytes < frames[0].header
    else CutsHeader(frames[1..], bytes - Total(frames[0]))
  }

  function Sum(sizes: seq<nat>): nat {
    if sizes == [] then 0 else sizes[0] + Sum(sizes[1..])
  }

  /** The bytes in the first j reads. */
  function Seen(sizes: seq<nat>, j: nat): nat
    requires j <= |sizes|
  {
    Sum(sizes[..j])
  }

  lemma SeenNext(sizes: seq<nat>, j: nat)
    requires 0 < j <= |sizes|
    ensures Seen(sizes, j) == sizes[0] + Seen(sizes[1..], j - 1)
  {
    assert sizes[..j][1..] == sizes[1..][..j - 1];
  }

  predicate NonEmpty(sizes: seq<nat>) {
    forall i :: 0 <= i < |sizes| ==> sizes[i] > 0
  }

  predicate HeadersWhole(frames: seq<Frame>, b: nat, sizes: seq<nat>) {
    forall j :: 0 < j <= |sizes| ==> !CutsHeader(frames, b + Seen(sizes, j))
  }

  /** What remains of the frames, and of the bytes seen, once the first frame is served if it is
      complete. */
  predicate AfterRead(frames: seq<Frame>, seen: nat, rest: seq<Frame>, b: nat)
    requires frames != []
  {
    if seen < Total(frames[0]) then rest == frames && b == seen
    else rest == frames[1..] && b == seen - Total(frames[0])
  }

  lemma HeadersWholeNext(frames: seq<Frame>, b: nat, sizes: seq<nat>, rest: seq<Frame>, b': nat)
    requires HeadersWhole(frames, b, sizes) && sizes != [] && frames != []
    requires AfterRead(frames, b + sizes[0], rest, b')
    ensures HeadersWhole(rest, b', sizes[1..])
  {
    forall j | 0 < j <= |sizes| - 1 ensures !CutsHeader(rest, b' + Seen(sizes[1..], j)) {
      SeenNext(sizes, j + 1);
      assert !CutsHeader(frames, b + Seen(sizes, j + 1));
    }
  }

  /** The bound that the first j reads put on the frames served. */
  function Bound(frames: seq<Frame>, b: nat, sizes: seq<nat>, j: nat): nat
    requires j <= |sizes|
  {
    if j == 0 then |sizes| else FramesIn(frames, b + Seen(sizes, j)) + |sizes| - j
  }

  lemma BoundNext(frames: seq<Frame>, b: nat, sizes: seq<nat>, rest: seq<Frame>, b': nat, j: nat)
    requires frames != [] && 0 < j <= |sizes|
    requires AfterRead(frames, b + sizes[0], rest, b')
    ensures Bound(frames, b, sizes, j) == |frames| - |rest| +
            if j == 1 then FramesIn(rest, b') + |sizes| - 1 else Bound(rest, b', sizes[1..], j - 1)
  {
    SeenNext(sizes, j);
  }

  lemma CountNext(frames: seq<Frame>, b: nat, sizes: seq<nat>, rest: seq<Frame>, b': nat)
    requires sizes != [] && sizes[0] > 0 && frames != [] && HeadersWhole(frames, b, sizes)
    requires AfterRead(frames, b + sizes[0], rest, b')
    ensures Count(frames, b, sizes) == |frames| - |rest| + Count(rest, b', sizes[1..])
  {
    SeenNext(sizes, 1);
    assert !CutsHeader(frames, b + Seen(sizes, 1));
  }

  lemma {:induction false} CountIsLeastBound(frames: seq<Frame>, b: nat, sizes: seq<nat>) returns (at: nat)
    requires HeadersWhole(frames, b, sizes) && NonEmpty(sizes)
    ensures at <= |sizes| && Count(frames, b, sizes) == Bound(frames, b, sizes, at)
    ensures forall j :: 0 <= j <= |sizes| ==> Count(frames, b, sizes) <= Bound(frames, b, sizes, j)
    decreases |sizes|
  {
    if sizes == [] {
      at := 0;
    } else if frames == [] {
      at := |sizes|;
    } else {
      var seen, total := b + sizes[0], Total(frames[0]);
      var rest, b' := if seen < total then frames else frames[1..], if seen < total then seen else seen - total;
      HeadersWholeNext(frames, b, sizes, rest, b');
      var next := CountIsLeastBound(rest, b', sizes[1..]);
      CountNext(frames, b, sizes, rest, b');
      forall j | 0 <= j <= |sizes| ensures Count(frames, b, sizes) <= Bound(frames, b, sizes, j) {
        if j > 0 {
          BoundNext(frames, b, sizes, rest, b', j);
          assert Count(rest, b', sizes[1..]) <= Bound(rest, b', sizes[1..], j - 1);
        } else {
          assert Count(rest, b', sizes[1..]) <= Bound(rest, b', sizes[1..], 0);
        }
      }
      BoundNext(frames, b, sizes, rest, b', next + 1);
      at := if next == 0 && seen >= total then 0 else next + 1;
    }
  }

  /** When no read cuts a header, the number of frames served after n reads is the minimum over j of
      the frames complete after j reads plus n - j. */
  lemma CountLaw(frames: seq<Frame>, sizes: seq<nat>) returns (at: nat)
    requires HeadersWhole(frames, 0, sizes) && NonEmpty(sizes)
    ensures at <= |sizes| && Count(frames, 0, sizes) == FramesIn(frames, Seen(sizes, at)) + |sizes| - at
    ensures forall j :: 0 <= j <= |sizes| ==>
              Count(frames, 0, sizes) <= FramesIn(frames, Seen(sizes, j)) + |sizes| - j
  {
    at := CountIsLeastBound(frames, 0, sizes);
    forall j | 0 <= j <= |sizes|
      ensures Count(frames, 0, sizes) <= FramesIn(frames, Seen(sizes, j)) + |sizes| - j
    {
      assert Count(frames, 0, sizes) <= Bound(frames, 0, sizes, j);
    }
  }
}
