/** CRLF-terminated lines of a growing byte stream. */
module Lines {
  import opened Text

  /** The complete lines of a stream, and what follows the last CRLF. */
  datatype Cut = Cut(lines: seq<string>, rest: string)

  function Split(s: string): Cut
    decreases |s|
  {
    var p := FindCrlf(s);
    if p < 0 then Cut([], s)
    else
      var c := Split(s[p + 2..]);
      Cut([s[..p]] + c.lines, c.rest)
  }

  /** The stream that the lines spell. */
  function Join(lines: seq<string>): string {
    if lines == [] then "" else lines[0] + CRLF + Join(lines[1..])
  }

  lemma JoinFirst(line: string, lines: seq<string>, rest: string)
    ensures Join([line] + lines) + rest == line + CRLF + (Join(lines) + rest)
  {
    assert ([line] + lines)[1..] == lines;
  }

  lemma {:induction false} SplitSpells(s: string)
    ensures Join(Split(s).lines) + Split(s).rest == s
    decreases |s|
  {
    var p := FindCrlf(s);
    if p >= 0 {
      FindCrlfIsFirst(s);
      SplitSpells(s[p + 2..]);
      var c := Split(s[p + 2..]);
      assert s == s[..p] + CRLF + s[p + 2..];
      JoinFirst(s[..p], c.lines, c.rest);
    }
  }

  lemma {:induction false} JoinAppend(xs: seq<string>, ys: seq<string>)
    ensures Join(xs + ys) == Join(xs) + Join(ys)
  {
    if xs == [] {
      assert xs + ys == ys;
    } else {
      assert (xs + ys)[1..] == xs[1..] + ys;
      JoinAppend(xs[1..], ys);
    }
  }

  lemma FindCrlfAppend(a: string, b: string)
    requires FindCrlf(a) >= 0
    ensures FindCrlf(a + b) == FindCrlf(a)
    decreases |a|
  {
    if !CrlfAt(a, 0) {
      assert (a + b)[1..] == a[1..] + b;
      FindCrlfAppend(a[1..], b);
    }
  }

  lemma SplitFirst(a: string, b: string, p: nat)
    requires FindCrlf(a) == p
    ensures Split(a + b) == Cut([a[..p]] + Split(a[p + 2..] + b).lines, Split(a[p + 2..] + b).rest)
  {
    FindCrlfAppend(a, b);
    assert (a + b)[p + 2..] == a[p + 2..] + b;
    assert (a + b)[..p] == a[..p];
  }

  /** New bytes only affect what follows the last complete line, even when a CR and its LF arrive
      apart. */
  lemma {:induction false} SplitAppend(a: string, b: string)
    ensures Split(a + b).lines == Split(a).lines + Split(Split(a).rest + b).lines
    ensures Split(a + b).rest == Split(Split(a).rest + b).rest
    decreases |a|
  {
    var p := FindCrlf(a);
    if p >= 0 {
      var line, tail := a[..p], a[p + 2..];
      SplitAppend(tail, b);
      SplitFirst(a, "", p);
      SplitFirst(a, b, p);
      assert a + "" == a && tail + "" == tail;
      var more := Split(Split(tail).rest + b).lines;
      assert [line] + (Split(tail).lines + more) == [line] + Split(tail).lines + more;
    }
  }

  lemma FirstLineEnds(line: string, s: string)
    requires FindCrlf(s) == |line| && line <= s
    ensures FindCrlf(line + "\r\n") == |line|
  {
    var t := line + "\r\n";
    FindCrlfIsFirst(s);
    FindCrlfIsFirst(t);
    assert CrlfAt(t, |line|);
    forall i | 0 <= i < |line| ensures !CrlfAt(t, i) {
      assert !CrlfAt(s, i);
    }
  }

  /** No CRLF is left inside a line, across its end, or in the rest: with SplitSpells this makes the
      split the only one there is. */
  lemma {:induction false} SplitIsComplete(s: string, i: nat)
    ensures FindCrlf(Split(s).rest) == -1
    ensures i < |Split(s).lines| ==> FindCrlf(Split(s).lines[i] + "\r\n") == |Split(s).lines[i]|
    decreases |s|
  {
    var p := FindCrlf(s);
    if p >= 0 {
      SplitIsComplete(s[p + 2..], if i > 0 then i - 1 else 0);
      if i == 0 {
        FindCrlfIsFirst(s);
        FindCrlfIsFirst(s[..p] + "\r\n");
        FirstLineEnds(s[..p], s);
      }
    }
  }
}
