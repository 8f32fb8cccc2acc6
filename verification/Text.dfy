/** Searching strings, and the C-string view of a read buffer. */
module Text {

  const CRLF := "\r\n"

  predicate CrlfAt(s: string, i: int) {
    0 <= i < |s| - 1 && s[i] == '\r' && s[i + 1] == '\n'
  }

  /** Position of the first CRLF, -1 if there is none (`npos`). */
  function FindCrlf(s: string): (p: int)
    ensures p == -1 || 0 <= p <= |s| - 2
  {
    if |s| < 2 then -1
    else if CrlfAt(s, 0) then 0
    else
      var p := FindCrlf(s[1..]);
      if p < 0 then -1 else p + 1
  }

  /** FindCrlf finds a CRLF if there is one, and no later one than the first. */
  lemma {:induction false} FindCrlfIsFirst(s: string)
    ensures FindCrlf(s) >= 0 ==> CrlfAt(s, FindCrlf(s))
    ensures forall i :: i < FindCrlf(s) || FindCrlf(s) < 0 ==> !CrlfAt(s, i)
  {
    if |s| >= 2 && !CrlfAt(s, 0) {
      FindCrlfIsFirst(s[1..]);
      assert forall i :: i >= 1 && CrlfAt(s, i) ==> CrlfAt(s[1..], i - 1);
    }
  }

  /** Position of the first c, -1 if there is none. */
  function Find(s: string, c: char): (p: int)
    ensures -1 <= p < |s|
    ensures p >= 0 ==> s[p] == c && c !in s[..p]
    ensures p < 0 ==> c !in s
  {
    if s == [] then -1
    else if s[0] == c then 0
    else
      var p := Find(s[1..], c);
      if p < 0 then -1 else assert s[..p + 1] == [s[0]] + s[1..][..p]; p + 1
  }

  /** Position of the last c, -1 if there is none. */
  function FindLast(s: string, c: char): (p: int)
    ensures -1 <= p < |s|
    ensures p >= 0 ==> s[p] == c && c !in s[p + 1..]
    ensures p < 0 ==> c !in s
  {
    if s == [] then -1
    else if s[|s| - 1] == c then |s| - 1
    else
      var p := FindLast(s[..|s| - 1], c);
      assert s == s[..|s| - 1] + [s[|s| - 1]];
      if p < 0 then -1 else assert s[p + 1..] == s[..|s| - 1][p + 1..] + [s[|s| - 1]]; p
  }

  predicate NulFree(s: string) {
    '\0' !in s
  }

  predicate AllNulFree(parts: seq<string>) {
    forall i :: 0 <= i < |parts| ==> NulFree(parts[i])
  }

  /** What `std::string += buffer` appends: the bytes up to the first NUL. */
  function CString(s: string): (r: string)
    ensures NulFree(r) && r <= s
    ensures |r| < |s| ==> s[|r|] == '\0'
    ensures NulFree(s) ==> r == s
  {
    if s == [] || s[0] == '\0' then [] else [s[0]] + CString(s[1..])
  }

  function Concat(parts: seq<string>): string {
    if parts == [] then "" else parts[0] + Concat(parts[1..])
  }

  lemma {:induction false} ConcatSnoc(parts: seq<string>, part: string)
    ensures Concat(parts + [part]) == Concat(parts) + part
  {
    if parts == [] {
    } else {
      assert (parts + [part])[1..] == parts[1..] + [part];
      ConcatSnoc(parts[1..], part);
    }
  }
}
