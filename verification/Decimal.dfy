/** `std::to_string` and `std::stoi` for 32-bit integers, on strings whose characters stand for bytes. */
module Decimal {
  import opened Basics

  const INT_MIN := -0x8000_0000
  const INT_MAX := 0x7fff_ffff

  predicate IsInt32(n: int) {
    INT_MIN <= n <= INT_MAX
  }

  /** Conversion to a 32-bit int, modulo 2^32. */
  function Wrap32(n: int): (r: int)
    ensures IsInt32(r)
    ensures (n - r) % 0x1_0000_0000 == 0
    ensures IsInt32(n) ==> r == n
  {
    (n + 0x8000_0000) % 0x1_0000_0000 - 0x8000_0000
  }

  predicate IsDigit(c: char) {
    '0' <= c <= '9'
  }

  predicate AllDigits(s: string) {
    forall i :: 0 <= i < |s| ==> IsDigit(s[i])
  }

  function Digit(d: nat): char
    requires d < 10
  {
    (('0' as int) + d) as char
  }

  function DigitValue(c: char): nat
    requires IsDigit(c)
  {
    c as int - '0' as int
  }

  function PrintNat(n: nat): (s: string)
    ensures s != [] && AllDigits(s)
  {
    if n < 10 then [Digit(n)] else PrintNat(n / 10) + [Digit(n % 10)]
  }

  /** `std::to_string`. */
  function ToString(n: int): string {
    if n < 0 then "-" + PrintNat(-n) else PrintNat(n)
  }

  function Value(s: string): nat
    requires AllDigits(s)
  {
    if s == [] then 0 else 10 * Value(s[..|s| - 1]) + DigitValue(s[|s| - 1])
  }

  function DigitPrefix(s: string): (k: nat)
    ensures k <= |s| && AllDigits(s[..k])
    ensures k < |s| ==> !IsDigit(s[k])
  {
    if s == [] || !IsDigit(s[0]) then 0
    else assert s[..DigitPrefix(s[1..]) + 1] == [s[0]] + s[1..][..DigitPrefix(s[1..])]; DigitPrefix(s[1..]) + 1
  }

  predicate IsSpace(c: char) {
    c == ' ' || '\t' <= c <= '\r'
  }

  function SkipSpace(s: string): string {
    if s != [] && IsSpace(s[0]) then SkipSpace(s[1..]) else s
  }

  /** A number, or one of the two exceptions `std::stoi` throws. */
  datatype Parsed = Number(n: int) | InvalidArgument | OutOfRange

  predicate IsSign(c: char) {
    c == '+' || c == '-'
  }

  function StoiDigits(s: string, negative: bool): (p: Parsed)
    ensures p.Number? ==> IsInt32(p.n)
  {
    var k := DigitPrefix(s);
    var m: int := Value(s[..k]);
    var v := if negative then -m else m;
    if k == 0 then InvalidArgument else if IsInt32(v) then Number(v) else OutOfRange
  }

  /** `std::stoi`: optional white space, optional sign, digits, then anything. */
  function Stoi(s: string): (p: Parsed)
    ensures p.Number? ==> IsInt32(p.n)
  {
    var t := SkipSpace(s);
    if t != [] && IsSign(t[0]) then StoiDigits(t[1..], t[0] == '-') else StoiDigits(t, false)
  }

  lemma {:induction false} ValuePrint(n: nat)
    ensures Value(PrintNat(n)) == n
  {
    if n >= 10 {
      ValuePrint(n / 10);
      var s := PrintNat(n);
      assert s[..|s| - 1] == PrintNat(n / 10);
    }
  }

  lemma {:induction false} DigitPrefixIs(digits: string, rest: string)
    requires AllDigits(digits) && (rest == [] || !IsDigit(rest[0]))
    ensures DigitPrefix(digits + rest) == |digits|
  {
    if digits == [] {
      assert digits + rest == rest;
    } else {
      assert (digits + rest)[1..] == digits[1..] + rest;
      DigitPrefixIs(digits[1..], rest);
    }
  }

  /** The six white-space characters of the C locale. */
  const SPACES := " \t\n\U{0B}\U{0C}\r"

  predicate White(w: string) {
    forall i :: 0 <= i < |w| ==> w[i] in SPACES
  }

  lemma {:induction false} WhiteIsSkipped(w: string, s: string)
    requires White(w) && (s == "" || s[0] !in SPACES)
    ensures SkipSpace(w + s) == s
  {
    if w == "" {
      assert w + s == s;
    } else {
      assert w[0] in SPACES;
      assert (w + s)[1..] == w[1..] + s;
      WhiteIsSkipped(w[1..], s);
    }
  }

  /** What a sign and digits denote, with the two ways to fail. */
  function Denoted(sign: string, digits: string): Parsed
    requires AllDigits(digits)
  {
    var v: int := if sign == "-" then -(Value(digits) as int) else Value(digits);
    if digits == "" then InvalidArgument else if IsInt32(v) then Number(v) else OutOfRange
  }

  /** The digits end where `rest` begins, and without digits neither white space nor a sign is left
      unread. */
  predicate Splits(sign: string, digits: string, rest: string) {
    && sign in {"", "+", "-"} && AllDigits(digits)
    && (rest == "" || !IsDigit(rest[0]))
    && (sign + digits == "" ==> rest == "" || (rest[0] !in SPACES && rest[0] !in "+-"))
  }

  lemma StoiDigitsAre(digits: string, rest: string, negative: bool)
    requires AllDigits(digits) && (rest == "" || !IsDigit(rest[0]))
    ensures StoiDigits(digits + rest, negative) == Denoted(if negative then "-" else "", digits)
  {
    DigitPrefixIs(digits, rest);
    assert (digits + rest)[..|digits|] == digits;
  }

  lemma StoiUnsigned(t: string)
    requires SkipSpace(t) == t && (t == "" || t[0] !in "+-")
    ensures Stoi(t) == StoiDigits(t, false)
  {
  }

  lemma StoiSigned(sign: string, t: string)
    requires sign in {"+", "-"}
    ensures Stoi(sign + t) == StoiDigits(t, sign == "-")
  {
    assert (sign + t)[0] == sign[0] && (sign + t)[1..] == t;
  }

  lemma StoiSkips(w: string, t: string)
    requires White(w) && (t == "" || t[0] !in SPACES)
    ensures Stoi(w + t) == Stoi(t) && SkipSpace(t) == t
  {
    WhiteIsSkipped(w, t);
    WhiteIsSkipped("", t);
    assert "" + t == t;
  }

  lemma FourParts(w: string, sign: string, digits: string, rest: string)
    ensures w + sign + digits + rest == w + (sign + (digits + rest))
  {
    Regroup(w + sign, digits, rest);
    Regroup(w, sign, digits + rest);
  }

  /** The law of `stoi`: white space, at most one sign, and digits up to the first other byte. Every
      string can be read in this way (StoiCovers). */
  lemma StoiLaw(w: string, sign: string, digits: string, rest: string)
    requires White(w) && Splits(sign, digits, rest)
    ensures Stoi(w + sign + digits + rest) == Denoted(sign, digits)
  {
    var t := digits + rest;
    FourParts(w, sign, digits, rest);
    assert digits != "" ==> t[0] == digits[0] && IsDigit(t[0]);
    StoiDigitsAre(digits, rest, sign == "-");
    StoiSkips(w, sign + t);
    if sign == "" {
      assert sign + t == t;
      StoiUnsigned(t);
    } else {
      StoiSigned(sign, t);
    }
  }

  lemma {:induction false} WhiteFront(s: string) returns (k: nat)
    ensures k <= |s| && White(s[..k]) && (k < |s| ==> s[k] !in SPACES)
  {
    if s == "" || s[0] !in SPACES {
      k := 0;
    } else {
      k := WhiteFront(s[1..]);
      assert s[..k + 1] == [s[0]] + s[1..][..k];
      k := k + 1;
    }
  }

  lemma SignFront(t: string) returns (sign: string, u: string)
    ensures t == sign + u && sign in {"", "+", "-"}
    ensures sign == "" ==> u == "" || u[0] !in "+-"
  {
    if t != "" && t[0] in "+-" {
      sign, u := [t[0]], t[1..];
    } else {
      sign, u := "", t;
    }
  }

  lemma DigitsFront(u: string) returns (digits: string, rest: string)
    ensures u == digits + rest && AllDigits(digits) && (rest == "" || !IsDigit(rest[0]))
  {
    var d := DigitPrefix(u);
    digits, rest := u[..d], u[d..];
  }

  /** So the law covers every string. */
  lemma StoiCovers(s: string) returns (w: string, sign: string, digits: string, rest: string)
    ensures s == w + sign + digits + rest && White(w) && Splits(sign, digits, rest)
  {
    var k := WhiteFront(s);
    var t, u := s[k..], "";
    w := s[..k];
    sign, u := SignFront(t);
    digits, rest := DigitsFront(u);
    FourParts(w, sign, digits, rest);
    assert s == w + t;
    if sign == "" && digits == "" {
      assert rest == t;
    }
  }

  /** Reading back a printed number, after any white space: `stoi` stops at the first byte that is
      not a digit. It fails exactly when the number is not an int. */
  lemma StoiAfterWhite(w: string, n: int, rest: string)
    requires White(w) && (rest == "" || !IsDigit(rest[0]))
    ensures Stoi(w + ToString(n) + rest) == if IsInt32(n) then Number(n) else OutOfRange
  {
    var sign, m: nat := if n < 0 then "-" else "", if n < 0 then -n else n;
    ValuePrint(m);
    StoiLaw(w, sign, PrintNat(m), rest);
    Regroup(w, sign, PrintNat(m));
    assert sign + PrintNat(m) == ToString(n);
  }

  /** The same with a plus sign in front. */
  lemma StoiAfterPlus(w: string, n: nat, rest: string)
    requires White(w) && (rest == "" || !IsDigit(rest[0]))
    ensures Stoi(w + "+" + PrintNat(n) + rest) == if IsInt32(n) then Number(n) else OutOfRange
  {
    ValuePrint(n);
    StoiLaw(w, "+", PrintNat(n), rest);
  }

  lemma StoiToString(n: int, rest: string)
    requires rest == [] || !IsDigit(rest[0])
    ensures Stoi(ToString(n) + rest) == if IsInt32(n) then Number(n) else OutOfRange
  {
    StoiAfterWhite("", n, rest);
    assert "" + ToString(n) == ToString(n);
  }

  /** The decimal notation, most significant digit first, with a minus sign for a negative number. */
  lemma PrintedDigits(n: nat, d: nat)
    requires d < 10
    ensures PrintNat(d) == ["0123456789"[d]]
    ensures n > 0 ==> PrintNat(10 * n + d) == PrintNat(n) + ["0123456789"[d]]
    ensures n > 0 ==> ToString(-(n as int)) == "-" + PrintNat(n)
  {
    assert (10 * n + d) / 10 == n && (10 * n + d) % 10 == d;
    assert Digit(d) == "0123456789"[d];
  }

  function Pow10(k: nat): nat {
    if k == 0 then 1 else 10 * Pow10(k - 1)
  }

  lemma {:induction false} PrintNatLength(n: nat, k: nat)
    requires k > 0 && n < Pow10(k)
    ensures |PrintNat(n)| <= k
  {
    if n >= 10 {
      PrintNatLength(n / 10, k - 1);
    }
  }

  lemma ToStringLength(n: int)
    requires IsInt32(n)
    ensures |ToString(n)| <= 11
  {
    assert Pow10(10) == 10_000_000_000 by {
      assert Pow10(5) == 100_000;
    }
    PrintNatLength(if n < 0 then -n else n, 10);
  }

  predicate NumberByte(c: char) {
    IsDigit(c) || c == '-'
  }

  lemma ToStringBytes(n: int)
    ensures forall i :: 0 <= i < |ToString(n)| ==> NumberByte(ToString(n)[i])
  {
  }

  lemma PrintNatInjective(m: nat, n: nat)
    requires PrintNat(m) == PrintNat(n)
    ensures m == n
  {
    ValuePrint(m);
    ValuePrint(n);
  }
}
