/** `Request` and `Response` of protocol/protocol.hpp with their text encoding (the MYSTLYE branches),
    and the calculator of protocol/server_tcp.cc. */
module Codec {
  import opened Decimal
  import opened Text

  /** The values of the two classes. */
  datatype Req = Req(x: int, y: int, op: char)
  datatype Resp = Resp(result: int, exitcode: int)

  /** `deserialize` returns true or false, or lets an exception of `stoi` out. */
  datatype Parse<T> = Accepted(value: T) | Rejected | Thrown

  predicate ReqInRange(r: Req) {
    IsInt32(r.x) && IsInt32(r.y)
  }

  predicate RespInRange(r: Resp) {
    IsInt32(r.result) && IsInt32(r.exitcode)
  }

  function PrintReq(r: Req): string {
    ToString(r.x) + " " + [r.op] + " " + ToString(r.y)
  }

  function ParseReq(text: string): Parse<Req> {
    var pos, rpos := Find(text, ' '), FindLast(text, ' ');
    if pos < 0 || rpos < 0 || pos == rpos then Rejected
    else
      assert ' ' in text[..rpos + 1];
      var x, y := Stoi(text[..pos]), Stoi(text[rpos + 1..]);
      if x.Number? && y.Number? && pos + 1 < |text| then Accepted(Req(x.n, y.n, text[pos + 1])) else Thrown
  }

  function PrintResp(r: Resp): string {
    ToString(r.result) + " " + ToString(r.exitcode) + CRLF
  }

  /** The two arguments `Response::deserialize` passes to `stoi`. The second one drops the last byte
      only, so it still carries the CR; without a separator, `npos + 1` is 0. */
  function RespFields(text: string): (string, string) {
    var pos := Find(text, ' ');
    if pos >= 0 then (text[..pos], if pos + 1 < |text| then text[pos + 1..|text| - 1] else "")
    else (text, if text == "" then "" else text[..|text| - 1])
  }

  function ParseResp(text: string): Parse<Resp> {
    var (first, second) := RespFields(text);
    var result, exitcode := Stoi(first), Stoi(second);
    if result.Number? && exitcode.Number? then Accepted(Resp(result.n, exitcode.n)) else Thrown
  }

  // ---------- The classes ----------

  lemma FindBeforeLast(text: string)
    requires Find(text, ' ') >= 0
    ensures Find(text, ' ') <= FindLast(text, ' ')
  {
    forall i | FindLast(text, ' ') < i < |text| ensures text[i] != ' ' {
      assert text[i] == text[FindLast(text, ' ') + 1..][i - FindLast(text, ' ') - 1];
    }
  }

  class Request {
    var x: int
    var y: int
    var op: char

    constructor ()
      ensures View() == Req(0, 0, '+')
    {
      x, y, op := 0, 0, '+';
    }

    constructor Of(r: Req)
      ensures View() == r
    {
      x, y, op := r.x, r.y, r.op;
    }

    function View(): Req
      reads this
    {
      Req(x, y, op)
    }

    method Serialize() returns (out: string)
      ensures out == PrintReq(View())
    {
      out := ToString(x) + " " + [op] + " " + ToString(y);
    }

    /** On an exception the fields assigned before it keep their new values. */
    method Deserialize(text: string) returns (r: Parse<Req>)
      modifies this
      ensures r == ParseReq(text)
      ensures r.Accepted? ==> View() == r.value
      ensures r.Rejected? ==> View() == old(View())
      ensures r.Thrown? ==>
                var pos := Find(text, ' ');
                && 0 <= pos < |text| - 1
                && View() == match Stoi(text[..pos])
                             case Number(n) => Req(n, old(y), text[pos + 1])
                             case _ => old(View())
    {
      var pos, rpos := Find(text, ' '), FindLast(text, ' ');
      if pos < 0 || rpos < 0 {
        return Rejected;
      }
      if pos == rpos {
        return Rejected;
      }
      FindBeforeLast(text);
      var first := Stoi(text[..pos]);
      if !first.Number? {
        return Thrown;
      }
      x := first.n;
      op := text[pos + 1];
      var second := Stoi(text[rpos + 1..]);
      if !second.Number? {
        return Thrown;
      }
      y := second.n;
      return Accepted(View());
    }
  }

  class Response {
    var result: int
    var exitcode: int

    constructor ()
      ensures View() == Resp(0, 0)
    {
      result, exitcode := 0, 0;
    }

    constructor Of(r: Resp)
      ensures View() == r
    {
      result, exitcode := r.result, r.exitcode;
    }

    function View(): Resp
      reads this
    {
      Resp(result, exitcode)
    }

    method Serialize() returns (out: string)
      ensures out == PrintResp(View())
    {
      out := ToString(result) + " " + ToString(exitcode) + CRLF;
    }

    method Deserialize(text: string) returns (r: Parse<Resp>)
      modifies this
      ensures r == ParseResp(text) && !r.Rejected?
      ensures r.Accepted? ==> View() == r.value
      ensures r.Thrown? ==>
                View() == match Stoi(RespFields(text).0)
                          case Number(n) => Resp(n, old(exitcode))
                          case _ => old(View())
    {
      var fields := RespFields(text);
      var first := Stoi(fields.0);
      if !first.Number? {
        return Thrown;
      }
      result := first.n;
      var second := Stoi(fields.1);
      if !second.Number? {
        return Thrown;
      }
      exitcode := second.n;
      return Accepted(View());
    }
  }

  // ---------- Round trips ----------

  lemma FirstIs(s: string, c: char, p: nat)
    requires p < |s| && s[p] == c && c !in s[..p]
    ensures Find(s, c) == p
  {
    var q := Find(s, c);
    assert s[p] in s;
    forall i | 0 <= i < p ensures s[i] != c {
      assert s[i] == s[..p][i];
    }
    forall i | 0 <= i < q ensures s[i] != c {
      assert s[i] == s[..q][i];
    }
  }

  lemma LastIs(s: string, c: char, p: nat)
    requires p < |s| && s[p] == c && c !in s[p + 1..]
    ensures FindLast(s, c) == p
  {
    var q := FindLast(s, c);
    assert s[p] in s;
    forall i | p < i < |s| ensures s[i] != c {
      assert s[i] == s[p + 1..][i - p - 1];
    }
    forall i | q < i < |s| ensures s[i] != c {
      assert s[i] == s[q + 1..][i - q - 1];
    }
  }

  lemma NoSpace(n: int)
    ensures ' ' !in ToString(n)
  {
    ToStringBytes(n);
  }

  lemma StoiExact(n: int)
    requires IsInt32(n)
    ensures Stoi(ToString(n)) == Number(n)
  {
    StoiToString(n, "");
    assert ToString(n) + "" == ToString(n);
  }

  /** Every request survives its text encoding, whatever the operator character, even the
      separator itself. */
  lemma ReqRoundTrip(r: Req)
    requires ReqInRange(r)
    ensures ParseReq(PrintReq(r)) == Accepted(r)
  {
    var a, b, s := ToString(r.x), ToString(r.y), PrintReq(r);
    NoSpace(r.x);
    NoSpace(r.y);
    assert s == a + ([' ', r.op, ' '] + b);
    assert s[..|a|] == a && s[|a|] == ' ' && s[|a| + 1] == r.op && s[|a| + 2] == ' ' && s[|a| + 3..] == b;
    FirstIs(s, ' ', |a|);
    LastIs(s, ' ', |a| + 2);
    StoiExact(r.x);
    StoiExact(r.y);
  }

  lemma RespFieldsOfPrint(a: string, b: string)
    requires ' ' !in a
    ensures RespFields(a + " " + b + CRLF) == (a, b + "\r")
  {
    var s := a + " " + b + CRLF;
    assert s[..|a|] == a && s[|a|] == ' ';
    FirstIs(s, ' ', |a|);
    assert s[|a| + 1..|s| - 1] == b + "\r";
  }

  /** Every response survives its text encoding, although a CR is left behind the second number. */
  lemma RespRoundTrip(r: Resp)
    requires RespInRange(r)
    ensures ParseResp(PrintResp(r)) == Accepted(r)
  {
    NoSpace(r.result);
    RespFieldsOfPrint(ToString(r.result), ToString(r.exitcode));
    StoiExact(r.result);
    StoiToString(r.exitcode, "\r");
  }

  // ---------- Any text ----------

  /** A text is rejected exactly if it holds fewer than two spaces. */
  lemma RejectsWithoutTwoSpaces(text: string)
    ensures ParseReq(text).Rejected? <==> !exists i, j :: 0 <= i < j < |text| && text[i] == ' ' && text[j] == ' '
  {
    var pos, rpos := Find(text, ' '), FindLast(text, ' ');
    if pos >= 0 {
      assert forall i :: 0 <= i < pos ==> text[i] == text[..pos][i];
      assert forall j :: rpos < j < |text| ==> text[j] == text[rpos + 1..][j - rpos - 1];
    } else {
      assert forall i :: 0 <= i < |text| ==> text[i] in text;
    }
  }

  /** Any other text is read like this: the first operand before the first space, the operator the
      byte after it, the second operand after the last space. */
  lemma RequestLaw(a: string, mid: string, b: string)
    requires ' ' !in a && ' ' !in b
    ensures ParseReq(a + " " + mid + " " + b) ==
            if Stoi(a).Number? && Stoi(b).Number?
            then Accepted(Req(Stoi(a).n, Stoi(b).n, if mid == "" then ' ' else mid[0]))
            else Thrown
  {
    var s := a + " " + mid + " " + b;
    var k := |a| + 1 + |mid|;
    assert s[..|a|] == a && s[|a|] == ' ' && s[k] == ' ' && s[k + 1..] == b;
    assert s[|a| + 1] == if mid == "" then ' ' else mid[0];
    FirstIs(s, ' ', |a|);
    LastIs(s, ' ', k);
  }

  /** A response is two numbers around the first space; the last byte is not looked at. */
  lemma ResponseLaw(a: string, b: string, last: char)
    requires ' ' !in a
    ensures ParseResp(a + " " + b + [last]) ==
            if Stoi(a).Number? && Stoi(b).Number? then Accepted(Resp(Stoi(a).n, Stoi(b).n)) else Thrown
  {
    var s := a + " " + b + [last];
    assert s[..|a|] == a && s[|a|] == ' ';
    FirstIs(s, ' ', |a|);
    assert s[|a| + 1..|s| - 1] == b;
  }

  /** Nothing before or nothing after the only space, or no space at all and at most one byte. */
  lemma NoResponse(a: string)
    requires ' ' !in a
    ensures ParseResp(a + " ") == Thrown
    ensures ParseResp("") == Thrown
  {
    var s := a + " ";
    assert s[..|a|] == a && s[|a|] == ' ';
    FirstIs(s, ' ', |a|);
    assert Stoi("") == InvalidArgument;
  }

  // ---------- The calculator ----------

  const OK := 0
  const DIV_ZERO := 1
  const MOD_ZERO := 2
  const OP_ERR := 3

  /** Division truncated toward zero. */
  function Quotient(x: int, y: int): int
    requires y != 0
  {
    if x >= 0 then x / y else -(-x / y)
  }

  /** The remainder that belongs to it, of the dividend's sign. */
  function Remainder(x: int, y: int): int
    requires y != 0
  {
    if x >= 0 then x % y else -(-x % y)
  }

  /** The result of the operation is an int, and so is the quotient that `%` computes. */
  predicate Defined(r: Req) {
    && ReqInRange(r)
    && (r.op == '+' ==> IsInt32(r.x + r.y))
    && (r.op == '-' ==> IsInt32(r.x - r.y))
    && (r.op == '*' ==> IsInt32(r.x * r.y))
    && ((r.op == '/' || r.op == '%') && r.y != 0 ==> IsInt32(Quotient(r.x, r.y)))
  }

  function Compute(r: Req): Resp {
    match r.op
    case '+' => Resp(r.x + r.y, OK)
    case '-' => Resp(r.x - r.y, OK)
    case '*' => Resp(r.x * r.y, OK)
    case '/' => if r.y == 0 then Resp(-1, DIV_ZERO) else Resp(Quotient(r.x, r.y), OK)
    case '%' => if r.y == 0 then Resp(-1, MOD_ZERO) else Resp(Remainder(r.x, r.y), OK)
    case _ => Resp(-1, OP_ERR)
  }

  lemma NegatedProduct(y: int, q: int)
    ensures y * -q == -(y * q)
  {
  }

  lemma QuotientAndRemainder(x: int, y: int)
    requires y != 0
    ensures x == Quotient(x, y) * y + Remainder(x, y)
  {
    if x < 0 {
      assert -x == y * (-x / y) + -x % y;
      NegatedProduct(y, -x / y);
    }
  }

  function Abs(y: int): int {
    if y < 0 then -y else y
  }

  lemma ModBounds(n: nat, y: int)
    requires y != 0
    ensures 0 <= n % y < Abs(y)
    ensures n == 0 ==> n % y == 0
  {
  }

  lemma RemainderBounds(x: int, y: int)
    requires y != 0
    ensures -Abs(y) < Remainder(x, y) < Abs(y)
    ensures (Remainder(x, y) > 0 ==> x > 0) && (Remainder(x, y) < 0 ==> x < 0)
  {
    if x >= 0 {
      ModBounds(x, y);
    } else {
      ModBounds(-x, y);
    }
  }

  /** `/` and `%` together divide with a remainder smaller than the divisor and of the dividend's
      sign, and a defined request always has an int answer. */
  lemma ComputeDivides(x: int, y: int)
    requires y != 0
    ensures var q, r := Compute(Req(x, y, '/')).result, Compute(Req(x, y, '%')).result;
            && x == q * y + r
            && -Abs(y) < r < Abs(y)
            && (r > 0 ==> x > 0) && (r < 0 ==> x < 0)
  {
    QuotientAndRemainder(x, y);
    RemainderBounds(x, y);
  }

  /** q and r are quotient and remainder of x by y, truncated toward zero. */
  predicate Divides(x: int, y: int, q: int, r: int) {
    x == q * y + r && -Abs(y) < r < Abs(y) && (r > 0 ==> x > 0) && (r < 0 ==> x < 0)
  }

  lemma QuotientDivides(x: int, y: int)
    requires y != 0
    ensures Divides(x, y, Quotient(x, y), Remainder(x, y))
  {
    QuotientAndRemainder(x, y);
    RemainderBounds(x, y);
  }

  lemma {:induction false} ProductAtLeast(d: nat, q: nat)
    requires d > 0
    ensures d * q >= q
  {
    if d > 1 {
      ProductAtLeast(d - 1, q);
      assert d * q == (d - 1) * q + q;
    }
  }

  lemma QuotientAtMost(n: nat, d: nat)
    requires d > 0
    ensures 0 <= n / d <= n
  {
    var q, r := n / d, n % d;
    assert n == d * q + r;
    ProductAtLeast(d, q);
  }

  lemma NaturalQuotient(x: nat, y: int)
    requires y != 0
    ensures -(x as int) <= Quotient(x, y) <= x
  {
    if y > 0 {
      QuotientAtMost(x, y);
    } else {
      QuotientAtMost(x, -y);
      assert x / y == -(x / -y);
    }
  }

  /** What the protocol promises as the answer to a request: result, and an exit code 0 for success, 1
      and 2 for a zero divisor, and 3 for an unknown operator. */
  ghost predicate IsAnswer(q: Req, a: Resp) {
    && (q.op == '+' ==> a == Resp(q.x + q.y, 0))
    && (q.op == '-' ==> a == Resp(q.x - q.y, 0))
    && (q.op == '*' ==> a == Resp(q.x * q.y, 0))
    && (q.op == '/' && q.y == 0 ==> a == Resp(-1, 1))
    && (q.op == '%' && q.y == 0 ==> a == Resp(-1, 2))
    && (q.op == '/' && q.y != 0 ==> a.exitcode == 0 && exists r :: Divides(q.x, q.y, a.result, r))
    && (q.op == '%' && q.y != 0 ==> a.exitcode == 0 && exists d :: Divides(q.x, q.y, d, a.result))
    && (q.op !in "+-*/%" ==> a == Resp(-1, 3))
  }

  lemma ComputeAnswers(q: Req)
    ensures IsAnswer(q, Compute(q))
  {
    if q.y != 0 && q.op in "/%" {
      QuotientDivides(q.x, q.y);
    }
  }

  lemma ProductGrows(y: int, d: int)
    requires d >= 1
    ensures Abs(d * y) >= Abs(y)
  {
  }

  lemma {:induction false} SmallRemainders(y: int, d: int, r: int, r': int)
    requires y != 0 && r - r' == d * y && -Abs(y) < r - r' < Abs(y)
    ensures d == 0
  {
    if d >= 1 {
      assert Abs(d * y) >= Abs(y) by {
        ProductGrows(y, d);
      }
    } else if d <= -1 {
      assert Abs(d * y) >= Abs(y) by {
        ProductGrows(y, -d);
        NegatedProduct(y, -d);
      }
    }
  }

  lemma DivisionIsUnique(x: int, y: int, q: int, r: int, q': int, r': int)
    requires y != 0 && Divides(x, y, q, r) && Divides(x, y, q', r')
    ensures q == q' && r == r'
  {
    assert (q' - q) * y == q' * y - q * y;
    SmallRemainders(y, q' - q, r, r');
  }

  /** The answer to a request is determined. */
  lemma AnswerIsUnique(q: Req, a: Resp, b: Resp)
    requires IsAnswer(q, a) && IsAnswer(q, b)
    ensures a == b
  {
    if q.y != 0 && q.op == '/' {
      var r :| Divides(q.x, q.y, a.result, r);
      var s :| Divides(q.x, q.y, b.result, s);
      DivisionIsUnique(q.x, q.y, a.result, r, b.result, s);
    } else if q.y != 0 && q.op == '%' {
      var d :| Divides(q.x, q.y, d, a.result);
      var e :| Divides(q.x, q.y, e, b.result);
      DivisionIsUnique(q.x, q.y, d, a.result, e, b.result);
    }
  }

  /** `callback`: the handler of the server. It touches the exit code only to report an error. */
  method Callback(req: Request, res: Response)
    requires Defined(req.View())
    modifies res
    ensures res.result == Compute(req.View()).result
    ensures res.exitcode ==
            if Compute(req.View()).exitcode == OK then old(res.exitcode) else Compute(req.View()).exitcode
    ensures old(res.exitcode) == 0 ==> IsAnswer(req.View(), res.View())
  {
    ComputeAnswers(req.View());
    match req.op {
      case '+' => res.result := req.x + req.y;
      case '-' => res.result := req.x - req.y;
      case '*' => res.result := req.x * req.y;
      case '/' =>
        if req.y == 0 {
          res.result := -1;
          res.exitcode := DIV_ZERO;
        } else {
          res.result := Quotient(req.x, req.y);
        }
      case '%' =>
        if req.y == 0 {
          res.result := -1;
          res.exitcode := MOD_ZERO;
        } else {
          res.result := Remainder(req.x, req.y);
        }
      case _ =>
        res.result := -1;
        res.exitcode := OP_ERR;
    }
  }

  lemma ComputeInRange(r: Req)
    requires Defined(r)
    ensures RespInRange(Compute(r))
  {
  }
}
