/** Byte for byte, what each type of item means to the reader wherever it stands, also in the forms that an
    encoder does not write. */
module RespForms {
  import opened Bytes
  import opened RespProtocol
  import opened RespMachine
  import opened RespTheorems

  /** The reader is about to read the type byte of an item. */
  predicate Expects(st: State) {
    st.stack != [] && st.stack[|st.stack| - 1].kind == Untyped
  }

  // ------------------------------------------------------------------ numbers

  predicate AllDigits(s: seq<byte>) {
    forall i :: 0 <= i < |s| ==> 48 <= s[i] <= 57
  }

  /** The number that a string of decimal digits stands for; no digits stand for 0. */
  function Digits(s: seq<byte>): nat
    requires AllDigits(s)
  {
    if s == [] then 0 else 10 * Digits(s[..|s| - 1]) + (s[|s| - 1] as int - 48)
  }

  /** A number is written with the decimal digits that stand for it, without leading zeros. */
  lemma {:induction false} DigitsOfDecimal(n: nat)
    ensures AllDigits(DecimalNat(n)) && Digits(DecimalNat(n)) == n
    ensures n > 0 ==> DecimalNat(n)[0] != 48
  {
    if n < 10 {
      assert DecimalNat(n)[..0] == [];
    } else {
      DigitsOfDecimal(n / 10);
      var r := DecimalNat(n);
      assert r[..|r| - 1] == DecimalNat(n / 10);
    }
  }

  lemma {:induction false} ParseAllDigits(s: seq<byte>, acc: int, rest: seq<byte>)
    requires AllDigits(s)
    ensures ParseDigits(s + rest, acc) == ParseDigits(rest, acc * Power(|s|) + Digits(s))
  {
    if s == [] {
      assert s + rest == rest;
    } else {
      var n := |s| - 1;
      assert s + rest == s[..n] + ([s[n]] + rest);
      ParseAllDigits(s[..n], acc, [s[n]] + rest);
      assert ([s[n]] + rest)[1..] == rest;
      assert (acc * Power(n)) * 10 == acc * Power(|s|) by { Regroup(acc, Power(n)); }
    }
  }

  lemma Regroup(a: int, b: int)
    ensures (a * b) * 10 == a * (10 * b)
  {
  }

  function Power(k: nat): nat {
    if k == 0 then 1 else 10 * Power(k - 1)
  }

  /** A number ends at the first CR, even at one that is not followed by LF. */
  function BeforeCr(s: seq<byte>): (r: seq<byte>)
    ensures CR !in r && (CR !in s ==> r == s)
  {
    if s == [] || s[0] == 13 then [] else [s[0]] + BeforeCr(s[1..])
  }

  lemma {:induction false} BeforeCrStops(s: seq<byte>) returns (rest: seq<byte>)
    ensures s + CRLF == BeforeCr(s) + [CR] + rest
  {
    if s == [] || s[0] == 13 {
      rest := (s + CRLF)[1..];
    } else {
      rest := BeforeCrStops(s[1..]);
      assert s + CRLF == [s[0]] + (s[1..] + CRLF);
    }
  }

  /** What a line says where a number is due: an optional sign and digits, or else -1. */
  function NumberOf(line: seq<byte>): int {
    Number(BeforeCr(line))
  }

  function Number(line: seq<byte>): int {
    var digits := if line != [] && (line[0] == 43 || line[0] == 45) then line[1..] else line;
    if !AllDigits(digits) then -1
    else if line != [] && line[0] == 45 then -(Digits(digits) as int) else Digits(digits)
  }

  lemma {:induction false} ParseNotDigits(s: seq<byte>, acc: int, rest: seq<byte>)
    requires !AllDigits(s) && CR !in s
    ensures ParseDigits(s + rest, acc) == None
  {
    assert (s + rest)[0] == s[0];
    if 48 <= s[0] <= 57 {
      assert (s + rest)[1..] == s[1..] + rest;
      ParseNotDigits(s[1..], acc * 10 + (s[0] - ZERO) as int, rest);
    }
  }

  /** Every line is read as the number it says. */
  lemma ParseLine(line: seq<byte>, rest: seq<byte>)
    ensures ParseInteger(line + CRLF + rest) == NumberOf(line)
  {
    hide ParseInteger, Number, BeforeCr;
    var more := BeforeCrStops(line);
    ParseNumber(BeforeCr(line), more + rest);
    assert line + CRLF + rest == BeforeCr(line) + [CR] + (more + rest);
  }

  lemma ParseNumber(line: seq<byte>, rest: seq<byte>)
    requires CR !in line
    ensures ParseInteger(line + [CR] + rest) == Number(line)
  {
    hide ParseDigits, Digits;
    var u := line + [CR] + rest;
    assert u[0] == if line == [] then CR else line[0];
    var signed := line != [] && (line[0] == 43 || line[0] == 45);
    var digits := if signed then line[1..] else line;
    assert (if signed then u[1..] else u) == digits + ([CR] + rest);
    if AllDigits(digits) {
      ParseAllDigits(digits, 0, [CR] + rest);
      ParseToCr(Digits(digits), rest);
    } else {
      ParseNotDigits(digits, 0, [CR] + rest);
    }
  }

  lemma ParseToCr(n: nat, rest: seq<byte>)
    ensures ParseDigits([CR] + rest, n) == Some(n)
  {
    assert ([CR] + rest)[0] == CR;
  }

  lemma Signed(digits: seq<byte>)
    requires AllDigits(digits)
    ensures NumberOf(digits) == Digits(digits) == NumberOf([43] + digits)
    ensures NumberOf([45] + digits) == -(Digits(digits) as int)
  {
    hide Digits;
    assert forall i :: 0 <= i < |digits| ==> digits[i] != CR;
    assert ([43] + digits)[1..] == digits && ([45] + digits)[1..] == digits;
  }

  /** An explicit plus sign and leading zeros change nothing. */
  lemma PlusAndZeros(n: nat, k: nat)
    ensures NumberOf(DecimalNat(n)) == n && NumberOf([45] + DecimalNat(n)) == -(n as int)
    ensures NumberOf([43] + (seq(k, _ => 48) + DecimalNat(n))) == n
    ensures NumberOf([45] + (seq(k, _ => 48) + DecimalNat(n))) == -(n as int)
  {
    hide Digits, AllDigits, NumberOf;
    DigitsOfDecimal(n);
    LeadingZeros(k, DecimalNat(n));
    Signed(DecimalNat(n));
    Signed(seq(k, _ => 48) + DecimalNat(n));
  }

  lemma {:induction false} LeadingZeros(k: nat, s: seq<byte>)
    requires AllDigits(s)
    ensures AllDigits(seq(k, _ => 48) + s) && Digits(seq(k, _ => 48) + s) == Digits(s)
  {
    var zeros: seq<byte> := seq(k, _ => 48);
    if s != [] {
      LeadingZeros(k, s[..|s| - 1]);
      assert (zeros + s)[..k + |s| - 1] == zeros + s[..|s| - 1];
    } else if k > 0 {
      LeadingZeros(k - 1, []);
      assert (zeros + s)[..k - 1] == seq(k - 1, _ => 48) + [];
    }
  }

  // ------------------------------------------------------------------ items

  /** A byte that begins no type of item is a protocol error, wherever an item is due. */
  lemma UnknownTypeByte(st: State, b: byte, rest: seq<byte>)
    requires Expects(st)
    requires b != 43 && b != 45 && b != 58 && b != 36 && b != 42
    ensures ReadReply(st, [b] + rest) == Broken(UnknownType(b))
  {
    assert Step(st, [b] + rest) == Fail(UnknownType(b));
  }

  /** A star in the ninth task is refused at once, before anything of the array has arrived. */
  lemma RefusedAtOnce(st: State, rest: seq<byte>)
    requires Expects(st) && |st.stack| == 9
    ensures ReadReply(st, [42] + rest) == Broken(TooDeep)
  {
    assert Step(st, [42] + rest) == Fail(TooDeep);
  }

  /** The text that follows a plus or a minus byte up to CR LF is a status or an error. */
  lemma StatusOrError(st: State, line: seq<byte>, rest: seq<byte>)
    requires Expects(st) && HasNoCrlf(line)
    ensures ReadReply(st, [43] + line + CRLF + rest) == ReadReply(Finish(st, Text(Status, line)), rest)
    ensures ReadReply(st, [45] + line + CRLF + rest) == ReadReply(Finish(st, Text(Error, line)), rest)
  {
    hide ReadReply, HasNoCrlf, Finish;
    assert [43] + line + CRLF + rest == [43] + (line + CRLF + rest);
    assert [45] + line + CRLF + rest == [45] + (line + CRLF + rest);
    ReadLineOf(st, 43, StatusLine, line, rest);
    ReadLineOf(st, 45, ErrorLine, line, rest);
  }

  /** A colon and a line make an integer, of whatever the line says. */
  lemma IntegerItem(st: State, line: seq<byte>, rest: seq<byte>)
    requires Expects(st) && HasNoCrlf(line)
    ensures ReadReply(st, [58] + line + CRLF + rest) == ReadReply(Finish(st, Integer(NumberOf(line))), rest)
  {
    hide ReadReply, Finish, ParseInteger, NumberOf;
    assert [58] + line + CRLF + rest == [58] + (line + CRLF + rest);
    ParseLine(line, rest);
    ReadLineOf(st, 58, IntegerLine, line, rest);
  }

  lemma HeaderLine(line: seq<byte>, body: seq<byte>)
    requires HasNoCrlf(line)
    ensures var u := line + CRLF + body;
      FindCrlf(u) == Some(|line|) && ParseInteger(u) == NumberOf(line) && u[|line| + 2..] == body
  {
    FindTerminator(line, body);
    ParseLine(line, body);
  }

  /** A dollar byte and a negative length make the null reply. */
  lemma NilBulk(st: State, line: seq<byte>, rest: seq<byte>)
    requires Expects(st) && HasNoCrlf(line) && NumberOf(line) < 0
    ensures ReadReply(st, [36] + line + CRLF + rest) == ReadReply(Finish(st, Nil), rest)
  {
    hide ReadReply, FindCrlf, ParseInteger, NumberOf, Finish;
    var u := line + CRLF + rest;
    assert [36] + line + CRLF + rest == [36] + u;
    ReadTypeByte(st, 36, u);
    HeaderLine(line, rest);
    AfterStep(SetTop(st, st.stack[|st.stack| - 1].(kind := BulkTask)), u,
              Finish(SetTop(st, st.stack[|st.stack| - 1].(kind := BulkTask)), Nil), |line| + 2);
    FinishRetyped(st, BulkTask, Nil);
  }

  /** A dollar byte, a length, that many bytes and two more, whichever these are, make a string. */
  lemma BulkItem(st: State, line: seq<byte>, s: seq<byte>, end: seq<byte>, rest: seq<byte>)
    requires Expects(st) && HasNoCrlf(line) && NumberOf(line) == |s| && |end| == 2
    ensures ReadReply(st, [36] + line + CRLF + s + end + rest) == ReadReply(Finish(st, Text(String, s)), rest)
  {
    hide ReadReply, FindCrlf, ParseInteger, NumberOf, Finish;
    var body := s + end + rest;
    var u, n := line + CRLF + body, |line|;
    assert [36] + line + CRLF + s + end + rest == [36] + u;
    ReadTypeByte(st, 36, u);
    HeaderLine(line, body);
    assert u[n + 2..n + 2 + |s|] == body[..|s|] == s;
    assert u[n + 2 + |s| + 2..] == body[|s| + 2..] == rest;
    var st1 := SetTop(st, st.stack[|st.stack| - 1].(kind := BulkTask));
    AfterStep(st1, u, Finish(st1, Text(String, s)), n + 2 + |s| + 2);
    FinishRetyped(st, BulkTask, Text(String, s));
  }

  /** A star and the count -1 make the null reply; 0 and every other negative count an array without elements. */
  lemma NilOrEmptyArray(st: State, line: seq<byte>, rest: seq<byte>)
    requires Expects(st) && |st.stack| < 9 && HasNoCrlf(line) && NumberOf(line) <= 0
    ensures ReadReply(st, [42] + line + CRLF + rest) ==
            ReadReply(Finish(st, if NumberOf(line) == -1 then Nil else Array(NumberOf(line), [])), rest)
  {
    hide ReadReply, FindCrlf, ParseInteger, NumberOf, Finish;
    var u, n := line + CRLF + rest, NumberOf(line);
    var t := if n == -1 then Nil else Array(n, []);
    assert [42] + line + CRLF + rest == [42] + u;
    ReadTypeByte(st, 42, u);
    HeaderLine(line, rest);
    assert n <= 0 ==> NewArray(n) == Array(n, []);
    var st1 := SetTop(st, st.stack[|st.stack| - 1].(kind := ArrayTask));
    AfterStep(st1, u, Finish(st1, t), |line| + 2);
    FinishRetyped(st, ArrayTask, t);
  }

  /** The nil array, as a whole reply and in any slot. */
  lemma NilArray(st: State, rest: seq<byte>)
    requires Expects(st) && |st.stack| < 9
    ensures ReadReply(st, [42, 45, 49, 13, 10] + rest) == ReadReply(Finish(st, Nil), rest)
    ensures ReadReply(IDLE, [42, 45, 49, 13, 10] + rest) == Done(Nil, rest)
  {
    assert [45, 49][1..] == [49] && [49][..0] == [];
    assert Digits([49]) == 1;
    assert NumberOf([45, 49]) == -1;
    hide ReadReply, NumberOf, Finish;
    assert [42] + [45, 49] + CRLF + rest == [42, 45, 49, 13, 10] + rest;
    NilOrEmptyArray(st, [45, 49], rest);
    NilOrEmptyArray(IDLE, [45, 49], rest);
    WholeReply(Nil, rest);
  }

  lemma WholeReply(t: Reply, rest: seq<byte>)
    ensures ReadReply(Finish(IDLE, t), rest) == Done(t, rest)
  {
  }

  /** A star and a positive count open an array of that many slots, the first of which is read next. */
  lemma OpensArray(st: State, line: seq<byte>, rest: seq<byte>)
    requires Expects(st) && |st.stack| < 9 && HasNoCrlf(line) && NumberOf(line) > 0
    ensures ReadReply(st, [42] + line + CRLF + rest) ==
            var top, n := |st.stack| - 1, NumberOf(line);
            ReadReply(State(st.stack[..top] + [st.stack[top].(kind := ArrayTask, elements := n), Task(Untyped, -1, 0)],
                            SetAt(st.reply, Path(st.stack), Array(n, Nulls(n)))), rest)
  {
    hide ReadReply, FindCrlf, ParseInteger, NumberOf, SetAt;
    var u, n, top := line + CRLF + rest, NumberOf(line), |st.stack| - 1;
    assert [42] + line + CRLF + rest == [42] + u;
    ReadTypeByte(st, 42, u);
    HeaderLine(line, rest);
    var st1 := SetTop(st, st.stack[top].(kind := ArrayTask));
    var st2 := State(st.stack[..top] + [st.stack[top].(kind := ArrayTask, elements := n), Task(Untyped, -1, 0)],
                     SetAt(st.reply, Path(st.stack), Array(n, Nulls(n))));
    assert Path(st1.stack) == Path(st.stack);
    assert st1.stack[..top] + [st1.stack[top].(elements := n), Task(Untyped, -1, 0)] == st2.stack;
    AfterStep(st1, u, st2, |line| + 2);
  }
}
