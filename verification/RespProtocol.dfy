/** Replies of the Redis serialization protocol (RESP2), their encoding, and the two
    scanning functions every reply type is read with. */
module RespProtocol {
  import opened Bytes

  const CR: byte := 13
  const LF: byte := 10
  const CRLF: seq<byte> := [CR, LF]
  const MINUS: byte := 45
  const PLUS: byte := 43
  const COLON: byte := 58
  const DOLLAR: byte := 36
  const STAR: byte := 42
  const ZERO: byte := 48

  datatype TextKind = String | Status | Error

  /** A reply tree. Null is the null pointer in an element slot that is not filled yet. */
  datatype Reply =
    | Null
    | Text(kind: TextKind, str: seq<byte>)
    | Integer(value: int)
    | Nil
    | Array(elements: int, element: seq<Reply>)

  // ------------------------------------------------------------------ scanning

  /** The position of the first CR LF pair. */
  function FindCrlf(s: seq<byte>): (r: Option<nat>)
    ensures r.Some? ==> r.value + 1 < |s| && s[r.value] == CR && s[r.value + 1] == LF
  {
    if |s| < 2 then None
    else if s[0] == CR && s[1] == LF then Some(0)
    else
      var r := FindCrlf(s[1..]);
      if r.Some? then Some(r.value + 1) else None
  }

  /** The digits from the start of s up to a CR appended to acc, or None at any other byte. */
  function ParseDigits(s: seq<byte>, acc: int): Option<int> {
    if s == [] then None
    else if s[0] == CR then Some(acc)
    else if ZERO <= s[0] < ZERO + 10 then ParseDigits(s[1..], acc * 10 + (s[0] - ZERO) as int)
    else None
  }

  /** The number in front of the first CR; anything that is not a number reads as -1. */
  function ParseInteger(s: seq<byte>): int {
    var negative := s != [] && s[0] == MINUS;
    var signed := negative || (s != [] && s[0] == PLUS);
    match ParseDigits(if signed then s[1..] else s, 0)
    case None => -1
    case Some(v) => if negative then -v else v
  }

  lemma {:induction false} FindCrlfExtends(s: seq<byte>, t: seq<byte>)
    requires FindCrlf(s).Some?
    ensures FindCrlf(s + t) == FindCrlf(s)
  {
    assert (s + t)[0] == s[0] && (s + t)[1] == s[1];
    if !(s[0] == CR && s[1] == LF) {
      assert (s + t)[1..] == s[1..] + t;
      FindCrlfExtends(s[1..], t);
    }
  }

  lemma {:induction false} ParseDigitsExtends(s: seq<byte>, t: seq<byte>, acc: int)
    requires CR in s
    ensures ParseDigits(s + t, acc) == ParseDigits(s, acc)
  {
    assert (s + t)[0] == s[0];
    if s[0] != CR && ZERO <= s[0] < ZERO + 10 {
      assert (s + t)[1..] == s[1..] + t;
      ParseDigitsExtends(s[1..], t, acc * 10 + (s[0] - ZERO) as int);
    }
  }

  lemma ParseIntegerExtends(s: seq<byte>, t: seq<byte>)
    requires CR in s
    ensures ParseInteger(s + t) == ParseInteger(s)
  {
    assert (s + t)[0] == s[0];
    if s[0] == MINUS || s[0] == PLUS {
      assert (s + t)[1..] == s[1..] + t;
      ParseDigitsExtends(s[1..], t, 0);
    } else {
      ParseDigitsExtends(s, t, 0);
    }
  }

  // ------------------------------------------------------------------ encoding

  function DecimalNat(n: nat): (r: seq<byte>)
    ensures |r| >= 1
    ensures forall i :: 0 <= i < |r| ==> ZERO <= r[i] < ZERO + 10
  {
    if n < 10 then [ZERO + n as byte] else DecimalNat(n / 10) + [ZERO + (n % 10) as byte]
  }

  function Decimal(v: int): seq<byte> {
    if v < 0 then [MINUS] + DecimalNat(-v) else DecimalNat(v)
  }

  lemma {:induction false} ParseDecimalNat(n: nat, rest: seq<byte>)
    ensures ParseDigits(DecimalNat(n) + rest, 0) == ParseDigits(rest, n)
  {
    if n < 10 {
      assert (DecimalNat(n) + rest)[1..] == rest;
    } else {
      var d := [ZERO + (n % 10) as byte];
      assert DecimalNat(n) + rest == DecimalNat(n / 10) + (d + rest);
      ParseDecimalNat(n / 10, d + rest);
      assert (d + rest)[1..] == rest;
    }
  }

  lemma ParseSigned(digits: seq<byte>, n: int)
    requires ParseDigits(digits, 0) == Some(n) && digits != [] && digits[0] != MINUS && digits[0] != PLUS
    ensures ParseInteger(digits) == n && ParseInteger([MINUS] + digits) == -n
  {
    hide ParseDigits;
    assert ([MINUS] + digits)[1..] == digits;
  }

  lemma ParseEnd(n: nat, rest: seq<byte>)
    ensures ParseDigits(CRLF + rest, n) == Some(n)
  {
    assert (CRLF + rest)[0] == CR;
  }

  lemma ParseDecimal(v: int, rest: seq<byte>)
    ensures ParseInteger(Decimal(v) + CRLF + rest) == v
  {
    hide ParseDigits, DecimalNat;
    var tail := CRLF + rest;
    var n := if v < 0 then -v else v;
    var digits := DecimalNat(n) + tail;
    assert Decimal(v) + CRLF + rest == if v < 0 then [MINUS] + digits else digits;
    assert digits[0] == DecimalNat(n)[0];
    ParseDecimalNat(n, tail);
    ParseEnd(n, rest);
    ParseSigned(digits, n);
  }

  ghost predicate HasNoCrlf(s: seq<byte>) {
    forall i :: 0 <= i < |s| - 1 ==> !(s[i] == CR && s[i + 1] == LF)
  }

  /** A line without CR LF in it ends exactly where its terminator was put. */
  lemma {:induction false} FindTerminator(line: seq<byte>, rest: seq<byte>)
    requires HasNoCrlf(line)
    ensures FindCrlf(line + CRLF + rest) == Some(|line|)
  {
    var s := line + CRLF + rest;
    if line == [] {
      assert s[0] == CR && s[1] == LF;
    } else {
      assert s[0] == line[0];
      assert s[1] == if |line| > 1 then line[1] else CR;
      assert s[1..] == line[1..] + CRLF + rest;
      forall i | 0 <= i < |line[1..]| - 1 ensures !(line[1..][i] == CR && line[1..][i + 1] == LF) {
        assert line[1..][i] == line[i + 1] && line[1..][i + 1] == line[i + 2];
      }
      FindTerminator(line[1..], rest);
    }
  }

  lemma DecimalHasNoCrlf(v: int)
    ensures HasNoCrlf(Decimal(v))
  {
    assert forall i :: 0 <= i < |Decimal(v)| ==> Decimal(v)[i] != CR;
  }

  function TypeByte(kind: TextKind): byte {
    match kind
    case String => DOLLAR
    case Status => PLUS
    case Error => MINUS
  }

  function Encode(t: Reply): seq<byte>
    decreases t, 0
  {
    match t
    case Null => []
    case Text(String, s) => [DOLLAR] + Decimal(|s|) + CRLF + s + CRLF
    case Text(kind, s) => [TypeByte(kind)] + s + CRLF
    case Integer(v) => [COLON] + Decimal(v) + CRLF
    case Nil => [DOLLAR] + Decimal(-1) + CRLF
    case Array(n, element) => [STAR] + Decimal(n) + CRLF + EncodeAll(element)
  }

  function EncodeAll(ts: seq<Reply>): seq<byte>
    decreases ts, 1
  {
    if ts == [] then [] else Encode(ts[0]) + EncodeAll(ts[1..])
  }

  /** What a server may send in a slot at the given depth: arrays sit at depth 0 to 7,
      leaves one deeper, and single-line strings contain no CR LF. */
  ghost predicate Encodable(t: Reply, depth: nat) {
    match t
    case Null => false
    case Text(kind, s) => kind == String || HasNoCrlf(s)
    case Integer(_) => true
    case Nil => true
    case Array(n, element) =>
      depth <= 7 && n == |element| && forall i :: 0 <= i < |element| ==> Encodable(element[i], depth + 1)
  }

  /** What a server may send, whatever its depth. */
  ghost predicate WellFormed(t: Reply) {
    match t
    case Null => false
    case Text(kind, s) => kind == String || HasNoCrlf(s)
    case Array(n, element) => n == |element| && forall i :: 0 <= i < |element| ==> WellFormed(element[i])
    case _ => true
  }

  /** A tree at the given depth has an array below depth 7. */
  ghost predicate Deep(t: Reply, depth: nat) {
    t.Array? && (depth > 7 || exists i :: 0 <= i < |t.element| && Deep(t.element[i], depth + 1))
  }

  lemma {:induction false} ShallowIsEncodable(t: Reply, depth: nat)
    ensures Encodable(t, depth) <==> WellFormed(t) && !Deep(t, depth)
  {
    if t.Array? {
      forall i | 0 <= i < |t.element|
        ensures Encodable(t.element[i], depth + 1) <==> WellFormed(t.element[i]) && !Deep(t.element[i], depth + 1)
      {
        ShallowIsEncodable(t.element[i], depth + 1);
      }
    }
  }

  /** No slot is left unfilled anywhere in the tree. */
  ghost predicate Complete(t: Reply) {
    match t
    case Null => false
    case Array(n, element) =>
      |element| == (if n > 0 then n else 0) && forall i :: 0 <= i < |element| ==> Complete(element[i])
    case _ => true
  }
}
