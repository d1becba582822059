/** Printing commands: the two argument-vector formatters, the digit counting their length
    prediction rests on, and the digit printing with its in-place reversal. */
module RespCommand {
  import opened Bytes
  import opened RespProtocol
  import opened RespMachine
  import opened RespTheorems

  // ------------------------------------------------------------------ digits

  method CountDigits(v: nat) returns (r: nat)
    ensures r == |DecimalNat(v)|
  {
    r := 1;
    var w := v;
    while true
      invariant w >= 0 && r >= 1
      invariant r - 1 + |DecimalNat(w)| == |DecimalNat(v)|
      decreases w
    {
      if w < 10 { return r; }
      if w < 100 { return r + 1; }
      if w < 1000 {
        assert |DecimalNat(w / 10)| == 2;
        return r + 2;
      }
      FourDigits(w);
      if w < 10000 {
        return r + 3;
      }
      w := w / 10000;
      r := r + 4;
    }
  }

  lemma FourDigits(w: nat)
    requires w >= 1000
    ensures |DecimalNat(w)| == if w < 10000 then 4 else 4 + |DecimalNat(w / 10000)|
  {
    assert w / 10 / 10 / 10 / 10 == w / 10000;
    assert |DecimalNat(w)| == 1 + |DecimalNat(w / 10)|;
    assert |DecimalNat(w / 10)| == 1 + |DecimalNat(w / 10 / 10)|;
    assert |DecimalNat(w / 10 / 10)| == 1 + |DecimalNat(w / 10 / 10 / 10)|;
  }

  /** The length of an encoded bulk string, predicted from the string's length alone. */
  method BulkLen(len: nat) returns (r: nat)
    ensures forall s: seq<byte> :: |s| == len ==> r == |Encode(Text(String, s))|
  {
    var digits := CountDigits(len);
    r := 1 + digits + 2 + len + 2;
  }

  const LLSTR_SIZE: nat := 21

  function Pow10(k: nat): nat {
    if k == 0 then 1 else 10 * Pow10(k - 1)
  }

  lemma {:induction false} DigitsBound(n: nat, k: nat)
    requires k >= 1 && n < Pow10(k)
    ensures |DecimalNat(n)| <= k
    decreases k
  {
    if n >= 10 {
      assert k > 1 by { assert Pow10(1) == 10; }
      DigitsBound(n / 10, k - 1);
    }
  }

  lemma U64Digits(n: nat)
    requires n < 0x1_0000_0000_0000_0000
    ensures |DecimalNat(n)| <= 20
  {
    assert Pow10(5) == 100000;
    assert Pow10(10) == 100000 * Pow10(5);
    assert Pow10(15) == 100000 * Pow10(10);
    assert Pow10(20) == 100000 * Pow10(15);
    DigitsBound(n, 20);
  }

  function Reversed(s: seq<byte>): (r: seq<byte>)
    ensures |r| == |s| && forall i :: 0 <= i < |s| ==> r[i] == s[|s| - 1 - i]
  {
    seq(|s|, i requires 0 <= i < |s| => s[|s| - 1 - i])
  }

  method ReversePrefix(s: array<byte>, l: nat)
    requires 0 < l <= s.Length
    modifies s
    ensures s[..l] == Reversed(old(s[..l])) && s[l..] == old(s[l..])
  {
    var i, p := 0, l - 1;
    while i < p
      invariant 0 <= i <= l && p == l - 1 - i && i <= p + 1
      invariant forall k :: 0 <= k < i ==> s[k] == old(s[l - 1 - k]) && s[l - 1 - k] == old(s[k])
      invariant forall k :: i <= k <= p ==> s[k] == old(s[k])
      invariant forall k :: l <= k < s.Length ==> s[k] == old(s[k])
    {
      var aux := s[i];
      s[i] := s[p];
      s[p] := aux;
      i := i + 1;
      p := p - 1;
    }
    forall k | 0 <= k < l ensures s[k] == old(s[l - 1 - k]) {
      if k > p && k >= i {
        assert s[l - 1 - (l - 1 - k)] == old(s[l - 1 - k]);
      }
    }
  }

  lemma LastDigit(v: nat)
    ensures DecimalNat(v) == (if v / 10 == 0 then [] else DecimalNat(v / 10)) + [ZERO + (v % 10) as byte]
  {
  }

  lemma ReversedOne(s: seq<byte>)
    requires |s| == 1
    ensures Reversed(s) == s
  {
  }

  lemma ReversedMore(s: seq<byte>, b: byte)
    ensures Reversed(s + [b]) == [b] + Reversed(s)
  {
  }

  /** One more digit moves from the number to what is written. */
  lemma DigitStep(w: nat, before: seq<byte>, after: seq<byte>)
    requires after == before + [ZERO + (w % 10) as byte]
    ensures DecimalNat(w) + Reversed(before) == (if w / 10 == 0 then [] else DecimalNat(w / 10)) + Reversed(after)
  {
    hide DecimalNat, Reversed;
    LastDigit(w);
    ReversedMore(before, ZERO + (w % 10) as byte);
  }

  /** Writes the digits of v backwards. */
  method WriteDigits(s: array<byte>, v: nat) returns (p: nat)
    requires s.Length == LLSTR_SIZE && v < 0x1_0000_0000_0000_0000
    modifies s
    ensures 1 <= p <= 20 && Reversed(s[..p]) == DecimalNat(v)
  {
    hide DecimalNat, Reversed;
    U64Digits(v);
    LastDigit(v);
    var w := v / 10;
    s[0] := ZERO + (v % 10) as byte;
    p := 1;
    ReversedOne(s[..1]);
    while w != 0
      invariant 1 <= p <= |DecimalNat(v)| <= 20 && w >= 0
      invariant DecimalNat(v) == (if w == 0 then [] else DecimalNat(w)) + Reversed(s[..p])
      decreases w
    {
      ghost var before := s[..p];
      s[p] := ZERO + (w % 10) as byte;
      assert s[..p + 1] == before + [s[p]];
      DigitStep(w, before, s[..p + 1]);
      w := w / 10;
      p := p + 1;
    }
  }

  /** Prints a signed 64-bit number; the result is terminated by a zero byte. */
  method Ll2Str(s: array<byte>, value: int) returns (l: nat)
    requires s.Length == LLSTR_SIZE && -0x8000_0000_0000_0000 <= value < 0x8000_0000_0000_0000
    modifies s
    ensures l < LLSTR_SIZE && s[..l] == Decimal(value) && s[l] == 0
  {
    var v := if value < 0 then -value else value;
    DigitsBoundSigned(v);
    l := WriteDigits(s, v);
    assert |s[..l]| == |DecimalNat(v)|;
    if value < 0 {
      ghost var before := s[..l];
      s[l] := MINUS;
      l := l + 1;
      assert s[..l] == before + [MINUS];
      assert Reversed(s[..l]) == [MINUS] + Reversed(before);
    }
    assert Reversed(s[..l]) == Decimal(value);
    s[l] := 0;
    ReversePrefix(s, l);
    assert s[l] == s[l..][0];
  }

  lemma DigitsBoundSigned(n: nat)
    requires n <= 0x8000_0000_0000_0000
    ensures |DecimalNat(n)| <= 19
  {
    assert Pow10(5) == 100000;
    assert Pow10(10) == 100000 * Pow10(5);
    assert Pow10(15) == 100000 * Pow10(10);
    assert Pow10(19) == 10000 * Pow10(15);
    DigitsBound(n, 19);
  }

  /** Prints an unsigned 64-bit number; the result is terminated by a zero byte. */
  method Ull2Str(s: array<byte>, v: nat) returns (l: nat)
    requires s.Length == LLSTR_SIZE && v < 0x1_0000_0000_0000_0000
    modifies s
    ensures l < LLSTR_SIZE && s[..l] == DecimalNat(v) && s[l] == 0
  {
    l := WriteDigits(s, v);
    s[l] := 0;
    ReversePrefix(s, l);
    assert s[l] == s[l..][0];
  }

  // ------------------------------------------------------------------ the formatters

  /** The reply a command looks like to a reader: an array of bulk strings. */
  function BulkReplies(argv: seq<seq<byte>>): (r: seq<Reply>)
    ensures |r| == |argv| && forall i :: 0 <= i < |r| ==> r[i] == Text(String, argv[i])
  {
    seq(|argv|, i requires 0 <= i < |argv| => Text(String, argv[i]))
  }

  function Command(argv: seq<seq<byte>>): Reply {
    Array(|argv|, BulkReplies(argv))
  }

  /** The bytes of each argument on the wire: a dollar, its length, CR LF, itself, CR LF. */
  function Bulks(argv: seq<seq<byte>>): seq<byte> {
    if argv == [] then [] else [36] + DecimalNat(|argv[0]|) + [13, 10] + argv[0] + [13, 10] + Bulks(argv[1..])
  }

  /** The bytes of a command on the wire: a star, the number of arguments, CR LF, and the arguments. */
  function Wire(argv: seq<seq<byte>>): seq<byte> {
    [42] + DecimalNat(|argv|) + [13, 10] + Bulks(argv)
  }

  lemma {:induction false} EncodeIsBulks(argv: seq<seq<byte>>)
    ensures EncodeAll(BulkReplies(argv)) == Bulks(argv)
  {
    hide DecimalNat;
    if argv != [] {
      EncodeIsBulks(argv[1..]);
      assert BulkReplies(argv)[1..] == BulkReplies(argv[1..]);
    }
  }

  /** The encoding of a command is what goes over the wire. */
  lemma EncodeIsWire(argv: seq<seq<byte>>)
    ensures Encode(Command(argv)) == Wire(argv)
  {
    hide DecimalNat, EncodeAll, Bulks;
    EncodeIsBulks(argv);
  }

  lemma {:induction false} EncodeSnoc(ts: seq<Reply>, t: Reply)
    ensures EncodeAll(ts + [t]) == EncodeAll(ts) + Encode(t)
  {
    if ts == [] {
      assert ts + [t] == [t];
      assert [t][1..] == [];
    } else {
      assert (ts + [t])[1..] == ts[1..] + [t];
      EncodeSnoc(ts[1..], t);
    }
  }

  /** The encoding of the first j arguments, header included. */
  function EncodePrefix(argv: seq<seq<byte>>, j: nat): seq<byte>
    requires j <= |argv|
  {
    [STAR] + Decimal(|argv|) + CRLF + EncodeAll(BulkReplies(argv)[..j])
  }

  lemma PrefixStep(argv: seq<seq<byte>>, j: nat)
    requires j < |argv|
    ensures EncodePrefix(argv, j + 1) == EncodePrefix(argv, j) + ([DOLLAR] + DecimalNat(|argv[j]|) + CRLF) + argv[j] + CRLF
  {
    hide DecimalNat, EncodeAll;
    var ts := BulkReplies(argv);
    assert ts[..j + 1] == ts[..j] + [ts[j]];
    EncodeSnoc(ts[..j], ts[j]);
  }

  lemma PrefixEnds(argv: seq<seq<byte>>)
    ensures EncodePrefix(argv, 0) == [STAR] + Decimal(|argv|) + CRLF
    ensures EncodePrefix(argv, |argv|) == Encode(Command(argv))
  {
    var ts := BulkReplies(argv);
    assert ts[..|argv|] == ts;
    assert EncodeAll(ts[..0]) == [];
  }

  /** The size both formatters reserve. */
  method PredictLength(argv: seq<seq<byte>>) returns (totlen: nat)
    ensures totlen == |Encode(Command(argv))|
  {
    var digits := CountDigits(|argv|);
    totlen := 1 + digits + 2;
    PrefixEnds(argv);
    for j := 0 to |argv|
      invariant totlen == |EncodePrefix(argv, j)|
    {
      var n := BulkLen(|argv[j]|);
      assert n == |Encode(Text(String, argv[j]))|;
      PrefixStep(argv, j);
      totlen := totlen + n;
    }
  }

  /** Copies bytes into the buffer at pos. */
  method Put(cmd: array<byte>, pos: nat, bytes: seq<byte>) returns (next: nat)
    requires pos + |bytes| <= cmd.Length
    modifies cmd
    ensures next == pos + |bytes|
    ensures cmd[..next] == old(cmd[..pos]) + bytes
  {
    for i := 0 to |bytes|
      invariant cmd[..pos + i] == old(cmd[..pos]) + bytes[..i]
    {
      cmd[pos + i] := bytes[i];
      assert cmd[..pos + i + 1] == cmd[..pos + i] + [bytes[i]];
    }
    next := pos + |bytes|;
    assert bytes[..|bytes|] == bytes;
  }

  /** Writes one bulk string: its length, its bytes and a line end. */
  method PutBulk(cmd: array<byte>, pos: nat, arg: seq<byte>) returns (next: nat)
    requires pos + |[DOLLAR] + DecimalNat(|arg|) + CRLF| + |arg| + 2 <= cmd.Length
    modifies cmd
    ensures next == pos + |[DOLLAR] + DecimalNat(|arg|) + CRLF| + |arg| + 2
    ensures cmd[..next] == old(cmd[..pos]) + ([DOLLAR] + DecimalNat(|arg|) + CRLF) + arg + CRLF
  {
    next := Put(cmd, pos, [DOLLAR] + DecimalNat(|arg|) + CRLF);
    next := Put(cmd, next, arg);
    cmd[next] := CR;
    cmd[next + 1] := LF;
    next := next + 2;
    assert cmd[..next] == cmd[..next - 2] + CRLF;
  }

  /** Writes the command into a buffer of exactly the predicted size plus a terminator. */
  method FormatCommandArgv(argv: seq<seq<byte>>) returns (cmd: array<byte>, totlen: nat)
    ensures fresh(cmd) && cmd.Length == totlen + 1
    ensures cmd[..totlen] == Encode(Command(argv)) == Wire(argv) && cmd[totlen] == 0
  {
    EncodeIsWire(argv);
    hide Wire;
    totlen := PredictLength(argv);
    cmd := new byte[totlen + 1](_ => 0);
    PrefixEnds(argv);
    PrefixFits(argv, 0);
    var pos: nat := Put(cmd, 0, [STAR] + Decimal(|argv|) + CRLF);
    assert cmd[..pos] == EncodePrefix(argv, 0);
    for j := 0 to |argv|
      invariant pos <= totlen && cmd[..pos] == EncodePrefix(argv, j)
    {
      PrefixStep(argv, j);
      PrefixFits(argv, j + 1);
      pos := PutBulk(cmd, pos, argv[j]);
    }
    assert pos == totlen;
    cmd[pos] := 0;
  }

  lemma {:induction false} PrefixFits(argv: seq<seq<byte>>, j: nat)
    requires j <= |argv|
    ensures |EncodePrefix(argv, j)| <= |Encode(Command(argv))|
    decreases |argv| - j
  {
    PrefixEnds(argv);
    if j < |argv| {
      PrefixStep(argv, j);
      PrefixFits(argv, j + 1);
    }
  }

  /** Builds the command by appending to a growing string; the bytes are the same. */
  method FormatSdsCommandArgv(argv: seq<seq<byte>>) returns (cmd: seq<byte>, totlen: nat)
    requires |argv| < 0x8000_0000 && forall j :: 0 <= j < |argv| ==> |argv[j]| < 0x1_0000_0000_0000_0000
    ensures cmd == Encode(Command(argv)) == Wire(argv) && totlen == |cmd|
  {
    EncodeIsWire(argv);
    hide Wire;
    totlen := PredictLength(argv);
    PrefixEnds(argv);
    var digits := new byte[LLSTR_SIZE];
    var l := Ll2Str(digits, |argv|);
    cmd := [STAR] + digits[..l] + CRLF;
    for j := 0 to |argv|
      invariant cmd == EncodePrefix(argv, j)
    {
      PrefixStep(argv, j);
      l := Ull2Str(digits, |argv[j]|);
      cmd := cmd + ([DOLLAR] + digits[..l] + CRLF);
      cmd := cmd + argv[j];
      cmd := cmd + CRLF;
    }
  }

  /** Every command reads back as the array of its arguments and nothing more is consumed. */
  lemma CommandRoundTrip(argv: seq<seq<byte>>, rest: seq<byte>)
    ensures ReadReply(IDLE, Encode(Command(argv)) + rest) == Done(Command(argv), rest)
  {
    RoundTrip(Command(argv), rest);
  }
}
