/** Quoting of byte strings and the argument splitter that reads them back. */
module SdsQuote {
  import opened Bytes

  const QUOTE: byte := 34
  const APOSTROPHE: byte := 39
  const BACKSLASH: byte := 92
  const SPACE: byte := 32
  const NEWLINE: byte := 10
  const RETURN: byte := 13
  const TAB: byte := 9
  const BELL: byte := 7
  const BACKSPACE: byte := 8
  const LOWER_X: byte := 120

  predicate IsPrint(b: byte) {
    32 <= b <= 126
  }

  predicate IsSpace(b: byte) {
    b == SPACE || 9 <= b <= 13
  }

  predicate IsHexDigit(b: byte) {
    48 <= b <= 57 || 97 <= b <= 102 || 65 <= b <= 70
  }

  function HexValue(b: byte): int {
    if 48 <= b <= 57 then (b - 48) as int
    else if 97 <= b <= 102 then (b - 87) as int
    else if 65 <= b <= 70 then (b - 55) as int
    else 0
  }

  function HexDigit(n: int): byte
    requires 0 <= n < 16
  {
    if n < 10 then 48 + n as byte else 87 + n as byte
  }

  // ------------------------------------------------------------------ quoting

  /** The letter that stands for a control character after a backslash. */
  function EscapeLetter(b: byte): Option<byte> {
    if b == NEWLINE then Some(110)
    else if b == RETURN then Some(114)
    else if b == TAB then Some(116)
    else if b == BELL then Some(97)
    else if b == BACKSPACE then Some(98)
    else None
  }

  function EscapeByte(b: byte): (r: seq<byte>)
    ensures |r| >= 1
  {
    if b == BACKSLASH || b == QUOTE then [BACKSLASH, b]
    else if EscapeLetter(b).Some? then [BACKSLASH, EscapeLetter(b).value]
    else if IsPrint(b) then [b]
    else [BACKSLASH, LOWER_X, HexDigit(b as int / 16), HexDigit(b as int % 16)]
  }

  function Escape(s: seq<byte>): seq<byte> {
    if s == [] then [] else EscapeByte(s[0]) + Escape(s[1..])
  }

  function Quoted(s: seq<byte>): seq<byte> {
    [QUOTE] + Escape(s) + [QUOTE]
  }

  /** Appends the escape of one byte to s. */
  method CatByte(s: seq<byte>, b: byte) returns (r: seq<byte>)
    ensures r == s + EscapeByte(b)
  {
    if b == BACKSLASH || b == QUOTE {
      r := s + [BACKSLASH, b];
    } else if b == NEWLINE {
      r := s + [BACKSLASH, 110];
    } else if b == RETURN {
      r := s + [BACKSLASH, 114];
    } else if b == TAB {
      r := s + [BACKSLASH, 116];
    } else if b == BELL {
      r := s + [BACKSLASH, 97];
    } else if b == BACKSPACE {
      r := s + [BACKSLASH, 98];
    } else if IsPrint(b) {
      r := s + [b];
    } else {
      r := s + [BACKSLASH, LOWER_X, HexDigit(b as int / 16), HexDigit(b as int % 16)];
    }
  }

  lemma {:induction false} EscapeSnoc(s: seq<byte>, b: byte)
    ensures Escape(s + [b]) == Escape(s) + EscapeByte(b)
  {
    if s == [] {
      assert s + [b] == [b] && [b][1..] == [];
    } else {
      assert (s + [b])[1..] == s[1..] + [b];
      EscapeSnoc(s[1..], b);
    }
  }

  /** Appends the quoted form of p to s. */
  method CatRepr(s: seq<byte>, p: seq<byte>) returns (r: seq<byte>)
    ensures r == s + Quoted(p)
  {
    hide EscapeByte;
    r := s + [QUOTE];
    var i := 0;
    while i < |p|
      invariant 0 <= i <= |p|
      invariant r == s + [QUOTE] + Escape(p[..i])
    {
      assert p[..i + 1] == p[..i] + [p[i]];
      EscapeSnoc(p[..i], p[i]);
      r := CatByte(r, p[i]);
      i := i + 1;
    }
    assert p[..i] == p;
    r := r + [QUOTE];
  }

  /** A printable byte but the quote and the backslash stays as it is; those two and five control characters are
      written with a letter, every other byte with two lower-case hex digits. */
  lemma EscapeForms(b: byte)
    ensures var e := EscapeByte(b);
      && (32 <= b <= 126 && b != 34 && b != 92 <==> e == [b])
      && (b == 34 || b == 92 || 7 <= b <= 10 || b == 13 <==> |e| == 2)
      && (|e| > 1 ==> e[0] == 92)
      && (|e| != 1 && |e| != 2 ==>
            |e| == 4 && e[1] == 120 && forall i :: 2 <= i < 4 ==> 48 <= e[i] <= 57 || 97 <= e[i] <= 102)
  {
  }

  /** A quoted form holds printable characters only. */
  lemma {:induction false} QuotedIsPrintable(s: seq<byte>)
    ensures forall i :: 0 <= i < |Escape(s)| ==> 32 <= Escape(s)[i] <= 126
    ensures forall i :: 0 <= i < |Quoted(s)| ==> 32 <= Quoted(s)[i] <= 126
  {
    if s != [] {
      QuotedIsPrintable(s[1..]);
      var e := EscapeByte(s[0]);
      EscapeForms(s[0]);
      assert forall i :: 0 <= i < |e| ==> 32 <= e[i] <= 126;
    }
  }

  // ------------------------------------------------------------------ splitting

  datatype Mode = Plain | InDouble | InSingle

  datatype TokenResult = Unbalanced | Token(text: seq<byte>, rest: seq<byte>)

  /** A byte of a zero-terminated line. */
  function At(line: seq<byte>, i: nat): byte {
    if i < |line| then line[i] else 0
  }

  /** What a backslash in double quotes stands for, and how many bytes it takes up. */
  function Unescape(line: seq<byte>): (byte, nat)
    requires At(line, 0) == BACKSLASH && At(line, 1) != 0
  {
    if line[1] == LOWER_X && IsHexDigit(At(line, 2)) && IsHexDigit(At(line, 3)) then
      ((HexValue(line[2]) * 16 + HexValue(line[3])) as byte, 4)
    else
      (match EscapedBy(line[1]) case Some(c) => c case None => line[1], 2)
  }

  function EscapedBy(letter: byte): Option<byte> {
    if letter == 110 then Some(NEWLINE)
    else if letter == 114 then Some(RETURN)
    else if letter == 116 then Some(TAB)
    else if letter == 98 then Some(BACKSPACE)
    else if letter == 97 then Some(BELL)
    else None
  }

  /** Whether a closing quote may stand here: before a space or the end of the line. */
  predicate MayClose(line: seq<byte>) {
    At(line, 1) == 0 || IsSpace(At(line, 1))
  }

  /** One token from here on. */
  function ReadToken(line: seq<byte>, mode: Mode, cur: seq<byte>): TokenResult
    decreases |line|
  {
    var c := At(line, 0);
    match mode
    case InDouble =>
      if c == BACKSLASH && At(line, 1) != 0 then
        var (b, used) := Unescape(line);
        ReadToken(line[used..], InDouble, cur + [b])
      else if c == QUOTE then
        if MayClose(line) then Token(cur, line[1..]) else Unbalanced
      else if c == 0 then Unbalanced
      else ReadToken(line[1..], InDouble, cur + [c])
    case InSingle =>
      if c == BACKSLASH && At(line, 1) == APOSTROPHE then ReadToken(line[2..], InSingle, cur + [APOSTROPHE])
      else if c == APOSTROPHE then
        if MayClose(line) then Token(cur, line[1..]) else Unbalanced
      else if c == 0 then Unbalanced
      else ReadToken(line[1..], InSingle, cur + [c])
    case Plain =>
      if c == 0 then Token(cur, line)
      else if c == SPACE || c == NEWLINE || c == RETURN || c == TAB then Token(cur, line[1..])
      else if c == QUOTE then ReadToken(line[1..], InDouble, cur)
      else if c == APOSTROPHE then ReadToken(line[1..], InSingle, cur)
      else ReadToken(line[1..], Plain, cur + [c])
  }

  function SkipBlanks(line: seq<byte>): (r: seq<byte>)
    ensures |r| <= |line|
    ensures At(r, 0) == 0 || !IsSpace(At(r, 0))
  {
    if At(line, 0) != 0 && IsSpace(At(line, 0)) then SkipBlanks(line[1..]) else line
  }

  lemma {:induction false} TokenProgress(line: seq<byte>, mode: Mode, cur: seq<byte>)
    ensures var r := ReadToken(line, mode, cur); r.Token? ==> |r.rest| <= |line|
    ensures At(line, 0) != 0 ==> var r := ReadToken(line, mode, cur); r.Token? ==> |r.rest| < |line|
    decreases |line|
  {
    var c := At(line, 0);
    if c != 0 {
      if mode == InDouble && c == BACKSLASH && At(line, 1) != 0 {
        var (b, used) := Unescape(line);
        TokenProgress(line[used..], mode, cur + [b]);
      } else if mode == InSingle && c == BACKSLASH && At(line, 1) == APOSTROPHE {
        TokenProgress(line[2..], mode, cur + [APOSTROPHE]);
      } else {
        TokenProgress(line[1..], mode, cur + [c]);
        TokenProgress(line[1..], InDouble, cur);
        TokenProgress(line[1..], InSingle, cur);
      }
    }
  }

  /** All arguments of a line, or None when its quotes are unbalanced. */
  function Arguments(line: seq<byte>): Option<seq<seq<byte>>>
    decreases |line|
  {
    var l := SkipBlanks(line);
    if At(l, 0) == 0 then Some([])
    else match ReadToken(l, Plain, [])
      case Unbalanced => None
      case Token(text, rest) =>
        TokenProgress(l, Plain, []);
        match Arguments(rest)
        case None => None
        case Some(more) => Some([text] + more)
  }

  /** The scanning loop over one token; rest is where the scan goes on after it. */
  method ScanToken(line: seq<byte>) returns (r: TokenResult)
    ensures r == ReadToken(line, Plain, [])
  {
    var p := line;
    var mode, done, current := Plain, false, [];
    while !done
      invariant ReadToken(line, Plain, []) == if done then Token(current, p) else ReadToken(p, mode, current)
      decreases |p|, !done
    {
      var c := At(p, 0);
      var step := 1;
      match mode {
        case InDouble =>
          if c == BACKSLASH && At(p, 1) == LOWER_X && IsHexDigit(At(p, 2)) && IsHexDigit(At(p, 3)) {
            current := current + [(HexValue(p[2]) * 16 + HexValue(p[3])) as byte];
            step := 4;
          } else if c == BACKSLASH && At(p, 1) != 0 {
            var letter := p[1];
            var b := if letter == 110 then NEWLINE
                     else if letter == 114 then RETURN
                     else if letter == 116 then TAB
                     else if letter == 98 then BACKSPACE
                     else if letter == 97 then BELL
                     else letter;
            current := current + [b];
            step := 2;
          } else if c == QUOTE {
            if At(p, 1) != 0 && !IsSpace(At(p, 1)) { return Unbalanced; }
            done := true;
          } else if c == 0 {
            return Unbalanced;
          } else {
            current := current + [c];
          }
        case InSingle =>
          if c == BACKSLASH && At(p, 1) == APOSTROPHE {
            current := current + [APOSTROPHE];
            step := 2;
          } else if c == APOSTROPHE {
            if At(p, 1) != 0 && !IsSpace(At(p, 1)) { return Unbalanced; }
            done := true;
          } else if c == 0 {
            return Unbalanced;
          } else {
            current := current + [c];
          }
        case Plain =>
          if c == SPACE || c == NEWLINE || c == RETURN || c == TAB || c == 0 {
            done := true;
          } else if c == QUOTE {
            mode := InDouble;
          } else if c == APOSTROPHE {
            mode := InSingle;
          } else {
            current := current + [c];
          }
      }
      if c != 0 {
        p := p[step..];
      }
    }
    return Token(current, p);
  }

  /** The loop over the blanks before a token. */
  method SkipSpaces(line: seq<byte>) returns (p: seq<byte>)
    ensures p == SkipBlanks(line)
  {
    p := line;
    while At(p, 0) != 0 && IsSpace(At(p, 0))
      invariant SkipBlanks(p) == SkipBlanks(line)
      decreases |p|
    {
      p := p[1..];
    }
  }

  lemma OneArgument(line: seq<byte>)
    ensures var p := SkipBlanks(line);
      if At(p, 0) == 0 then Arguments(line) == Some([])
      else
        var token := ReadToken(p, Plain, []);
        if token == Unbalanced then Arguments(line) == None
        else
          && |token.rest| < |line|
          && var rest := Arguments(token.rest);
             Arguments(line) == if rest.None? then None else Some([token.text] + rest.value)
  {
    hide ReadToken;
    TokenProgress(SkipBlanks(line), Plain, []);
  }

  /** The loop over the tokens of the line. */
  method SplitArgs(line: seq<byte>) returns (vector: Option<seq<seq<byte>>>)
    ensures vector == Arguments(line)
  {
    hide ReadToken, Arguments, SkipBlanks;
    var p := line;
    var args: seq<seq<byte>> := [];
    while true
      invariant Arguments(line).None? == Arguments(p).None?
      invariant Arguments(p).Some? ==> Arguments(line).value == args + Arguments(p).value
      decreases |p|
    {
      OneArgument(p);
      p := SkipSpaces(p);
      if At(p, 0) == 0 {
        assert args + [] == args;
        return Some(args);
      }
      var token := ScanToken(p);
      if token == Unbalanced {
        return None;
      }
      ghost var before := args;
      args := args + [token.text];
      p := token.rest;
      assert Arguments(p).Some? ==> args + Arguments(p).value == before + ([token.text] + Arguments(p).value);
    }
  }

  // ------------------------------------------------------------------ the round trip

  /** Reading back one escaped byte. */
  lemma UnescapeByte(b: byte, rest: seq<byte>, cur: seq<byte>)
    ensures ReadToken(EscapeByte(b) + rest, InDouble, cur) == ReadToken(rest, InDouble, cur + [b])
  {
    var e := EscapeByte(b);
    var line := e + rest;
    assert line[|e|..] == rest;
    assert forall i :: 0 <= i < |e| ==> line[i] == e[i];
    if e[0] == BACKSLASH {
      assert At(line, 1) == e[1] != 0;
      if |e| == 4 {
        HexRoundTrip(b);
      }
      assert Unescape(line) == (b, |e|);
    }
  }

  lemma HexRoundTrip(b: byte)
    ensures var h, l := HexDigit(b as int / 16), HexDigit(b as int % 16);
      IsHexDigit(h) && IsHexDigit(l) && HexValue(h) * 16 + HexValue(l) == b as int
  {
  }

  /** A closing quote ends the token. */
  lemma ReadClosing(tail: seq<byte>, cur: seq<byte>)
    requires At(tail, 0) == 0 || IsSpace(At(tail, 0))
    ensures ReadToken([QUOTE] + tail, InDouble, cur) == Token(cur, tail)
  {
    var line := [QUOTE] + tail;
    assert line[0] == QUOTE && line[1..] == tail;
    assert At(line, 1) == At(tail, 0);
  }

  lemma {:induction false} ReadEscaped(s: seq<byte>, tail: seq<byte>, cur: seq<byte>)
    requires At(tail, 0) == 0 || IsSpace(At(tail, 0))
    ensures ReadToken(Escape(s) + [QUOTE] + tail, InDouble, cur) == Token(cur + s, tail)
    decreases |s|
  {
    hide EscapeByte, ReadToken, At;
    if s == [] {
      assert Escape(s) + [QUOTE] + tail == [QUOTE] + tail && cur + s == cur;
      ReadClosing(tail, cur);
    } else {
      var rest := Escape(s[1..]) + [QUOTE] + tail;
      assert Escape(s) + [QUOTE] + tail == EscapeByte(s[0]) + rest;
      UnescapeByte(s[0], rest, cur);
      ReadEscaped(s[1..], tail, cur + [s[0]]);
      assert cur + [s[0]] + s[1..] == cur + s;
    }
  }

  /** Vertical tab and form feed are skipped before a token, but belong to an unquoted token they occur in. */
  lemma OtherBlanks(b: byte, line: seq<byte>, cur: seq<byte>)
    requires IsSpace(b) && b !in [SPACE, NEWLINE, RETURN, TAB]
    ensures SkipBlanks([b] + line) == SkipBlanks(line)
    ensures ReadToken([b] + line, Plain, cur) == ReadToken(line, Plain, cur + [b])
  {
    assert ([b] + line)[0] == b && ([b] + line)[1..] == line;
  }

  /** The quoted forms joined by single spaces. */
  function QuotedLine(args: seq<seq<byte>>): seq<byte> {
    if args == [] then []
    else if |args| == 1 then Quoted(args[0])
    else Quoted(args[0]) + [SPACE] + QuotedLine(args[1..])
  }

  lemma ReadQuoted(s: seq<byte>, tail: seq<byte>)
    requires At(tail, 0) == 0 || IsSpace(At(tail, 0))
    ensures ReadToken(Quoted(s) + tail, Plain, []) == Token(s, tail)
  {
    var line := Quoted(s) + tail;
    assert line[0] == QUOTE && line[1..] == Escape(s) + [QUOTE] + tail;
    ReadEscaped(s, tail, []);
    assert [] + s == s;
  }

  lemma QuotedFirst(s: seq<byte>, tail: seq<byte>)
    requires At(tail, 0) == 0 || IsSpace(At(tail, 0))
    requires Arguments(tail).Some?
    ensures Arguments(Quoted(s) + tail) == Some([s] + Arguments(tail).value)
  {
    hide ReadToken, Quoted, Arguments, SkipBlanks;
    QuoteIsFirst(s, tail);
    OneArgument(Quoted(s) + tail);
    ReadQuoted(s, tail);
  }

  lemma QuoteIsFirst(s: seq<byte>, tail: seq<byte>)
    ensures var line := Quoted(s) + tail; SkipBlanks(line) == line && At(line, 0) != 0
  {
    hide Escape;
    assert (Quoted(s) + tail)[0] == QUOTE;
  }

  /** What follows the first quoted form. */
  function AfterFirst(args: seq<seq<byte>>): seq<byte>
    requires args != []
  {
    if |args| == 1 then [] else [SPACE] + QuotedLine(args[1..])
  }

  lemma FirstOfLine(args: seq<seq<byte>>)
    requires args != []
    ensures QuotedLine(args) == Quoted(args[0]) + AfterFirst(args)
  {
    hide Quoted;
    assert Quoted(args[0]) + [] == Quoted(args[0]);
  }

  lemma AfterFirstSplits(args: seq<seq<byte>>)
    requires args != []
    ensures Arguments(AfterFirst(args)) == Arguments(QuotedLine(args[1..]))
    ensures At(AfterFirst(args), 0) == 0 || IsSpace(At(AfterFirst(args), 0))
  {
    hide Arguments, Quoted;
    if |args| == 1 {
      NoArguments();
    } else {
      BlankFirst(QuotedLine(args[1..]));
    }
  }

  /** Splitting undoes quoting, for every list of byte strings. */
  lemma {:induction false} QuoteRoundTrip(args: seq<seq<byte>>)
    ensures Arguments(QuotedLine(args)) == Some(args)
    decreases |args|
  {
    hide Quoted, Arguments, At, AfterFirst, IsSpace;
    if args == [] {
      NoArguments();
    } else {
      QuoteRoundTrip(args[1..]);
      FirstOfLine(args);
      AfterFirstSplits(args);
      QuotedFirst(args[0], AfterFirst(args));
      assert [args[0]] + args[1..] == args;
    }
  }

  lemma NoArguments()
    ensures Arguments([]) == Some([]) && At([], 0) == 0
  {
  }

  lemma BlankFirst(line: seq<byte>)
    ensures Arguments([SPACE] + line) == Arguments(line) && IsSpace(At([SPACE] + line, 0))
  {
    hide ReadToken;
    assert ([SPACE] + line)[1..] == line;
    assert SkipBlanks([SPACE] + line) == SkipBlanks(line);
  }
}
