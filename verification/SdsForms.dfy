/** The grammar of the lines that the argument splitter accepts, and what each argument in them stands for. */
module SdsForms {
  import opened Bytes
  import opened SdsQuote

  // ------------------------------------------------------------------ inside quotes

  /** A hexadecimal digit of either case. */
  datatype Hex = Hex(value: nat, upper: bool) {
    predicate Good() {
      value < 16
    }

    function Char(): (r: byte)
      requires Good()
    {
      if value < 10 then 48 + value as byte else if upper then 55 + value as byte else 87 + value as byte
    }
  }

  /** What can stand between quotes: a byte, a backslash and a byte, or a backslash, an x and two hex digits. */
  datatype Item = Itself(b: byte) | Escaped(b: byte) | Coded(h: Hex, l: Hex) {
    predicate Good() {
      Coded? ==> h.Good() && l.Good()
    }

    function Written(): (r: seq<byte>)
      requires Good()
      ensures |r| > 0
    {
      match this
      case Itself(b) => [b]
      case Escaped(b) => [92, b]
      case Coded(h, l) => [92, 120, h.Char(), l.Char()]
    }

    /** The byte it stands for. */
    function Meaning(): byte
      requires Good()
    {
      match this
      case Itself(b) => b
      case Escaped(b) =>
        if b == 110 then 10 else if b == 114 then 13 else if b == 116 then 9
        else if b == 98 then 8 else if b == 97 then 7 else b
      case Coded(h, l) => (16 * h.value + l.value) as byte
    }

    /** It can stand before next inside quotes of this kind: 34 is the double and 39 the single quote. */
    predicate Fits(quote: byte, next: seq<byte>) {
      && Good()
      && if quote == 34 then
           match this
           case Itself(b) => b != 0 && b != 34 && b != 92
           case Escaped(b) => b != 0 && (b == 120 ==> !(|next| >= 2 && IsHexDigit(next[0]) && IsHexDigit(next[1])))
           case Coded(_, _) => true
         else
           match this
           case Itself(b) => b != 0 && b != 39 && (b == 92 ==> next == [] || next[0] != 39)
           case Escaped(b) => b == 39
           case Coded(_, _) => false
    }
  }

  predicate AllGood(items: seq<Item>) {
    forall i :: 0 <= i < |items| ==> items[i].Good()
  }

  function Body(items: seq<Item>): seq<byte>
    requires AllGood(items)
  {
    if items == [] then [] else items[0].Written() + Body(items[1..])
  }

  function Meanings(items: seq<Item>): (r: seq<byte>)
    requires AllGood(items)
    ensures |r| == |items| && forall i :: 0 <= i < |r| ==> r[i] == items[i].Meaning()
  {
    seq(|items|, i requires 0 <= i < |items| => items[i].Meaning())
  }

  /** The items can stand one after the other before next. */
  predicate FitIn(items: seq<Item>, quote: byte, next: seq<byte>) {
    && AllGood(items)
    && (items != [] ==> items[0].Fits(quote, Body(items[1..]) + next) && FitIn(items[1..], quote, next))
  }

  function ModeOf(quote: byte): Mode {
    if quote == 34 then InDouble else InSingle
  }

  lemma ReadOneItem(x: Item, quote: byte, next: seq<byte>, cur: seq<byte>)
    requires (quote == 34 || quote == 39) && x.Fits(quote, next)
    ensures ReadToken(x.Written() + next, ModeOf(quote), cur) == ReadToken(next, ModeOf(quote), cur + [x.Meaning()])
  {
    var w := x.Written();
    var line := w + next;
    assert line[|w|..] == next;
    assert forall i :: 0 <= i < |w| ==> line[i] == w[i];
    assert |w| < |line| ==> next != [] && line[|w|] == next[0];
    if x.Coded? {
      HexChar(x.h);
      HexChar(x.l);
      assert Unescape(line) == (x.Meaning(), 4);
    } else if x.Escaped? && quote == 34 {
      assert At(line, 1) == x.b;
      assert |line| > 3 ==> line[2] == next[0] && line[3] == next[1];
      assert Unescape(line) == (x.Meaning(), 2);
    }
  }

  lemma HexChar(h: Hex)
    requires h.Good()
    ensures IsHexDigit(h.Char()) && HexValue(h.Char()) == h.value
  {
  }

  /** Items are read one by one, each as the byte it stands for. */
  lemma {:induction false} ReadBody(items: seq<Item>, quote: byte, next: seq<byte>, cur: seq<byte>)
    requires (quote == 34 || quote == 39) && FitIn(items, quote, next)
    ensures ReadToken(Body(items) + next, ModeOf(quote), cur) == ReadToken(next, ModeOf(quote), cur + Meanings(items))
    decreases |items|
  {
    hide ReadToken, ModeOf;
    if items == [] {
      assert Body(items) + next == next && cur + Meanings(items) == cur;
    } else {
      var rest := Body(items[1..]) + next;
      assert Body(items) + next == items[0].Written() + rest;
      ReadOneItem(items[0], quote, rest, cur);
      ReadBody(items[1..], quote, next, cur + [items[0].Meaning()]);
      assert cur + [items[0].Meaning()] + Meanings(items[1..]) == cur + Meanings(items);
    }
  }

  /** The line ends here; it ends at a zero byte in any case. */
  predicate AtEnd(line: seq<byte>) {
    line == [] || line[0] == 0
  }

  predicate IsBlank(b: byte) {
    b == 32 || 9 <= b <= 13
  }

  predicate Closes(tail: seq<byte>) {
    AtEnd(tail) || IsBlank(tail[0])
  }

  /** The quotes are not closed before the end of the line. */
  predicate Unclosed(quote: byte, next: seq<byte>) {
    AtEnd(next) || (quote == 34 && next[0] == 92 && AtEnd(next[1..]))
  }

  lemma ReadClosingQuote(quote: byte, tail: seq<byte>, cur: seq<byte>)
    requires quote == 34 || quote == 39
    ensures ReadToken([quote] + tail, ModeOf(quote), cur) == if Closes(tail) then Token(cur, tail) else Unbalanced
  {
    var line := [quote] + tail;
    assert line[1..] == tail;
    assert At(line, 1) == At(tail, 0);
  }

  lemma ReadUnclosed(quote: byte, next: seq<byte>, cur: seq<byte>)
    requires (quote == 34 || quote == 39) && Unclosed(quote, next)
    ensures ReadToken(next, ModeOf(quote), cur) == Unbalanced
  {
    if !AtEnd(next) {
      assert At(next, 1) == At(next[1..], 0) == 0;
    }
  }

  /** Whatever follows an opening quote is a row of items and then the closing quote or the end of the line. */
  lemma {:induction false} EveryBody(line: seq<byte>, quote: byte) returns (items: seq<Item>, next: seq<byte>)
    requires quote == 34 || quote == 39
    ensures FitIn(items, quote, next) && line == Body(items) + next
    ensures Unclosed(quote, next) || next[0] == quote
    decreases |line|
  {
    hide Item.Fits, Item.Written, Unclosed;
    items, next := [], line;
    NotAtEnd(quote, line);
    if !Unclosed(quote, line) && line[0] != quote {
      var x := FirstItem(line, quote);
      var n := |x.Written()|;
      var more;
      more, next := EveryBody(line[n..], quote);
      items := [x] + more;
      assert items[1..] == more;
      assert line == x.Written() + line[n..];
    }
  }

  lemma NotAtEnd(quote: byte, line: seq<byte>)
    ensures !Unclosed(quote, line) ==> line != []
  {
  }

  lemma FirstItem(line: seq<byte>, quote: byte) returns (x: Item)
    requires quote == 34 || quote == 39
    requires !Unclosed(quote, line) && line[0] != quote
    ensures x.Good() && |x.Written()| <= |line| && x.Written() == line[..|x.Written()|]
    ensures x.Fits(quote, line[|x.Written()|..])
  {
    if line[0] != 92 {
      x := Itself(line[0]);
    } else if quote == 39 {
      x := if |line| > 1 && line[1] == 39 then Escaped(39) else Itself(92);
      if |line| > 1 { assert line[1..][0] == line[1]; }
    } else {
      assert line[1..][0] == line[1];
      if |line| > 3 && line[1] == 120 && IsHexDigit(line[2]) && IsHexDigit(line[3]) {
        x := Coded(Hex(HexValue(line[2]), line[2] < 97), Hex(HexValue(line[3]), line[3] < 97));
        assert line[..4] == [line[0], line[1], line[2], line[3]];
      } else {
        x := Escaped(line[1]);
        assert |line| > 3 ==> line[2..][0] == line[2] && line[2..][1] == line[3];
      }
    }
  }

  // ------------------------------------------------------------------ arguments

  /** A byte that an unquoted part may hold; vertical tab and form feed are among them. */
  predicate IsPlain(b: byte) {
    b != 0 && b != 9 && b != 10 && b != 13 && b != 32 && b != 34 && b != 39
  }

  predicate AllPlain(s: seq<byte>) {
    forall i :: 0 <= i < |s| ==> IsPlain(s[i])
  }

  /** An unquoted part, or one that a quoted part follows directly. */
  datatype Argument = Bare(plain: seq<byte>) | Enclosed(plain: seq<byte>, quote: byte, items: seq<Item>) {
    predicate Good() {
      Enclosed? ==> AllGood(items)
    }

    function Written(): seq<byte>
      requires Good()
    {
      if Bare? then plain else plain + [quote] + Body(items) + [quote]
    }

    /** What it stands for. */
    function Text(): seq<byte>
      requires Good()
    {
      if Bare? then plain else plain + Meanings(items)
    }

    /** It can stand before tail. */
    predicate Fits(tail: seq<byte>) {
      && AllPlain(plain) && (plain != [] ==> !IsBlank(plain[0]))
      && if Bare? then plain != [] && (AtEnd(tail) || (IsBlank(tail[0]) && !IsPlain(tail[0])))
         else (quote == 34 || quote == 39) && FitIn(items, quote, [quote] + tail) && Closes(tail)
    }
  }

  lemma {:induction false} ReadPlain(s: seq<byte>, next: seq<byte>, cur: seq<byte>)
    requires AllPlain(s)
    ensures ReadToken(s + next, Plain, cur) == ReadToken(next, Plain, cur + s)
    decreases |s|
  {
    if s == [] {
      assert s + next == next && cur + s == cur;
    } else {
      assert (s + next)[0] == s[0] && (s + next)[1..] == s[1..] + next;
      ReadPlain(s[1..], next, cur + [s[0]]);
      assert cur + [s[0]] + s[1..] == cur + s;
    }
  }

  lemma OpenQuote(quote: byte, next: seq<byte>, cur: seq<byte>)
    requires quote == 34 || quote == 39
    ensures ReadToken([quote] + next, Plain, cur) == ReadToken(next, ModeOf(quote), cur)
  {
    assert ([quote] + next)[1..] == next;
  }

  /** An unquoted part, an opening quote and the items after it, up to whatever follows them. */
  lemma ReadOpened(plain: seq<byte>, quote: byte, items: seq<Item>, next: seq<byte>)
    requires AllPlain(plain) && (quote == 34 || quote == 39) && FitIn(items, quote, next)
    ensures ReadToken(plain + [quote] + Body(items) + next, Plain, [])
         == ReadToken(next, ModeOf(quote), plain + Meanings(items))
  {
    hide ReadToken, ModeOf;
    assert plain + [quote] + Body(items) + next == plain + ([quote] + (Body(items) + next));
    ReadPlain(plain, [quote] + (Body(items) + next), []);
    assert [] + plain == plain;
    OpenQuote(quote, Body(items) + next, plain);
    ReadBody(items, quote, next, plain);
  }

  /** An argument that fits is read as one token, as what it stands for; at most one blank goes with it. */
  lemma ReadArgument(arg: Argument, tail: seq<byte>)
    requires arg.Good() && arg.Fits(tail)
    ensures var r := ReadToken(arg.Written() + tail, Plain, []);
      r == Token(arg.Text(), tail) || (!AtEnd(tail) && IsBlank(tail[0]) && r == Token(arg.Text(), tail[1..]))
  {
    hide ModeOf, FitIn;
    if arg.Bare? {
      ReadPlain(arg.plain, tail, []);
      assert [] + arg.plain == arg.plain;
    } else {
      hide ReadToken;
      assert arg.Written() + tail == arg.plain + [arg.quote] + Body(arg.items) + ([arg.quote] + tail);
      ReadOpened(arg.plain, arg.quote, arg.items, [arg.quote] + tail);
      ReadClosingQuote(arg.quote, tail, arg.Text());
    }
  }

  predicate AllBlank(s: seq<byte>) {
    forall i :: 0 <= i < |s| ==> IsBlank(s[i])
  }

  lemma {:induction false} BlanksFirst(blanks: seq<byte>, line: seq<byte>)
    requires AllBlank(blanks)
    ensures SkipBlanks(blanks + line) == SkipBlanks(line) && Arguments(blanks + line) == Arguments(line)
    decreases |blanks|
  {
    hide ReadToken;
    if blanks == [] {
      assert blanks + line == line;
    } else {
      assert (blanks + line)[0] == blanks[0] && (blanks + line)[1..] == blanks[1..] + line;
      BlanksFirst(blanks[1..], line);
    }
  }

  lemma NotBlankFirst(line: seq<byte>)
    requires line != [] && line[0] != 0 && !IsBlank(line[0])
    ensures SkipBlanks(line) == line && At(line, 0) != 0
  {
  }

  lemma ArgumentFirst(arg: Argument, tail: seq<byte>)
    requires arg.Good() && arg.Fits(tail)
    ensures var line := arg.Written() + tail; SkipBlanks(line) == line && At(line, 0) != 0
  {
    hide SkipBlanks, FitIn, Body, AllGood;
    var line := arg.Written() + tail;
    assert line[0] == if arg.plain == [] then arg.quote else arg.plain[0];
    NotBlankFirst(line);
  }

  /** An argument that fits is the first one of the line. */
  lemma FirstArgument(arg: Argument, tail: seq<byte>)
    requires arg.Good() && arg.Fits(tail)
    ensures var more := Arguments(tail);
      Arguments(arg.Written() + tail) == if more.None? then None else Some([arg.Text()] + more.value)
  {
    hide ReadToken, Arguments, SkipBlanks, Argument.Written, Argument.Fits, Argument.Text;
    ArgumentFirst(arg, tail);
    OneArgument(arg.Written() + tail);
    ReadArgument(arg, tail);
    if !AtEnd(tail) {
      assert [tail[0]] + tail[1..] == tail;
      if IsBlank(tail[0]) {
        BlanksFirst([tail[0]], tail[1..]);
      }
    }
  }

  // ------------------------------------------------------------------ lines

  /** Blanks and an argument. */
  datatype Entry = Entry(blanks: seq<byte>, arg: Argument)

  predicate AllRight(entries: seq<Entry>) {
    forall i :: 0 <= i < |entries| ==> entries[i].arg.Good()
  }

  function Line(entries: seq<Entry>, end: seq<byte>): seq<byte>
    requires AllRight(entries)
  {
    if entries == [] then end else entries[0].blanks + entries[0].arg.Written() + Line(entries[1..], end)
  }

  function Texts(entries: seq<Entry>): (r: seq<seq<byte>>)
    requires AllRight(entries)
    ensures |r| == |entries| && forall i :: 0 <= i < |r| ==> r[i] == entries[i].arg.Text()
  {
    seq(|entries|, i requires 0 <= i < |entries| => entries[i].arg.Text())
  }

  /** Every argument fits before what follows it. */
  predicate Spells(entries: seq<Entry>, end: seq<byte>) {
    && AllRight(entries)
    && (entries != [] ==>
          && AllBlank(entries[0].blanks)
          && entries[0].arg.Fits(Line(entries[1..], end))
          && Spells(entries[1..], end))
  }

  /** A row of arguments, unquoted and quoted either way, is read as what they stand for. */
  lemma {:induction false} ReadEntries(entries: seq<Entry>, end: seq<byte>)
    requires Spells(entries, end)
    ensures var more := Arguments(end);
      Arguments(Line(entries, end)) == if more.None? then None else Some(Texts(entries) + more.value)
    decreases |entries|
  {
    hide Arguments, Argument.Fits, Argument.Written, Argument.Text;
    var more := Arguments(end);
    if entries == [] {
      assert more.Some? ==> Texts(entries) + more.value == more.value;
    } else {
      var first, rest := entries[0], Line(entries[1..], end);
      assert Line(entries, end) == first.blanks + (first.arg.Written() + rest);
      BlanksFirst(first.blanks, first.arg.Written() + rest);
      FirstArgument(first.arg, rest);
      ReadEntries(entries[1..], end);
      assert more.Some? ==> [first.arg.Text()] + (Texts(entries[1..]) + more.value) == Texts(entries) + more.value;
    }
  }

  /** What can stand after the last argument: blanks up to the end of the line. */
  predicate NoMore(end: seq<byte>) {
    exists n :: 0 <= n <= |end| && AllBlank(end[..n]) && AtEnd(end[n..])
  }

  lemma NoArgument(end: seq<byte>)
    requires NoMore(end)
    ensures Arguments(end) == Some([])
  {
    var n :| 0 <= n <= |end| && AllBlank(end[..n]) && AtEnd(end[n..]);
    assert end == end[..n] + end[n..];
    BlanksFirst(end[..n], end[n..]);
  }

  /** A quoted part that is not closed, or whose closing quote neither a blank nor the end of the line follows. */
  predicate IsBroken(end: seq<byte>, blanks: seq<byte>, plain: seq<byte>, quote: byte, items: seq<Item>, next: seq<byte>) {
    && AllBlank(blanks) && AllPlain(plain) && (plain != [] ==> !IsBlank(plain[0]))
    && (quote == 34 || quote == 39) && FitIn(items, quote, next)
    && end == blanks + (plain + [quote] + Body(items) + next)
    && (Unclosed(quote, next) || (next[0] == quote && !Closes(next[1..])))
  }

  lemma BrokenArgument(end: seq<byte>, blanks: seq<byte>, plain: seq<byte>, quote: byte, items: seq<Item>, next: seq<byte>)
    requires IsBroken(end, blanks, plain, quote, items, next)
    ensures Arguments(end) == None
  {
    hide ReadToken, Arguments, SkipBlanks, FitIn, Body, AllGood;
    FitIsGood(items, quote, next);
    var line := plain + [quote] + Body(items) + next;
    assert line[0] == if plain == [] then quote else plain[0];
    NotBlankFirst(line);
    BlanksFirst(blanks, line);
    OneArgument(line);
    ReadOpened(plain, quote, items, next);
    if Unclosed(quote, next) {
      ReadUnclosed(quote, next, plain + Meanings(items));
    } else {
      assert next == [quote] + next[1..];
      ReadClosingQuote(quote, next[1..], plain + Meanings(items));
    }
  }

  ghost predicate Broken(end: seq<byte>) {
    exists blanks, plain, quote, items, next :: IsBroken(end, blanks, plain, quote, items, next)
  }

  /** The line begins with this entry, which fits before tail. */
  predicate StartsWith(line: seq<byte>, entry: Entry, tail: seq<byte>) {
    && entry.arg.Good() && AllBlank(entry.blanks) && entry.arg.Fits(tail)
    && |tail| < |line| && line == entry.blanks + entry.arg.Written() + tail
  }

  /** The first argument of a line that has one, or what is broken about it. */
  lemma NextArgument(line: seq<byte>) returns (entry: Entry, tail: seq<byte>)
    ensures NoMore(line) || Broken(line) || StartsWith(line, entry, tail)
  {
    hide Broken;
    var blanks, rest := TakeBlanks(line);
    var plain, more := TakePlain(rest);
    entry, tail := Entry(blanks, Bare(plain)), more;
    assert plain != [] ==> rest[0] == plain[0];
    if AtEnd(rest) {
      assert line[..|blanks|] == blanks && line[|blanks|..] == rest;
    } else if !AtEnd(more) && (more[0] == 34 || more[0] == 39) {
      entry, tail := NextQuoted(line, blanks, plain, more);
    }
  }

  lemma NextQuoted(line: seq<byte>, blanks: seq<byte>, plain: seq<byte>, more: seq<byte>)
    returns (entry: Entry, tail: seq<byte>)
    requires line == blanks + (plain + more) && more != [] && (more[0] == 34 || more[0] == 39)
    requires AllBlank(blanks) && AllPlain(plain) && (plain != [] ==> !IsBlank(plain[0]))
    ensures Broken(line) || StartsWith(line, entry, tail)
  {
    hide FitIn, Argument.Fits, Unclosed, AllPlain, AllBlank, IsBlank, Closes, Body, AllGood;
    entry, tail := Entry(blanks, Bare(plain)), more;
    var items, next := EveryBody(more[1..], more[0]);
    FitIsGood(items, more[0], next);
    NotAtEnd(more[0], next);
    assert plain + more == plain + [more[0]] + Body(items) + next by {
      assert more == [more[0]] + more[1..];
    }
    if Unclosed(more[0], next) || !Closes(next[1..]) {
      assert IsBroken(line, blanks, plain, more[0], items, next);
    } else {
      tail := next[1..];
      entry := Entry(blanks, Enclosed(plain, more[0], items));
      assert next == [more[0]] + tail;
      EnclosedFits(entry.arg, tail);
      assert line == blanks + entry.arg.Written() + tail;
    }
  }

  lemma FitIsGood(items: seq<Item>, quote: byte, next: seq<byte>)
    requires FitIn(items, quote, next)
    ensures AllGood(items)
  {
  }

  lemma EnclosedFits(arg: Argument, tail: seq<byte>)
    requires arg.Enclosed? && AllPlain(arg.plain) && (arg.plain != [] ==> !IsBlank(arg.plain[0]))
    requires (arg.quote == 34 || arg.quote == 39) && FitIn(arg.items, arg.quote, [arg.quote] + tail) && Closes(tail)
    ensures arg.Good() && arg.Fits(tail)
  {
  }

  lemma {:induction false} TakeBlanks(line: seq<byte>) returns (blanks: seq<byte>, rest: seq<byte>)
    ensures line == blanks + rest && AllBlank(blanks) && (AtEnd(rest) || !IsBlank(rest[0]))
    decreases |line|
  {
    blanks, rest := [], line;
    if !AtEnd(line) && IsBlank(line[0]) {
      blanks, rest := TakeBlanks(line[1..]);
      assert line == [line[0]] + line[1..];
      blanks := [line[0]] + blanks;
    }
  }

  lemma {:induction false} TakePlain(line: seq<byte>) returns (plain: seq<byte>, rest: seq<byte>)
    ensures line == plain + rest && AllPlain(plain) && (AtEnd(rest) || !IsPlain(rest[0]))
    decreases |line|
  {
    plain, rest := [], line;
    if !AtEnd(line) && IsPlain(line[0]) {
      plain, rest := TakePlain(line[1..]);
      assert line == [line[0]] + line[1..];
      plain := [line[0]] + plain;
    }
  }

  /** Every line is a row of arguments followed by nothing or by something broken. */
  lemma {:induction false} EveryLine(line: seq<byte>) returns (entries: seq<Entry>, end: seq<byte>)
    ensures Spells(entries, end) && line == Line(entries, end) && (NoMore(end) || Broken(end))
    decreases |line|
  {
    hide NoMore, Broken, Argument.Fits, Argument.Written;
    entries, end := [], line;
    var entry, tail := NextArgument(line);
    if !NoMore(line) && !Broken(line) {
      entries, end := EveryLine(tail);
      var all := [entry] + entries;
      assert all[1..] == entries;
      entries := all;
    }
  }

  /** The line spells these arguments. */
  ghost predicate Spelled(line: seq<byte>, args: seq<seq<byte>>) {
    exists entries: seq<Entry>, end: seq<byte> ::
      Spells(entries, end) && NoMore(end) && line == Line(entries, end) && args == Texts(entries)
  }

  /** Somewhere after complete arguments the line is broken. */
  ghost predicate Unreadable(line: seq<byte>) {
    exists entries: seq<Entry>, end: seq<byte> :: Spells(entries, end) && Broken(end) && line == Line(entries, end)
  }

  lemma SpelledReads(line: seq<byte>, args: seq<seq<byte>>)
    requires Spelled(line, args)
    ensures Arguments(line) == Some(args)
  {
    hide Arguments, NoMore;
    var entries: seq<Entry>, end: seq<byte> :|
      Spells(entries, end) && NoMore(end) && line == Line(entries, end) && args == Texts(entries);
    ReadEntries(entries, end);
    NoArgument(end);
    assert Texts(entries) + [] == Texts(entries);
  }

  lemma UnreadableFails(line: seq<byte>)
    requires Unreadable(line)
    ensures Arguments(line) == None
  {
    hide Arguments, IsBroken;
    var entries: seq<Entry>, end: seq<byte> :| Spells(entries, end) && Broken(end) && line == Line(entries, end);
    ReadEntries(entries, end);
    var blanks, plain, quote, items, next :| IsBroken(end, blanks, plain, quote, items, next);
    BrokenArgument(end, blanks, plain, quote, items, next);
  }

  /** A line splits into the arguments that it spells, and into none exactly when it is broken. */
  lemma SplitsAsSpelled(line: seq<byte>, args: seq<seq<byte>>)
    ensures Arguments(line) == Some(args) <==> Spelled(line, args)
    ensures Arguments(line) == None <==> Unreadable(line)
  {
    hide Arguments, Spelled, Unreadable;
    var found := SomeReading(line);
    if Spelled(line, args) {
      SpelledReads(line, args);
    }
    if Unreadable(line) {
      UnreadableFails(line);
    } else {
      SpelledReads(line, found);
    }
  }

  lemma SomeReading(line: seq<byte>) returns (args: seq<seq<byte>>)
    ensures Spelled(line, args) || Unreadable(line)
  {
    hide NoMore, Broken;
    var entries, end := EveryLine(line);
    args := Texts(entries);
  }

  // ------------------------------------------------------------------ one argument on a line

  lemma OneEnclosed(quote: byte, items: seq<Item>)
    requires (quote == 34 || quote == 39) && FitIn(items, quote, [quote] + [])
    ensures AllGood(items) && Arguments([] + [quote] + Body(items) + [quote]) == Some([Meanings(items)])
  {
    hide Arguments, FitIn, Body, AllGood, Argument.Fits;
    FitIsGood(items, quote, [quote] + []);
    var arg := Enclosed([], quote, items);
    EnclosedFits(arg, []);
    FirstArgument(arg, []);
    NoArguments();
    assert arg.Written() + [] == [] + [quote] + Body(items) + [quote];
    assert [] + Meanings(items) == Meanings(items) && [Meanings(items)] + [] == [Meanings(items)];
  }

  /** The bytes with a backslash before every single quote. */
  function Apostrophes(s: seq<byte>): seq<byte> {
    if s == [] then [] else (if s[0] == 39 then [92, 39] else [s[0]]) + Apostrophes(s[1..])
  }

  function OneItem(b: byte): Item {
    if b == 39 then Escaped(39) else Itself(b)
  }

  lemma OneFits(b: byte, next: seq<byte>)
    requires b != 0 && (b == 92 && next != [] ==> next[0] != 39)
    ensures var x := OneItem(b); x.Fits(39, next) && x.Meaning() == b
    ensures OneItem(b).Written() == if b == 39 then [92, 39] else [b]
  {
  }

  lemma FitsFirst(x: Item, items: seq<Item>, quote: byte, next: seq<byte>)
    requires FitIn(items, quote, next) && x.Fits(quote, Body(items) + next)
    ensures FitIn([x] + items, quote, next) && Body([x] + items) == x.Written() + Body(items)
    ensures Meanings([x] + items) == [x.Meaning()] + Meanings(items)
  {
    hide Item.Fits, Item.Written, Item.Meaning, Item.Good;
    FitIsGood(items, quote, next);
    FitsIsGood(x, quote, Body(items) + next);
    assert ([x] + items)[1..] == items;
  }

  lemma FitsIsGood(x: Item, quote: byte, next: seq<byte>)
    requires x.Fits(quote, next)
    ensures x.Good()
  {
  }

  lemma {:induction false} SingleItems(s: seq<byte>, next: seq<byte>) returns (items: seq<Item>)
    requires 0 !in s && (s != [] ==> s[|s| - 1] != 92)
    ensures FitIn(items, 39, next) && Body(items) == Apostrophes(s) && Meanings(items) == s
    decreases |s|
  {
    hide FitIn, Body, Item.Fits, Item.Written, Item.Meaning, OneItem;
    if s == [] {
      items := [];
      NoItems(39, next);
    } else {
      var more := SingleItems(s[1..], next);
      FitIsGood(more, 39, next);
      assert s == [s[0]] + s[1..];
      assert s[0] != 0 && (|s| > 1 ==> s[1..][|s| - 2] == s[|s| - 1]);
      assert |s| > 1 ==> (Body(more) + next)[0] == Apostrophes(s[1..])[0] != 39;
      OneFits(s[0], Body(more) + next);
      FitsFirst(OneItem(s[0]), more, 39, next);
      items := [OneItem(s[0])] + more;
    }
  }

  lemma NoItems(quote: byte, next: seq<byte>)
    ensures FitIn([], quote, next) && Body([]) == []
  {
  }

  lemma {:induction false} NoneToEscape(s: seq<byte>)
    requires 39 !in s
    ensures Apostrophes(s) == s
    decreases |s|
  {
    if s != [] {
      assert s == [s[0]] + s[1..];
      NoneToEscape(s[1..]);
    }
  }

  /** Between single quotes every byte stands for itself, but a single quote needs a backslash before it. */
  lemma SingleQuoted(s: seq<byte>)
    requires 0 !in s && (s != [] ==> s[|s| - 1] != 92)
    ensures Arguments([39] + Apostrophes(s) + [39]) == Some([s])
    ensures 39 !in s ==> Arguments([39] + s + [39]) == Some([s])
  {
    hide Arguments, FitIn, Body, Apostrophes, AllGood, Meanings;
    var items := SingleItems(s, [39] + []);
    OneEnclosed(39, items);
    assert [39] + Apostrophes(s) + [39] == [] + [39] + Apostrophes(s) + [39];
    if 39 !in s {
      NoneToEscape(s);
    }
  }

  /** A word without blanks and quotes stands for itself. */
  lemma PlainWord(s: seq<byte>)
    requires s != [] && AllPlain(s) && !IsBlank(s[0])
    ensures Arguments(s) == Some([s])
  {
    hide Arguments;
    FirstArgument(Bare(s), []);
    NoArguments();
    assert s + [] == s && [s] + [] == [s];
  }
}
