/** What every reachable reader state satisfies, and that reading undoes encoding. */
module RespTheorems {
  import opened Bytes
  import opened RespProtocol
  import opened RespMachine

  // ------------------------------------------------------------------ the invariant

  /** t is the array being filled by the tasks of stack: every element before the current
      index is complete, every later one still null, and the current one is null or is
      itself the array the next task is filling. */
  ghost predicate OpenAt(t: Reply, stack: seq<Task>)
    requires |stack| >= 2
    decreases |stack|
  {
    && stack[0].kind == ArrayTask
    && t.Array? && t.elements == stack[0].elements == |t.element|
    && var i := stack[1].idx;
    && 0 <= i < |t.element|
    && (forall j :: 0 <= j < i ==> Complete(t.element[j]))
    && (forall j :: i < j < |t.element| ==> t.element[j] == Null)
    && if |stack| == 2 then t.element[i] == Null else OpenAt(t.element[i], stack[1..])
  }

  ghost predicate ValidState(st: State) {
    && 1 <= |st.stack| <= MAX_TASKS
    && (st.stack[|st.stack| - 1].kind == ArrayTask ==> |st.stack| < MAX_TASKS)
    && if |st.stack| == 1 then st.reply == Null else OpenAt(st.reply, st.stack)
  }

  lemma {:induction false} MoveToNextTail(stack: seq<Task>)
    requires |stack| >= 2
    ensures MoveToNext(stack) ==
            var inner := MoveToNext(stack[1..]);
            if inner != [] then [stack[0]] + inner
            else if stack[1].idx == stack[0].elements - 1 then []
            else [stack[0], Task(Untyped, -1, stack[1].idx + 1)]
    ensures |stack| == 2 ==> MoveToNext(stack[1..]) == []
    ensures MoveToNext(stack) != [] ==> 2 <= |MoveToNext(stack)| <= |stack| && MoveToNext(stack)[0] == stack[0]
    decreases |stack|
  {
    var top := |stack| - 1;
    if top > 1 {
      var rest, down := stack[1..], stack[..top];
      assert rest[..top - 1] == down[1..];
      if stack[top].idx == stack[top - 1].elements - 1 {
        assert MoveToNext(stack) == MoveToNext(down) && MoveToNext(rest) == MoveToNext(down[1..]);
        MoveToNextTail(down);
      } else {
        var next := [Task(Untyped, -1, stack[top].idx + 1)];
        assert MoveToNext(stack) == down + next && MoveToNext(rest) == down[1..] + next;
        assert down + next == [stack[0]] + (down[1..] + next);
      }
    }
  }

  lemma PathTail(stack: seq<Task>)
    requires |stack| >= 2
    ensures Path(stack) == [stack[1].idx] + Path(stack[1..]) && (|stack| == 2 ==> Path(stack[1..]) == [])
  {
  }

  lemma SetInside(t: Reply, i: int, path: seq<int>, obj: Reply)
    requires t.Array? && 0 <= i < |t.element|
    ensures SetAt(t, [i] + path, obj) == t.(element := t.element[i := SetAt(t.element[i], path, obj)])
    ensures path == [] ==> SetAt(t.element[i], path, obj) == obj
  {
    assert ([i] + path)[1..] == path;
  }

  /** Filling the current slot fills exactly one null slot, and either completes the whole
      tree or leaves the next slot open. */
  lemma {:induction false} FinishKeepsOpen(t: Reply, stack: seq<Task>, obj: Reply)
    requires |stack| >= 2 && OpenAt(t, stack) && Complete(obj)
    ensures var t', stack' := SetAt(t, Path(stack), obj), MoveToNext(stack);
      if stack' == [] then Complete(t') else |stack'| >= 2 && OpenAt(t', stack')
    decreases |stack|
  {
    hide Path, MoveToNext, SetAt;
    PathTail(stack);
    MoveToNextTail(stack);
    var i := stack[1].idx;
    SetInside(t, i, Path(stack[1..]), obj);
    if |stack| > 2 {
      FinishKeepsOpen(t.element[i], stack[1..], obj);
      MoveToNextTail(stack[1..]);
      var inner := MoveToNext(stack[1..]);
      if inner != [] {
        assert ([stack[0]] + inner)[1..] == inner;
      }
    }
  }

  function GetAt(t: Reply, path: seq<int>): Option<Reply>
    decreases |path|
  {
    if path == [] then Some(t)
    else if t.Array? && 0 <= path[0] < |t.element| then GetAt(t.element[path[0]], path[1..])
    else None
  }

  /** The slot the next object goes to exists and is still empty. */
  lemma {:induction false} CurrentSlotIsNull(t: Reply, stack: seq<Task>)
    requires |stack| >= 2 && OpenAt(t, stack)
    ensures GetAt(t, Path(stack)) == Some(Null)
    decreases |stack|
  {
    PathTail(stack);
    assert Path(stack)[1..] == Path(stack[1..]);
    if |stack| > 2 {
      CurrentSlotIsNull(t.element[stack[1].idx], stack[1..]);
    }
  }

  ghost predicate IsOpenArray(stack: seq<Task>, k: nat)
    requires k < |stack| - 1
  {
    stack[k].kind == ArrayTask && 0 <= stack[k + 1].idx < stack[k].elements
  }

  ghost predicate OnlyArraysBelow(stack: seq<Task>) {
    forall k :: 0 <= k < |stack| - 1 ==> IsOpenArray(stack, k)
  }

  /** Below the current task there are only arrays, each with its child index in range. */
  lemma {:induction false} TasksBelowAreArrays(t: Reply, stack: seq<Task>)
    requires |stack| >= 2 && OpenAt(t, stack)
    ensures OnlyArraysBelow(stack)
    decreases |stack|
  {
    if |stack| > 2 {
      TasksBelowAreArrays(t.element[stack[1].idx], stack[1..]);
      forall k | 0 <= k < |stack| - 1 ensures IsOpenArray(stack, k) {
        if k > 0 {
          assert IsOpenArray(stack[1..], k - 1);
        }
      }
    }
  }

  lemma {:induction false} PushKeepsOpen(t: Reply, stack: seq<Task>, n: int)
    requires |stack| >= 2 && OpenAt(t, stack) && n > 0
    requires stack[|stack| - 1].kind == ArrayTask
    ensures var top := |stack| - 1;
      OpenAt(SetAt(t, Path(stack), NewArray(n)), stack[..top] + [stack[top].(elements := n), Task(Untyped, -1, 0)])
    decreases |stack|
  {
    PathTail(stack);
    var top := |stack| - 1;
    var stack' := stack[..top] + [stack[top].(elements := n), Task(Untyped, -1, 0)];
    assert Path(stack)[1..] == Path(stack[1..]);
    if |stack| > 2 {
      PushKeepsOpen(t.element[stack[1].idx], stack[1..], n);
      assert stack'[1..] == stack[1..][..top - 1] + [stack[top].(elements := n), Task(Untyped, -1, 0)];
    } else {
      assert stack'[1..] == [stack[1].(elements := n), Task(Untyped, -1, 0)];
    }
  }

  lemma {:induction false} RetypeKeepsOpen(t: Reply, stack: seq<Task>, kind: TaskType)
    requires |stack| >= 2 && OpenAt(t, stack)
    ensures OpenAt(t, stack[..|stack| - 1] + [stack[|stack| - 1].(kind := kind)])
    decreases |stack|
  {
    var top := |stack| - 1;
    var stack' := stack[..top] + [stack[top].(kind := kind)];
    if |stack| > 2 {
      RetypeKeepsOpen(t.element[stack[1].idx], stack[1..], kind);
      assert stack'[1..] == stack[1..][..top - 1] + [stack[1..][top - 1].(kind := kind)];
    }
  }

  /** Every step keeps the invariant, and a finished reply has no unfilled slot. */
  lemma StepKeepsValid(st: State, u: seq<byte>)
    requires ValidState(st) && Step(st, u).Next?
    ensures var st' := Step(st, u).st;
      if st'.stack == [] then Complete(st'.reply) else ValidState(st')
  {
    hide SetAt, MoveToNext, OpenAt, FindCrlf, ParseInteger;
    var top := st.stack[|st.stack| - 1];
    if top.kind == Untyped {
      if |st.stack| > 1 {
        RetypeKeepsOpen(st.reply, st.stack, TypeOf(u[0]).value);
      }
    } else if top.kind == ArrayTask && ParseInteger(u) > 0 {
      PushFromTop(st, ParseInteger(u));
    } else {
      FinishFromTop(st, Nil);
      FinishFromTop(st, NewArray(ParseInteger(u)));
      var n := FindCrlf(u).value;
      match top.kind
      case LineTask(kind) => FinishFromTop(st, LineObject(kind, u[..n], u));
      case BulkTask =>
        var len := ParseInteger(u);
        if 0 <= len && n + 2 + len + 2 <= |u| {
          FinishFromTop(st, Text(String, u[n + 2..n + 2 + len]));
        }
      case _ =>
    }
  }

  lemma PushFromTop(st: State, n: int)
    requires ValidState(st) && n > 0 && st.stack[|st.stack| - 1].kind == ArrayTask
    ensures var top := |st.stack| - 1;
      ValidState(State(st.stack[..top] + [st.stack[top].(elements := n), Task(Untyped, -1, 0)],
                       SetAt(st.reply, Path(st.stack), NewArray(n))))
  {
    if |st.stack| > 1 {
      PushKeepsOpen(st.reply, st.stack, n);
    }
  }

  lemma FinishFromTop(st: State, obj: Reply)
    requires ValidState(st)
    ensures Complete(obj) ==>
              var st' := Finish(st, obj);
              if st'.stack == [] then Complete(st'.reply) else ValidState(st')
  {
    if |st.stack| > 1 && Complete(obj) {
      MoveToNextTail(st.stack);
      FinishKeepsOpen(st.reply, st.stack, obj);
      FreshTop(st.stack);
    }
  }

  lemma {:induction false} FreshTop(stack: seq<Task>)
    requires stack != []
    ensures var stack' := MoveToNext(stack); stack' != [] ==> stack'[|stack'| - 1].kind == Untyped
    decreases |stack|
  {
    var top := |stack| - 1;
    if top > 0 && stack[top].idx == stack[top - 1].elements - 1 {
      FreshTop(stack[..top]);
    }
  }

  /** Along a whole run: the reader stays in valid states and emits only complete replies. */
  lemma {:induction false} ReadReplyValid(st: State, u: seq<byte>)
    requires ValidState(st)
    ensures match ReadReply(st, u)
            case Waiting(st', _) => ValidState(st')
            case Broken(_) => true
            case Done(t, _) => Complete(t)
    decreases |u|
  {
    if Step(st, u).Next? {
      StepKeepsValid(st, u);
      StepUses(st, u);
      var st' := Step(st, u).st;
      if st'.stack != [] {
        ReadReplyValid(st', u[Step(st, u).used..]);
      }
    }
  }

  lemma {:induction false} DrainValid(s: Session)
    requires s.Reading? ==> ValidState(s.st)
    ensures Drain(s).0.Reading? ==> ValidState(Drain(s).0.st)
    ensures forall i :: 0 <= i < |Drain(s).1| ==> Complete(Drain(s).1[i])
    decreases if s.Reading? then |s.unread| else 0
  {
    if s.Reading? {
      ReadReplyValid(s.st, s.unread);
      ReadReplyShrinks(s.st, s.unread);
      if ReadReply(s.st, s.unread).Done? {
        DrainValid(Reading(IDLE, ReadReply(s.st, s.unread).rest));
      }
    }
  }

  // ------------------------------------------------------------------ reading undoes encoding

  lemma AfterStep(st: State, u: seq<byte>, st': State, used: nat)
    requires st.stack != [] && used <= |u| && Step(st, u) == Next(st', used)
    ensures ReadReply(st, u) == ReadReply(st', u[used..])
  {
  }

  lemma {:induction false} RetypeMove(stack: seq<Task>, kind: TaskType, n: int)
    requires stack != []
    ensures var top := |stack| - 1;
      MoveToNext(stack[..top] + [stack[top].(kind := kind, elements := n)]) == MoveToNext(stack)
    ensures var top := |stack| - 1;
      Path(stack[..top] + [stack[top].(kind := kind, elements := n)]) == Path(stack)
  {
    var top := |stack| - 1;
    var stack' := stack[..top] + [stack[top].(kind := kind, elements := n)];
    assert stack'[..top] == stack[..top];
  }

  /** The type byte of an encoding selects the task that reads the rest of it. */
  lemma ReadTypeByte(st: State, b: byte, rest: seq<byte>)
    requires st.stack != [] && st.stack[|st.stack| - 1].kind == Untyped
    requires TypeOf(b).Some? && (TypeOf(b).value == ArrayTask ==> |st.stack| < MAX_TASKS)
    ensures ReadReply(st, [b] + rest) ==
            ReadReply(SetTop(st, st.stack[|st.stack| - 1].(kind := TypeOf(b).value)), rest)
  {
    var u := [b] + rest;
    AfterStep(st, u, SetTop(st, st.stack[|st.stack| - 1].(kind := TypeOf(b).value)), 1);
    assert u[1..] == rest;
  }

  lemma FinishRetyped(st: State, kind: TaskType, obj: Reply)
    requires st.stack != []
    ensures Finish(SetTop(st, st.stack[|st.stack| - 1].(kind := kind)), obj) == Finish(st, obj)
  {
    var top := |st.stack| - 1;
    RetypeMove(st.stack, kind, st.stack[top].elements);
    assert st.stack[top].(kind := kind) == st.stack[top].(kind := kind, elements := st.stack[top].elements);
  }

  lemma LineHeader(line: seq<byte>, rest: seq<byte>)
    requires HasNoCrlf(line)
    ensures var u := line + CRLF + rest;
      FindCrlf(u) == Some(|line|) && u[..|line|] == line && u[|line| + 2..] == rest
  {
    FindTerminator(line, rest);
  }

  /** A type byte and a line fill the slot with the object of that line. */
  lemma ReadLineOf(st: State, b: byte, kind: LineKind, line: seq<byte>, rest: seq<byte>)
    requires st.stack != [] && st.stack[|st.stack| - 1].kind == Untyped
    requires TypeOf(b) == Some(LineTask(kind)) && HasNoCrlf(line)
    ensures var u := line + CRLF + rest;
      ReadReply(st, [b] + u) == ReadReply(Finish(st, LineObject(kind, line, u)), rest)
  {
    hide ReadReply, FindCrlf, LineObject, MoveToNext, SetAt, HasNoCrlf, Finish;
    var st1 := SetTop(st, st.stack[|st.stack| - 1].(kind := LineTask(kind)));
    var u := line + CRLF + rest;
    var t := LineObject(kind, line, u);
    ReadTypeByte(st, b, u);
    LineHeader(line, rest);
    AfterStep(st1, u, Finish(st1, t), |line| + 2);
    FinishRetyped(st, LineTask(kind), t);
  }

  lemma ReadLineReply(st: State, t: Reply, rest: seq<byte>)
    requires st.stack != [] && st.stack[|st.stack| - 1].kind == Untyped
    requires Encodable(t, |st.stack| - 1) && (t.Integer? || (t.Text? && t.kind != String))
    ensures ReadReply(st, Encode(t) + rest) == ReadReply(Finish(st, t), rest)
  {
    hide ReadReply, ParseInteger, DecimalNat, HasNoCrlf, Finish;
    if t.Integer? {
      var line := Decimal(t.value);
      assert Encode(t) + rest == [COLON] + (line + CRLF + rest);
      DecimalHasNoCrlf(t.value);
      ParseDecimal(t.value, rest);
      ReadLineOf(st, COLON, IntegerLine, line, rest);
    } else {
      var b := TypeByte(t.kind);
      assert Encode(t) + rest == [b] + (t.str + CRLF + rest);
      ReadLineOf(st, b, if t.kind == Status then StatusLine else ErrorLine, t.str, rest);
    }
  }

  lemma ReadBulkReply(st: State, t: Reply, rest: seq<byte>)
    requires st.stack != [] && st.stack[|st.stack| - 1].kind == Untyped
    requires t.Nil? || (t.Text? && t.kind == String)
    ensures ReadReply(st, Encode(t) + rest) == ReadReply(Finish(st, t), rest)
  {
    hide ReadReply, FindCrlf, ParseInteger, MoveToNext, SetAt, DecimalNat, HasNoCrlf;
    var st1 := SetTop(st, st.stack[|st.stack| - 1].(kind := BulkTask));
    if t.Nil? {
      var u := Decimal(-1) + CRLF + rest;
      assert Encode(t) + rest == [DOLLAR] + u;
      ReadTypeByte(st, DOLLAR, u);
      CountHeader(-1, rest);
      AfterStep(st1, u, Finish(st1, t), |Decimal(-1)| + 2);
    } else {
      var len, body := |t.str|, t.str + CRLF + rest;
      var u, n := Decimal(len) + CRLF + body, |Decimal(len)|;
      assert Encode(t) + rest == [DOLLAR] + u;
      ReadTypeByte(st, DOLLAR, u);
      CountHeader(len, body);
      assert u[n + 2..n + 2 + len] == body[..len] == t.str;
      assert u[n + 2 + len + 2..] == body[len + 2..] == rest;
      AfterStep(st1, u, Finish(st1, t), n + 2 + len + 2);
    }
    FinishRetyped(st, BulkTask, t);
  }

  lemma CountHeader(len: int, body: seq<byte>)
    ensures var u := Decimal(len) + CRLF + body;
      FindCrlf(u) == Some(|Decimal(len)|) && ParseInteger(u) == len && u[|Decimal(len)| + 2..] == body
  {
    DecimalHasNoCrlf(len);
    ParseDecimal(len, body);
    FindTerminator(Decimal(len), body);
  }

  // The state in which element i of an array is about to be read.
  function ElementState(st: State, element: seq<Reply>, i: nat): State
    requires st.stack != [] && i <= |element|
  {
    var top, n := |st.stack| - 1, |element|;
    State(st.stack[..top] + [st.stack[top].(kind := ArrayTask, elements := n), Task(Untyped, -1, i)],
          SetAt(st.reply, Path(st.stack), Array(n, element[..i] + Nulls(n - i))))
  }

  lemma {:induction false} SetAtTwice(t: Reply, path: seq<int>, a: Reply, i: int, b: Reply)
    ensures SetAt(SetAt(t, path, a), path + [i], b) == SetAt(t, path, SetAt(a, [i], b))
    decreases |path|
  {
    if path == [] {
      assert path + [i] == [i];
    } else {
      assert (path + [i])[1..] == path[1..] + [i];
      if t.Array? && 0 <= path[0] < |t.element| {
        SetAtTwice(t.element[path[0]], path[1..], a, i, b);
      }
    }
  }

  /** Finishing element i leads to the state for element i + 1, or finishes the array. */
  lemma FinishElement(st: State, element: seq<Reply>, i: nat)
    requires st.stack != [] && i < |element|
    ensures Finish(ElementState(st, element, i), element[i]) ==
            if i + 1 < |element| then ElementState(st, element, i + 1) else Finish(st, Array(|element|, element))
  {
    var top, n := |st.stack| - 1, |element|;
    var base := st.stack[..top] + [st.stack[top].(kind := ArrayTask, elements := n)];
    var child := ElementState(st, element, i);
    assert child.stack == base + [Task(Untyped, -1, i)];
    assert child.stack[..top + 1] == base;
    RetypeMove(st.stack, ArrayTask, n);
    assert Path(child.stack) == Path(st.stack) + [i];
    var filled := Array(n, element[..i] + Nulls(n - i));
    SetAtTwice(st.reply, Path(st.stack), filled, i, element[i]);
    assert SetAt(filled.element[i], [], element[i]) == element[i];
    assert (element[..i] + Nulls(n - i))[i := element[i]] == element[..i + 1] + Nulls(n - (i + 1));
    if i + 1 == n {
      assert element[..n] + Nulls(0) == element;
    } else {
      assert base + [Task(Untyped, -1, i + 1)] == ElementState(st, element, i + 1).stack;
    }
  }

  /** Reading an encoded reply fills the current slot with it and consumes exactly its bytes. */
  lemma {:induction false} ReadItem(st: State, t: Reply, rest: seq<byte>)
    requires 1 <= |st.stack| <= MAX_TASKS && st.stack[|st.stack| - 1].kind == Untyped
    requires Encodable(t, |st.stack| - 1)
    ensures ReadReply(st, Encode(t) + rest) == ReadReply(Finish(st, t), rest)
    decreases t, 0
  {
    match t
    case Integer(_) => ReadLineReply(st, t, rest);
    case Nil => ReadBulkReply(st, t, rest);
    case Text(kind, _) =>
      if kind == String { ReadBulkReply(st, t, rest); } else { ReadLineReply(st, t, rest); }
    case Array(n, element) =>
      ReadHeader(st, element, rest);
      if n > 0 {
        ReadElements(st, element, 0, rest);
        assert element[0..] == element;
      }
  }

  lemma ReadHeader(st: State, element: seq<Reply>, rest: seq<byte>)
    requires 1 <= |st.stack| < MAX_TASKS && st.stack[|st.stack| - 1].kind == Untyped
    ensures ReadReply(st, Encode(Array(|element|, element)) + rest) ==
            if element == [] then ReadReply(Finish(st, Array(0, [])), rest)
            else ReadReply(ElementState(st, element, 0), EncodeAll(element) + rest)
  {
    hide ReadReply, FindCrlf, ParseInteger, DecimalNat, HasNoCrlf;
    var n, top := |element|, |st.stack| - 1;
    var line, body := Decimal(n), EncodeAll(element) + rest;
    var st1 := SetTop(st, st.stack[top].(kind := ArrayTask));
    var u := line + CRLF + body;
    assert Encode(Array(n, element)) + rest == [STAR] + u;
    ReadTypeByte(st, STAR, u);
    CountHeader(n, body);
    if n == 0 {
      assert NewArray(0) == Array(0, []);
      AfterStep(st1, u, Finish(st1, Array(0, [])), |line| + 2);
      FinishRetyped(st, ArrayTask, Array(0, []));
      assert body == rest;
    } else {
      RetypeMove(st.stack, ArrayTask, st.stack[top].elements);
      assert st.stack[top].(kind := ArrayTask) == st.stack[top].(kind := ArrayTask, elements := st.stack[top].elements);
      assert element[..0] + Nulls(n) == NewArray(n).element;
      var st2 := ElementState(st, element, 0);
      assert st1.stack[..top] + [st1.stack[top].(elements := n), Task(Untyped, -1, 0)] == st2.stack;
      AfterStep(st1, u, st2, |line| + 2);
    }
  }

  lemma {:induction false} ReadElements(st: State, element: seq<Reply>, i: nat, rest: seq<byte>)
    requires 1 <= |st.stack| < MAX_TASKS && i < |element|
    requires forall j :: 0 <= j < |element| ==> Encodable(element[j], |st.stack|)
    ensures ReadReply(ElementState(st, element, i), EncodeAll(element[i..]) + rest) ==
            ReadReply(Finish(st, Array(|element|, element)), rest)
    decreases element, 1, |element| - i
  {
    hide ReadReply, Encode, EncodeAll, Encodable, Finish, ElementState;
    var tail := element[i + 1..];
    EncodeRest(element, i, rest);
    ElementTop(st, element, i);
    ReadItem(ElementState(st, element, i), element[i], EncodeAll(tail) + rest);
    FinishElement(st, element, i);
    if i + 1 < |element| {
      ReadElements(st, element, i + 1, rest);
    } else {
      assert tail == [];
      EncodeNone(rest);
    }
  }

  lemma EncodeRest(element: seq<Reply>, i: nat, rest: seq<byte>)
    requires i < |element|
    ensures EncodeAll(element[i..]) + rest == Encode(element[i]) + (EncodeAll(element[i + 1..]) + rest)
  {
    hide Encode;
    assert element[i..][0] == element[i] && element[i..][1..] == element[i + 1..];
  }

  lemma EncodeNone(rest: seq<byte>)
    ensures EncodeAll([]) + rest == rest
  {
  }

  lemma ElementTop(st: State, element: seq<Reply>, i: nat)
    requires st.stack != [] && i <= |element|
    ensures var stack := ElementState(st, element, i).stack;
      |stack| == |st.stack| + 1 && stack[|stack| - 1].kind == Untyped
  {
    hide SetAt, Path;
  }

  /** A fresh reader fed an encoded reply emits that reply and leaves the rest unread. */
  lemma RoundTrip(t: Reply, rest: seq<byte>)
    requires Encodable(t, 0)
    ensures ReadReply(IDLE, Encode(t) + rest) == Done(t, rest)
  {
    ReadItem(IDLE, t, rest);
  }

  /** An array announced in the last slot is refused, whatever it holds. */
  lemma DeepArrayRefused(st: State, t: Reply, rest: seq<byte>)
    requires |st.stack| == MAX_TASKS && st.stack[|st.stack| - 1].kind == Untyped
    requires t.Array?
    ensures ReadReply(st, Encode(t) + rest) == Broken(TooDeep)
  {
    var u := Encode(t) + rest;
    assert u[0] == STAR;
    assert Step(st, u) == Fail(TooDeep);
  }

  /** A tree with an array too deep is refused, however much of it is read before. */
  lemma {:induction false} ReadDeep(st: State, t: Reply, rest: seq<byte>)
    requires 1 <= |st.stack| <= MAX_TASKS && st.stack[|st.stack| - 1].kind == Untyped
    requires WellFormed(t) && Deep(t, |st.stack| - 1)
    ensures ReadReply(st, Encode(t) + rest) == Broken(TooDeep)
    decreases t, 0
  {
    if |st.stack| == MAX_TASKS {
      DeepArrayRefused(st, t, rest);
    } else {
      ReadHeader(st, t.element, rest);
      var i :| 0 <= i < |t.element| && Deep(t.element[i], |st.stack|);
      assert t.element[0..] == t.element;
      ReadDeepElements(st, t.element, 0, i, rest);
    }
  }

  lemma {:induction false} ReadDeepElements(st: State, element: seq<Reply>, i: nat, k: nat, rest: seq<byte>)
    requires 1 <= |st.stack| < MAX_TASKS && i <= k < |element| && Deep(element[k], |st.stack|)
    requires forall j :: 0 <= j < |element| ==> WellFormed(element[j])
    ensures ReadReply(ElementState(st, element, i), EncodeAll(element[i..]) + rest) == Broken(TooDeep)
    decreases element, 1, |element| - i
  {
    hide ReadReply, Deep, WellFormed, Encode, EncodeAll, Encodable, Finish, ElementState;
    var tail := element[i + 1..];
    EncodeRest(element, i, rest);
    ElementTop(st, element, i);
    if Deep(element[i], |st.stack|) {
      ReadDeep(ElementState(st, element, i), element[i], EncodeAll(tail) + rest);
    } else {
      ShallowIsEncodable(element[i], |st.stack|);
      ReadItem(ElementState(st, element, i), element[i], EncodeAll(tail) + rest);
      FinishElement(st, element, i);
      ReadDeepElements(st, element, i + 1, k, rest);
    }
  }

  /** The depth bound is exact: a well-formed tree is read back, or refused for its depth. */
  lemma DepthBound(t: Reply, rest: seq<byte>)
    requires WellFormed(t)
    ensures ReadReply(IDLE, Encode(t) + rest) == if Deep(t, 0) then Broken(TooDeep) else Done(t, rest)
  {
    if Deep(t, 0) {
      ReadDeep(IDLE, t, rest);
    } else {
      ShallowIsEncodable(t, 0);
      RoundTrip(t, rest);
    }
  }

  /** An array header with a negative count other than -1 is accepted, and gives an array object with that count
      and no elements. */
  lemma NegativeCount(st: State, n: int, rest: seq<byte>)
    requires 1 <= |st.stack| < MAX_TASKS && st.stack[|st.stack| - 1].kind == Untyped && n < -1
    ensures ReadReply(st, [STAR] + Decimal(n) + CRLF + rest) == ReadReply(Finish(st, Array(n, [])), rest)
  {
    hide ReadReply, FindCrlf, ParseInteger, DecimalNat, Finish;
    var u := Decimal(n) + CRLF + rest;
    var st1 := SetTop(st, st.stack[|st.stack| - 1].(kind := ArrayTask));
    assert [STAR] + Decimal(n) + CRLF + rest == [STAR] + u;
    ReadTypeByte(st, STAR, u);
    CountHeader(n, rest);
    assert NewArray(n) == Array(n, []);
    AfterStep(st1, u, Finish(st1, Array(n, [])), |Decimal(n)| + 2);
    FinishRetyped(st, ArrayTask, Array(n, []));
  }

  /** A stream of encoded replies is read back reply by reply. */
  lemma {:induction false} StreamRoundTrip(ts: seq<Reply>, rest: seq<byte>)
    requires forall i :: 0 <= i < |ts| ==> Encodable(ts[i], 0)
    ensures Drain(Reading(IDLE, EncodeAll(ts) + rest)) ==
            (Drain(Reading(IDLE, rest)).0, ts + Drain(Reading(IDLE, rest)).1)
    decreases |ts|
  {
    hide Encode, ReadReply;
    var out := Drain(Reading(IDLE, rest)).1;
    if ts == [] {
      assert EncodeAll(ts) + rest == rest;
      assert ts + out == out;
    } else {
      assert EncodeAll(ts) + rest == Encode(ts[0]) + (EncodeAll(ts[1..]) + rest);
      RoundTrip(ts[0], EncodeAll(ts[1..]) + rest);
      StreamRoundTrip(ts[1..], rest);
      assert [ts[0]] + (ts[1..] + out) == ts + out;
    }
  }
}
