/** What the reply reader does, as a state machine over its task stack, the reply under
    construction and the bytes it has not read yet. */
module RespMachine {
  import opened Bytes
  import opened RespProtocol

  datatype TaskType = Untyped | LineTask(line: LineKind) | BulkTask | ArrayTask
  datatype LineKind = StatusLine | ErrorLine | IntegerLine

  /** One slot of the task stack; idx is the index within the parent array. */
  datatype Task = Task(kind: TaskType, elements: int, idx: int)

  datatype ReadError = UnknownType(byte: byte) | TooDeep

  /** stack is the task stack up to the current task; the empty stack is a finished reply. */
  datatype State = State(stack: seq<Task>, reply: Reply)

  const MAX_TASKS: nat := 9
  const ROOT_TASK: Task := Task(Untyped, -1, -1)

  // ------------------------------------------------------------------ the reply tree

  /** The slot of the current task: the child index at every level below the root. */
  function Path(stack: seq<Task>): (r: seq<int>)
    requires stack != []
    ensures |r| == |stack| - 1
    ensures forall i :: 0 <= i < |r| ==> r[i] == stack[i + 1].idx
  {
    seq(|stack| - 1, i requires 0 <= i < |stack| - 1 => stack[i + 1].idx)
  }

  /** Stores an object in the slot that path leads to. */
  function SetAt(t: Reply, path: seq<int>, obj: Reply): Reply
    decreases |path|
  {
    if path == [] then obj
    else if t.Array? && 0 <= path[0] < |t.element| then
      t.(element := t.element[path[0] := SetAt(t.element[path[0]], path[1..], obj)])
    else t
  }

  function Nulls(n: nat): (r: seq<Reply>)
    ensures |r| == n && forall i :: 0 <= i < n ==> r[i] == Null
  {
    seq(n, _ => Null)
  }

  /** The array object created for a header announcing n elements. */
  function NewArray(n: int): Reply {
    Array(n, Nulls(if n > 0 then n else 0))
  }

  /** The task stack after the current item is finished. */
  function MoveToNext(stack: seq<Task>): seq<Task>
    requires stack != []
  {
    var top := |stack| - 1;
    if top == 0 then []
    else if stack[top].idx == stack[top - 1].elements - 1 then MoveToNext(stack[..top])
    else stack[..top] + [Task(Untyped, -1, stack[top].idx + 1)]
  }

  function Finish(st: State, obj: Reply): State
    requires st.stack != []
  {
    State(MoveToNext(st.stack), SetAt(st.reply, Path(st.stack), obj))
  }

  // ------------------------------------------------------------------ one step

  datatype StepResult =
    | Blocked
    | Fail(error: ReadError)
    | Next(st: State, used: nat)

  function SetTop(st: State, task: Task): State
    requires st.stack != []
  {
    st.(stack := st.stack[..|st.stack| - 1] + [task])
  }

  function TypeOf(b: byte): Option<TaskType> {
    if b == MINUS then Some(LineTask(ErrorLine))
    else if b == PLUS then Some(LineTask(StatusLine))
    else if b == COLON then Some(LineTask(IntegerLine))
    else if b == DOLLAR then Some(BulkTask)
    else if b == STAR then Some(ArrayTask)
    else None
  }

  /** Reads the type byte. An array in the last slot fails at once. */
  function ReadType(st: State, u: seq<byte>): StepResult
    requires st.stack != []
  {
    if u == [] then Blocked
    else match TypeOf(u[0])
      case None => Fail(UnknownType(u[0]))
      case Some(kind) =>
        if kind == ArrayTask && |st.stack| == MAX_TASKS then Fail(TooDeep)
        else Next(SetTop(st, st.stack[|st.stack| - 1].(kind := kind)), 1)
  }

  function LineObject(kind: LineKind, line: seq<byte>, u: seq<byte>): Reply {
    match kind
    case IntegerLine => Integer(ParseInteger(u))
    case StatusLine => Text(Status, line)
    case ErrorLine => Text(Error, line)
  }

  function ReadLine(st: State, kind: LineKind, u: seq<byte>): (r: StepResult)
    requires st.stack != []
  {
    match FindCrlf(u)
    case None => Blocked
    case Some(n) => Next(Finish(st, LineObject(kind, u[..n], u)), n + 2)
  }

  function ReadBulk(st: State, u: seq<byte>): StepResult
    requires st.stack != []
  {
    match FindCrlf(u)
    case None => Blocked
    case Some(n) =>
      var len := ParseInteger(u);
      if len < 0 then Next(Finish(st, Nil), n + 2)
      else if n + 2 + len + 2 <= |u| then
        Next(Finish(st, Text(String, u[n + 2..n + 2 + len])), n + 2 + len + 2)
      else Blocked
  }

  function ReadArray(st: State, u: seq<byte>): StepResult
    requires st.stack != []
  {
    match FindCrlf(u)
    case None => Blocked
    case Some(n) =>
      var elements := ParseInteger(u);
      if elements == -1 then Next(Finish(st, Nil), n + 2)
      else if elements > 0 then
        var top := st.stack[|st.stack| - 1];
        Next(State(st.stack[..|st.stack| - 1] + [top.(elements := elements), Task(Untyped, -1, 0)],
                   SetAt(st.reply, Path(st.stack), NewArray(elements))), n + 2)
      else Next(Finish(st, NewArray(elements)), n + 2)
  }

  function Step(st: State, u: seq<byte>): StepResult
    requires st.stack != []
  {
    match st.stack[|st.stack| - 1].kind
    case Untyped => ReadType(st, u)
    case LineTask(kind) => ReadLine(st, kind, u)
    case BulkTask => ReadBulk(st, u)
    case ArrayTask => ReadArray(st, u)
  }

  lemma StepUses(st: State, u: seq<byte>)
    requires st.stack != []
    ensures var r := Step(st, u); r.Next? ==> 1 <= r.used <= |u|
    ensures var r := Step(st, u); r.Next? && st.stack[|st.stack| - 1].kind != Untyped ==> r.used >= 2
  {
  }

  /** A step that does something does the same when more bytes have arrived. */
  lemma StepExtends(st: State, u: seq<byte>, v: seq<byte>)
    requires st.stack != [] && !Step(st, u).Blocked?
    ensures Step(st, u + v) == Step(st, u)
  {
    hide MoveToNext, SetAt, ParseInteger, Path;
    if st.stack[|st.stack| - 1].kind == Untyped {
      assert (u + v)[0] == u[0];
    } else {
      var n := FindCrlf(u).value;
      FindCrlfExtends(u, v);
      ParseIntegerExtends(u, v);
      assert (u + v)[..n] == u[..n];
      var len := ParseInteger(u);
      if len >= 0 && n + 2 + len + 2 <= |u| {
        assert (u + v)[n + 2..n + 2 + len] == u[n + 2..n + 2 + len];
      }
    }
  }

  // ------------------------------------------------------------------ one reply

  /** The outcome of working on one reply: Done when it is finished. */
  datatype ReplyResult =
    | Waiting(st: State, rest: seq<byte>)
    | Broken(error: ReadError)
    | Done(reply: Reply, rest: seq<byte>)

  function ReadReply(st: State, u: seq<byte>): ReplyResult
    decreases |u|
  {
    if st.stack == [] then Done(st.reply, u)
    else match Step(st, u)
      case Blocked => Waiting(st, u)
      case Fail(e) => Broken(e)
      case Next(st', used) => StepUses(st, u); ReadReply(st', u[used..])
  }

  lemma {:induction false} ReadReplyExtends(st: State, u: seq<byte>, v: seq<byte>)
    ensures match ReadReply(st, u)
            case Waiting(st', rest) => ReadReply(st, u + v) == ReadReply(st', rest + v)
            case Broken(e) => ReadReply(st, u + v) == Broken(e)
            case Done(t, rest) => ReadReply(st, u + v) == Done(t, rest + v)
    decreases |u|
  {
    if st.stack != [] && !Step(st, u).Blocked? {
      StepExtends(st, u, v);
      if Step(st, u).Next? {
        var used := Step(st, u).used;
        StepUses(st, u);
        assert (u + v)[used..] == u[used..] + v;
        ReadReplyExtends(Step(st, u).st, u[used..], v);
      }
    }
  }

  lemma {:induction false} ReadReplyShrinks(st: State, u: seq<byte>)
    requires st.stack != []
    ensures ReadReply(st, u).Done? ==> |ReadReply(st, u).rest| < |u|
    decreases |u|
  {
    if Step(st, u).Next? {
      StepUses(st, u);
      var st', u' := Step(st, u).st, u[Step(st, u).used..];
      if st'.stack != [] {
        ReadReplyShrinks(st', u');
      }
    }
  }

  // ------------------------------------------------------------------ a whole stream

  const IDLE: State := State([ROOT_TASK], Null)

  /** A connection: reading with some bytes left over, or stopped by a protocol error. */
  datatype Session = Reading(st: State, unread: seq<byte>) | Failed(error: ReadError)

  /** All replies the unread bytes hold, and what is left when they are exhausted. */
  function Drain(s: Session): (r: (Session, seq<Reply>))
    requires s.Reading? ==> s.st.stack != []
    ensures r.0.Reading? ==> r.0.st.stack != []
    decreases if s.Reading? then |s.unread| else 0
  {
    if s.Failed? then (s, [])
    else match ReadReply(s.st, s.unread)
      case Waiting(st, rest) => WaitingStack(s.st, s.unread); (Reading(st, rest), [])
      case Broken(e) => (Failed(e), [])
      case Done(t, rest) =>
        ReadReplyShrinks(s.st, s.unread);
        var r := Drain(Reading(IDLE, rest));
        (r.0, [t] + r.1)
  }

  lemma {:induction false} WaitingStack(st: State, u: seq<byte>)
    ensures ReadReply(st, u).Waiting? ==> ReadReply(st, u).st.stack != []
    decreases |u|
  {
    if st.stack != [] && Step(st, u).Next? {
      StepUses(st, u);
      WaitingStack(Step(st, u).st, u[Step(st, u).used..]);
    }
  }

  /** More bytes from the connection; a failed reader refuses them. */
  function Feed(s: Session, chunk: seq<byte>): Session {
    if s.Failed? then s else s.(unread := s.unread + chunk)
  }

  lemma {:induction false} DrainThenFeed(s: Session, v: seq<byte>)
    requires s.Reading? ==> s.st.stack != []
    ensures var (s1, out1) := Drain(s);
      var (s2, out2) := Drain(Feed(s1, v));
      Drain(Feed(s, v)) == (s2, out1 + out2)
    decreases if s.Reading? then |s.unread| else 0
  {
    hide ReadReply;
    var (s1, out1) := Drain(s);
    var (s2, out2) := Drain(Feed(s1, v));
    if s.Reading? {
      ReadReplyExtends(s.st, s.unread, v);
      match ReadReply(s.st, s.unread)
      case Waiting(st, rest) =>
        assert out1 + out2 == out2;
      case Broken(e) =>
        assert out1 + out2 == [];
      case Done(t, rest) =>
        ReadReplyShrinks(s.st, s.unread);
        ReadReplyShrinks(s.st, s.unread + v);
        DrainThenFeed(Reading(IDLE, rest), v);
        var (t1, rest1) := Drain(Reading(IDLE, rest));
        assert t1 == s1 && out1 == [t] + rest1;
        assert [t] + (rest1 + out2) == out1 + out2;
    } else {
      assert out1 + out2 == out2;
    }
  }

  /** Feeding the chunks one at a time and draining the reader after each. */
  function DrainChunks(s: Session, chunks: seq<seq<byte>>): (Session, seq<Reply>)
    requires s.Reading? ==> s.st.stack != []
    decreases |chunks|
  {
    if chunks == [] then (s, [])
    else
      var (s1, out1) := Drain(Feed(s, chunks[0]));
      var (s2, out2) := DrainChunks(s1, chunks[1..]);
      (s2, out1 + out2)
  }

  function Concat(chunks: seq<seq<byte>>): seq<byte> {
    if chunks == [] then [] else chunks[0] + Concat(chunks[1..])
  }

  /** How a stream is cut into chunks changes neither the replies nor the final state or error. */
  lemma {:induction false} ChunkingDoesNotMatter(s: Session, chunks: seq<seq<byte>>)
    requires s.Reading? ==> s.st.stack != []
    requires Drain(s) == (s, [])
    ensures DrainChunks(s, chunks) == Drain(Feed(s, Concat(chunks)))
    decreases |chunks|
  {
    if chunks == [] {
      assert s.Reading? ==> s.unread + [] == s.unread;
    } else {
      var (s1, out1) := Drain(Feed(s, chunks[0]));
      DrainIdempotent(Feed(s, chunks[0]));
      ChunkingDoesNotMatter(s1, chunks[1..]);
      DrainThenFeed(Feed(s, chunks[0]), Concat(chunks[1..]));
      assert s.Reading? ==> (s.unread + chunks[0]) + Concat(chunks[1..]) == s.unread + Concat(chunks);
    }
  }

  lemma {:induction false} DrainIdempotent(s: Session)
    requires s.Reading? ==> s.st.stack != []
    ensures Drain(Drain(s).0) == (Drain(s).0, [])
    decreases if s.Reading? then |s.unread| else 0
  {
    if s.Reading? {
      WaitingAgain(s.st, s.unread);
      if ReadReply(s.st, s.unread).Done? {
        ReadReplyShrinks(s.st, s.unread);
        DrainIdempotent(Reading(IDLE, ReadReply(s.st, s.unread).rest));
      }
    }
  }

  lemma {:induction false} WaitingAgain(st: State, u: seq<byte>)
    ensures var r := ReadReply(st, u); r.Waiting? ==> ReadReply(r.st, r.rest) == r
    decreases |u|
  {
    if st.stack != [] && Step(st, u).Next? {
      StepUses(st, u);
      WaitingAgain(Step(st, u).st, u[Step(st, u).used..]);
    }
  }
}
