/** The reader object: an input buffer with a cursor, a fixed stack of nine tasks, and the
    reply under construction, all updated in place. */
module RespReader {
  import opened Bytes
  import opened RespProtocol
  import opened RespMachine
  import opened RespTheorems

  // ------------------------------------------------------------------ scanning loops

  lemma {:induction false} NoCrlfFound(s: seq<byte>)
    requires HasNoCrlf(s)
    ensures FindCrlf(s) == None
  {
    if |s| >= 2 {
      assert !(s[0] == CR && s[0 + 1] == LF);
      forall i | 0 <= i < |s[1..]| - 1 ensures !(s[1..][i] == CR && s[1..][i + 1] == LF) {
        assert s[1..][i] == s[i + 1] && s[1..][i + 1] == s[i + 2];
      }
      NoCrlfFound(s[1..]);
    }
  }

  lemma FirstCrlfFound(s: seq<byte>, n: nat)
    requires n + 1 < |s| && s[n] == CR && s[n + 1] == LF
    requires HasNoCrlf(s[..n])
    ensures FindCrlf(s) == Some(n)
  {
    FindTerminator(s[..n], s[n + 2..]);
    assert s == s[..n] + CRLF + s[n + 2..];
  }

  /** A byte of the buffer; the byte after the last one is its terminator. */
  function At(s: seq<byte>, i: nat): byte
    requires i <= |s|
  {
    if i < |s| then s[i] else 0
  }

  method SeekNewline(s: seq<byte>) returns (r: Option<nat>)
    ensures r == FindCrlf(s)
  {
    var pos := 0;
    var last := |s| - 1;
    while pos < last
      invariant 0 <= pos <= |s|
      invariant HasNoCrlf(s[..pos]) && (0 < pos < |s| ==> !(s[pos - 1] == CR && s[pos] == LF))
      decreases |s| - pos
    {
      while pos < last && s[pos] != CR
        invariant 0 <= pos <= last
        invariant HasNoCrlf(s[..pos]) && (0 < pos ==> !(s[pos - 1] == CR && s[pos] == LF))
        decreases last - pos
      {
        pos := pos + 1;
      }
      if s[pos] != CR {
        NoCrlfFound(s);
        return None;
      } else if At(s, pos + 1) == LF {
        FirstCrlfFound(s, pos);
        return Some(pos);
      }
      pos := pos + 1;
    }
    assert HasNoCrlf(s);
    NoCrlfFound(s);
    return None;
  }

  lemma OneDigit(s: seq<byte>, i: nat, v: int)
    requires i < |s| && CR in s[i..]
    ensures if s[i] == CR then ParseDigits(s[i..], v) == Some(v)
            else
              && i + 1 < |s| && CR in s[i + 1..]
              && ParseDigits(s[i..], v)
                 == if ZERO <= s[i] < ZERO + 10 then ParseDigits(s[i + 1..], v * 10 + (s[i] - ZERO) as int) else None
  {
    assert s[i..] == [s[i]] + s[i + 1..];
  }

  /** Reads the number at the start of s, under the promise that a CR ends it. */
  method ReadLongLong(s: seq<byte>) returns (r: int)
    requires CR in s
    ensures r == ParseInteger(s)
  {
    hide ParseDigits;
    var v, mult, i := 0, 1, 0;
    if s[0] == MINUS {
      mult := -1;
      i := 1;
    } else if s[0] == PLUS {
      i := 1;
    }
    ghost var digits := s[i..];
    while s[i] != CR
      invariant 0 <= i < |s| && CR in s[i..]
      invariant ParseDigits(digits, 0) == ParseDigits(s[i..], v)
      decreases |s| - i
    {
      var c := s[i];
      OneDigit(s, i, v);
      i := i + 1;
      if ZERO <= c < ZERO + 10 {
        v := v * 10 + (c - ZERO) as int;
      } else {
        return -1;
      }
    }
    OneDigit(s, i, v);
    return mult * v;
  }

  lemma IdleIsValid()
    ensures ValidState(IDLE)
  {
  }

  lemma NothingToRead(st: State)
    ensures st.stack != [] ==> ReadReply(st, []) == Waiting(st, [])
  {
    if st.stack != [] {
      assert FindCrlf([]) == None;
    }
  }

  lemma ArrayHasRoom(st: State)
    requires ValidState(st)
    ensures st.stack[|st.stack| - 1].kind == ArrayTask ==> |st.stack| <= 8
  {
  }

  lemma UntypedUsesOne(st: State, u: seq<byte>)
    requires st.stack != [] && st.stack[|st.stack| - 1].kind == Untyped
    ensures Step(st, u).Next? ==> Step(st, u).used == 1
  {
  }

  /** What one request for a reply must deliver and leave behind. */
  ghost predicate Delivers(before: Session, ok: bool, out: Option<Reply>, after: Session) {
    match before
    case Failed(_) => !ok && out == None && after == before
    case Reading(st, u) =>
      match ReadReply(st, u)
      case Waiting(st', rest) => ok && out == None && after == Reading(st', rest)
      case Broken(e) => !ok && out == None && after == Failed(e)
      case Done(t, rest) => ok && out == Some(t) && Complete(t) && after == Reading(IDLE, rest)
  }

  class RedisReader {
    var err: Option<ReadError>
    var buf: seq<byte>
    var pos: nat
    var len: nat
    const rstack: array<Task>
    var ridx: int
    var reply: Reply

    ghost predicate Shape()
      reads this
    {
      rstack.Length == MAX_TASKS && -1 <= ridx < MAX_TASKS && pos <= len == |buf|
    }

    /** The abstract state of the reply being read. */
    ghost function St(): State
      requires Shape()
      reads this, rstack
    {
      State(rstack[..ridx + 1], reply)
    }

    ghost function Unread(): seq<byte>
      requires Shape()
      reads this
    {
      buf[pos..]
    }

    ghost predicate Valid()
      reads this, rstack
    {
      && Shape()
      && (err.Some? ==> buf == [] && ridx == -1)
      && (ridx == -1 ==> reply == Null)
      && (ridx >= 0 ==> ValidState(St()))
    }

    ghost function Abstract(): (s: Session)
      requires Valid()
      reads this, rstack
      ensures s.Reading? ==> s.st.stack != []
    {
      if err.Some? then Failed(err.value)
      else Reading(if ridx == -1 then IDLE else St(), Unread())
    }

    constructor ()
      ensures Valid() && fresh(rstack) && Abstract() == Reading(IDLE, [])
    {
      err := None;
      buf, pos, len := [], 0, 0;
      rstack := new Task[MAX_TASKS](_ => ROOT_TASK);
      ridx := -1;
      reply := Null;
    }

    /** Drops the partial reply, the input and the task stack. */
    method SetError(e: ReadError)
      requires Shape()
      modifies this
      ensures Valid() && err == Some(e) && ridx == -1
    {
      reply := Null;
      buf, pos, len := [], 0, 0;
      ridx := -1;
      err := Some(e);
    }

    /** Pops finished arrays and moves on to the next slot; both assertions of the source hold. */
    method MoveToNextTask()
      requires Shape() && ridx >= 0
      requires OnlyArraysBelow(rstack[..ridx + 1])
      modifies this`ridx, rstack
      ensures Shape() && rstack[..ridx + 1] == MoveToNext(old(rstack[..ridx + 1]))
    {
      ghost var stack := rstack[..ridx + 1];
      while ridx >= 0
        invariant 0 <= ridx <= old(ridx)
        invariant rstack[..] == old(rstack[..])
        invariant MoveToNext(rstack[..ridx + 1]) == MoveToNext(stack)
      {
        if ridx == 0 {
          ridx := ridx - 1;
          return;
        }
        var cur, prv := rstack[ridx], rstack[ridx - 1];
        assert IsOpenArray(stack, ridx - 1);
        assert prv.kind == ArrayTask;
        assert rstack[..ridx + 1][..ridx] == rstack[..ridx];
        if cur.idx == prv.elements - 1 {
          ridx := ridx - 1;
        } else {
          assert cur.idx < prv.elements;
          rstack[ridx] := Task(Untyped, -1, cur.idx + 1);
          return;
        }
      }
    }

    /** Links a new object into its parent array, unless it is the root. */
    method Link(obj: Reply)
      requires Shape() && ridx >= 0 && ValidState(St())
      modifies this`reply
      ensures reply == if ridx == 0 then old(reply) else SetAt(old(reply), Path(rstack[..ridx + 1]), obj)
    {
      if ridx > 0 {
        assert GetAt(reply, Path(rstack[..ridx + 1])) == Some(Null) by {
          CurrentSlotIsNull(reply, rstack[..ridx + 1]);
        }
        reply := SetAt(reply, Path(rstack[..ridx + 1]), obj);
      }
    }

    /** Stores a finished object in its slot and moves on. */
    method FinishItem(obj: Reply)
      requires Shape() && ridx >= 0 && ValidState(St())
      modifies this`ridx, this`reply, rstack
      ensures Shape() && St() == Finish(old(St()), obj)
    {
      assert SetAt(reply, [], obj) == obj;
      hide MoveToNext, SetAt, Complete;
      ghost var stack := rstack[..ridx + 1];
      if ridx > 0 {
        TasksBelowAreArrays(reply, stack);
      }
      hide OpenAt;
      Link(obj);
      if ridx == 0 {
        assert Path(stack) == [];
        reply := obj;
      }
      assert rstack[..ridx + 1] == stack;
      MoveToNextTask();
    }

    method ProcessLineItem(kind: LineKind) returns (ok: bool)
      requires Shape() && ridx >= 0 && ValidState(St())
      requires rstack[ridx].kind == LineTask(kind)
      modifies this`ridx, this`reply, this`pos, rstack
      ensures Shape() && Follows(old(St()), old(Unread()), ok)
    {
      hide MoveToNext, SetAt, OpenAt, FindCrlf, ParseInteger, Path, ValidState;
      var p := buf[pos..len];
      assert p == Unread();
      var s := SeekNewline(p);
      if s == None {
        return false;
      }
      var n := s.value;
      pos := pos + n + 2;
      if kind == IntegerLine {
        var v := ReadLongLong(p);
        FinishItem(Integer(v));
      } else {
        FinishItem(Text(if kind == StatusLine then Status else Error, p[..n]));
      }
      return true;
    }

    method ProcessBulkItem() returns (ok: bool)
      requires Shape() && ridx >= 0 && ValidState(St())
      requires rstack[ridx].kind == BulkTask
      modifies this`ridx, this`reply, this`pos, rstack
      ensures Shape() && Follows(old(St()), old(Unread()), ok)
    {
      hide MoveToNext, SetAt, OpenAt, FindCrlf, ParseInteger, Path, ValidState;
      var p := buf[pos..len];
      assert p == Unread();
      var s := SeekNewline(p);
      if s == None {
        return false;
      }
      var n := s.value;
      var bytelen := n + 2;
      var size := ReadLongLong(p);
      if size < 0 {
        FinishItem(Nil);
      } else {
        bytelen := bytelen + size + 2;
        if pos + bytelen > len {
          return false;
        }
        FinishItem(Text(String, p[n + 2..n + 2 + size]));
      }
      pos := pos + bytelen;
      return true;
    }

    /** An array header: nil, an empty array, or one more task. */
    method ProcessMultiBulkItem() returns (ok: bool)
      requires Shape() && ridx >= 0 && ridx < 8 && ValidState(St())
      requires rstack[ridx].kind == ArrayTask
      modifies this`ridx, this`reply, this`pos, rstack
      ensures Shape() && Follows(old(St()), old(Unread()), ok)
    {
      hide MoveToNext, SetAt, OpenAt, FindCrlf, ParseInteger, Path, ValidState;
      var p := buf[pos..len];
      assert p == Unread();
      var s := SeekNewline(p);
      if s == None {
        return false;
      }
      pos := pos + s.value + 2;
      var elements := ReadLongLong(p);
      if elements == -1 {
        FinishItem(Nil);
      } else if elements > 0 {
        PushArray(elements);
      } else {
        FinishItem(NewArray(elements));
      }
      return true;
    }

    method PushArray(elements: int)
      requires Shape() && 0 <= ridx < 8 && ValidState(St()) && elements > 0
      modifies this`ridx, this`reply, rstack
      ensures Shape()
      ensures var st := old(St());
        var top := |st.stack| - 1;
        St() == State(st.stack[..top] + [st.stack[top].(elements := elements), Task(Untyped, -1, 0)],
                      SetAt(st.reply, Path(st.stack), NewArray(elements)))
    {
      ghost var stack := rstack[..ridx + 1];
      Link(NewArray(elements));
      if ridx == 0 {
        assert Path(stack) == [];
        reply := NewArray(elements);
      }
      rstack[ridx] := rstack[ridx].(elements := elements);
      ridx := ridx + 1;
      rstack[ridx] := Task(Untyped, -1, 0);
    }

    /** The outcome of a typed item is the machine's next step. */
    ghost predicate Follows(st: State, u: seq<byte>, ok: bool)
      requires Shape() && st.stack != []
      reads this, rstack
    {
      match Step(st, u)
      case Blocked => !ok && St() == st && Unread() == u
      case Fail(_) => false
      case Next(st', used) => ok && used <= |u| && St() == st' && Unread() == u[used..]
    }

    /** Reads the type byte of the next item; an array in the last slot is left for
        ProcessItem to refuse. */
    method ReadItemType() returns (ok: bool)
      requires Shape() && err.None? && ridx >= 0 && ValidState(St()) && rstack[ridx].kind == Untyped
      modifies this, rstack
      ensures Shape() && (ok ==> err.None?)
      ensures match Step(old(St()), old(Unread()))
        case Blocked => !ok && err.None? && St() == old(St()) && Unread() == old(Unread())
        case Fail(UnknownType(b)) => !ok && Valid() && err == Some(UnknownType(b))
        case Fail(TooDeep) => ok && ridx == 8 && rstack[8].kind == ArrayTask
        case Next(st, _) => ok && ValidState(St()) && St() == st && Unread() == old(Unread())[1..] &&
                            |Unread()| < |old(Unread())| && ridx == old(ridx) && rstack[ridx].kind != Untyped &&
                            (rstack[ridx].kind == ArrayTask ==> ridx != 8)
    {
      hide MoveToNext, SetAt, OpenAt, Path, Complete, FindCrlf, ParseInteger;
      ghost var st, u := St(), Unread();
      if len - pos < 1 {
        return false;
      }
      var p := buf[pos];
      pos := pos + 1;
      var kind := TypeOf(p);
      if kind == None {
        SetError(UnknownType(p));
        return false;
      }
      rstack[ridx] := rstack[ridx].(kind := kind.value);
      assert u[0] == p && u[1..] == Unread();
      assert St() == SetTop(st, st.stack[|st.stack| - 1].(kind := kind.value));
      if kind.value != ArrayTask || ridx < 8 {
        StepKeepsValid(st, u);
      }
      return true;
    }

    /** One item: its type byte if that is still missing, then its content. */
    method ProcessItem() returns (ok: bool)
      requires Shape() && err.None? && ridx >= 0 && ValidState(St())
      modifies this, rstack
      ensures Shape()
      ensures ok ==> err.None? && (if ridx >= 0 then ValidState(St()) else Complete(reply))
      ensures ok ==> ReadReply(St(), Unread()) == ReadReply(old(St()), old(Unread())) && |Unread()| + 2 <= |old(Unread())|
      ensures !ok && err.None? ==> ReadReply(old(St()), old(Unread())) == Waiting(St(), Unread())
      ensures !ok && err.None? ==> ridx >= 0 && ValidState(St())
      ensures err.Some? ==> !ok && Valid() && ReadReply(old(St()), old(Unread())) == Broken(err.value)
    {
      hide Step, ValidState, Complete;
      ghost var st0, u0 := St(), Unread();
      if rstack[ridx].kind == Untyped {
        StepUses(st0, u0);
        var typed := ReadItemType();
        if !typed {
          return false;
        }
        UntypedUsesOne(st0, u0);
      } else {
        ArrayHasRoom(st0);
      }
      ghost var st1, u1 := St(), Unread();
      match rstack[ridx].kind {
        case LineTask(kind) => ok := ProcessLineItem(kind);
        case BulkTask => ok := ProcessBulkItem();
        case ArrayTask =>
          if ridx == 8 {
            SetError(TooDeep);
            return false;
          }
          ok := ProcessMultiBulkItem();
        case Untyped => assert false;
      }
      StepUses(st1, u1);
      if ok {
        StepKeepsValid(st1, u1);
      }
    }

    /** Appends bytes from the connection. A large spare buffer is replaced first. */
    method Feed(chunk: seq<byte>) returns (ok: bool)
      requires Valid()
      modifies this
      ensures Valid() && ok == old(err).None?
      ensures Abstract() == RespMachine.Feed(old(Abstract()), chunk)
    {
      hide ValidState;
      if err.Some? {
        return false;
      }
      if |chunk| >= 1 {
        if len == 0 {
          if * {
            buf := [];
            pos := 0;
          }
        }
        buf := buf + chunk;
        len := |buf|;
      }
      return true;
    }

    /** Processes items until the reply is finished, the input runs out or an error occurs. */
    method ProcessItems()
      requires Shape() && err.None? && ridx >= 0 && ValidState(St())
      modifies this, rstack
      ensures Shape()
      ensures match ReadReply(old(St()), old(Unread()))
        case Waiting(st', rest) => err.None? && ridx >= 0 && ValidState(St()) && St() == st' && Unread() == rest
        case Broken(e) => err == Some(e) && Valid()
        case Done(t, rest) => err.None? && ridx == -1 && reply == t && Complete(t) && Unread() == rest
    {
      hide ValidState, Complete, Step;
      ghost var st, u := St(), Unread();
      while ridx >= 0
        invariant Shape() && err.None?
        invariant if ridx >= 0 then ValidState(St()) else Complete(reply)
        invariant ReadReply(St(), Unread()) == ReadReply(st, u)
        decreases |Unread()|
      {
        var processed := ProcessItem();
        if !processed {
          return;
        }
      }
    }

    /** Drops what has been read once it amounts to at least 1024 bytes. */
    method DiscardConsumed()
      requires Shape()
      modifies this`buf, this`pos, this`len
      ensures Shape() && Unread() == old(Unread())
    {
      if pos >= 1024 {
        buf := buf[pos..];
        pos := 0;
        len := |buf|;
      }
    }

    /** The next reply, if the input holds a whole one. */
    method GetReply() returns (ok: bool, out: Option<Reply>)
      requires Valid()
      modifies this, rstack
      ensures Valid()
      ensures Delivers(old(Abstract()), ok, out, Abstract())
    {
      hide ReadReply, ValidState, Complete;
      IdleIsValid();
      NothingToRead(if ridx == -1 then IDLE else St());
      if err.Some? {
        return false, None;
      }
      if len == 0 {
        return true, None;
      }
      if ridx == -1 {
        rstack[0] := ROOT_TASK;
        ridx := 0;
      }
      assert St() == if old(ridx) == -1 then IDLE else old(St());
      ProcessItems();
      if err.Some? {
        return false, None;
      }
      DiscardConsumed();
      if ridx == -1 {
        out := Some(reply);
        reply := Null;
      } else {
        out := None;
      }
      ok := true;
    }
  }

  /** The caller's loop: takes replies until there is none or the reader has failed. */
  method DrainReader(r: RedisReader) returns (ok: bool, replies: seq<Reply>)
    requires r.Valid()
    modifies r, r.rstack
    ensures r.Valid() && ok == r.err.None?
    ensures (r.Abstract(), replies) == Drain(old(r.Abstract()))
  {
    hide ReadReply, RedisReader.Valid, RedisReader.St, RedisReader.Unread;
    replies := [];
    ghost var start := r.Abstract();
    while true
      invariant r.Valid()
      invariant Drain(start).0 == Drain(r.Abstract()).0
      invariant Drain(start).1 == replies + Drain(r.Abstract()).1
      decreases match r.Abstract() case Reading(_, u) => |u| + 1 case Failed(_) => 0
    {
      ghost var before := r.Abstract();
      var out;
      ok, out := r.GetReply();
      if before.Reading? {
        ReadReplyShrinks(before.st, before.unread);
      }
      if !ok || out == None {
        assert Drain(before) == (r.Abstract(), []);
        assert replies + [] == replies;
        return;
      }
      replies := replies + [out.value];
    }
  }

  /** Feeding a stream in chunks gives what feeding it at once would have given. */
  method ReadInChunks(r: RedisReader, chunks: seq<seq<byte>>) returns (replies: seq<Reply>)
    requires r.Valid() && Drain(r.Abstract()) == (r.Abstract(), [])
    modifies r, r.rstack
    ensures r.Valid()
    ensures (r.Abstract(), replies) == Drain(RespMachine.Feed(old(r.Abstract()), Concat(chunks)))
  {
    hide RedisReader.Valid, RedisReader.St, RedisReader.Unread, Drain;
    replies := [];
    ghost var start := r.Abstract();
    assert chunks[0..] == chunks;
    for i := 0 to |chunks|
      invariant r.Valid()
      invariant DrainChunks(start, chunks).0 == DrainChunks(r.Abstract(), chunks[i..]).0
      invariant DrainChunks(start, chunks).1 == replies + DrainChunks(r.Abstract(), chunks[i..]).1
    {
      var accepted := r.Feed(chunks[i]);
      var ok, out := DrainReader(r);
      replies := replies + out;
      assert chunks[i..][0] == chunks[i] && chunks[i..][1..] == chunks[i + 1..];
    }
    assert chunks[|chunks|..] == [];
    assert replies + [] == replies;
    ChunkingDoesNotMatter(start, chunks);
  }
}
