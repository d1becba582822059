/** The asynchronous context with its flags and its linked list of callbacks, refining the machine. */
module Async {
  import opened Bytes
  import opened RespProtocol
  import opened CallbackQueue
  import opened M = AsyncMachine

  class AsyncContext {
    const client: Client
    const replies: CallbackList
    var connected: bool
    var disconnecting: bool
    var freeing: bool
    var inCallback: bool
    var err: bool
    var pendingOutput: nat
    var released: bool

    /** The callbacks that were run, which is what the client knows. */
    var ran: seq<Delivery>

    ghost var submitted: seq<Callback>
    ghost var delivered: seq<Delivery>
    ghost var received: seq<Reply>

    ghost predicate Valid()
      reads this, replies, replies.Repr
    {
      replies.Valid() && this !in replies.Repr
    }

    ghost function View(): Conn
      reads this, replies, replies.Repr
    {
      Conn(replies.Contents(), submitted, delivered, ran, received,
           connected, disconnecting, freeing, err, pendingOutput, released)
    }

    constructor (client: Client)
      ensures Valid() && fresh(replies.Repr) && this.client == client
      ensures View() == NEW_CONN && !inCallback
    {
      this.client := client;
      replies := new CallbackList();
      connected, disconnecting, freeing, inCallback, err, released := false, false, false, false, false, false;
      pendingOutput := 0;
      ran, submitted, delivered, received := [], [], [], [];
    }

    /** Queues a command, unless the connection is about to be closed. */
    method Command(cb: Callback, size: nat) returns (ok: bool)
      requires Valid()
      modifies this`pendingOutput, this`submitted, replies.Repr
      ensures Valid() && fresh(replies.Repr - old(replies.Repr))
      ensures ok <==> !old(View()).Closing()
      ensures View() == M.Command(old(View()), cb, size)
    {
      hide CallbackList.Valid, CallbackList.Contents;
      if disconnecting || freeing {
        return false;
      }
      replies.Push(cb);
      submitted := submitted + [cb];
      pendingOutput := pendingOutput + size;
      return true;
    }

    /** Runs one callback; the closing it asks for is only recorded while it runs. */
    method RunCallback(cb: Callback, reply: Option<Reply>)
      requires Valid() && !inCallback
      modifies this, replies.Repr
      ensures Valid() && !inCallback && fresh(replies.Repr - old(replies.Repr))
      ensures View() == Invoke(old(View()), client, cb, reply)
      decreases if inCallback then 0 else 1, 1
    {
      hide CallbackList.Valid, CallbackList.Contents, M.Command;
      if cb.fn != None {
        inCallback := true;
        ran := ran + [Delivery(cb, reply)];
        var actions := client(ran);
        ghost var start := View();
        for i := 0 to |actions|
          invariant Valid() && inCallback && fresh(replies.Repr - old(replies.Repr))
          invariant View() == ActAll(start, actions[..i])
        {
          assert actions[..i + 1][..i] == actions[..i];
          match actions[i]
          case Submit(c, size) => var ok := Command(c, size);
          case AskDisconnect => Disconnect();
          case AskFree => Free();
        }
        assert actions[..|actions|] == actions;
        inCallback := false;
      }
    }

    /** Answers every waiting command with no reply and releases the context. A callback may try to issue
        commands, but none is accepted any more. */
    method Teardown()
      requires Valid() && !inCallback
      requires View().Closing() || View().queue == []
      modifies this, replies.Repr
      ensures Valid() && !inCallback && fresh(replies.Repr - old(replies.Repr))
      ensures View() == M.Teardown(old(View()), client)
      decreases if inCallback then 0 else 1, 3
    {
      hide CallbackList.Valid, CallbackList.Contents, Invoke;
      var more := true;
      while more
        invariant Valid() && !inCallback && fresh(replies.Repr - old(replies.Repr))
        invariant View().Closing() || View().queue == []
        invariant more || View().queue == []
        invariant M.Teardown(View(), client) == M.Teardown(old(View()), client)
        decreases |View().queue|, more
      {
        more := AnswerNull();
      }
      released := true;
    }

    /** Takes the oldest waiting command, if any, and answers it without a reply. */
    method AnswerNull() returns (more: bool)
      requires Valid() && !inCallback
      requires View().Closing() || View().queue == []
      modifies this, replies.Repr
      ensures Valid() && !inCallback && fresh(replies.Repr - old(replies.Repr))
      ensures more <==> old(View()).queue != []
      ensures View() == if more then M.AnswerNull(old(View()), client) else old(View())
      decreases if inCallback then 0 else 1, 2
    {
      hide CallbackList.Valid, CallbackList.Contents, Invoke;
      var cb := replies.Shift();
      if cb == None {
        return false;
      }
      delivered := delivered + [Delivery(cb.value, None)];
      RunCallback(cb.value, None);
      return true;
    }

    /** Disconnects now: cleanly only when nothing waits, otherwise because of an error. */
    method DisconnectNow()
      requires Valid() && !inCallback
      requires View().err || View().queue == []
      modifies this, replies.Repr
      ensures Valid() && !inCallback && fresh(replies.Repr - old(replies.Repr))
      ensures View() == M.DisconnectNow(old(View()), client)
      decreases if inCallback then 0 else 1, 4
    {
      hide CallbackList.Valid, CallbackList.Contents, M.Teardown;
      if !err {
        var none := replies.Shift();
        assert none == None;
      } else {
        disconnecting := true;
      }
      Teardown();
    }

    /** Stops accepting commands; disconnects at once when nothing waits for a reply. */
    method Disconnect()
      requires Valid()
      modifies this, replies.Repr
      ensures Valid() && inCallback == old(inCallback) && fresh(replies.Repr - old(replies.Repr))
      ensures View() == if inCallback then Act(old(View()), AskDisconnect) else M.Disconnect(old(View()), client)
      decreases if inCallback then 0 else 1, 5
    {
      hide CallbackList.Contents, M.DisconnectNow;
      disconnecting := true;
      if !inCallback && replies.head == null {
        DisconnectNow();
      }
    }

    /** Releases the context, at once outside a callback and afterwards inside one. */
    method Free()
      requires Valid()
      modifies this, replies.Repr
      ensures Valid() && inCallback == old(inCallback) && fresh(replies.Repr - old(replies.Repr))
      ensures View() == if inCallback then Act(old(View()), AskFree) else M.Free(old(View()), client)
      decreases if inCallback then 0 else 1, 5
    {
      hide CallbackList.Valid, CallbackList.Contents, M.Teardown;
      freeing := true;
      if !inCallback {
        Teardown();
      }
    }

    /** Gives one reply to the command that has waited longest. */
    method HandOut(reply: Reply) returns (outcome: Outcome)
      requires Valid() && !inCallback
      modifies this, replies.Repr
      ensures Valid() && !inCallback && fresh(replies.Repr - old(replies.Repr))
      ensures (View(), outcome) == M.HandOut(old(View()), client, reply)
    {
      hide CallbackList.Valid, CallbackList.Contents, M.Give, M.DisconnectNow;
      var cb := replies.Shift();
      if cb == None {
        if IsError(reply) {
          err := true;
          DisconnectNow();
          return Released;
        }
        return AssertionFailed;
      }
      outcome := Give(cb.value, reply);
    }

    /** Gives a reply to the command just taken from the queue, and goes on with a release asked for meanwhile. */
    method Give(cb: Callback, reply: Reply) returns (outcome: Outcome)
      requires Valid() && !inCallback
      modifies this, replies.Repr
      ensures Valid() && !inCallback && fresh(replies.Repr - old(replies.Repr))
      ensures (View(), outcome) == M.Give(old(View()), client, cb, reply)
    {
      hide CallbackList.Valid, CallbackList.Contents, M.Teardown, Invoke;
      delivered := delivered + [Delivery(cb, Some(reply))];
      received := received + [reply];
      if cb.fn != None {
        RunCallback(cb, Some(reply));
        if freeing {
          Teardown();
          return Released;
        }
      } else {
        Uncalled(View(), client, cb, Some(reply));
      }
      return Running;
    }

    /** Hands out the replies that have arrived, one callback each. incoming is what the reader
        yields before it has no further reply (readable) or reports an error. */
    method ProcessCallbacks(incoming: seq<Reply>, readable: bool) returns (outcome: Outcome)
      requires Valid() && !inCallback
      modifies this, replies.Repr
      ensures Valid() && !inCallback && fresh(replies.Repr - old(replies.Repr))
      ensures (View(), outcome) == M.ProcessCallbacks(old(View()), client, incoming, readable)
    {
      hide CallbackList.Contents, M.HandOut, M.DisconnectNow;
      var i := 0;
      while i < |incoming|
        invariant 0 <= i <= |incoming|
        invariant Valid() && !inCallback && fresh(replies.Repr - old(replies.Repr))
        invariant (View(), Running) == HandAll(old(View()), client, incoming[..i])
      {
        assert incoming[..i + 1][..i] == incoming[..i];
        outcome := HandOut(incoming[i]);
        i := i + 1;
        if outcome != Running {
          StopsThere(old(View()), client, incoming, i);
          return;
        }
      }
      assert incoming[..i] == incoming;
      if !readable {
        err := true;
        DisconnectNow();
        return Released;
      }
      if disconnecting && pendingOutput == 0 && replies.head == null {
        DisconnectNow();
        return Released;
      }
      return Running;
    }

    /** The socket check, made on the first events until the connection is established. */
    method HandleConnect(check: Check) returns (outcome: Outcome)
      requires Valid() && !inCallback && !connected
      modifies this, replies.Repr
      ensures Valid() && !inCallback && fresh(replies.Repr - old(replies.Repr))
      ensures (View(), outcome) == M.HandleConnect(old(View()), client, check)
    {
      hide CallbackList.Valid, CallbackList.Contents, M.DisconnectNow;
      match check
      case InProgress => return Running;
      case Refused =>
        err := true;
        DisconnectNow();
        return Released;
      case Established =>
        connected := true;
        return Running;
    }

    /** The socket is readable: either reading fails or replies are handed out. */
    method HandleRead(check: Check, readOk: bool, incoming: seq<Reply>, readable: bool) returns (outcome: Outcome)
      requires Valid() && !inCallback
      modifies this, replies.Repr
      ensures Valid() && !inCallback && fresh(replies.Repr - old(replies.Repr))
      ensures (View(), outcome) == M.HandleRead(old(View()), client, check, readOk, incoming, readable)
    {
      hide CallbackList.Valid, CallbackList.Contents, M.DisconnectNow, M.ProcessCallbacks;
      if !connected {
        outcome := HandleConnect(check);
        if outcome != Running || !connected {
          return;
        }
      }
      if !readOk {
        err := true;
        DisconnectNow();
        return Released;
      }
      outcome := ProcessCallbacks(incoming, readable);
    }

    /** The socket is writable: some output leaves, or writing fails. */
    method HandleWrite(check: Check, writeOk: bool, written: nat) returns (outcome: Outcome)
      requires Valid() && !inCallback
      modifies this, replies.Repr
      ensures Valid() && !inCallback && fresh(replies.Repr - old(replies.Repr))
      ensures (View(), outcome) == M.HandleWrite(old(View()), client, check, writeOk, written)
    {
      hide CallbackList.Valid, CallbackList.Contents, M.DisconnectNow;
      if !connected {
        outcome := HandleConnect(check);
        if outcome != Running || !connected {
          return;
        }
      }
      if !writeOk {
        err := true;
        DisconnectNow();
        return Released;
      }
      pendingOutput := if written <= pendingOutput then pendingOutput - written else 0;
      return Running;
    }

    /** One event from outside. */
    method HandleEvent(e: Event) returns (outcome: Outcome)
      requires Valid() && !inCallback
      modifies this, replies.Repr
      ensures Valid() && !inCallback && fresh(replies.Repr - old(replies.Repr))
      ensures (View(), outcome) == Handle(old(View()), client, e)
    {
      hide CallbackList.Valid, CallbackList.Contents, M.Command, M.Disconnect, M.Free, M.HandleRead, M.HandleWrite;
      match e
      case Issue(cb, size) =>
        var ok := Command(cb, size);
        return Running;
      case Close =>
        Disconnect();
        return if released then Released else Running;
      case Release =>
        Free();
        return Released;
      case Readable(check, readOk, incoming, readable) =>
        outcome := HandleRead(check, readOk, incoming, readable);
      case Writable(check, writeOk, written) =>
        outcome := HandleWrite(check, writeOk, written);
    }
  }

  lemma Uncalled(c: Conn, client: Client, cb: Callback, reply: Option<Reply>)
    requires cb.fn == None
    ensures Invoke(c, client, cb, reply) == c
  {
  }

  /** Once handing out stops, the later replies are not handed out. */
  lemma {:induction false} StopsThere(c: Conn, client: Client, incoming: seq<Reply>, i: nat)
    requires i <= |incoming| && HandAll(c, client, incoming[..i]).1 != Running
    ensures HandAll(c, client, incoming) == HandAll(c, client, incoming[..i])
    decreases |incoming| - i
  {
    if i == |incoming| {
      assert incoming[..i] == incoming;
    } else {
      assert incoming[..i + 1][..i] == incoming[..i];
      StopsThere(c, client, incoming, i + 1);
    }
  }

  /** Every run of events does what the machine does. */
  method RunEvents(client: Client, events: seq<Event>) returns (ctx: AsyncContext, outcome: Outcome)
    ensures ctx.Valid() && (ctx.View(), outcome) == Play(client, events)
  {
    hide AsyncContext.Valid, AsyncContext.View, Handle;
    ctx := new AsyncContext(client);
    outcome := Running;
    for i := 0 to |events|
      invariant ctx.Valid() && fresh(ctx) && fresh(ctx.replies.Repr) && ctx.client == client
      invariant (ctx.View(), outcome) == Play(client, events[..i])
      invariant !ctx.inCallback
    {
      assert events[..i + 1][..i] == events[..i];
      if outcome == Running {
        outcome := ctx.HandleEvent(events[i]);
      }
    }
    assert events[..|events|] == events;
  }
}
