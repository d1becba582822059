/** What each event does to a running connection, when it ends one, and what the actions of callbacks add up to. */
module AsyncEnds {
  import opened Bytes
  import opened RespProtocol
  import opened CallbackQueue
  import opened AsyncMachine
  import opened AsyncRuns
  import opened AsyncCommands

  // ------------------------------------------------------------------ actions

  /** What was asked for in the callbacks from the i-th on, in order. */
  function Requests(client: Client, ran: seq<Delivery>, i: nat): seq<Action>
    decreases |ran|
  {
    if |ran| <= i then [] else Requests(client, ran[..|ran| - 1], i) + client(ran)
  }

  lemma {:induction false} RequestsJoin(client: Client, ran: seq<Delivery>, ran': seq<Delivery>, i: nat)
    requires i <= |ran| && ran <= ran'
    ensures Requests(client, ran', i) == Requests(client, ran, i) + Requests(client, ran', |ran|)
    decreases |ran'|
  {
    if |ran| == |ran'| {
      assert ran == ran' && Requests(client, ran, i) + [] == Requests(client, ran, i);
    } else {
      RequestsJoin(client, ran, ran'[..|ran'| - 1], i);
    }
  }

  predicate Shuts(actions: seq<Action>) {
    AskDisconnect in actions || AskFree in actions
  }

  /** The bytes of the commands asked for before anything was asked to close. */
  function Load(actions: seq<Action>): nat {
    if actions == [] then 0
    else
      var front, last := actions[..|actions| - 1], actions[|actions| - 1];
      Load(front) + (if last.Submit? && !Shuts(front) then last.size else 0)
  }

  /** The commands asked for before anything was asked to close. */
  function Commands(actions: seq<Action>): seq<Callback> {
    if actions == [] then []
    else
      var front, last := actions[..|actions| - 1], actions[|actions| - 1];
      Commands(front) + (if last.Submit? && !Shuts(front) then [last.cb] else [])
  }

  lemma {:induction false} CommandsJoin(a: seq<Action>, b: seq<Action>)
    ensures Shuts(a + b) <==> Shuts(a) || Shuts(b)
    ensures Load(a + b) == Load(a) + (if Shuts(a) then 0 else Load(b))
    ensures Commands(a + b) == Commands(a) + (if Shuts(a) then [] else Commands(b))
    decreases |b|
  {
    hide Shuts, Load, Commands;
    ShutsJoin(a, b);
    if b == [] {
      assert a + b == a;
      NoCommand();
    } else {
      var n := |b| - 1;
      CommandsJoin(a, b[..n]);
      OneMore(b[..n], b[n]);
      OneMore(a + b[..n], b[n]);
      assert b[..n] + [b[n]] == b && a + b[..n] + [b[n]] == a + b;
    }
  }

  lemma NoCommand()
    ensures Load([]) == 0 && Commands([]) == []
  {
  }

  lemma OneMore(front: seq<Action>, last: Action)
    ensures Load(front + [last]) == Load(front) + (if last.Submit? && !Shuts(front) then last.size else 0)
    ensures Commands(front + [last]) == Commands(front) + (if last.Submit? && !Shuts(front) then [last.cb] else [])
  {
    assert (front + [last])[..|front|] == front;
  }

  lemma ShutsJoin(a: seq<Action>, b: seq<Action>)
    ensures Shuts(a + b) <==> Shuts(a) || Shuts(b)
    ensures b == [] ==> !Shuts(b)
  {
  }

  /** The actions took effect in order: closing is recorded, and commands are taken until then. */
  ghost predicate Carried(c: Conn, c': Conn, actions: seq<Action>) {
    && (c'.disconnecting <==> c.disconnecting || AskDisconnect in actions)
    && (c'.freeing <==> c.freeing || AskFree in actions)
    && (if c.Closing() then c'.submitted == c.submitted && c'.pendingOutput == c.pendingOutput
        else c'.submitted == c.submitted + Commands(actions) && c'.pendingOutput == c.pendingOutput + Load(actions))
  }

  /** From c to c' callbacks were run and all their actions took effect. */
  ghost predicate Did(c: Conn, c': Conn, client: Client) {
    c.ran <= c'.ran && Carried(c, c', Requests(client, c'.ran, |c.ran|))
  }

  lemma CarriedTwice(c: Conn, c1: Conn, c2: Conn, a: seq<Action>, b: seq<Action>)
    requires Carried(c, c1, a) && Carried(c1, c2, b)
    ensures Carried(c, c2, a + b)
  {
    hide Commands, Load;
    CommandsJoin(a, b);
  }

  lemma DidTwice(c: Conn, c1: Conn, c2: Conn, client: Client)
    requires Did(c, c1, client) && Did(c1, c2, client)
    ensures Did(c, c2, client)
  {
    hide Carried, Requests;
    RequestsJoin(client, c1.ran, c2.ran, |c.ran|);
    CarriedTwice(c, c1, c2, Requests(client, c1.ran, |c.ran|), Requests(client, c2.ran, |c1.ran|));
  }

  lemma DidNothing(c: Conn, c': Conn, client: Client)
    requires c'.ran == c.ran && c'.submitted == c.submitted && c'.pendingOutput == c.pendingOutput
    requires c'.disconnecting == c.disconnecting && c'.freeing == c.freeing
    ensures Did(c, c', client)
  {
    assert Commands([]) == [] && c.submitted + [] == c.submitted;
  }

  lemma {:induction false} ActAllCarried(c: Conn, actions: seq<Action>)
    ensures Carried(c, ActAll(c, actions), actions)
  {
    hide Act, Carried;
    if actions == [] {
      CarriedNothing(c);
    } else {
      var n := |actions| - 1;
      ActAllCarried(c, actions[..n]);
      ActCarried(ActAll(c, actions[..n]), actions[n]);
      CarriedTwice(c, ActAll(c, actions[..n]), ActAll(c, actions), actions[..n], [actions[n]]);
      assert actions == actions[..n] + [actions[n]];
    }
  }

  lemma CarriedNothing(c: Conn)
    ensures Carried(c, c, [])
  {
    assert c.submitted + [] == c.submitted;
  }

  lemma ActCarried(c: Conn, a: Action)
    ensures Carried(c, Act(c, a), [a])
  {
    assert [a][..0] == [];
    assert Commands([a]) == [] + (if a.Submit? then [a.cb] else []);
    assert c.submitted + [] == c.submitted;
  }

  lemma AnswerDid(c: Conn, client: Client, reply: Option<Reply>)
    requires c.queue != []
    ensures Did(c, Answer(c, client, reply), client)
  {
    hide ActAll, Carried;
    var c1 := Taken(c, reply);
    DidNothing(c, c1, client);
    if c.queue[0].fn != None {
      var c2 := c1.(ran := c1.ran + [Delivery(c.queue[0], reply)]);
      ActAllFrames(c2, client(c2.ran));
      ActAllCarried(c2, client(c2.ran));
      assert c2.ran[..|c.ran|] == c.ran;
      assert Requests(client, c2.ran, |c.ran|) == [] + client(c2.ran) == client(c2.ran);
      SameStart(c, c2, Answer(c, client, reply), client(c2.ran));
    }
  }

  lemma SameStart(c: Conn, c1: Conn, c': Conn, actions: seq<Action>)
    requires Carried(c1, c', actions) && c1.submitted == c.submitted && c1.pendingOutput == c.pendingOutput
    requires c1.disconnecting == c.disconnecting && c1.freeing == c.freeing
    ensures Carried(c, c', actions)
  {
  }

  /** Why a reply ended the connection. */
  ghost predicate WhyReleased(c': Conn, o: Outcome) {
    o == Released ==> c'.err || c'.freeing
  }

  lemma {:induction false} TeardownKeeps(c: Conn, client: Client)
    requires c.Closing() || c.queue == []
    ensures var c' := Teardown(c, client);
      c'.err == c.err && c'.pendingOutput == c.pendingOutput && c'.received == c.received && (c.freeing ==> c'.freeing)
    decreases |c.queue|
  {
    if c.queue != [] {
      var d := Delivery(c.queue[0], None);
      ActAllFrames(c.(queue := c.queue[1..], delivered := c.delivered + [d], ran := c.ran + [d]), client(c.ran + [d]));
      TeardownKeeps(AnswerNull(c, client), client);
    }
  }

  lemma HandOutDid(c: Conn, client: Client, reply: Reply)
    ensures var (c', o) := HandOut(c, client, reply); (o == Running ==> Did(c, c', client)) && WhyReleased(c', o)
  {
    hide Did, Invoke, Teardown;
    DidNothing(c, c, client);
    if c.queue == [] {
      TeardownKeeps(c.(err := true, disconnecting := true), client);
    } else {
      AnswerDid(c, client, Some(reply));
      var c1 := Answer(c, client, Some(reply));
      if c1.freeing {
        TeardownKeeps(c1, client);
      }
    }
  }

  lemma {:induction false} HandAllDid(c: Conn, client: Client, incoming: seq<Reply>)
    ensures var (c', o) := HandAll(c, client, incoming); (o == Running ==> Did(c, c', client)) && WhyReleased(c', o)
  {
    hide Did, HandOut;
    if incoming == [] {
      DidNothing(c, c, client);
    } else {
      var n := |incoming| - 1;
      var (c1, o1) := HandAll(c, client, incoming[..n]);
      HandAllDid(c, client, incoming[..n]);
      if o1 == Running {
        HandOutDid(c1, client, incoming[n]);
        var (c2, o2) := HandOut(c1, client, incoming[n]);
        if o2 == Running {
          DidTwice(c, c1, c2, client);
        }
      }
    }
  }

  // ------------------------------------------------------------------ reading

  /** The connection closes cleanly as soon as it is to, nothing is left to write and nobody waits. */
  predicate Due(c: Conn) {
    c.disconnecting && c.pendingOutput == 0 && c.queue == []
  }

  /** What processing the replies at hand does. */
  ghost predicate Processed(c: Conn, c': Conn, o: Outcome, client: Client, incoming: seq<Reply>, readable: bool) {
    && (o == Running ==> readable && !Due(c') && Did(c, c', client))
    && (o == Released && !c'.err && !c'.freeing ==>
          && readable && Due(c') && Did(c, c', client)
          && c'.received == c.received + incoming && |c'.delivered| == |c'.received|)
    && (o == Released && c'.received == c.received + incoming ==> c'.freeing || !readable || Due(c'))
  }

  lemma ProcessDone(c: Conn, client: Client, incoming: seq<Reply>, readable: bool)
    requires Ongoing(c)
    ensures var (c', o) := ProcessCallbacks(c, client, incoming, readable); Processed(c, c', o, client, incoming, readable)
  {
    hide HandAll, Teardown, Did, Booked, AllAnswered;
    var k := HandAllBooks(c, client, incoming);
    HandAllDid(c, client, incoming);
    var (c1, o1) := HandAll(c, client, incoming);
    if o1 == Running {
      TeardownKeeps(c1.(err := true, disconnecting := true), client);
      if Due(c1) {
        ReleasedNow(c1, client);
        DidNothing(c1, c1.(released := true), client);
        DidTwice(c, c1, c1.(released := true), client);
      }
    }
  }

  lemma ReleasedNow(c: Conn, client: Client)
    requires c.queue == [] && !c.err
    ensures DisconnectNow(c, client) == c.(released := true)
  {
  }

  /** The event is one of reading replies from an established connection. */
  predicate Reads(c: Conn, e: Event) {
    e.Readable? && e.readOk && (c.connected || e.check == Established)
  }

  lemma NextEvent(client: Client, events: seq<Event>, e: Event)
    requires Play(client, events).1 == Running
    ensures Play(client, events + [e]) == Handle(Play(client, events).0, client, e)
  {
    assert (events + [e])[..|events|] == events;
  }

  /**
   * The deferred clean disconnect. An event that reads replies leaves the connection running only while there is
   * still a reason to: it is not to be closed, or output is pending, or a command waits. It closes it, with neither
   * an error nor a release from a callback, only when none of these is left and every command got its reply.
   */
  lemma CleanDisconnect(client: Client, events: seq<Event>, e: Event)
    requires Play(client, events).1 == Running && Reads(Play(client, events).0, e)
    ensures var (c, (c', o)) := (Play(client, events).0, Play(client, events + [e]));
      && (o == Running ==>
            e.readable && c'.connected && Did(c, c', client) && !(c'.disconnecting && c'.pendingOutput == 0 && c'.queue == []))
      && (o == Released && !c'.err && !c'.freeing ==>
            && e.readable && Did(c, c', client) && c'.disconnecting && c'.pendingOutput == 0
            && c'.received == c.received + e.incoming && |c'.delivered| == |c'.received| == |c'.submitted|)
      && (o == Released && c'.received == c.received + e.incoming ==>
            c'.freeing || !e.readable || (c'.disconnecting && c'.pendingOutput == 0))
  {
    hide Did, ProcessCallbacks, Booked, Play;
    var c := Play(client, events).0;
    NextEvent(client, events, e);
    var c1 := c.(connected := true);
    RunningIsOngoing(client, events);
    SameBooks(c, c1);
    ProcessDone(c1, client, e.incoming, e.readable);
    var k := ProcessBooks(c1, client, e.incoming, e.readable);
    DidAlike(c, c1, Play(client, events + [e]).0, client);
  }

  lemma DidAlike(c: Conn, c1: Conn, c': Conn, client: Client)
    requires c1 == c.(connected := true)
    ensures Did(c, c', client) == Did(c1, c', client)
  {
  }

  /** Every other event: what it changes, and exactly when it ends the connection. */
  lemma OtherEvents(client: Client, events: seq<Event>, e: Event)
    requires Play(client, events).1 == Running && !Reads(Play(client, events).0, e)
    ensures var (c, (c', o)) := (Play(client, events).0, Play(client, events + [e]));
      match e
      case Issue(cb, size) =>
        && o == Running && c'.ran == c.ran
        && (if c.Closing() then c' == c
            else c'.submitted == c.submitted + [cb] && c'.pendingOutput == c.pendingOutput + size && !c'.Closing())
      case Close =>
        && (o == Released <==> c.queue == []) && (o == Running <==> c.queue != [])
        && c' == c.(disconnecting := true, released := c.queue == [])
      case Release => o == Released && c'.freeing
      case Readable(check, _, _, _) =>
        if !c.connected && check == InProgress then o == Running && c' == c
        else o == Released && c'.err && c'.received == c.received
      case Writable(check, writeOk, written) =>
        if !c.connected && check == InProgress then o == Running && c' == c
        else if (!c.connected && check == Refused) || !writeOk then o == Released && c'.err
        else
          && o == Running && c' == c.(connected := true, pendingOutput := c'.pendingOutput)
          && c'.pendingOutput == (if c.pendingOutput < written then 0 else c.pendingOutput - written)
  {
    hide Booked, Play, Teardown;
    var c := Play(client, events).0;
    NextEvent(client, events, e);
    RunningIsOngoing(client, events);
    if c.queue == [] {
      ReleasedNow(c.(disconnecting := true), client);
    }
    TeardownKeeps(c.(err := true, disconnecting := true), client);
    TeardownKeeps(c.(connected := true, err := true, disconnecting := true), client);
    TeardownKeeps(c.(freeing := true), client);
  }

  /** A connection that still runs is closing exactly if somebody asked to disconnect; nobody asked to release it. */
  lemma {:induction false} ClosingIsAsked(client: Client, events: seq<Event>)
    ensures var (c, o) := Play(client, events);
      o == Running ==>
        && (c.disconnecting <==> Close in events || AskDisconnect in Requests(client, c.ran, 0))
        && Release !in events && AskFree !in Requests(client, c.ran, 0) && !c.freeing
    decreases |events|
  {
    if events == [] {
    } else {
      var front, e := events[..|events| - 1], events[|events| - 1];
      ClosingIsAsked(client, front);
      assert events == front + [e];
      var (c, o) := Play(client, front);
      var (c', o') := Play(client, events);
      if o == Running && o' == Running {
        RunningIsOngoing(client, events);
        hide Play, Booked;
        if Reads(c, e) {
          CleanDisconnect(client, front, e);
          RequestsJoin(client, c.ran, c'.ran, 0);
        } else {
          OtherEvents(client, front, e);
        }
      }
    }
  }
}
