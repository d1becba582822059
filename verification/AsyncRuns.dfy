/** What holds over every run of an asynchronous connection, for every client. */
module AsyncRuns {
  import opened Bytes
  import opened RespProtocol
  import opened CallbackQueue
  import opened AsyncMachine

  function Callbacks(ds: seq<Delivery>): (r: seq<Callback>)
    ensures |r| == |ds| && forall i :: 0 <= i < |r| ==> r[i] == ds[i].cb
  {
    seq(|ds|, i requires 0 <= i < |ds| => ds[i].cb)
  }

  /** The first deliveries carry the received replies in order, the rest carry none. */
  ghost predicate InOrder(delivered: seq<Delivery>, received: seq<Reply>) {
    && |received| <= |delivered|
    && (forall i :: 0 <= i < |received| ==> delivered[i].reply == Some(received[i]))
    && (forall i :: |received| <= i < |delivered| ==> delivered[i].reply == None)
  }

  /** The deliveries that run a callback: those of commands that have one. */
  function RunOf(ds: seq<Delivery>): seq<Delivery> {
    if ds == [] then []
    else RunOf(ds[..|ds| - 1]) + (if ds[|ds| - 1].cb.fn != None then [ds[|ds| - 1]] else [])
  }

  /** Every accepted command is either answered or still queued, once and in submission order; replies go to
      the commands in that order; and exactly the answered commands with a callback have had it run. */
  ghost predicate Booked(c: Conn) {
    && Callbacks(c.delivered) + c.queue == c.submitted
    && InOrder(c.delivered, c.received)
    && c.ran == RunOf(c.delivered)
  }

  lemma RunOfMore(ds: seq<Delivery>, d: Delivery)
    ensures RunOf(ds + [d]) == RunOf(ds) + (if d.cb.fn != None then [d] else [])
  {
    assert (ds + [d])[..|ds|] == ds;
  }

  lemma {:induction false} ActAllBooks(c: Conn, actions: seq<Action>)
    requires Callbacks(c.delivered) + c.queue == c.submitted
    ensures var c' := ActAll(c, actions);
      Callbacks(c'.delivered) + c'.queue == c'.submitted && c.submitted <= c'.submitted
  {
    hide Callbacks;
    if actions != [] {
      var before := ActAll(c, actions[..|actions| - 1]);
      ActAllFrames(c, actions[..|actions| - 1]);
      ActAllBooks(c, actions[..|actions| - 1]);
      match actions[|actions| - 1] {
        case Submit(cb, _) => assert Callbacks(c.delivered) + (before.queue + [cb]) == before.submitted + [cb];
        case _ =>
      }
    }
  }

  /** The oldest command is taken from the queue, with the reply it is given, if any. */
  function Taken(c: Conn, reply: Option<Reply>): Conn
    requires c.queue != []
  {
    c.(queue := c.queue[1..], delivered := c.delivered + [Delivery(c.queue[0], reply)],
       received := if reply.Some? then c.received + [reply.value] else c.received)
  }

  function Answer(c: Conn, client: Client, reply: Option<Reply>): Conn
    requires c.queue != []
  {
    Invoke(Taken(c, reply), client, c.queue[0], reply)
  }

  lemma TakenQueue(c: Conn, reply: Option<Reply>)
    requires Callbacks(c.delivered) + c.queue == c.submitted && c.queue != []
    ensures var c' := Taken(c, reply); Callbacks(c'.delivered) + c'.queue == c'.submitted
  {
    var d := Delivery(c.queue[0], reply);
    assert Callbacks(c.delivered + [d]) == Callbacks(c.delivered) + [d.cb];
    hide Callbacks;
    var done := Callbacks(c.delivered);
    assert [c.queue[0]] + c.queue[1..] == c.queue;
    assert done + [c.queue[0]] + c.queue[1..] == done + ([c.queue[0]] + c.queue[1..]);
  }

  lemma TakenOrder(c: Conn, reply: Option<Reply>)
    requires InOrder(c.delivered, c.received) && c.queue != [] && (reply.Some? ==> |c.delivered| == |c.received|)
    ensures var c' := Taken(c, reply); InOrder(c'.delivered, c'.received)
  {
  }

  lemma TakenRuns(c: Conn, reply: Option<Reply>)
    requires c.ran == RunOf(c.delivered) && c.queue != []
    ensures RunOf(Taken(c, reply).delivered)
         == c.ran + (if c.queue[0].fn != None then [Delivery(c.queue[0], reply)] else [])
  {
    hide RunOf;
    RunOfMore(c.delivered, Delivery(c.queue[0], reply));
  }

  lemma TakenBooks(c: Conn, reply: Option<Reply>)
    requires Booked(c) && c.queue != [] && (reply.Some? ==> |c.delivered| == |c.received|)
    ensures var c' := Taken(c, reply);
      && Callbacks(c'.delivered) + c'.queue == c'.submitted && InOrder(c'.delivered, c'.received)
      && RunOf(c'.delivered) == c.ran + (if c.queue[0].fn != None then [Delivery(c.queue[0], reply)] else [])
  {
    hide Callbacks, InOrder, RunOf, Taken;
    TakenQueue(c, reply);
    TakenOrder(c, reply);
    TakenRuns(c, reply);
  }

  /** Running the callback of a command that was taken. */
  lemma InvokeBooks(c: Conn, client: Client, cb: Callback, reply: Option<Reply>)
    requires Callbacks(c.delivered) + c.queue == c.submitted
    ensures var c' := Invoke(c, client, cb, reply);
      && Callbacks(c'.delivered) + c'.queue == c'.submitted && c.submitted <= c'.submitted
      && c'.ran == c.ran + (if cb.fn != None then [Delivery(cb, reply)] else [])
      && Frames(c.(ran := c'.ran), c')
  {
    hide Callbacks;
    if cb.fn != None {
      var c' := c.(ran := c.ran + [Delivery(cb, reply)]);
      ActAllFrames(c', client(c'.ran));
      ActAllBooks(c', client(c'.ran));
    }
  }

  /** What answering the oldest command keeps. */
  lemma AnswerBooks(c: Conn, client: Client, reply: Option<Reply>)
    requires Booked(c) && c.queue != [] && (reply.Some? ==> |c.delivered| == |c.received|)
    ensures var c' := Answer(c, client, reply);
      && Booked(c') && c.submitted <= c'.submitted && Frames(Taken(c, reply).(ran := c'.ran), c')
      && (c.queue[0].fn == None ==> c' == Taken(c, reply))
  {
    hide Callbacks, InOrder, RunOf, ActAll;
    TakenBooks(c, reply);
    InvokeBooks(Taken(c, reply), client, c.queue[0], reply);
  }

  lemma AnswerNullIs(c: Conn, client: Client)
    requires c.queue != [] && c.Closing()
    ensures AnswerNull(c, client) == Answer(c, client, None)
  {
  }

  /** Released, with every accepted command answered. */
  ghost predicate AllAnswered(c: Conn) {
    c.released && c.queue == [] && Callbacks(c.delivered) == c.submitted
  }

  /** The drain ends; then every accepted command has been answered, and none was accepted meanwhile. */
  lemma {:induction false} TeardownBooks(c: Conn, client: Client)
    requires Booked(c) && (c.Closing() || c.queue == [])
    ensures var c' := Teardown(c, client);
      && Booked(c') && AllAnswered(c') && c'.submitted == c.submitted && c'.received == c.received
      && (c.disconnecting ==> c'.disconnecting) && (c.freeing ==> c'.freeing)
      && (c.queue == [] ==> c'.delivered == c.delivered)
    decreases |c.queue|
  {
    hide InOrder, RunOf, Answer, AnswerNull, Callbacks;
    if c.queue != [] {
      AnswerBooks(c, client, None);
      AnswerNullIs(c, client);
      TeardownBooks(AnswerNull(c, client), client);
    }
  }

  // ------------------------------------------------------------------ one event

  /** Between events: as many answers as replies, and nothing pending that would end the connection. */
  ghost predicate Ongoing(c: Conn) {
    Booked(c) && |c.delivered| == |c.received| && !c.released && !c.freeing && !c.err
  }

  /** Why a connection came to its end: k of the arrived replies were handed out. */
  ghost predicate Ended(c: Conn, o: Outcome, incoming: seq<Reply>, k: nat)
    requires k <= |incoming|
  {
    match o
    case Running => Ongoing(c) && k == |incoming|
    case Released =>
      && AllAnswered(c) && c.Closing()
      && (k < |incoming| ==> c.freeing || (IsError(incoming[k]) && |c.received| == |c.submitted|))
    case AssertionFailed =>
      k < |incoming| && !IsError(incoming[k]) && c.queue == [] && |c.received| == |c.submitted|
  }

  /** What every step keeps. */
  ghost predicate Kept(c: Conn, c': Conn) {
    Booked(c') && c.submitted <= c'.submitted && (c.Closing() ==> c'.Closing() && c'.submitted == c.submitted)
  }

  lemma FailBooks(c: Conn, client: Client)
    requires Booked(c)
    ensures var (c', o) := Fail(c, client);
      o == Released && Booked(c') && AllAnswered(c') && c'.Closing() && c'.submitted == c.submitted && c'.received == c.received
  {
    hide Callbacks, InOrder, RunOf, AllAnswered, Teardown;
    TeardownBooks(c.(err := true, disconnecting := true), client);
  }

  lemma NothingWaits(c: Conn)
    requires Ongoing(c) && c.queue == []
    ensures |c.received| == |c.submitted|
  {
  }

  lemma HandOutBooks(c: Conn, client: Client, reply: Reply)
    requires Ongoing(c)
    ensures var (c', o) := HandOut(c, client, reply);
      && Kept(c, c') && (o == Running ==> c'.connected == c.connected)
      && (if c.queue == [] then c'.received == c.received && Ended(c', o, [reply], 0)
          else c'.received == c.received + [reply] && Ended(c', o, [reply], 1) && (o == Released ==> c'.freeing))
  {
    hide Callbacks, InOrder, RunOf, AllAnswered, Teardown, Fail, Invoke;
    if c.queue == [] {
      NothingWaits(c);
      FailBooks(c, client);
    } else {
      AnswerBooks(c, client, Some(reply));
      var c' := Answer(c, client, Some(reply));
      if c'.Closing() {
        TeardownBooks(c', client);
      }
    }
  }

  /** Of the replies at hand the first k are handed out, one to a command. */
  lemma {:induction false} HandAllBooks(c: Conn, client: Client, incoming: seq<Reply>) returns (k: nat)
    requires Ongoing(c)
    ensures var (c', o) := HandAll(c, client, incoming);
      && k <= |incoming| && c'.received == c.received + incoming[..k] && Kept(c, c') && Ended(c', o, incoming, k)
      && (o == Running ==> c'.connected == c.connected) && (o == Released ==> c'.freeing || k < |incoming|)
    decreases |incoming|
  {
    hide Booked, AllAnswered, HandOut, Ongoing;
    k := 0;
    OngoingKept(c);
    if incoming != [] {
      var n := |incoming| - 1;
      k := HandAllBooks(c, client, incoming[..n]);
      var (c1, o1) := HandAll(c, client, incoming[..n]);
      assert incoming[..n][..k] == incoming[..k];
      if o1 == Running {
        HandOutBooks(c1, client, incoming[n]);
        assert incoming[..n] + [incoming[n]] == incoming == incoming[..n + 1];
        if c1.queue != [] {
          k := n + 1;
        }
      }
    }
  }

  lemma OngoingKept(c: Conn)
    requires Ongoing(c)
    ensures Kept(c, c)
  {
  }

  /** The replies an event brings. */
  function Incoming(e: Event, connected: bool): seq<Reply> {
    if e.Readable? && e.readOk && (connected || e.check == Established) then e.incoming else []
  }

  predicate Connects(e: Event) {
    (e.Readable? || e.Writable?) && e.check == Established
  }

  lemma ProcessBooks(c: Conn, client: Client, incoming: seq<Reply>, readable: bool) returns (k: nat)
    requires Ongoing(c)
    ensures var (c', o) := ProcessCallbacks(c, client, incoming, readable);
      && k <= |incoming| && c'.received == c.received + incoming[..k] && Kept(c, c') && Ended(c', o, incoming, k)
      && (o == Running ==> c'.connected == c.connected)
  {
    hide AllAnswered, HandAll, Callbacks, InOrder, RunOf, Fail, Teardown;
    k := HandAllBooks(c, client, incoming);
    var (c1, o1) := HandAll(c, client, incoming);
    if o1 == Running {
      FailBooks(c1, client);
      if c1.disconnecting {
        TeardownBooks(c1, client);
      }
    }
  }

  lemma CommandBooks(c: Conn, cb: Callback, size: nat)
    requires Ongoing(c)
    ensures Ongoing(Command(c, cb, size)) && Kept(c, Command(c, cb, size))
  {
    assert Callbacks(c.delivered) + (c.queue + [cb]) == c.submitted + [cb] || c.Closing();
  }

  /** What an event keeps: the first k of the replies it brings are handed out, all while the connection lasts. */
  ghost predicate Step(c: Conn, c': Conn, o: Outcome, e: Event, k: nat) {
    var incoming := Incoming(e, c.connected);
    && k <= |incoming| && c'.received == c.received + incoming[..k] && Kept(c, c') && Ended(c', o, incoming, k)
    && (o == Running ==> c'.connected == (c.connected || Connects(e)))
    && (e.Close? || e.Release? ==> c'.Closing())
  }

  /** An event that only fails, from a state that is the same to the books. */
  lemma FailStep(c: Conn, c1: Conn, client: Client, e: Event)
    requires Ongoing(c) && (c1 == c || c1 == c.(connected := true))
    ensures var (c', o) := Fail(c1, client); Step(c, c', o, e, 0) || Incoming(e, c.connected) != []
  {
    hide Callbacks, InOrder, RunOf, Fail;
    FailBooks(c1, client);
  }

  lemma ConnectStep(c: Conn, e: Event)
    requires Ongoing(c) && (e.Readable? || e.Writable?)
    ensures Incoming(e, c.connected) == [] ==>
      && (!Connects(e) ==> Step(c, c, Running, e, 0))
      && (c.connected || Connects(e) ==> Step(c, c.(connected := true), Running, e, 0))
  {
    hide Callbacks, InOrder, RunOf;
  }

  lemma ReadStep(c: Conn, client: Client, e: Event) returns (k: nat)
    requires Ongoing(c) && e.Readable?
    ensures var (c', o) := Handle(c, client, e); Step(c, c', o, e, k)
  {
    hide Callbacks, InOrder, RunOf, Fail, ProcessCallbacks, Booked, AllAnswered;
    k := 0;
    ConnectStep(c, e);
    FailStep(c, c, client, e);
    FailStep(c, c.(connected := true), client, e);
    if e.readOk && (c.connected || e.check == Established) {
      SameBooks(c, c.(connected := true));
      k := ProcessBooks(c.(connected := true), client, e.incoming, e.readable);
    }
  }

  lemma SameBooks(c: Conn, c1: Conn)
    requires Ongoing(c) && (c1 == c || c1 == c.(connected := true))
    ensures Ongoing(c1)
  {
  }

  lemma WriteStep(c: Conn, client: Client, e: Event)
    requires Ongoing(c) && e.Writable?
    ensures var (c', o) := Handle(c, client, e); Step(c, c', o, e, 0)
  {
    hide Callbacks, InOrder, RunOf, Fail;
    FailStep(c, c, client, e);
    FailStep(c, c.(connected := true), client, e);
  }

  lemma ToldStep(c: Conn, client: Client, e: Event)
    requires Ongoing(c) && !e.Readable? && !e.Writable?
    ensures var (c', o) := Handle(c, client, e); Step(c, c', o, e, 0)
  {
    hide Callbacks, InOrder, RunOf, Teardown;
    match e
    case Issue(cb, _) => CommandBooks(c, cb, e.size);
    case Close =>
      if c.queue == [] {
        TeardownBooks(c.(disconnecting := true), client);
      }
    case Release => TeardownBooks(c.(freeing := true), client);
  }

  /** What one event does: the replies it brings are handed out in order, as far as the connection lasts. */
  lemma HandleBooks(c: Conn, client: Client, e: Event) returns (k: nat)
    requires Ongoing(c)
    ensures var (c', o) := Handle(c, client, e); Step(c, c', o, e, k)
  {
    hide Ongoing, Handle, Step;
    k := 0;
    if e.Readable? {
      k := ReadStep(c, client, e);
    } else if e.Writable? {
      WriteStep(c, client, e);
    } else {
      ToldStep(c, client, e);
    }
  }

  // ------------------------------------------------------------------ whole runs

  /** The connection has been established by one of the events. */
  function Connected(events: seq<Event>): bool {
    events != [] && (Connected(events[..|events| - 1]) || Connects(events[|events| - 1]))
  }

  /** All replies that have arrived, in order. */
  function Arrivals(events: seq<Event>): seq<Reply> {
    if events == [] then []
    else
      var front := events[..|events| - 1];
      Arrivals(front) + Incoming(events[|events| - 1], Connected(front))
  }

  /** The run went through all events, or ended in event n after handing out k of the replies it brought. */
  ghost predicate EndsAt(client: Client, events: seq<Event>, n: nat, k: nat) {
    var (c, o) := Play(client, events);
    if o == Running then
      n == |events| && Ongoing(c) && c.received == Arrivals(events) && c.connected == Connected(events)
    else
      && n < |events| && Play(client, events[..n]).1 == Running && Play(client, events[..n + 1]) == (c, o)
      && var incoming := Incoming(events[n], Connected(events[..n]));
         k <= |incoming| && c.received == Arrivals(events[..n]) + incoming[..k] && Ended(c, o, incoming, k)
  }

  /**
   * For every client and every run: each accepted command is answered at most once, in submission order, with the
   * replies in the order they arrived, and exactly the answered commands with a callback have had it run. While
   * the connection runs every arrived reply has been handed out. When it ends, so has every one up to the event
   * that ended it; replies of that event are left over only if a callback asked for the release, or if one came
   * that no command was waiting for. An error reply nobody waits for releases the context, any other one fails
   * the assertion; at release every accepted command has been answered.
   */
  lemma {:induction false} EveryRun(client: Client, events: seq<Event>) returns (n: nat, k: nat)
    ensures Booked(Play(client, events).0) && EndsAt(client, events, n, k)
    decreases |events|
  {
    hide Booked, Ended, Handle;
    n, k := 0, 0;
    if events == [] {
      NewIsOngoing();
    } else {
      var last := |events| - 1;
      n, k := EveryRun(client, events[..last]);
      assert events[..last + 1] == events;
      var (c, o) := Play(client, events[..last]);
      if o == Running {
        k := HandleBooks(c, client, events[last]);
        var (c', o') := Handle(c, client, events[last]);
        n := if o' == Running then |events| else last;
        AtEvent(c', o', Incoming(events[last], c.connected), k);
      } else {
        assert events[..last][..n] == events[..n] && events[..last][..n + 1] == events[..n + 1];
      }
    }
  }

  lemma NewIsOngoing()
    ensures Ongoing(NEW_CONN)
  {
  }

  lemma AtEvent(c: Conn, o: Outcome, incoming: seq<Reply>, k: nat)
    requires k <= |incoming| && Ended(c, o, incoming, k)
    ensures o == Running ==> Ongoing(c) && incoming[..k] == incoming
  {
  }

  /** The replies handed out are a beginning of those that arrived, and all of them while the connection runs. */
  lemma ReceivedArrived(client: Client, events: seq<Event>)
    ensures var (c, o) := Play(client, events);
      c.received <= Arrivals(events) && (o == Running ==> c.received == Arrivals(events))
  {
    hide Booked, Ended, Play;
    var n, k := EveryRun(client, events);
    var (c, o) := Play(client, events);
    if o != Running {
      ArrivalsGrow(events, n + 1);
      assert events[..n + 1][..n] == events[..n];
    }
  }

  lemma {:induction false} ArrivalsGrow(events: seq<Event>, n: nat)
    requires n <= |events|
    ensures Arrivals(events[..n]) <= Arrivals(events)
    decreases |events|
  {
    if n == |events| {
      assert events[..n] == events;
    } else {
      assert events[..|events| - 1][..n] == events[..n];
      ArrivalsGrow(events[..|events| - 1], n);
    }
  }
}
