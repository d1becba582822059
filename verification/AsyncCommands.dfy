/** Where the accepted commands of a run come from, and when none is accepted any more. */
module AsyncCommands {
  import opened Bytes
  import opened RespProtocol
  import opened CallbackQueue
  import opened AsyncMachine
  import opened AsyncRuns

  /** a is s with some elements left out. */
  ghost predicate Within(a: seq<Callback>, s: seq<Callback>) {
    a == [] ||
    (s != [] &&
     ((a[|a| - 1] == s[|s| - 1] && Within(a[..|a| - 1], s[..|s| - 1])) || Within(a, s[..|s| - 1])))
  }

  /** s is an interleaving of a and b. */
  ghost predicate Interleaves(a: seq<Callback>, b: seq<Callback>, s: seq<Callback>) {
    if s == [] then a == [] && b == []
    else
      var front, last := s[..|s| - 1], s[|s| - 1];
      || (a != [] && a[|a| - 1] == last && Interleaves(a[..|a| - 1], b, front))
      || (b != [] && b[|b| - 1] == last && Interleaves(a, b[..|b| - 1], front))
  }

  lemma {:induction false} WithinJoin(a: seq<Callback>, s: seq<Callback>, b: seq<Callback>, t: seq<Callback>)
    requires Within(a, s) && Within(b, t)
    ensures Within(a + b, s + t)
    decreases |t|
  {
    if t == [] {
      assert a + b == a && s + t == s;
    } else {
      assert (s + t)[..|s + t| - 1] == s + t[..|t| - 1];
      if b != [] && b[|b| - 1] == t[|t| - 1] && Within(b[..|b| - 1], t[..|t| - 1]) {
        WithinJoin(a, s, b[..|b| - 1], t[..|t| - 1]);
        assert (a + b)[..|a + b| - 1] == a + b[..|b| - 1];
      } else {
        WithinJoin(a, s, b, t[..|t| - 1]);
      }
    }
  }

  lemma {:induction false} InterleaveMore(a: seq<Callback>, b: seq<Callback>, s: seq<Callback>, x: seq<Callback>)
    requires Interleaves(a, b, s)
    ensures Interleaves(a, b + x, s + x)
    decreases |x|
  {
    if x == [] {
      assert b + x == b && s + x == s;
    } else {
      var n := |x| - 1;
      InterleaveMore(a, b, s, x[..n]);
      assert (b + x)[..|b + x| - 1] == b + x[..n] && (s + x)[..|s + x| - 1] == s + x[..n];
    }
  }

  lemma InterleaveOne(a: seq<Callback>, b: seq<Callback>, s: seq<Callback>, cb: Callback)
    requires Interleaves(a, b, s)
    ensures Interleaves(a + [cb], b, s + [cb])
  {
    assert (a + [cb])[..|a|] == a && (s + [cb])[..|s|] == s;
  }

  // ------------------------------------------------------------------ what clients ask for

  function SubmittedBy(a: Action): seq<Callback> {
    match a
    case Submit(cb, _) => [cb]
    case _ => []
  }

  function Submits(actions: seq<Action>): seq<Callback> {
    if actions == [] then [] else Submits(actions[..|actions| - 1]) + SubmittedBy(actions[|actions| - 1])
  }

  /** The commands asked for in the callbacks from the i-th on. */
  function Asked(client: Client, ran: seq<Delivery>, i: nat): seq<Callback>
    decreases |ran|
  {
    if |ran| <= i then [] else Asked(client, ran[..|ran| - 1], i) + Submits(client(ran))
  }

  lemma {:induction false} AskedJoin(client: Client, ran: seq<Delivery>, ran': seq<Delivery>, i: nat)
    requires i <= |ran| && ran <= ran'
    ensures Asked(client, ran', i) == Asked(client, ran, i) + Asked(client, ran', |ran|)
    decreases |ran'|
  {
    if |ran| == |ran'| {
      assert ran == ran' && Asked(client, ran, i) + [] == Asked(client, ran, i);
    } else {
      AskedJoin(client, ran, ran'[..|ran'| - 1], i);
    }
  }

  /** From c to c' callbacks were run, and commands were accepted only out of what was asked for in them: all
      of it as long as the connection is not closing. */
  ghost predicate Grew(c: Conn, c': Conn, client: Client) {
    && c.ran <= c'.ran && Extends(c, c', Asked(client, c'.ran, |c.ran|))
  }

  ghost predicate Extends(c: Conn, c': Conn, asked: seq<Callback>) {
    && c.submitted <= c'.submitted && (c.Closing() ==> c'.Closing())
    && Within(c'.submitted[|c.submitted|..], asked)
    && (!c'.Closing() ==> c'.submitted[|c.submitted|..] == asked)
  }

  lemma NothingGrew(c: Conn, c': Conn, client: Client)
    requires c'.ran == c.ran && c'.submitted == c.submitted && (c.Closing() ==> c'.Closing())
    ensures Grew(c, c', client)
  {
    assert c'.submitted[|c.submitted|..] == [];
  }

  lemma ExtendsTwice(c: Conn, c1: Conn, c2: Conn, asked: seq<Callback>, asked': seq<Callback>)
    requires Extends(c, c1, asked) && Extends(c1, c2, asked')
    ensures Extends(c, c2, asked + asked')
  {
    hide Within;
    var n, n1 := |c.submitted|, |c1.submitted|;
    assert c2.submitted[n..] == c1.submitted[n..] + c2.submitted[n1..];
    WithinJoin(c1.submitted[n..], asked, c2.submitted[n1..], asked');
  }

  lemma GrewTwice(c: Conn, c1: Conn, c2: Conn, client: Client)
    requires Grew(c, c1, client) && Grew(c1, c2, client)
    ensures Grew(c, c2, client)
  {
    hide Extends, Asked;
    AskedJoin(client, c1.ran, c2.ran, |c.ran|);
    ExtendsTwice(c, c1, c2, Asked(client, c1.ran, |c.ran|), Asked(client, c2.ran, |c1.ran|));
  }

  lemma ActGrew(c: Conn, a: Action)
    ensures Extends(c, Act(c, a), SubmittedBy(a))
  {
    var c' := Act(c, a);
    if c'.submitted == c.submitted {
      assert c'.submitted[|c.submitted|..] == [];
    } else {
      assert c'.submitted[|c.submitted|..] == SubmittedBy(a);
      WithinItself(SubmittedBy(a));
    }
  }

  lemma {:induction false} WithinItself(a: seq<Callback>)
    ensures Within(a, a)
  {
    if a != [] {
      WithinItself(a[..|a| - 1]);
    }
  }

  lemma {:induction false} ActAllGrew(c: Conn, actions: seq<Action>)
    ensures Extends(c, ActAll(c, actions), Submits(actions))
  {
    hide Extends, Act, SubmittedBy;
    if actions == [] {
      NothingExtends(c);
    } else {
      var n := |actions| - 1;
      var before := ActAll(c, actions[..n]);
      ActAllGrew(c, actions[..n]);
      ActGrew(before, actions[n]);
      ExtendsTwice(c, before, Act(before, actions[n]), Submits(actions[..n]), SubmittedBy(actions[n]));
    }
  }

  lemma NothingExtends(c: Conn)
    ensures Extends(c, c, [])
  {
    assert c.submitted[|c.submitted|..] == [];
  }

  lemma InvokeGrew(c: Conn, client: Client, cb: Callback, reply: Option<Reply>)
    ensures Grew(c, Invoke(c, client, cb, reply), client)
  {
    if cb.fn == None {
      NothingGrew(c, c, client);
    } else {
      var c1 := c.(ran := c.ran + [Delivery(cb, reply)]);
      ActAllFrames(c1, client(c1.ran));
      ActAllGrew(c1, client(c1.ran));
      assert c1.ran[..|c.ran|] == c.ran;
      assert Asked(client, c1.ran, |c.ran|) == [] + Submits(client(c1.ran)) == Submits(client(c1.ran));
    }
  }

  lemma {:induction false} TeardownGrew(c: Conn, client: Client)
    requires c.Closing() || c.queue == []
    ensures Grew(c, Teardown(c, client), client)
    decreases |c.queue|
  {
    hide Grew, Invoke;
    if c.queue == [] {
      NothingGrew(c, c.(released := true), client);
    } else {
      AnswerNullIs(c, client);
      AnswerGrew(c, client, None);
      TeardownGrew(AnswerNull(c, client), client);
      GrewTwice(c, AnswerNull(c, client), Teardown(c, client), client);
    }
  }

  lemma AnswerGrew(c: Conn, client: Client, reply: Option<Reply>)
    requires c.queue != []
    ensures Grew(c, Answer(c, client, reply), client)
  {
    hide Grew, Invoke;
    var c1 := Taken(c, reply);
    NothingGrew(c, c1, client);
    InvokeGrew(c1, client, c.queue[0], reply);
    GrewTwice(c, c1, Answer(c, client, reply), client);
  }

  lemma DisconnectGrew(c: Conn, c1: Conn, client: Client)
    requires c1.ran == c.ran && c1.submitted == c.submitted && (c.Closing() ==> c1.Closing())
    requires c1.err || c1.queue == []
    ensures Grew(c, DisconnectNow(c1, client), client)
  {
    hide Grew, Teardown;
    var c2 := if c1.err then c1.(disconnecting := true) else c1;
    NothingGrew(c, c2, client);
    TeardownGrew(c2, client);
    GrewTwice(c, c2, DisconnectNow(c1, client), client);
  }

  lemma HandOutGrew(c: Conn, client: Client, reply: Reply)
    ensures Grew(c, HandOut(c, client, reply).0, client)
  {
    hide Grew, Teardown, DisconnectNow, Invoke;
    if c.queue == [] {
      NothingGrew(c, c, client);
      DisconnectGrew(c, c.(err := true), client);
    } else {
      var c1 := Answer(c, client, Some(reply));
      AnswerGrew(c, client, Some(reply));
      if c1.freeing {
        TeardownGrew(c1, client);
        GrewTwice(c, c1, Teardown(c1, client), client);
      }
    }
  }

  lemma {:induction false} HandAllGrew(c: Conn, client: Client, incoming: seq<Reply>)
    ensures Grew(c, HandAll(c, client, incoming).0, client)
  {
    hide Grew, HandOut;
    if incoming == [] {
      NothingGrew(c, c, client);
    } else {
      var n := |incoming| - 1;
      var c1 := HandAll(c, client, incoming[..n]).0;
      HandAllGrew(c, client, incoming[..n]);
      HandOutGrew(c1, client, incoming[n]);
      GrewTwice(c, c1, HandOut(c1, client, incoming[n]).0, client);
    }
  }

  lemma ProcessGrew(c: Conn, client: Client, incoming: seq<Reply>, readable: bool)
    ensures Grew(c, ProcessCallbacks(c, client, incoming, readable).0, client)
  {
    hide Grew, HandAll, DisconnectNow;
    var c1 := HandAll(c, client, incoming).0;
    HandAllGrew(c, client, incoming);
    DisconnectGrew(c1, c1.(err := true), client);
    GrewTwice(c, c1, DisconnectNow(c1.(err := true), client), client);
    if c1.queue == [] {
      DisconnectGrew(c1, c1, client);
      GrewTwice(c, c1, DisconnectNow(c1, client), client);
    }
  }

  /** An event other than a command from outside. */
  lemma HandleGrew(c: Conn, client: Client, e: Event)
    requires !e.Issue?
    ensures Grew(c, Handle(c, client, e).0, client)
  {
    hide Grew, ProcessCallbacks, DisconnectNow, Teardown;
    var c1 := c.(connected := true);
    NothingGrew(c, c, client);
    NothingGrew(c, c1, client);
    DisconnectGrew(c, c.(err := true), client);
    DisconnectGrew(c, c1.(err := true), client);
    match e
    case Close =>
      NothingGrew(c, c.(disconnecting := true), client);
      if c.queue == [] {
        DisconnectGrew(c, c.(disconnecting := true), client);
      }
    case Release =>
      NothingGrew(c, c.(freeing := true), client);
      TeardownGrew(c.(freeing := true), client);
      GrewTwice(c, c.(freeing := true), Free(c, client), client);
    case Readable(_, _, incoming, readable) =>
      ProcessGrew(c1, client, incoming, readable);
      GrewTwice(c, c1, ProcessCallbacks(c1, client, incoming, readable).0, client);
    case Writable(_, writeOk, written) =>
      if writeOk {
        NothingGrew(c, c1.(pendingOutput := if written <= c.pendingOutput then c.pendingOutput - written else 0), client);
      }
  }

  // ------------------------------------------------------------------ whole runs

  /** The command of an event, if it is one and is accepted. */
  function NewlyAccepted(run: (Conn, Outcome), e: Event): seq<Callback> {
    if run.1 == Running && !run.0.Closing() && e.Issue? then [e.cb] else []
  }

  /** The commands from outside that were accepted, in order. */
  function Accepted(client: Client, events: seq<Event>): seq<Callback> {
    if events == [] then []
    else
      var front := events[..|events| - 1];
      Accepted(client, front) + NewlyAccepted(Play(client, front), events[|events| - 1])
  }

  /** Every accepted command was issued from outside or asked for in a callback that was run, in these orders;
      while the connection is not closing, all that callbacks asked for was accepted. */
  lemma {:induction false} CommandsComeFrom(client: Client, events: seq<Event>) returns (inside: seq<Callback>)
    ensures var c := Play(client, events).0;
      && Interleaves(Accepted(client, events), inside, c.submitted) && Within(inside, Asked(client, c.ran, 0))
      && (!c.Closing() ==> inside == Asked(client, c.ran, 0))
    decreases |events|
  {
    hide Handle, Interleaves, Within, Asked;
    inside := [];
    if events == [] {
      NoCommands(client);
    } else {
      var front, e := events[..|events| - 1], events[|events| - 1];
      inside := CommandsComeFrom(client, front);
      var (c, o) := Play(client, front);
      var c' := Play(client, events).0;
      if o == Running && e.Issue? {
        Issued(c, client, e);
        InterleaveOne(Accepted(client, front), inside, c.submitted, e.cb);
        assert Accepted(client, front) + [] == Accepted(client, front);
      } else {
        assert Accepted(client, events) == Accepted(client, front) + [] == Accepted(client, front);
        if o == Running {
          HandleGrew(c, client, e);
          var x := c'.submitted[|c.submitted|..];
          InterleaveMore(Accepted(client, front), inside, c.submitted, x);
          AskedJoin(client, c.ran, c'.ran, 0);
          WithinJoin(inside, Asked(client, c.ran, 0), x, Asked(client, c'.ran, |c.ran|));
          inside := inside + x;
          assert c'.submitted == c.submitted + x;
        }
      }
    }
  }

  lemma NoCommands(client: Client)
    ensures Interleaves([], [], []) && Asked(client, [], 0) == [] && Within([], [])
  {
  }

  lemma Issued(c: Conn, client: Client, e: Event)
    requires e.Issue?
    ensures var c' := Handle(c, client, e).0;
      c'.ran == c.ran && c'.Closing() == c.Closing() && c'.submitted == if c.Closing() then c.submitted else c.submitted + [e.cb]
  {
  }

  /** Once a connection is closing or at its end it accepts nothing more, from outside or inside. */
  lemma {:induction false} ClosedForGood(client: Client, events: seq<Event>, i: nat)
    requires i <= |events|
    requires var (c, o) := Play(client, events[..i]); c.Closing() || o != Running
    ensures Play(client, events).0.submitted == Play(client, events[..i]).0.submitted
    ensures Accepted(client, events) == Accepted(client, events[..i])
    ensures var (c, o) := Play(client, events); c.Closing() || o != Running
    decreases |events|
  {
    hide Handle, Booked;
    if i == |events| {
      assert events[..i] == events;
    } else {
      var front, e := events[..|events| - 1], events[|events| - 1];
      assert front[..i] == events[..i];
      ClosedForGood(client, front, i);
      assert Accepted(client, front) + [] == Accepted(client, front);
      var (c, o) := Play(client, front);
      if o == Running {
        RunningIsOngoing(client, front);
        var k := HandleBooks(c, client, e);
      }
    }
  }

  lemma CloseCloses(client: Client, events: seq<Event>, i: nat)
    requires i < |events| && (events[i].Close? || events[i].Release?)
    ensures var (c, o) := Play(client, events[..i + 1]); c.Closing() || o != Running
    ensures Accepted(client, events[..i + 1]) == Accepted(client, events[..i])
  {
    hide Handle, Booked, Accepted, EndsAt;
    assert events[..i + 1][..i] == events[..i];
    AcceptedNone(client, events[..i + 1]);
    var (c, o) := Play(client, events[..i]);
    if o == Running {
      RunningIsOngoing(client, events[..i]);
      var k := HandleBooks(c, client, events[i]);
    }
  }

  lemma AcceptedNone(client: Client, events: seq<Event>)
    requires events != [] && !events[|events| - 1].Issue?
    ensures Accepted(client, events) == Accepted(client, events[..|events| - 1])
  {
    var front := events[..|events| - 1];
    assert Accepted(client, front) + [] == Accepted(client, front);
  }

  lemma RunningIsOngoing(client: Client, events: seq<Event>)
    requires Play(client, events).1 == Running
    ensures Ongoing(Play(client, events).0)
  {
    hide Booked, Ongoing;
    var n, k := EveryRun(client, events);
  }

  /** No command is accepted after the client has asked to close or to release the connection. */
  lemma NoneAfterClose(client: Client, events: seq<Event>, i: nat)
    requires i < |events| && (events[i].Close? || events[i].Release?)
    ensures Play(client, events).0.submitted == Play(client, events[..i + 1]).0.submitted
    ensures Accepted(client, events) == Accepted(client, events[..i])
  {
    hide Play, Accepted;
    CloseCloses(client, events, i);
    ClosedForGood(client, events, i + 1);
  }

  function Issues(events: seq<Event>): seq<Callback> {
    if events == [] then []
    else
      var e := events[|events| - 1];
      Issues(events[..|events| - 1]) + (if e.Issue? then [e.cb] else [])
  }

  /** As long as the connection runs and is not closing, every command from outside has been accepted. */
  lemma {:induction false} AllAcceptedWhileOpen(client: Client, events: seq<Event>)
    requires var (c, o) := Play(client, events); o == Running && !c.Closing()
    ensures Accepted(client, events) == Issues(events)
    decreases |events|
  {
    hide Handle, Booked;
    if events != [] {
      var front, e := events[..|events| - 1], events[|events| - 1];
      var (c, o) := Play(client, front);
      if o == Running {
        RunningIsOngoing(client, front);
        var k := HandleBooks(c, client, e);
      }
      AllAcceptedWhileOpen(client, front);
    }
  }
}
