/** From the bytes on the socket to the callbacks: the reply reader under the asynchronous connection. */
module AsyncWire {
  import opened Bytes
  import opened M = RespMachine
  import opened RespReader
  import opened AsyncMachine
  import opened AsyncRuns
  import opened Async

  /** What happens to a context, with the bytes of a readable socket instead of the replies in them. */
  datatype Happening =
    | Told(e: Event)
    | Arrived(check: Check, readOk: bool, chunk: seq<byte>)

  type Wire = h: Happening | h.Told? ==> !h.e.Readable? witness Told(Close)

  const NEW_SESSION := Reading(IDLE, [])

  /** The bytes are read: the connection is, or has just been, established, and reading succeeds. */
  predicate Reads(w: Wire, connected: bool) {
    w.Arrived? && w.readOk && (connected || w.check == Established)
  }

  /** One happening as an event, and what the reader holds afterwards. */
  function DecodeOne(s: Session, connected: bool, w: Wire): (r: (Event, Session))
    requires s.Reading? ==> s.st.stack != []
    ensures r.1.Reading? ==> r.1.st.stack != []
  {
    if w.Told? then (w.e, s)
    else if Reads(w, connected) then
      var (s', replies) := Drain(Feed(s, w.chunk));
      (Readable(w.check, true, replies, s'.Reading?), s')
    else (Readable(w.check, w.readOk, [], true), s)
  }

  /** The events of a run, decoded one after the other by the same reader. */
  function Decode(wire: seq<Wire>): (r: (seq<Event>, Session))
    ensures |r.0| == |wire| && (r.1.Reading? ==> r.1.st.stack != [])
  {
    if wire == [] then ([], NEW_SESSION)
    else
      var (events, s) := Decode(wire[..|wire| - 1]);
      var (e, s') := DecodeOne(s, Connected(events), wire[|wire| - 1]);
      (events + [e], s')
  }

  /** The chunks of bytes that are read, in order. */
  function Chunks(wire: seq<Wire>): seq<seq<byte>> {
    if wire == [] then []
    else
      var front, w := wire[..|wire| - 1], wire[|wire| - 1];
      Chunks(front) + (if Reads(w, Connected(Decode(front).0)) then [w.chunk] else [])
  }

  lemma {:induction false} OneMoreChunk(s: Session, chunks: seq<seq<byte>>, chunk: seq<byte>)
    requires s.Reading? ==> s.st.stack != []
    ensures var (s1, out1) := DrainChunks(s, chunks);
      && (s1.Reading? ==> s1.st.stack != [])
      && var (s2, out2) := Drain(Feed(s1, chunk));
         DrainChunks(s, chunks + [chunk]) == (s2, out1 + out2)
    decreases |chunks|
  {
    hide Drain, ReadReply;
    if chunks == [] {
      var (s2, out2) := Drain(Feed(s, chunk));
      assert ([chunk])[1..] == [] && [] + [chunk] == [chunk];
      assert out2 + [] == out2 == [] + out2;
    } else {
      var (s1, out1) := Drain(Feed(s, chunks[0]));
      OneMoreChunk(s1, chunks[1..], chunk);
      assert (chunks + [chunk])[1..] == chunks[1..] + [chunk];
      var (s2, out2) := DrainChunks(s1, chunks[1..]);
      var (s3, out3) := Drain(Feed(s2, chunk));
      assert out1 + out2 + out3 == out1 + (out2 + out3);
    }
  }

  /** Decoding as the bytes arrive is draining the reader after every chunk. */
  lemma {:induction false} DecodeIsDrain(wire: seq<Wire>)
    ensures var (events, s) := Decode(wire); (s, Arrivals(events)) == DrainChunks(NEW_SESSION, Chunks(wire))
    decreases |wire|
  {
    hide Drain, DrainChunks, Connected;
    if wire == [] {
      NoChunks();
    } else {
      var front, w := wire[..|wire| - 1], wire[|wire| - 1];
      var (events, s) := Decode(front);
      var (e, s') := DecodeOne(s, Connected(events), w);
      assert (events + [e])[..|events|] == events;
      DecodeIsDrain(front);
      if Reads(w, Connected(events)) {
        OneMoreChunk(NEW_SESSION, Chunks(front), w.chunk);
      } else {
        assert Chunks(front) + [] == Chunks(front);
        assert Arrivals(events) + [] == Arrivals(events);
      }
    }
  }

  lemma NoChunks()
    ensures DrainChunks(NEW_SESSION, []) == (NEW_SESSION, [])
  {
  }

  /**
   * Whatever the client and however the bytes were cut: the replies handed out are a beginning of the replies in
   * the bytes read so far, all of them while the connection runs.
   */
  lemma RepliesComeFromBytes(client: Client, wire: seq<Wire>)
    ensures var (c, o) := Play(client, Decode(wire).0);
      var (s, replies) := Drain(Feed(NEW_SESSION, Concat(Chunks(wire))));
      && Decode(wire).1 == s && c.received <= replies && (o == Running ==> c.received == replies)
  {
    hide Drain, DrainChunks, Decode, Chunks, Play, Arrivals;
    DecodeIsDrain(wire);
    NothingUnread();
    ChunkingDoesNotMatter(NEW_SESSION, Chunks(wire));
    ReceivedArrived(client, Decode(wire).0);
  }

  lemma NothingUnread()
    ensures Drain(NEW_SESSION) == (NEW_SESSION, [])
  {
    NothingToRead(IDLE);
  }

  lemma RunningConnected(client: Client, events: seq<Event>)
    requires Play(client, events).1 == Running
    ensures Play(client, events).0.connected == Connected(events)
  {
    hide Play, Booked, Ongoing;
    var n, k := EveryRun(client, events);
  }

  /** One happening: bytes that are read are fed to the reader, and what it yields is handed out. */
  method Happen(ctx: AsyncContext, reader: RedisReader, w: Wire) returns (outcome: Outcome, ghost e: Event)
    requires ctx.Valid() && !ctx.inCallback && reader.Valid()
    requires reader !in ctx.replies.Repr && reader.rstack !in ctx.replies.Repr
    modifies ctx, ctx.replies.Repr, reader, reader.rstack
    ensures ctx.Valid() && !ctx.inCallback && reader.Valid() && fresh(ctx.replies.Repr - old(ctx.replies.Repr))
    ensures (e, reader.Abstract()) == DecodeOne(old(reader.Abstract()), old(ctx.connected), w)
    ensures (ctx.View(), outcome) == Handle(old(ctx.View()), ctx.client, e)
  {
    hide AsyncContext.Valid, RedisReader.Valid, Handle, Drain;
    var event: Event;
    if w.Told? {
      event := w.e;
    } else if w.readOk && (ctx.connected || w.check == Established) {
      var accepted := reader.Feed(w.chunk);
      var ok, replies := DrainReader(reader);
      event := Readable(w.check, true, replies, ok);
    } else {
      event := Readable(w.check, w.readOk, [], true);
    }
    e := event;
    outcome := ctx.HandleEvent(event);
  }

  /** The reader and the context together do, on the bytes, what the machine does on the decoded events. */
  method RunWire(client: Client, wire: seq<Wire>) returns (ctx: AsyncContext, outcome: Outcome)
    ensures ctx.Valid() && (ctx.View(), outcome) == Play(client, Decode(wire).0)
  {
    hide AsyncContext.Valid, AsyncContext.View, RedisReader.Valid, RedisReader.Abstract;
    hide Handle, Drain, DecodeOne, Decode, Play, Connected;
    ctx := new AsyncContext(client);
    var reader := new RedisReader();
    outcome := Running;
    NoWire(client);
    for i := 0 to |wire|
      invariant ctx.Valid() && fresh(ctx) && fresh(ctx.replies.Repr) && ctx.client == client && !ctx.inCallback
      invariant reader.Valid() && fresh(reader) && fresh(reader.rstack)
      invariant reader !in ctx.replies.Repr && reader.rstack !in ctx.replies.Repr
      invariant (ctx.View(), outcome) == Play(client, Decode(wire[..i]).0)
      invariant outcome == Running ==> reader.Abstract() == Decode(wire[..i]).1
    {
      OneMoreWire(client, wire, i);
      if outcome == Running {
        RunningConnected(client, Decode(wire[..i]).0);
        ViewConnected(ctx);
        ghost var e;
        outcome, e := Happen(ctx, reader, wire[i]);
      }
    }
    assert wire[..|wire|] == wire;
  }

  lemma NoWire(client: Client)
    ensures Decode([]) == ([], NEW_SESSION) && Play(client, []) == (NEW_CONN, Running)
  {
  }

  lemma ViewConnected(ctx: AsyncContext)
    ensures ctx.View().connected == ctx.connected
  {
  }

  lemma OneMoreWire(client: Client, wire: seq<Wire>, i: nat)
    requires i < |wire|
    ensures var (events, s) := Decode(wire[..i]);
      var (e, s') := DecodeOne(s, Connected(events), wire[i]);
      && Decode(wire[..i + 1]) == (events + [e], s')
      && Play(client, events + [e]) == var (c, o) := Play(client, events); if o == Running then Handle(c, client, e) else (c, o)
  {
    hide DecodeOne, Handle;
    assert wire[..i + 1][..i] == wire[..i];
    var (events, s) := Decode(wire[..i]);
    var (e, s') := DecodeOne(s, Connected(events), wire[i]);
    assert (events + [e])[..|events|] == events;
  }
}
