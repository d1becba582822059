/** The asynchronous context in request/reply mode as a function of what the network and its client do. */
module AsyncMachine {
  import opened Bytes
  import opened RespProtocol
  import opened CallbackQueue

  /** What a client may do from inside one of its callbacks. */
  datatype Action = Submit(cb: Callback, size: nat) | AskDisconnect | AskFree

  /** A command taken from the queue, with the reply it was given; None is the null reply. */
  datatype Delivery = Delivery(cb: Callback, reply: Option<Reply>)

  /** A client: what it does in the last of the callbacks that were run so far. */
  type Client = seq<Delivery> -> seq<Action>

  datatype Outcome = Running | Released | AssertionFailed

  /** The outcome of the socket check made until the connection is established. */
  datatype Check = InProgress | Refused | Established

  datatype Conn = Conn(
    queue: seq<Callback>, submitted: seq<Callback>, delivered: seq<Delivery>, ran: seq<Delivery>, received: seq<Reply>,
    connected: bool, disconnecting: bool, freeing: bool, err: bool, pendingOutput: nat, released: bool)
  {
    predicate Closing() {
      disconnecting || freeing
    }
  }

  const NEW_CONN := Conn([], [], [], [], [], false, false, false, false, 0, false)

  predicate IsError(t: Reply) {
    t.Text? && t.kind == Error
  }

  /** A command is queued unless the connection is about to be closed. */
  function Command(c: Conn, cb: Callback, size: nat): Conn {
    if c.Closing() then c
    else c.(queue := c.queue + [cb], submitted := c.submitted + [cb], pendingOutput := c.pendingOutput + size)
  }

  /** Inside a callback closing is only recorded. */
  function Act(c: Conn, a: Action): Conn {
    match a
    case Submit(cb, size) => Command(c, cb, size)
    case AskDisconnect => c.(disconnecting := true)
    case AskFree => c.(freeing := true)
  }

  function ActAll(c: Conn, actions: seq<Action>): Conn {
    if actions == [] then c
    else Act(ActAll(c, actions[..|actions| - 1]), actions[|actions| - 1])
  }

  /** Runs the callback of a command, if it has one. */
  function Invoke(c: Conn, client: Client, cb: Callback, reply: Option<Reply>): Conn {
    if cb.fn == None then c
    else
      var c' := c.(ran := c.ran + [Delivery(cb, reply)]);
      ActAll(c', client(c'.ran))
  }

  /** What actions cannot change, and what they cannot change once the connection is closing. */
  ghost predicate Frames(c: Conn, c': Conn) {
    && c'.delivered == c.delivered && c'.received == c.received && c'.ran == c.ran
    && c'.connected == c.connected && c'.err == c.err && c'.released == c.released
    && (c.disconnecting ==> c'.disconnecting) && (c.freeing ==> c'.freeing)
    && (c.Closing() ==> c'.queue == c.queue && c'.submitted == c.submitted && c'.pendingOutput == c.pendingOutput)
  }

  lemma {:induction false} ActAllFrames(c: Conn, actions: seq<Action>)
    ensures Frames(c, ActAll(c, actions))
  {
    if actions != [] {
      ActAllFrames(c, actions[..|actions| - 1]);
    }
  }

  /** Answers the oldest command with no reply. */
  function AnswerNull(c: Conn, client: Client): (c': Conn)
    requires c.queue != [] && c.Closing()
    ensures c'.Closing() && c'.queue == c.queue[1..]
  {
    var d := Delivery(c.queue[0], None);
    var c1 := c.(queue := c.queue[1..], delivered := c.delivered + [d]);
    ActAllFrames(c1.(ran := c.ran + [d]), client(c.ran + [d]));
    Invoke(c1, client, d.cb, None)
  }

  /** Answers what is left with no reply and releases the context. */
  function Teardown(c: Conn, client: Client): Conn
    requires c.Closing() || c.queue == []
    decreases |c.queue|
  {
    if c.queue == [] then c.(released := true) else Teardown(AnswerNull(c, client), client)
  }

  /** Disconnects now: cleanly only when nothing waits, otherwise because of an error. */
  function DisconnectNow(c: Conn, client: Client): Conn
    requires c.err || c.queue == []
  {
    Teardown(if c.err then c.(disconnecting := true) else c, client)
  }

  /** The client asks for a clean disconnect outside its callbacks. */
  function Disconnect(c: Conn, client: Client): Conn {
    var c' := c.(disconnecting := true);
    if c'.queue == [] then DisconnectNow(c', client) else c'
  }

  function Free(c: Conn, client: Client): Conn {
    Teardown(c.(freeing := true), client)
  }

  /** Disconnects because of an error. */
  function Fail(c: Conn, client: Client): (Conn, Outcome) {
    (DisconnectNow(c.(err := true), client), Released)
  }

  /** A command is given its reply; a release asked for in its callback follows at once. */
  function Give(c: Conn, client: Client, cb: Callback, reply: Reply): (Conn, Outcome) {
    var c1 := c.(delivered := c.delivered + [Delivery(cb, Some(reply))], received := c.received + [reply]);
    var c' := Invoke(c1, client, cb, Some(reply));
    if cb.fn != None && c'.freeing then (Teardown(c', client), Released) else (c', Running)
  }

  /** One reply goes to the command that has waited longest. */
  function HandOut(c: Conn, client: Client, reply: Reply): (Conn, Outcome) {
    if c.queue == [] then
      if IsError(reply) then Fail(c, client) else (c, AssertionFailed)
    else
      Give(c.(queue := c.queue[1..]), client, c.queue[0], reply)
  }

  function HandAll(c: Conn, client: Client, incoming: seq<Reply>): (Conn, Outcome) {
    if incoming == [] then (c, Running)
    else
      var (c', o) := HandAll(c, client, incoming[..|incoming| - 1]);
      if o == Running then HandOut(c', client, incoming[|incoming| - 1]) else (c', o)
  }

  /** Hands out what has arrived; afterwards the reader has no further reply (readable) or has failed. */
  function ProcessCallbacks(c: Conn, client: Client, incoming: seq<Reply>, readable: bool): (Conn, Outcome) {
    var (c', o) := HandAll(c, client, incoming);
    if o != Running then (c', o)
    else if !readable then Fail(c', client)
    else if c'.disconnecting && c'.pendingOutput == 0 && c'.queue == [] then (DisconnectNow(c', client), Released)
    else (c', Running)
  }

  /** The socket check, made as long as the connection is not established. */
  function HandleConnect(c: Conn, client: Client, check: Check): (Conn, Outcome) {
    if c.connected then (c, Running)
    else match check
      case InProgress => (c, Running)
      case Refused => Fail(c, client)
      case Established => (c.(connected := true), Running)
  }

  function HandleRead(c: Conn, client: Client, check: Check, readOk: bool, incoming: seq<Reply>, readable: bool): (Conn, Outcome) {
    var (c', o) := HandleConnect(c, client, check);
    if o != Running || !c'.connected then (c', o)
    else if !readOk then Fail(c', client)
    else ProcessCallbacks(c', client, incoming, readable)
  }

  function HandleWrite(c: Conn, client: Client, check: Check, writeOk: bool, written: nat): (Conn, Outcome) {
    var (c', o) := HandleConnect(c, client, check);
    if o != Running || !c'.connected then (c', o)
    else if !writeOk then Fail(c', client)
    else (c'.(pendingOutput := if written <= c'.pendingOutput then c'.pendingOutput - written else 0), Running)
  }

  /** What can happen to a context from outside. */
  datatype Event =
    | Issue(cb: Callback, size: nat)
    | Close
    | Release
    | Readable(check: Check, readOk: bool, incoming: seq<Reply>, readable: bool)
    | Writable(check: Check, writeOk: bool, written: nat)

  function Handle(c: Conn, client: Client, e: Event): (Conn, Outcome) {
    match e
    case Issue(cb, size) => (Command(c, cb, size), Running)
    case Close => var c' := Disconnect(c, client); (c', if c'.released then Released else Running)
    case Release => (Free(c, client), Released)
    case Readable(check, readOk, incoming, readable) => HandleRead(c, client, check, readOk, incoming, readable)
    case Writable(check, writeOk, written) => HandleWrite(c, client, check, writeOk, written)
  }

  /** A run: nothing is handled any more once the context is released or an assertion has failed. */
  function Play(client: Client, events: seq<Event>): (Conn, Outcome) {
    if events == [] then (NEW_CONN, Running)
    else
      var (c, o) := Play(client, events[..|events| - 1]);
      if o == Running then Handle(c, client, events[|events| - 1]) else (c, o)
  }
}
