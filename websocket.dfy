/**
 * The stream registry and command-id state of binance4py's Websocket
 * (binance4py/websocket.py).
 *
 * The connection slot is a boolean, callbacks are opaque ids, and the SUBSCRIBE
 * commands written to the connection are kept in a ghost log. The receive loop
 * of start() is split into its steps: opening (Start), one frame (Dispatch),
 * and the finally block (TeardownAsWritten as written, Teardown corrected so
 * that the connection slot is released); RunLoopAsWritten and RunLoop run the
 * loop over a whole stretch of frames and then the respective finally block.
 */
module Websocket {
  import opened Wrappers

  /** A callback, identified opaquely. */
  type CallbackId = nat

  /** An outbound command: {"method": ..., "params": [...], "id": ...}. */
  datatype Command = Command(methodName: string, params: seq<string>, id: nat)

  /** The command subscribe sends the first time it sees a stream. */
  function SubscribeCommand(stream: string, id: nat): Command
  {
    Command("SUBSCRIBE", [stream], id)
  }

  /**
   * The parsed JSON of a TEXT frame: its "stream" value, if it has one, and the
   * rest, opaquely. None stands for a message without a "stream" key; a
   * "stream" key whose value is not a string (null, say) is not represented.
   */
  datatype Message = Message(stream: Option<string>, body: nat)

  /**
   * A frame the receive loop is given: a TEXT frame with its JSON, or a frame of
   * another type that the loop skips (BINARY, ERROR and any other non-TEXT frame
   * the iterator yields). CLOSE, CLOSING and CLOSED end the loop instead; they
   * are the end of the sequence of frames.
   */
  datatype Frame = Text(message: Message) | NonText

  /** One `await callback(data)` of the receive loop. */
  datatype Invocation = Invocation(callback: CallbackId, message: Message)

  datatype Error =
    | ConnectionClosed         // "Websocket connection is closed", raised by _send
    | UnknownStream(s: string) // the KeyError of the registry lookup

  datatype SubscribeOutcome = Sent(command: Command) | Appended | Failed(error: Error)

  datatype StartOutcome = AlreadyOpen | Opened | ConnectFailed

  /** The stream name kline subscribes to: symbol@kline_interval. */
  function KlineStream(symbol: string, interval: string): (r: string)
    ensures |r| == |symbol| + 7 + |interval|
    ensures r[..|symbol|] == symbol && r[|symbol|..|symbol| + 7] == "@kline_" && r[|symbol| + 7..] == interval
  {
    symbol + "@kline_" + interval
  }

  /** The first '@' of a kline stream name ends its symbol, when the symbol has none. */
  lemma KlineStreamAt(symbol: string, interval: string)
    requires '@' !in symbol
    ensures KlineStream(symbol, interval)[|symbol|] == '@'
    ensures forall k :: 0 <= k < |symbol| ==> KlineStream(symbol, interval)[k] != '@'
  {
    forall k | 0 <= k < |symbol|
      ensures KlineStream(symbol, interval)[k] != '@'
    {
      assert KlineStream(symbol, interval)[k] == symbol[k];
    }
  }

  /** For symbols without '@', a kline stream name determines its symbol and interval. */
  lemma KlineStreamInjective(s1: string, i1: string, s2: string, i2: string)
    requires '@' !in s1 && '@' !in s2
    ensures KlineStream(s1, i1) == KlineStream(s2, i2) <==> s1 == s2 && i1 == i2
  {
    var x1, x2 := KlineStream(s1, i1), KlineStream(s2, i2);
    if x1 == x2 {
      KlineStreamAt(s1, i1);
      KlineStreamAt(s2, i2);
      assert |s1| == |s2| by {
        if |s1| < |s2| {
          assert false;
        } else if |s2| < |s1| {
          assert false;
        }
      }
      assert s1 == x1[..|s1|] && s2 == x2[..|s2|];
      assert i1 == x1[|s1| + 7..] && i2 == x2[|s2| + 7..];
    }
  }

  /** The invocations of a callback list for one message, in list order. */
  function Invocations(cbs: seq<CallbackId>, m: Message): (r: seq<Invocation>)
    ensures |r| == |cbs|
    ensures forall i :: 0 <= i < |r| ==> r[i] == Invocation(cbs[i], m)
  {
    if cbs == [] then [] else [Invocation(cbs[0], m)] + Invocations(cbs[1..], m)
  }

  /**
   * What one frame of the receive loop does with a registry: a TEXT frame with
   * "stream" invokes that stream's callbacks in registration order, or raises
   * when the stream is not registered; every other frame invokes nothing.
   */
  function FanOut(registry: map<string, seq<CallbackId>>, frame: Frame): (r: Result<seq<Invocation>, Error>)
    ensures frame.NonText? || frame.message.stream.None? ==> r == Ok([])
    ensures frame.Text? && frame.message.stream.Some? ==>
      var s := frame.message.stream.value;
      && (r.Err? <==> s !in registry)
      && (r.Err? ==> r.error == UnknownStream(s))
      && (r.Ok? ==> |r.value| == |registry[s]| &&
                    forall i :: 0 <= i < |r.value| ==> r.value[i] == Invocation(registry[s][i], frame.message))
  {
    match frame
    case NonText => Ok([])
    case Text(m) =>
      match m.stream
      case None => Ok([])
      case Some(s) => if s in registry then Ok(Invocations(registry[s], m)) else Err(UnknownStream(s))
  }

  /**
   * The receive loop over a stretch of frames with a fixed registry: the
   * invocations made, in order, and the error that ended the loop, if any.
   */
  function Deliver(registry: map<string, seq<CallbackId>>, frames: seq<Frame>): (r: (seq<Invocation>, Option<Error>))
    ensures r.1.Some? ==> r.1.value.UnknownStream? && r.1.value.s !in registry
  {
    if frames == [] then ([], None)
    else
      match FanOut(registry, frames[0])
      case Err(e) => ([], Some(e))
      case Ok(invoked) =>
        var (rest, err) := Deliver(registry, frames[1..]);
        (invoked + rest, err)
  }

  /** One step of the loop, at position i of the frames. */
  lemma DeliverAt(registry: map<string, seq<CallbackId>>, frames: seq<Frame>, i: nat)
    requires i < |frames|
    ensures FanOut(registry, frames[i]).Err? ==>
      Deliver(registry, frames[i..]) == ([], Some(FanOut(registry, frames[i]).error))
    ensures FanOut(registry, frames[i]).Ok? ==>
      && Deliver(registry, frames[i..]).0 == FanOut(registry, frames[i]).value + Deliver(registry, frames[i + 1..]).0
      && Deliver(registry, frames[i..]).1 == Deliver(registry, frames[i + 1..]).1
  {
    assert frames[i..][0] == frames[i] && frames[i..][1..] == frames[i + 1..];
  }

  /**
   * The loop only ever invokes a callback with a message of a stream that the
   * callback is registered for, and it stops only on a stream that is not registered.
   */
  lemma {:induction false} DeliverOnlyRegistered(registry: map<string, seq<CallbackId>>, frames: seq<Frame>)
    ensures var (invoked, err) := Deliver(registry, frames);
      && (forall k :: 0 <= k < |invoked| ==>
            invoked[k].message.stream.Some? &&
            invoked[k].message.stream.value in registry &&
            invoked[k].callback in registry[invoked[k].message.stream.value])
      && (err.Some? ==>
            exists j :: (0 <= j < |frames| && frames[j].Text? &&
                         frames[j].message.stream.Some? && frames[j].message.stream.value !in registry &&
                         err.value == UnknownStream(frames[j].message.stream.value)))
    decreases |frames|
  {
    if frames != [] {
      DeliverOnlyRegistered(registry, frames[1..]);
      match FanOut(registry, frames[0])
      case Err(e) =>
      case Ok(invoked) =>
        var (rest, err) := Deliver(registry, frames[1..]);
        assert forall k :: 0 <= k < |invoked| ==> invoked[k].callback in registry[invoked[k].message.stream.value] by {
          forall k | 0 <= k < |invoked|
            ensures invoked[k].callback in registry[invoked[k].message.stream.value]
          {
            var s := frames[0].message.stream.value;
            assert invoked[k] == Invocation(registry[s][k], frames[0].message);
          }
        }
        if err.Some? {
          var j :| 0 <= j < |frames[1..]| && frames[1..][j].Text? &&
            frames[1..][j].message.stream.Some? && frames[1..][j].message.stream.value !in registry &&
            err.value == UnknownStream(frames[1..][j].message.stream.value);
          assert frames[j + 1] == frames[1..][j];
        }
    }
  }

  /**
   * The converse: a TEXT frame for a stream that is not registered ends the
   * loop with an error, at that frame or before it.
   */
  lemma {:induction false} DeliverRaisesOnUnregistered(registry: map<string, seq<CallbackId>>, frames: seq<Frame>, j: nat)
    requires j < |frames| && frames[j].Text? && frames[j].message.stream.Some?
    requires frames[j].message.stream.value !in registry
    ensures Deliver(registry, frames).1.Some?
    ensures Deliver(registry, frames).0 == Deliver(registry, frames[..j]).0
    decreases j
  {
    if FanOut(registry, frames[0]).Ok? {
      assert j > 0;
      assert frames[1..][j - 1] == frames[j];
      DeliverRaisesOnUnregistered(registry, frames[1..], j - 1);
      assert frames[..j][0] == frames[0] && frames[..j][1..] == frames[1..][..j - 1];
    }
  }

  /** The stream a logged command is for. */
  function StreamOf(c: Command): string
  {
    if c.params == [] then "" else c.params[0]
  }

  /**
   * The registry and the command log agree: ids are 1, 2, 3, ... in sending
   * order and lastId is the next one; every registered stream has a callback;
   * the registered streams are exactly the streams subscribed since position
   * start of the log, each of them once.
   */
  ghost predicate Registered(callbacks: map<string, seq<CallbackId>>, sent: seq<Command>, start: nat, lastId: nat)
  {
    && lastId == |sent| + 1
    && (forall i :: 0 <= i < |sent| ==> sent[i] == SubscribeCommand(StreamOf(sent[i]), i + 1))
    && (forall s :: s in callbacks ==> callbacks[s] != [])
    && start <= |sent|
    && (forall i, j :: start <= i < j < |sent| ==> StreamOf(sent[i]) != StreamOf(sent[j]))
    && (forall i :: start <= i < |sent| ==> StreamOf(sent[i]) in callbacks)
    && (forall s :: s in callbacks ==> exists i :: start <= i < |sent| && StreamOf(sent[i]) == s)
  }

  /** Subscribing a new stream with the next id keeps registry and log in agreement. */
  lemma RegisteredAfterFirstSubscribe(callbacks: map<string, seq<CallbackId>>, sent: seq<Command>, start: nat,
                                      lastId: nat, stream: string, callback: CallbackId)
    requires Registered(callbacks, sent, start, lastId) && stream !in callbacks
    ensures Registered(callbacks[stream := [callback]], sent + [SubscribeCommand(stream, lastId)], start, lastId + 1)
  {
    var callbacks', sent' := callbacks[stream := [callback]], sent + [SubscribeCommand(stream, lastId)];
    assert StreamOf(sent'[|sent|]) == stream;
    forall i | 0 <= i < |sent|
      ensures sent'[i] == sent[i]
    {
    }
    forall s | s in callbacks'
      ensures exists i :: start <= i < |sent'| && StreamOf(sent'[i]) == s
    {
      if s == stream {
        assert StreamOf(sent'[|sent|]) == s;
      } else {
        var i :| start <= i < |sent| && StreamOf(sent[i]) == s;
        assert sent'[i] == sent[i];
      }
    }
  }

  /** Appending a callback to a registered stream keeps registry and log in agreement. */
  lemma RegisteredAfterAppend(callbacks: map<string, seq<CallbackId>>, sent: seq<Command>, start: nat,
                              lastId: nat, stream: string, callback: CallbackId)
    requires Registered(callbacks, sent, start, lastId) && stream in callbacks
    ensures Registered(callbacks[stream := callbacks[stream] + [callback]], sent, start, lastId)
  {
    var callbacks' := callbacks[stream := callbacks[stream] + [callback]];
    forall s | s in callbacks'
      ensures exists i :: start <= i < |sent| && StreamOf(sent[i]) == s
    {
      assert s in callbacks;
    }
  }

  class Websocket {
    /** _ws_conn is not None. */
    var connected: bool
    /** _start_event is set. */
    var started: bool
    /** _stream_callbacks. */
    var callbacks: map<string, seq<CallbackId>>
    /** _last_id: the id the next command will carry. */
    var lastId: nat
    /** Every command written to the connection, oldest first. */
    ghost var sent: seq<Command>
    /** The position in sent where the current registry began (the last teardown). */
    ghost var sessionStart: nat
    /** The connection has been asked to close: its CLOSE frame has been written. */
    var closeSent: bool

    /**
     * The registry and the log agree (see Registered), a start event is set
     * and a close is pending only with a connection, and nothing is registered
     * without one.
     */
    ghost predicate Valid()
      reads this
    {
      && Registered(callbacks, sent, sessionStart, lastId)
      && (started ==> connected)
      && (closeSent ==> connected)
      && (!connected ==> callbacks == map[])
    }

    /** The `closed` property: closed exactly when no connection is set, and then nothing is registered or started. */
    function Closed(): (r: bool)
      reads this
      ensures r <==> !connected
      ensures Valid() && r ==> callbacks == map[] && !started && !closeSent
    {
      !connected
    }

    constructor ()
      ensures Valid()
      ensures !connected && !started && !closeSent && callbacks == map[] && lastId == 1 && sent == []
    {
      connected, started, closeSent := false, false, false;
      callbacks := map[];
      lastId := 1;
      sent, sessionStart := [], 0;
    }

    /** Command ids never repeat and all lie below lastId; teardown never resets them. */
    lemma IdsIncrease()
      requires Valid()
      ensures forall i, j :: 0 <= i < j < |sent| ==> sent[i].id < sent[j].id < lastId
    {
    }

    /** A registered stream had exactly one SUBSCRIBE since the last teardown, however many callbacks it has. */
    lemma OneSubscribePerStream(s: string)
      requires Valid() && s in callbacks
      ensures exists i :: sessionStart <= i < |sent| && sent[i] == SubscribeCommand(s, i + 1)
      ensures forall i, j :: (sessionStart <= i < |sent| && sessionStart <= j < |sent| &&
                              sent[i].params == [s] && sent[j].params == [s]) ==> i == j
    {
      var i :| sessionStart <= i < |sent| && StreamOf(sent[i]) == s;
      assert sent[i] == SubscribeCommand(s, i + 1);
    }

    /** _send: raises when closed, otherwise writes the command to the connection. */
    method Send(command: Command) returns (ok: bool)
      modifies this`sent
      ensures ok == connected
      ensures sent == if ok then old(sent) + [command] else old(sent)
    {
      ok := connected;
      if ok {
        sent := sent + [command];
      }
    }

    /**
     * subscribe, from the point where the start event has been waited for: a new
     * stream costs one SUBSCRIBE with the current id, a known stream only gains
     * the callback at the end of its list.
     */
    method Subscribe(stream: string, callback: CallbackId) returns (r: SubscribeOutcome)
      requires Valid()
      modifies this`callbacks, this`lastId, this`sent
      ensures Valid()
      ensures connected == old(connected) && started == old(started) && sessionStart == old(sessionStart)
      ensures stream in old(callbacks) ==>
        && r == Appended
        && callbacks == old(callbacks)[stream := old(callbacks)[stream] + [callback]]
        && lastId == old(lastId) && sent == old(sent)
      ensures stream !in old(callbacks) && !connected ==>
        && r == Failed(ConnectionClosed)
        && callbacks == old(callbacks) && lastId == old(lastId) && sent == old(sent)
      ensures stream !in old(callbacks) && connected ==>
        && r == Sent(SubscribeCommand(stream, old(lastId)))
        && sent == old(sent) + [SubscribeCommand(stream, old(lastId))]
        && lastId == old(lastId) + 1
        && callbacks == old(callbacks)[stream := [callback]]
      ensures forall s :: s != stream ==>
        (s in callbacks <==> s in old(callbacks)) && (s in callbacks ==> callbacks[s] == old(callbacks)[s])
    {
      if stream !in callbacks {
        var command := SubscribeCommand(stream, lastId);
        var ok := Send(command);
        if !ok {
          return Failed(ConnectionClosed);
        }
        RegisteredAfterFirstSubscribe(callbacks, old(sent), sessionStart, lastId, stream, callback);
        lastId := lastId + 1;
        callbacks := callbacks[stream := [callback]];
        r := Sent(command);
      } else {
        RegisteredAfterAppend(callbacks, sent, sessionStart, lastId, stream, callback);
        callbacks := callbacks[stream := callbacks[stream] + [callback]];
        r := Appended;
      }
    }

    /** kline: subscribe to the stream symbol@kline_interval. */
    method Kline(symbol: string, interval: string, callback: CallbackId) returns (r: SubscribeOutcome)
      requires Valid()
      modifies this`callbacks, this`lastId, this`sent
      ensures Valid()
      ensures connected == old(connected) && started == old(started)
      ensures var stream := KlineStream(symbol, interval);
        && (stream in old(callbacks) ==>
              r == Appended && callbacks == old(callbacks)[stream := old(callbacks)[stream] + [callback]] &&
              lastId == old(lastId) && sent == old(sent))
        && (stream !in old(callbacks) && !connected ==>
              r == Failed(ConnectionClosed) && callbacks == old(callbacks) && lastId == old(lastId) && sent == old(sent))
        && (stream !in old(callbacks) && connected ==>
              r == Sent(SubscribeCommand(stream, old(lastId))) &&
              sent == old(sent) + [SubscribeCommand(stream, old(lastId))] &&
              lastId == old(lastId) + 1 && callbacks == old(callbacks)[stream := [callback]])
        && (forall s :: s != stream ==>
              (s in callbacks <==> s in old(callbacks)) && (s in callbacks ==> callbacks[s] == old(callbacks)[s]))
    {
      r := Subscribe(KlineStream(symbol, interval), callback);
    }

    /**
     * One iteration of the receive loop: the callbacks to await for the frame, in
     * order, or the error its registry lookup raises.
     */
    method Dispatch(frame: Frame) returns (r: Result<seq<Invocation>, Error>)
      ensures r == FanOut(callbacks, frame)
    {
      if frame.NonText? || frame.message.stream.None? {
        return Ok([]);
      }
      var m := frame.message;
      var s := m.stream.value;
      if s !in callbacks {
        return Err(UnknownStream(s));
      }
      var cbs := callbacks[s];
      var invoked: seq<Invocation> := [];
      var i := 0;
      while i < |cbs|
        invariant 0 <= i <= |cbs|
        invariant |invoked| == i
        invariant forall j :: 0 <= j < i ==> invoked[j] == Invocation(cbs[j], m)
      {
        invoked := invoked + [Invocation(cbs[i], m)];
        i := i + 1;
      }
      assert invoked == Invocations(cbs, m);
      r := Ok(invoked);
    }

    /**
     * start up to the receive loop: a no-op when a connection is already set;
     * otherwise either the connection opens and the start event is set, or
     * connecting fails and the finally block runs.
     */
    method Start(transportUp: bool) returns (r: StartOutcome)
      requires Valid()
      modifies this
      ensures Valid()
      ensures lastId == old(lastId) && sent == old(sent)
      ensures old(connected) ==>
        r == AlreadyOpen && connected && started == old(started) && callbacks == old(callbacks) &&
        sessionStart == old(sessionStart) && closeSent == old(closeSent)
      ensures !old(connected) && !transportUp ==>
        r == ConnectFailed && !connected && !started && !closeSent && callbacks == map[]
      ensures !old(connected) && transportUp ==>
        r == Opened && connected && started && !closeSent && callbacks == map[]
    {
      if connected {
        return AlreadyOpen;
      }
      if !transportUp {
        callbacks := map[];
        started := false;
        sessionStart := |sent|;
        return ConnectFailed;
      }
      connected, started := true, true;
      r := Opened;
    }

    /**
     * The finally block of start as written: the registry is emptied and the start
     * event cleared, but the connection slot keeps the finished connection.
     */
    method TeardownAsWritten()
      requires Valid()
      modifies this
      ensures Valid()
      ensures callbacks == map[] && !started && connected == old(connected) && closeSent == old(closeSent)
      ensures lastId == old(lastId) && sent == old(sent)
    {
      callbacks := map[];
      started := false;
      sessionStart := |sent|;
    }

    /**
     * The finally block of start with the connection slot released, so that
     * `closed` holds again after the loop ends: the registry is emptied, the
     * start event cleared, and the command counter kept.
     */
    method Teardown()
      requires Valid()
      modifies this
      ensures Valid()
      ensures callbacks == map[] && !started && !connected && !closeSent
      ensures lastId == old(lastId) && sent == old(sent)
    {
      callbacks := map[];
      started := false;
      connected, closeSent := false, false;
      sessionStart := |sent|;
    }

    /**
     * The `async for` of the receive loop over the frames the connection delivers,
     * with no subscribe in between: each frame is dispatched in arrival order,
     * and the first unknown stream ends the loop with its error.
     */
    method Receive(frames: seq<Frame>) returns (invoked: seq<Invocation>, err: Option<Error>)
      ensures (invoked, err) == Deliver(callbacks, frames)
    {
      invoked, err := [], None;
      var i := 0;
      assert frames[0..] == frames;
      assert [] + Deliver(callbacks, frames).0 == Deliver(callbacks, frames).0;
      while i < |frames| && err.None?
        invariant 0 <= i <= |frames|
        invariant err.None? ==>
          && Deliver(callbacks, frames).0 == invoked + Deliver(callbacks, frames[i..]).0
          && Deliver(callbacks, frames).1 == Deliver(callbacks, frames[i..]).1
        invariant err.Some? ==> Deliver(callbacks, frames).0 == invoked && Deliver(callbacks, frames).1 == err
        decreases |frames| - i
      {
        DeliverAt(callbacks, frames, i);
        var r := Dispatch(frames[i]);
        if r.Ok? {
          ghost var rest := Deliver(callbacks, frames[i + 1..]).0;
          assert invoked + (r.value + rest) == (invoked + r.value) + rest;
          invoked := invoked + r.value;
        } else {
          assert invoked + [] == invoked;
          err := Some(r.error);
        }
        i := i + 1;
      }
      if err.None? {
        assert frames[i..] == [];
        assert invoked + [] == invoked;
      }
    }

    /**
     * start from the open connection to its end, as written: the receive loop
     * over the frames delivered, then the finally block that keeps the finished
     * connection in the slot.
     */
    method RunLoopAsWritten(frames: seq<Frame>) returns (invoked: seq<Invocation>, err: Option<Error>)
      requires Valid() && connected
      modifies this
      ensures (invoked, err) == Deliver(old(callbacks), frames)
      ensures Valid()
      ensures callbacks == map[] && !started && connected && closeSent == old(closeSent)
      ensures lastId == old(lastId) && sent == old(sent)
    {
      invoked, err := Receive(frames);
      TeardownAsWritten();
    }

    /**
     * start from the open connection to its end: the receive loop over the frames
     * delivered, then the finally block with the slot released.
     */
    method RunLoop(frames: seq<Frame>) returns (invoked: seq<Invocation>, err: Option<Error>)
      requires Valid() && connected
      modifies this
      ensures (invoked, err) == Deliver(old(callbacks), frames)
      ensures Valid()
      ensures callbacks == map[] && !started && !connected
      ensures lastId == old(lastId) && sent == old(sent)
    {
      invoked, err := Receive(frames);
      Teardown();
    }

    /**
     * stop as written: when a connection is set, close() is called but its
     * coroutine is never awaited, so nothing is written to the connection and
     * no state changes.
     */
    method StopAsWritten() returns (closeCalled: bool)
      ensures closeCalled == connected
    {
      closeCalled := !Closed();
    }

    /**
     * stop with the close awaited: a no-op when no connection is set; otherwise
     * the connection's CLOSE frame is written, which ends the receive loop.
     */
    method Stop() returns (closeRequested: bool)
      requires Valid()
      modifies this`closeSent
      ensures Valid()
      ensures closeRequested == connected
      ensures closeSent == (old(closeSent) || connected)
    {
      closeRequested := !Closed();
      if closeRequested {
        closeSent := true;
      }
    }
  }

  /**
   * Two callbacks on one stream share a single SUBSCRIBE, and a frame of that
   * stream reaches both, in registration order.
   */
  method TwoCallbacksOneSubscription() returns (first: SubscribeOutcome, second: SubscribeOutcome,
                                                 delivered: Result<seq<Invocation>, Error>)
    ensures first == Sent(Command("SUBSCRIBE", ["btcusdt@trade"], 1))
    ensures second == Appended
    ensures delivered == Ok([Invocation(10, Message(Some("btcusdt@trade"), 0)),
                             Invocation(20, Message(Some("btcusdt@trade"), 0))])
  {
    var ws := new Websocket();
    var up := ws.Start(true);
    first := ws.Subscribe("btcusdt@trade", 10);
    second := ws.Subscribe("btcusdt@trade", 20);
    assert ws.callbacks["btcusdt@trade"] == [10, 20];
    var m := Message(Some("btcusdt@trade"), 0);
    delivered := ws.Dispatch(Text(m));
    assert delivered.Ok? && |delivered.value| == 2;
    assert delivered.value[0] == Invocation(10, m) && delivered.value[1] == Invocation(20, m);
    assert delivered.value == [Invocation(10, m), Invocation(20, m)];
  }

  /**
   * As written, once a connection has ended, start returns at once and never
   * reconnects, so the start event that subscribe waits for stays cleared.
   */
  method RestartAfterDropAsWritten() returns (restart: StartOutcome, eventSet: bool)
    ensures restart == AlreadyOpen
    ensures !eventSet
  {
    var ws := new Websocket();
    var up := ws.Start(true);
    var invoked, err := ws.RunLoopAsWritten([]);
    restart := ws.Start(true);
    eventSet := ws.started;
  }

  /** With the slot released by the finally block, start opens a new connection. */
  method RestartAfterDrop() returns (restart: StartOutcome, eventSet: bool, next: SubscribeOutcome)
    ensures restart == Opened
    ensures eventSet
    ensures next == Sent(SubscribeCommand("btcusdt@trade", 2))
  {
    var ws := new Websocket();
    var up := ws.Start(true);
    var first := ws.Subscribe("btcusdt@trade", 10);
    var invoked, err := ws.RunLoop([]);
    restart := ws.Start(true);
    eventSet := ws.started;
    next := ws.Subscribe("btcusdt@trade", 10);
  }

  /** As written, stop on an open connection calls close but writes no CLOSE frame: the loop keeps running. */
  method StopLeavesLoopRunningAsWritten() returns (closeCalled: bool, closing: bool, connectedAfter: bool)
    ensures closeCalled && !closing && connectedAfter
  {
    var ws := new Websocket();
    var up := ws.Start(true);
    closeCalled := ws.StopAsWritten();
    closing, connectedAfter := ws.closeSent, ws.connected;
  }

  /** With the close awaited, stop on an open connection writes its CLOSE frame. */
  method StopClosesConnection() returns (closeRequested: bool, closing: bool)
    ensures closeRequested && closing
  {
    var ws := new Websocket();
    var up := ws.Start(true);
    closeRequested := ws.Stop();
    closing := ws.closeSent;
  }
}
