/**
  `RxSTOMPStream` without its socket, queues and timers: a transition function
  from the connection's record and one event (a call on the stream, a socket
  callback or a timer tick) to the next record.  The record keeps what the
  stream makes observable: the state events it emits and the frames it
  forwards on `inputFrame`, in one log so that their relative order is
  visible, what it asks of the socket, the heart-beat timers it has scheduled,
  and the read buffer of its framer.

  Reads go through the framer as written (`Framer.Feed`), which clears the
  buffer once any NUL has arrived.
 */
module Connection {
  import opened Wrappers
  import opened Text
  import Commands
  import opened Headers
  import opened Frames
  import opened FrameLaws
  import opened Framer
  import opened Heartbeat

  /** `RxSTOMPConfiguration.Network`. */
  const NetworkHost: string := "localhost"
  const NetworkPort: nat := 7891

  /** The protocol version and heart-beat the CONNECT frame asks for. */
  const AcceptedVersion: string := "1.2"
  const ClientHeartBeat: string := "10000,10000"

  /** The receipt the DISCONNECT frame carries. */
  const DisconnectReceipt: string := "foo"

  /** What one heart-beat tick writes: a lone line feed. */
  const HeartbeatPayload: string := [LineFeed]

  /** `StompState`. */
  datatype StompState = Connecting | Connected | Disconnected | Auth

  /** What the stream asks of its socket. */
  datatype Action = Dial(host: string, port: nat) | Write(data: string) | Close

  /** A scheduled repeating timer and whether it has been invalidated. */
  datatype Timer = Timer(period: real, valid: bool)

  /** What the stream emits: a state event on `state`, or a frame forwarded on `inputFrame`. */
  datatype Output = StateEvent(state: StompState) | Forwarded(frame: Frame)

  /**
    The connection: the framer's buffer, everything emitted so far in the order
    it was emitted, the socket actions so far, and every heart-beat timer
    scheduled so far; the last of them is the one the stream holds.
   */
  datatype Conn = Conn(buffer: string, outputs: seq<Output>, actions: seq<Action>, timers: seq<Timer>)

  const Init: Conn := Conn("", [], [], [])

  datatype Event =
    | ConnectCalled(dialThrows: bool)
    | SocketConnected(isConnected: bool)
    | SocketRead(chunk: string)
    | SocketDisconnected
    | AuthCalled(login: string, passcode: string, deviceId: string, receipt: string)
    | DisconnectCalled
    | SendCalled(frame: Frame)
    | TimerFired(index: nat)

  // ---------------------------------------------------------------------------
  // The frames the stream builds

  /** The CONNECT frame `auth` sends: seven headers and no body. */
  function ConnectFrame(login: string, passcode: string, deviceId: string, receipt: string): (f: Frame)
    ensures f.command == Commands.Connect && f.command.RawValue() == "STOMP" && f.body == None
    ensures |f.headers| == 7
  {
    Frame(Commands.Connect,
      [Header(Host, NetworkHost), Header(AcceptVersion, AcceptedVersion), Header(Login, login),
       Header(Passcode, passcode), Header(DeviceId, deviceId), Header(HeartBeat, ClientHeartBeat),
       Header(Receipt, receipt)],
      None)
  }

  /** The (key, value) pairs of the CONNECT frame, in the order `auth` lists them. */
  function ConnectPairs(login: string, passcode: string, deviceId: string, receipt: string): seq<(string, string)>
  {
    [("host", NetworkHost), ("accept-version", AcceptedVersion), ("login", login), ("passcode", passcode),
     ("device_id", deviceId), ("heart-beat", ClientHeartBeat), ("receipt", receipt)]
  }

  /** Its headers carry those pairs, in order, under seven different keys. */
  lemma ConnectFramePairs(login: string, passcode: string, deviceId: string, receipt: string)
    ensures var hs := ConnectFrame(login, passcode, deviceId, receipt).headers;
      var pairs := ConnectPairs(login, passcode, deviceId, receipt);
      && (forall k :: 0 <= k < 7 ==> hs[k].Pair() == pairs[k])
      && (forall i, j :: 0 <= i < j < 7 ==> pairs[i].0 != pairs[j].0)
  {
  }

  /** Its headers are seven distinct pairs: host, accept-version, login, passcode, device_id, heart-beat and receipt. */
  lemma ConnectFrameHeaders(login: string, passcode: string, deviceId: string, receipt: string)
    ensures var hs := ConnectFrame(login, passcode, deviceId, receipt).headers;
      && Distinct(hs)
      && PairSet(hs) ==
        {("host", NetworkHost), ("accept-version", AcceptedVersion), ("login", login), ("passcode", passcode),
         ("device_id", deviceId), ("heart-beat", ClientHeartBeat), ("receipt", receipt)}
  {
    var hs := ConnectFrame(login, passcode, deviceId, receipt).headers;
    var pairs := ConnectPairs(login, passcode, deviceId, receipt);
    ConnectFramePairs(login, passcode, deviceId, receipt);
    PairSetOfPairs(hs, pairs);
  }

  /** Headers carrying the given pairs, in order, have exactly those pairs as their set. */
  lemma {:induction false} PairSetOfPairs(hs: seq<Header>, pairs: seq<(string, string)>)
    requires |hs| == |pairs| && forall k :: 0 <= k < |hs| ==> hs[k].Pair() == pairs[k]
    ensures PairSet(hs) == set p | p in pairs
    decreases |hs|
  {
    if |hs| > 0 {
      PairSetOfPairs(hs[1..], pairs[1..]);
      assert (set p | p in pairs) == {pairs[0]} + set p | p in pairs[1..];
    }
  }

  /** The DISCONNECT frame `disconnect` sends. */
  const DisconnectFrame: Frame := Frame(Commands.Disconnect, [Header(Receipt, DisconnectReceipt)], None)

  /** The DISCONNECT frame on the wire. */
  lemma DisconnectFrameText()
    ensures Serialize(DisconnectFrame) == "DISCONNECT\nreceipt:foo\n\n\0"
  {
    assert HeaderLines(DisconnectFrame.headers) == "receipt:foo\n" by {
      assert DisconnectFrame.headers[1..] == [];
    }
  }

  /** A key or value that can travel in a header line: no colon, no line feed. */
  predicate Plain(s: string)
  {
    ':' !in s && LineFeed !in s
  }

  /** With plain credentials, the server reads the CONNECT frame back as STOMP with the same header set and an empty body. */
  lemma ConnectFrameReadsBack(login: string, passcode: string, deviceId: string, receipt: string)
    requires Plain(login) && Plain(passcode) && Plain(deviceId) && Plain(receipt)
    ensures var f := ConnectFrame(login, passcode, deviceId, receipt); var r := Parse(Serialize(f));
      && r.Success? && r.value.command == Commands.Connect && r.value.body == Some("")
      && PairSet(r.value.headers) == PairSet(f.headers)
  {
    var f := ConnectFrame(login, passcode, deviceId, receipt);
    PlainConnectHeaders(login, passcode, deviceId, receipt);
    DeliveredMatchesSent(f);
  }

  /** Every key and value of the CONNECT frame is plain when the credentials are. */
  lemma PlainConnectHeaders(login: string, passcode: string, deviceId: string, receipt: string)
    requires Plain(login) && Plain(passcode) && Plain(deviceId) && Plain(receipt)
    ensures PlainHeaders(ConnectFrame(login, passcode, deviceId, receipt).headers)
  {
    var hs := ConnectFrame(login, passcode, deviceId, receipt).headers;
    var pairs := ConnectPairs(login, passcode, deviceId, receipt);
    ConnectFramePairs(login, passcode, deviceId, receipt);
    PlainKeys();
    PlainValues();
    assert forall k :: 0 <= k < 7 ==> Plain(pairs[k].0) && Plain(pairs[k].1);
    forall k | 0 <= k < 7
      ensures Plain(hs[k].Key()) && Plain(hs[k].Value())
    {
      assert hs[k].Pair() == pairs[k];
    }
  }

  /** The fixed keys of the CONNECT frame contain neither a colon nor a line feed. */
  lemma PlainKeys()
    ensures Plain("host") && Plain("accept-version") && Plain("login") && Plain("passcode")
    ensures Plain("device_id") && Plain("heart-beat") && Plain("receipt")
  {
  }

  /** Nor do its fixed values. */
  lemma PlainValues()
    ensures Plain(NetworkHost) && Plain(AcceptedVersion) && Plain(ClientHeartBeat)
  {
  }

  /** A heart-beat tick writes one line feed, not the serialised PING frame. */
  lemma HeartbeatIsNotPingFrame()
    ensures HeartbeatPayload != Serialize(Frame(Commands.Ping, [], None))
    ensures |HeartbeatPayload| == 1 && NullChar !in HeartbeatPayload
  {
    assert |Serialize(Frame(Commands.Ping, [], None))| == 4;
  }

  // ---------------------------------------------------------------------------
  // System messages

  /** A header that schedules a timer: key "heart-beat" and a value whose first component is a numeral. */
  predicate Schedules(h: Header)
  {
    h.Key() == "heart-beat" && HeartbeatPeriod(h.Value()).Some?
  }

  /** The timers the heart-beat headers of a CONNECTED frame schedule, one per such header, in header order. */
  function HeartbeatTimers(hs: seq<Header>): (ts: seq<Timer>)
    ensures |ts| <= |hs|
    ensures forall k :: 0 <= k < |ts| ==> ts[k].valid
  {
    if |hs| == 0 then []
    else
      var t := if Schedules(hs[0]) then [Timer(HeartbeatPeriod(hs[0].Value()).value, true)] else [];
      t + HeartbeatTimers(hs[1..])
  }

  /**
    There is a timer exactly when some header schedules one, and every timer
    runs with the period of a heart-beat header.
   */
  lemma {:induction false} HeartbeatTimersLaws(hs: seq<Header>)
    ensures (forall h | h in hs :: !Schedules(h)) <==> HeartbeatTimers(hs) == []
    ensures var ts := HeartbeatTimers(hs);
      forall k | 0 <= k < |ts| :: exists h | h in hs :: Schedules(h) && HeartbeatPeriod(h.Value()) == Some(ts[k].period)
    decreases |hs|
  {
    if |hs| > 0 {
      HeartbeatTimersLaws(hs[1..]);
      assert forall h | h in hs[1..] :: h in hs;
      assert forall h | h in hs :: h == hs[0] || h in hs[1..];
    }
  }

  /** One header on its own schedules one timer with its period when it schedules any. */
  lemma HeartbeatTimerOfHeader(h: Header)
    ensures HeartbeatTimers([h]) == if Schedules(h) then [Timer(HeartbeatPeriod(h.Value()).value, true)] else []
  {
    assert [h][1..] == [];
  }

  /** The timers of a concatenation are the timers of its parts, in order. */
  lemma {:induction false} HeartbeatTimersAppend(a: seq<Header>, b: seq<Header>)
    ensures HeartbeatTimers(a + b) == HeartbeatTimers(a) + HeartbeatTimers(b)
    decreases |a|
  {
    if |a| > 0 {
      assert (a + b)[0] == a[0] && (a + b)[1..] == a[1..] + b;
      HeartbeatTimersAppend(a[1..], b);
    } else {
      assert a + b == b;
    }
  }

  /** `parseSystemMessages`: CONNECTED emits `auth` and schedules timers; every other frame, ERROR included, changes nothing. */
  function SystemMessage(c: Conn, f: Frame): Conn
  {
    if f.command == Commands.Connected then
      c.(outputs := c.outputs + [StateEvent(Auth)], timers := c.timers + HeartbeatTimers(f.headers))
    else c
  }

  /** `validate(frames:)`: each frame is inspected, then forwarded. */
  function Validate(c: Conn, frames: seq<Frame>): Conn
    decreases |frames|
  {
    if |frames| == 0 then c
    else
      var c1 := SystemMessage(c, frames[0]);
      Validate(c1.(outputs := c1.outputs + [Forwarded(frames[0])]), frames[1..])
  }

  /** The frames forwarded, in order: what `inputFrame` observers see. */
  function Inbound(os: seq<Output>): seq<Frame>
  {
    if |os| == 0 then [] else (if os[0].Forwarded? then [os[0].frame] else []) + Inbound(os[1..])
  }

  /** The number of `auth` state events. */
  function AuthCount(os: seq<Output>): nat
  {
    if |os| == 0 then 0 else (if os[0] == StateEvent(Auth) then 1 else 0) + AuthCount(os[1..])
  }

  /** The number of CONNECTED frames. */
  function ConnectedCount(fs: seq<Frame>): nat
  {
    if |fs| == 0 then 0 else (if fs[0].command == Commands.Connected then 1 else 0) + ConnectedCount(fs[1..])
  }

  /** Every forwarded CONNECTED frame comes right after an `auth` event, and every `auth` event right before a forwarded CONNECTED frame. */
  predicate AuthBeforeConnected(os: seq<Output>)
  {
    && (forall i :: 0 <= i < |os| && os[i].Forwarded? && os[i].frame.command == Commands.Connected ==>
          0 < i && os[i - 1] == StateEvent(Auth))
    && (forall i :: 0 <= i < |os| && os[i] == StateEvent(Auth) ==>
          i + 1 < |os| && os[i + 1].Forwarded? && os[i + 1].frame.command == Commands.Connected)
  }

  /** The only state event is `auth`. */
  predicate OnlyAuth(os: seq<Output>)
  {
    forall k :: 0 <= k < |os| && os[k].StateEvent? ==> os[k].state == Auth
  }

  /** Forwarding and counting distribute over concatenation. */
  lemma {:induction false} OutputsAppend(a: seq<Output>, b: seq<Output>)
    ensures Inbound(a + b) == Inbound(a) + Inbound(b)
    ensures AuthCount(a + b) == AuthCount(a) + AuthCount(b)
    decreases |a|
  {
    if |a| > 0 {
      assert (a + b)[0] == a[0] && (a + b)[1..] == a[1..] + b;
      OutputsAppend(a[1..], b);
    } else {
      assert a + b == b;
    }
  }

  /** The order of `auth` and CONNECTED frames, and having `auth` as the only state event, survive concatenation. */
  lemma OrderAppend(a: seq<Output>, b: seq<Output>)
    ensures AuthBeforeConnected(a) && AuthBeforeConnected(b) ==> AuthBeforeConnected(a + b)
    ensures OnlyAuth(a) && OnlyAuth(b) ==> OnlyAuth(a + b)
  {
    assert forall k :: |a| <= k < |a + b| ==> (a + b)[k] == b[k - |a|];
    assert forall k :: 0 <= k < |a| ==> (a + b)[k] == a[k];
  }

  lemma {:induction false} ConnectedCountAppend(a: seq<Frame>, b: seq<Frame>)
    ensures ConnectedCount(a + b) == ConnectedCount(a) + ConnectedCount(b)
    decreases |a|
  {
    if |a| > 0 {
      assert (a + b)[0] == a[0] && (a + b)[1..] == a[1..] + b;
      ConnectedCountAppend(a[1..], b);
    } else {
      assert a + b == b;
    }
  }

  /** What validating a batch emits: per frame, `auth` first when it is CONNECTED, then the frame. */
  function Emitted(frames: seq<Frame>): seq<Output>
  {
    if |frames| == 0 then []
    else
      (if frames[0].command == Commands.Connected then [StateEvent(Auth), Forwarded(frames[0])]
       else [Forwarded(frames[0])]) + Emitted(frames[1..])
  }

  /** The timers validating a batch schedules: those of its CONNECTED frames, in frame order. */
  function Scheduled(frames: seq<Frame>): seq<Timer>
  {
    if |frames| == 0 then []
    else
      (if frames[0].command == Commands.Connected then HeartbeatTimers(frames[0].headers) else [])
        + Scheduled(frames[1..])
  }

  /** Validating appends what `Emitted` and `Scheduled` describe and changes nothing else. */
  lemma {:induction false} ValidateEmits(c: Conn, frames: seq<Frame>)
    ensures Validate(c, frames) == c.(outputs := c.outputs + Emitted(frames), timers := c.timers + Scheduled(frames))
    decreases |frames|
  {
    if |frames| > 0 {
      var f := frames[0];
      var c1 := SystemMessage(c, f);
      var c2 := c1.(outputs := c1.outputs + [Forwarded(f)]);
      ValidateEmits(c2, frames[1..]);
      if f.command == Commands.Connected {
        assert c2.outputs == c.outputs + [StateEvent(Auth), Forwarded(f)];
      }
    }
  }

  /** One frame's output: the frame, preceded by `auth` exactly when it is CONNECTED. */
  lemma EmittedOne(f: Frame)
    ensures var os := if f.command == Commands.Connected then [StateEvent(Auth), Forwarded(f)] else [Forwarded(f)];
      && Inbound(os) == [f] && AuthCount(os) == ConnectedCount([f])
      && AuthBeforeConnected(os) && OnlyAuth(os)
  {
    assert [f][1..] == [];
    assert ConnectedCount([f]) == if f.command == Commands.Connected then 1 else 0;
    OneOutput(Forwarded(f));
    if f.command == Commands.Connected {
      OneOutput(StateEvent(Auth));
      OutputsAppend([StateEvent(Auth)], [Forwarded(f)]);
      assert [StateEvent(Auth)] + [Forwarded(f)] == [StateEvent(Auth), Forwarded(f)];
    }
  }

  /** A single output forwards its frame, if it is one, and counts one `auth` exactly when it is one. */
  lemma OneOutput(o: Output)
    ensures Inbound([o]) == if o.Forwarded? then [o.frame] else []
    ensures AuthCount([o]) == if o == StateEvent(Auth) then 1 else 0
  {
    assert [o][1..] == [];
  }

  /** A batch's output forwards the batch, has one `auth` per CONNECTED frame and no other state event, and puts each `auth` right before its frame. */
  lemma {:induction false} EmittedLaws(frames: seq<Frame>)
    ensures var os := Emitted(frames);
      && Inbound(os) == frames && AuthCount(os) == ConnectedCount(frames)
      && AuthBeforeConnected(os) && OnlyAuth(os)
    decreases |frames|
  {
    if |frames| > 0 {
      var f := frames[0];
      var head := if f.command == Commands.Connected then [StateEvent(Auth), Forwarded(f)] else [Forwarded(f)];
      EmittedLaws(frames[1..]);
      EmittedOne(f);
      OutputsAppend(head, Emitted(frames[1..]));
      OrderAppend(head, Emitted(frames[1..]));
      ConnectedCountAppend([f], frames[1..]);
      assert [f] + frames[1..] == frames;
    }
  }

  /**
    Validating forwards every frame unchanged and in order, emits `auth` right
    before each CONNECTED frame and no other state event, schedules the timers
    of the CONNECTED frames, and leaves the buffer and the socket actions alone.
   */
  lemma ValidateLaws(c: Conn, frames: seq<Frame>)
    ensures var c' := Validate(c, frames);
      && c'.buffer == c.buffer && c'.actions == c.actions
      && c'.timers == c.timers + Scheduled(frames)
      && |c.outputs| <= |c'.outputs| && c'.outputs[..|c.outputs|] == c.outputs
      && var added := c'.outputs[|c.outputs|..];
        && Inbound(added) == frames && AuthCount(added) == ConnectedCount(frames)
        && AuthBeforeConnected(added) && OnlyAuth(added)
  {
    ValidateEmits(c, frames);
    EmittedLaws(frames);
    var c' := Validate(c, frames);
    assert c'.outputs[|c.outputs|..] == Emitted(frames);
  }

  // ---------------------------------------------------------------------------
  // Events

  /** The held timer, the last one scheduled, invalidated. */
  function InvalidateHeld(ts: seq<Timer>): (r: seq<Timer>)
    ensures |r| == |ts|
    ensures forall k :: 0 <= k < |ts| - 1 ==> r[k] == ts[k]
    ensures |ts| > 0 ==> !r[|ts| - 1].valid && r[|ts| - 1].period == ts[|ts| - 1].period
  {
    if |ts| == 0 then [] else ts[..|ts| - 1] + [ts[|ts| - 1].(valid := false)]
  }

  /** One event. */
  function Step(c: Conn, e: Event): Conn
  {
    match e
    case ConnectCalled(dialThrows) =>
      if dialThrows then c.(outputs := c.outputs + [StateEvent(Connecting), StateEvent(Disconnected)])
      else c.(outputs := c.outputs + [StateEvent(Connecting)], actions := c.actions + [Dial(NetworkHost, NetworkPort)])
    case SocketConnected(isConnected) =>
      if isConnected then c.(outputs := c.outputs + [StateEvent(Connected)]) else c
    case SocketRead(chunk) =>
      var r := Feed(c.buffer, chunk);
      Validate(c.(buffer := r.buffer), r.frames)
    case SocketDisconnected =>
      c.(outputs := c.outputs + [StateEvent(Disconnected)], timers := InvalidateHeld(c.timers))
    case AuthCalled(login, passcode, deviceId, receipt) =>
      c.(actions := c.actions + [Write(Serialize(ConnectFrame(login, passcode, deviceId, receipt)))])
    case DisconnectCalled =>
      c.(actions := c.actions + [Write(Serialize(DisconnectFrame)), Close])
    case SendCalled(f) =>
      c.(actions := c.actions + [Write(Serialize(f))])
    case TimerFired(i) =>
      if i < |c.timers| && c.timers[i].valid then c.(actions := c.actions + [Write(HeartbeatPayload)]) else c
  }

  /** A sequence of events, in order. */
  function Run(c: Conn, es: seq<Event>): Conn
    decreases |es|
  {
    if |es| == 0 then c else Run(Step(c, es[0]), es[1..])
  }

  /** `connect()` emits `connecting`, then `disconnected` exactly when dialling throws; it dials localhost:7891 otherwise. */
  lemma ConnectEvents(c: Conn, dialThrows: bool)
    ensures var c' := Step(c, ConnectCalled(dialThrows)); var n := |c.outputs|;
      && |c'.outputs| > n && c'.outputs[..n] == c.outputs && c'.outputs[n] == StateEvent(Connecting)
      && (c'.outputs[n + 1..] == [StateEvent(Disconnected)] <==> dialThrows)
      && (c'.actions == c.actions + [Dial("localhost", 7891)] <==> !dialThrows)
      && (dialThrows ==> c'.actions == c.actions)
      && c'.buffer == c.buffer && c'.timers == c.timers
    ensures Step(c, ConnectCalled(dialThrows)).outputs == c.outputs +
      (if dialThrows then [StateEvent(Connecting), StateEvent(Disconnected)] else [StateEvent(Connecting)])
  {
    var c' := Step(c, ConnectCalled(dialThrows));
    if !dialThrows {
      assert c'.outputs[|c.outputs| + 1..] == [];
    } else {
      assert |c'.actions| == |c.actions|;
    }
  }

  /** The socket callbacks: a connection emits `connected` when the socket reports it; a disconnect emits `disconnected` and invalidates the held timer only. */
  lemma SocketEvents(c: Conn, isConnected: bool)
    ensures var c' := Step(c, SocketConnected(isConnected));
      && (isConnected ==> c' == c.(outputs := c.outputs + [StateEvent(Connected)]))
      && (!isConnected ==> c' == c)
    ensures var c' := Step(c, SocketDisconnected);
      && c'.outputs == c.outputs + [StateEvent(Disconnected)]
      && |c'.timers| == |c.timers|
      && (|c.timers| > 0 ==> !Last(c'.timers).valid)
      && (forall k :: 0 <= k < |c.timers| - 1 ==> c'.timers[k] == c.timers[k])
      && c'.actions == c.actions && c'.buffer == c.buffer
  {
  }

  /**
    A read hands the buffer and the chunk to the framer as written.  Without a
    NUL the text waits in the buffer and nothing is emitted; otherwise the
    buffer is emptied, every frame the framer yields is forwarded unchanged and
    in order, `auth` comes right before each CONNECTED frame among them and no
    other state event is emitted, their heart-beat timers are scheduled, and
    nothing is asked of the socket.
   */
  lemma ReadEvents(c: Conn, chunk: string)
    ensures var text := c.buffer + chunk; var c' := Step(c, SocketRead(chunk));
      NullChar !in text && text != [LineFeed] ==> c' == c.(buffer := text)
    ensures var r := Feed(c.buffer, chunk); var c' := Step(c, SocketRead(chunk));
      && (NullChar in c.buffer + chunk ==> c'.buffer == "")
      && c'.buffer == r.buffer && c'.actions == c.actions
      && c'.timers == c.timers + Scheduled(r.frames)
      && |c.outputs| <= |c'.outputs| && c'.outputs[..|c.outputs|] == c.outputs
      && var added := c'.outputs[|c.outputs|..];
        && Inbound(added) == r.frames && AuthCount(added) == ConnectedCount(r.frames)
        && AuthBeforeConnected(added) && OnlyAuth(added)
  {
    var r := Feed(c.buffer, chunk);
    ValidateLaws(c.(buffer := r.buffer), r.frames);
  }

  /** `auth`, `disconnect` and `sendFrame` write serialised frames; `disconnect` writes DISCONNECT with receipt "foo" and then closes, and none of them emits anything. */
  lemma WriteEvents(c: Conn, login: string, passcode: string, deviceId: string, receipt: string, f: Frame)
    ensures Step(c, AuthCalled(login, passcode, deviceId, receipt)) ==
      c.(actions := c.actions + [Write(Serialize(ConnectFrame(login, passcode, deviceId, receipt)))])
    ensures var c' := Step(c, DisconnectCalled);
      c'.actions == c.actions + [Write("DISCONNECT\nreceipt:foo\n\n\0"), Close] && c'.outputs == c.outputs
    ensures Step(c, SendCalled(f)) == c.(actions := c.actions + [Write(Serialize(f))])
  {
    DisconnectFrameText();
  }

  /** A tick of a live timer writes one line feed; a tick of an invalidated or unknown timer does nothing. */
  lemma TimerEvents(c: Conn, i: nat)
    ensures var c' := Step(c, TimerFired(i));
      && (i < |c.timers| && c.timers[i].valid ==> c'.actions == c.actions + [Write("\n")])
      && (!(i < |c.timers| && c.timers[i].valid) ==> c' == c)
      && c'.outputs == c.outputs && c'.timers == c.timers
  {
  }

  /**
    Two SEND frames arriving in two reads cut after "SE": the stream forwards
    only the first, because the first read clears "SE" from the buffer.
   */
  lemma SplitReadForwardsOne()
    ensures var c1, c2 := Serialize(SendFrame) + "SE", "ND\n\n" + [NullChar];
      && c1 + c2 == Stream([SendFrame, SendFrame])
      && Inbound(Run(Init, [SocketRead(c1), SocketRead(c2)]).outputs) == [Delivered(SendFrame)]
  {
    var c1, c2 := Serialize(SendFrame) + "SE", "ND\n\n" + [NullChar];
    FeedLosesSplitFrame();
    TwoReads(c1, c2, Delivered(SendFrame));
  }

  /** Two reads from a fresh stream, the first yielding one frame and clearing the buffer, the second yielding nothing: one frame forwarded. */
  lemma TwoReads(c1: string, c2: string, d: Frame)
    requires Feed("", c1) == FeedResult([d], "") && Feed("", c2) == FeedResult([], "")
    ensures Inbound(Run(Init, [SocketRead(c1), SocketRead(c2)]).outputs) == [d]
  {
    var s1 := Step(Init, SocketRead(c1));
    ReadEvents(Init, c1);
    assert s1.outputs[|Init.outputs|..] == s1.outputs;
    var s2 := Step(s1, SocketRead(c2));
    assert s2 == s1 by {
      assert Validate(s1, []) == s1;
    }
    var es := [SocketRead(c1), SocketRead(c2)];
    assert Run(Init, es) == s2 by {
      assert es[1..] == [SocketRead(c2)] && es[1..][1..] == [];
      assert Run(Init, es) == Run(s1, [SocketRead(c2)]);
      assert Run(s1, [SocketRead(c2)]) == Run(s2, []);
    }
  }

  // ---------------------------------------------------------------------------
  // What every run keeps

  /** Every write is a serialised frame, ending in NUL, or the heart-beat line feed. */
  predicate WellFormedWrites(acts: seq<Action>)
  {
    forall k :: 0 <= k < |acts| && acts[k].Write? ==>
      acts[k].data == HeartbeatPayload || EndsWith(acts[k].data, NullChar)
  }

  /** One `auth` event per CONNECTED frame forwarded, each right before its frame, and no PING frame forwarded. */
  predicate Consistent(os: seq<Output>)
  {
    && AuthCount(os) == ConnectedCount(Inbound(os))
    && AuthBeforeConnected(os)
    && (forall k :: 0 <= k < |Inbound(os)| ==> Inbound(os)[k].command != Commands.Ping)
  }

  /** Consistent output and well-formed writes. */
  predicate Invariant(c: Conn)
  {
    Consistent(c.outputs) && WellFormedWrites(c.actions)
  }

  /** Consistent outputs stay consistent when concatenated. */
  lemma ConsistentAppend(a: seq<Output>, b: seq<Output>)
    requires Consistent(a) && Consistent(b)
    ensures Consistent(a + b)
  {
    OutputsAppend(a, b);
    OrderAppend(a, b);
    ConnectedCountAppend(Inbound(a), Inbound(b));
    var fs := Inbound(a + b);
    assert forall k :: |Inbound(a)| <= k < |fs| ==> fs[k] == Inbound(b)[k - |Inbound(a)|];
  }

  /** Appending well-formed writes keeps the writes well formed. */
  lemma WritesAppend(a: seq<Action>, b: seq<Action>)
    requires WellFormedWrites(a) && WellFormedWrites(b)
    ensures WellFormedWrites(a + b)
  {
    assert forall k :: |a| <= k < |a + b| ==> (a + b)[k] == b[k - |a|];
  }

  /** A read keeps the invariant: what it emits pairs each `auth` with its CONNECTED frame, and the framer yields no PING frame. */
  lemma ReadKeepsInvariant(c: Conn, chunk: string)
    requires Invariant(c)
    ensures Invariant(Step(c, SocketRead(chunk)))
  {
    var r := Feed(c.buffer, chunk);
    var c' := Step(c, SocketRead(chunk));
    ReadEvents(c, chunk);
    var added := c'.outputs[|c.outputs|..];
    assert c'.outputs == c.outputs + added;
    FeedFrames(c.buffer, chunk);
    assert Consistent(added);
    ConsistentAppend(c.outputs, added);
  }

  /** Every event keeps the invariant. */
  lemma StepKeepsInvariant(c: Conn, e: Event)
    requires Invariant(c)
    ensures Invariant(Step(c, e))
  {
    match e
    case ConnectCalled(t) =>
      var os := if t then [StateEvent(Connecting), StateEvent(Disconnected)] else [StateEvent(Connecting)];
      AddStateEvents(c, os, c.timers);
      AddWrites(c.(outputs := c.outputs + os), [Dial(NetworkHost, NetworkPort)]);
    case SocketConnected(_) =>
      AddStateEvents(c, [StateEvent(Connected)], c.timers);
    case SocketRead(chunk) =>
      ReadKeepsInvariant(c, chunk);
    case SocketDisconnected =>
      AddStateEvents(c, [StateEvent(Disconnected)], InvalidateHeld(c.timers));
    case AuthCalled(login, passcode, deviceId, receipt) =>
      AddWrites(c, [Write(Serialize(ConnectFrame(login, passcode, deviceId, receipt)))]);
    case DisconnectCalled =>
      AddWrites(c, [Write(Serialize(DisconnectFrame)), Close]);
    case SendCalled(f) =>
      AddWrites(c, [Write(Serialize(f))]);
    case TimerFired(i) =>
      AddWrites(c, [Write(HeartbeatPayload)]);
  }

  /** Adding well-formed socket actions keeps the invariant. */
  lemma AddWrites(c: Conn, acts: seq<Action>)
    requires Invariant(c) && WellFormedWrites(acts)
    ensures Invariant(c.(actions := c.actions + acts))
  {
    WritesAppend(c.actions, acts);
  }

  /** Emitting state events other than `auth`, and changing the timers, keeps the invariant. */
  lemma AddStateEvents(c: Conn, os: seq<Output>, timers: seq<Timer>)
    requires Invariant(c)
    requires forall k :: 0 <= k < |os| ==> os[k].StateEvent? && os[k].state != Auth
    ensures Invariant(c.(outputs := c.outputs + os, timers := timers))
  {
    PlainStateEvents(os);
    ConsistentAppend(c.outputs, os);
  }

  /** State events other than `auth` forward nothing and count no `auth`. */
  lemma {:induction false} PlainStateEvents(os: seq<Output>)
    requires forall k :: 0 <= k < |os| ==> os[k].StateEvent? && os[k].state != Auth
    ensures Inbound(os) == [] && AuthCount(os) == 0
    decreases |os|
  {
    if |os| > 0 {
      assert forall k :: 0 <= k < |os| - 1 ==> os[1..][k] == os[k + 1];
      PlainStateEvents(os[1..]);
    }
  }

  /** From a state that keeps the invariant, every run of events keeps it. */
  lemma {:induction false} RunKeepsInvariant(c: Conn, es: seq<Event>)
    requires Invariant(c)
    ensures Invariant(Run(c, es))
    decreases |es|
  {
    if |es| > 0 {
      StepKeepsInvariant(c, es[0]);
      RunKeepsInvariant(Step(c, es[0]), es[1..]);
    }
  }

  /**
    After any run from a fresh stream, the `auth` events are exactly as many as
    the CONNECTED frames forwarded, each comes right before its frame, and no
    PING frame has been forwarded.
   */
  lemma AuthPerConnected(es: seq<Event>)
    ensures var os := Run(Init, es).outputs;
      && AuthCount(os) == ConnectedCount(Inbound(os))
      && AuthBeforeConnected(os)
      && forall k :: 0 <= k < |Inbound(os)| ==> Inbound(os)[k].command != Commands.Ping
  {
    RunKeepsInvariant(Init, es);
  }

  // ---------------------------------------------------------------------------
  // The replaced timer

  /**
    A second CONNECTED frame with a heart-beat replaces the held timer without
    invalidating the first, so after a disconnect the first timer still ticks
    and writes a line feed on the socket.
   */
  lemma TimerOutlivesDisconnect(c: Conn, f1: Frame, f2: Frame)
    requires f1.command == Commands.Connected && f2.command == Commands.Connected
    requires |HeartbeatTimers(f1.headers)| > 0 && |HeartbeatTimers(f2.headers)| > 0
    ensures var c' := Step(Validate(c, [f1, f2]), SocketDisconnected);
      && |c.timers| < |c'.timers| && c'.timers[|c.timers|].valid
      && Step(c', TimerFired(|c.timers|)).actions == c'.actions + [Write(HeartbeatPayload)]
      && Last(c'.outputs) == StateEvent(Disconnected)
  {
    var c1 := SystemMessage(c, f1);
    var c2 := c1.(outputs := c1.outputs + [Forwarded(f1)]);
    var c3 := SystemMessage(c2, f2);
    var c4 := c3.(outputs := c3.outputs + [Forwarded(f2)]);
    assert Validate(c, [f1, f2]) == c4 by {
      assert [f1, f2][1..] == [f2];
      assert Validate(c2, [f2]) == Validate(c4, []);
    }
    var n := |c.timers|;
    assert c4.timers == c.timers + HeartbeatTimers(f1.headers) + HeartbeatTimers(f2.headers);
    assert c4.timers[n] == HeartbeatTimers(f1.headers)[0];
  }
}
