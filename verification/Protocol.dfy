/**
 * The reaction logic of `Connection` in src/network/connection.rs, as a pure
 * transition: a state and an inbound event give the next state and the messages
 * handed to the transport. The state has no lifecycle phase: only `running`,
 * whether a transport was ever set, and the authentication failure counter.
 */
module Protocol {
  import opened Wrappers
  import opened Bytes
  import opened Utf8
  import opened Frames
  import opened Codec

  const HeartbeatService: u16 := 1
  const AuthService: u16 := 2

  /** From this many counted failures on, `auth` sends the alternate username. */
  const EscalationThreshold: nat := 10

  /** `transport` is whether `transport_tx` is `Some`; nothing ever sets it back to `None`. */
  datatype Connection = Connection(running: bool, transport: bool, count: u32)

  /**
   * What serde_json makes of a service-2 payload: not JSON at all, or some JSON
   * value. `r` is `Some` only for an object whose field `r` is an integer that
   * fits an i64 (`as_i64`); any other value, objects without such an `r` and
   * non-objects alike, reads as `None`, because indexing it by "r" gives null.
   */
  datatype JsonView = NotJson | Json(r: Option<i64>)

  /** The two ways the handler panics: `unwrap` of a failed parse, and `count += 1` past u32::MAX. */
  datatype Panic = PayloadNotJson | CountOverflow

  /**
   * The next state and the messages handed to the transport, or a panic of the
   * handler task together with what had already been sent before it.
   */
  datatype Reaction =
    | Continue(conn: Connection, sent: seq<Message>)
    | Panicked(cause: Panic, sent: seq<Message>)

  predicate IsAscii(s: string) {
    forall i | 0 <= i < |s| :: s[i] as int < 0x80
  }

  lemma AsciiConcat(a: string, b: string)
    requires IsAscii(a) && IsAscii(b)
    ensures IsAscii(a + b)
  {
  }

  /** The UTF-8 bytes of seven-bit text: one byte per character. */
  function AsciiText(s: string): (b: Utf8Bytes)
    requires IsAscii(s)
    ensures |b| == |s|
    ensures forall i | 0 <= i < |s| :: b[i] == s[i] as int
  {
    var b: seq<byte> := seq(|s|, i requires 0 <= i < |s| && IsAscii(s) => s[i] as int);
    AsciiIsValidUtf8(b);
    b
  }

  /** The fields of the authentication request object. */
  datatype AuthRequest = AuthRequest(
    requestId: string, username: string, password: string, moduleName: string,
    dcId: string, ip: string, port: string)

  const DefaultProfile: AuthRequest :=
    AuthRequest("1", "u", "password", "client", "dc_id", "127.0.0.1", "9999")

  const EscalatedProfile: AuthRequest :=
    AuthRequest("1", "username", "password", "client", "dc_id", "127.0.0.1", "9999")

  /** The two credential profiles differ in the username only. */
  function Credentials(escalated: bool): (p: AuthRequest)
    ensures p.(username := DefaultProfile.username) == DefaultProfile
    ensures p.username == if escalated then "username" else "u"
  {
    if escalated then EscalatedProfile else DefaultProfile
  }

  /** What the handler sends: the heartbeat reply, or a login request with one of the two profiles. */
  datatype Message = Heartbeat | Login(escalated: bool)

  /** The login request `auth` builds at a failure count: escalated from the threshold on. */
  function LoginFor(count: u32): (m: Message)
  {
    Login(count >= EscalationThreshold)
  }

  function JsonField(key: string, value: string): string {
    "\"" + key + "\":\"" + value + "\""
  }

  /** The members of a JSON object of string fields, comma-separated. */
  function JsonMembers(fields: seq<(string, string)>): string
    decreases |fields|
  {
    if |fields| == 0 then ""
    else if |fields| == 1 then JsonField(fields[0].0, fields[0].1)
    else JsonField(fields[0].0, fields[0].1) + "," + JsonMembers(fields[1..])
  }

  /** A JSON object of string fields in the given order; serde_json's own key order is not modelled. */
  function JsonObject(fields: seq<(string, string)>): string {
    "{" + JsonMembers(fields) + "}"
  }

  lemma {:induction false} JsonMembersAscii(fields: seq<(string, string)>)
    requires forall i | 0 <= i < |fields| :: IsAscii(fields[i].0) && IsAscii(fields[i].1)
    ensures IsAscii(JsonMembers(fields))
    decreases |fields|
  {
    if |fields| > 0 {
      var f := fields[0];
      AsciiConcat("\"", f.0);
      AsciiConcat("\"" + f.0, "\":\"");
      AsciiConcat("\"" + f.0 + "\":\"", f.1);
      AsciiConcat("\"" + f.0 + "\":\"" + f.1, "\"");
      if |fields| > 1 {
        JsonMembersAscii(fields[1..]);
        AsciiConcat(JsonField(f.0, f.1), ",");
        AsciiConcat(JsonField(f.0, f.1) + ",", JsonMembers(fields[1..]));
      }
    }
  }

  /** Short fields give a short object: the authentication payload is far below the 2^32 limit. */
  lemma {:induction false} JsonMembersShort(fields: seq<(string, string)>)
    requires forall i | 0 <= i < |fields| :: |fields[i].0| <= 16 && |fields[i].1| <= 16
    ensures |JsonMembers(fields)| <= 40 * |fields|
    decreases |fields|
  {
    if |fields| > 1 {
      JsonMembersShort(fields[1..]);
    }
  }

  function AuthFields(p: AuthRequest): seq<(string, string)> {
    [("requestId", p.requestId), ("username", p.username), ("password", p.password),
     ("module_name", p.moduleName), ("dc_id", p.dcId), ("ip", p.ip), ("port", p.port)]
  }

  const HeartbeatJson: string := "{\"requestId\":\"1\",\"hbc\":\"1\"}"

  /** The fixed heartbeat reply. */
  const HeartbeatFrame: Data := Data(HeartbeatService, AsciiText(HeartbeatJson))

  lemma CredentialFieldsPlain(escalated: bool)
    ensures forall i | 0 <= i < 7 ::
      IsAscii(AuthFields(Credentials(escalated))[i].0) && IsAscii(AuthFields(Credentials(escalated))[i].1)
    ensures forall i | 0 <= i < 7 ::
      |AuthFields(Credentials(escalated))[i].0| <= 16 && |AuthFields(Credentials(escalated))[i].1| <= 16
  {
  }

  /** The frame a message is sent as: service 1 or 2, with its JSON text as payload. */
  function ToData(m: Message): (d: Data)
    ensures d.service == if m.Heartbeat? then HeartbeatService else AuthService
    ensures Encodable(d)
  {
    match m
    case Heartbeat => HeartbeatFrame
    case Login(escalated) =>
      var fields := AuthFields(Credentials(escalated));
      CredentialFieldsPlain(escalated);
      JsonMembersAscii(fields);
      JsonMembersShort(fields);
      AsciiConcat("{", JsonMembers(fields));
      AsciiConcat("{" + JsonMembers(fields), "}");
      Data(AuthService, AsciiText(JsonObject(fields)))
  }

  /** Different messages are different frames on the wire. */
  lemma ToDataInjective(m1: Message, m2: Message)
    ensures ToData(m1) == ToData(m2) <==> m1 == m2
  {
  }

  /** The frames of a run of messages, in order. */
  function ToFrames(ms: seq<Message>): (ds: seq<Data>)
    ensures |ds| == |ms|
    ensures forall i | 0 <= i < |ms| :: ds[i] == ToData(ms[i])
  {
    seq(|ms|, i requires 0 <= i < |ms| => ToData(ms[i]))
  }

  /** The state `new` creates: running, no transport yet, no failures counted. */
  function New(): Connection {
    Connection(true, false, 0)
  }

  /**
   * `send`: the message reaches the transport exactly when one is set; a
   * write error is only logged, so it changes nothing here. Generic in what is
   * sent: the handler's own messages, or any `Data` a caller passes.
   */
  function Send<M(==)>(c: Connection, m: M): (sent: seq<M>)
    ensures |sent| <= 1
    ensures forall x | x in sent :: x == m
    ensures sent != [] <==> c.transport
  {
    if c.transport then [m] else []
  }

  /** `auth`: send the login request chosen by the current count. */
  function Auth(c: Connection): (sent: seq<Message>)
    ensures |sent| <= 1
    ensures sent != [] <==> c.transport
    ensures forall m | m in sent :: m.Login? && (m.escalated <==> c.count >= EscalationThreshold)
  {
    Send(c, LoginFor(c.count))
  }

  /** A service-2 reply that is not a success: count it, then authenticate again. */
  function AuthFailed(c: Connection): (r: Reaction)
    ensures c.count < U32Max ==> r == Continue(c.(count := c.count + 1), Send(c, LoginFor(c.count + 1)))
    ensures c.count == U32Max ==> r == Panicked(CountOverflow, [])
  {
    if c.count == U32Max then Panicked(CountOverflow, [])
    else
      var c' := c.(count := c.count + 1);
      Continue(c', Auth(c'))
  }

  /** The reply is a rejection: `r` missing, not an i64, or non-zero. */
  predicate IsRejection(view: JsonView) {
    view.Json? && (view.r.None? || view.r.value != 0)
  }

  /** `on_data_received`: the reaction to one inbound frame, whatever state the connection is in. */
  function OnDataReceived(c: Connection, d: Data, view: JsonView): (r: Reaction)
    ensures d.service == HeartbeatService ==>
              r == Continue(c, if c.transport then [Heartbeat] else [])
    ensures d.service == AuthService && view == Json(Some(0)) ==> r == Continue(c.(count := 0), [])
    ensures d.service == AuthService && IsRejection(view) && c.count < U32Max ==>
              r == Continue(c.(count := c.count + 1),
                            if c.transport then [Login(c.count + 1 >= EscalationThreshold)] else [])
    ensures d.service == AuthService && IsRejection(view) && c.count == U32Max ==> r == Panicked(CountOverflow, [])
    ensures d.service == AuthService && view == NotJson ==> r == Panicked(PayloadNotJson, [])
    ensures d.service != HeartbeatService && d.service != AuthService ==> r == Continue(c, [])
  {
    if d.service == HeartbeatService then
      Continue(c, Send(c, Heartbeat))
    else if d.service == AuthService then
      match view
      case NotJson => Panicked(PayloadNotJson, [])
      case Json(Some(r)) => if r != 0 then AuthFailed(c) else Continue(c.(count := 0), [])
      case Json(None) => AuthFailed(c)
    else
      Continue(c, [])
  }

  /** Lines 127-131 of the connect loop: store the new transport, then authenticate. */
  function OnConnect(c: Connection): (r: Reaction)
    ensures r == Continue(c.(transport := true), [LoginFor(c.count)])
  {
    var c' := c.(transport := true);
    Continue(c', Auth(c'))
  }

  /** What the connect loop feeds the handler. */
  datatype Event =
    | ConnectAttempt(succeeded: bool)
    | Received(d: Data, view: JsonView)
    | ReadEnded

  /**
   * One event. A connect attempt is made only while `running`; a failed one
   * changes nothing. The end of the read stream also changes nothing: the old
   * transport stays set.
   */
  function Step(c: Connection, e: Event): Reaction {
    match e
    case ConnectAttempt(ok) => if c.running && ok then OnConnect(c) else Continue(c, [])
    case Received(d, view) => OnDataReceived(c, d, view)
    case ReadEnded => Continue(c, [])
  }

  /** A run of events, in order, stopping at the first panic; what was sent before it stays sent. */
  function Run(c: Connection, events: seq<Event>): Reaction
    decreases |events|
  {
    if |events| == 0 then Continue(c, [])
    else
      match Step(c, events[0])
      case Panicked(p, sent1) => Panicked(p, sent1)
      case Continue(c1, sent1) =>
        match Run(c1, events[1..])
        case Panicked(p, sent2) => Panicked(p, sent1 + sent2)
        case Continue(c2, sent2) => Continue(c2, sent1 + sent2)
  }

  /** Seen from `new`, the first successful connect sends the default request. */
  lemma NewThenConnect()
    ensures New().running && !New().transport && New().count == 0
    ensures Run(New(), [ConnectAttempt(true)]) == Continue(Connection(true, true, 0), [Login(false)])
  {
  }

  /** Once set, the transport is never cleared, whatever happens afterwards. */
  lemma {:induction false} TransportNeverReset(c: Connection, events: seq<Event>)
    requires c.transport
    ensures Run(c, events).Continue? ==> Run(c, events).conn.transport
    decreases |events|
  {
    if |events| > 0 {
      match Step(c, events[0])
      case Panicked(_, _) =>
      case Continue(c1, _) => TransportNeverReset(c1, events[1..]);
    }
  }

  /** `running` never changes: nothing in the handler writes it. */
  lemma {:induction false} RunningNeverChanges(c: Connection, events: seq<Event>)
    ensures Run(c, events).Continue? ==> Run(c, events).conn.running == c.running
    decreases |events|
  {
    if |events| > 0 {
      match Step(c, events[0])
      case Panicked(_, _) =>
      case Continue(c1, _) => RunningNeverChanges(c1, events[1..]);
    }
  }

  /**
   * The failure count outlives a connection: after the stream ends and the
   * next connect succeeds, the new request is chosen by the old count.
   */
  lemma CountSurvivesReconnect(c: Connection)
    requires c.running
    ensures Run(c, [ReadEnded, ConnectAttempt(false), ConnectAttempt(true)])
            == Continue(c.(transport := true), [LoginFor(c.count)])
  {
  }

  /** Every event is a service-2 reply that rejects the login, in any of the ways `IsRejection` allows. */
  predicate AllRejections(events: seq<Event>) {
    forall i | 0 <= i < |events| ::
      events[i].Received? && events[i].d.service == AuthService && IsRejection(events[i].view)
  }

  /** The login requests for the counts `k + 1`, ..., `k + n`. */
  function RequestsAfter(k: nat, n: nat): (ms: seq<Message>)
    requires k + n <= U32Max
    ensures |ms| == n
    ensures forall i | 0 <= i < n :: ms[i] == LoginFor(k + i + 1)
    decreases n
  {
    if n == 0 then [] else [LoginFor(k + 1)] + RequestsAfter(k + 1, n - 1)
  }

  /**
   * Consecutive rejections count up one by one, and each is answered by the
   * request for the count it has just reached.
   */
  lemma {:induction false} RejectionsCountUp(c: Connection, events: seq<Event>)
    requires c.transport
    requires AllRejections(events)
    requires c.count + |events| <= U32Max
    ensures Run(c, events) == Continue(c.(count := c.count + |events|), RequestsAfter(c.count, |events|))
    decreases |events|
  {
    if |events| > 0 {
      var c1 := c.(count := c.count + 1);
      assert Step(c, events[0]) == Continue(c1, [LoginFor(c.count + 1)]);
      assert AllRejections(events[1..]) by {
        forall i | 0 <= i < |events[1..]|
          ensures events[1..][i] == events[i + 1]
        {
        }
      }
      RejectionsCountUp(c1, events[1..]);
    }
  }

  /**
   * From a fresh count, nine rejections are answered with the default
   * request; the tenth, arriving at count 9, with the escalated one.
   */
  lemma EscalationAtTenthRejection(c: Connection, events: seq<Event>)
    requires c.transport && c.count == 0
    requires AllRejections(events) && |events| == 10
    ensures Run(c, events[..9]) == Continue(c.(count := 9), seq(9, _ => Login(false)))
    ensures Run(c, events) == Continue(c.(count := 10), seq(9, _ => Login(false)) + [Login(true)])
  {
    assert AllRejections(events[..9]);
    RejectionsCountUp(c, events[..9]);
    RejectionsCountUp(c, events);
    assert RequestsAfter(0, 9) == seq(9, _ => Login(false));
    assert RequestsAfter(0, 10) == seq(9, _ => Login(false)) + [Login(true)];
  }

  /**
   * Everything the handler sends is framed faithfully: the receiving side's
   * decoder gets back exactly those frames, in order, with nothing left over.
   */
  lemma SentFramesDecode(sent: seq<Message>)
    ensures DecodeAll(Wire(ToFrames(sent))) == Stream(ToFrames(sent), Pending([]))
  {
    var frames := ToFrames(sent);
    assert Wire(frames) + [] == Wire(frames);
    DecodeAllWire(frames, []);
  }

  /**
   * `send` of any frame a caller builds, such as a service-3 request: when a
   * transport is set the peer decodes exactly that frame, and otherwise the
   * peer receives nothing at all.
   */
  lemma SendDecodes(c: Connection, d: Data)
    requires Encodable(d)
    ensures c.transport ==> DecodeAll(Wire(Send(c, d))) == Stream([d], Pending([]))
    ensures !c.transport ==> Wire(Send(c, d)) == []
  {
  }
}
