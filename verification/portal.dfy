/** The client side of the org.freedesktop.portal.ScreenCast negotiation
    (class PortalHelper in src/wcap.cpp). The session bus is abstracted: what
    each synchronous method call returns is an input, and the
    org.freedesktop.portal.Request.Response signals the bus delivers are an
    ordered list of events. */
module Portal {
  import opened WcapTypes

  /** The option values the helper puts in a vardict. */
  datatype Variant = VString(s: string) | VBool(b: bool) | VUint32(n: uint32)

  type Options = map<string, Variant>

  /** A ScreenCast method call with its parameters. */
  datatype Request =
    | CreateSession(options: Options)
    | SelectSources(sessionHandle: string, options: Options)
    | Start(sessionHandle: string, parentWindow: string, options: Options)

  /** What the synchronous call returns: a transport-level error, or the object
      path of the Request whose Response signal will carry the result. */
  datatype Reply = TransportError | RequestPath(path: string)

  /** The entries of a Response's results dictionary that the helper reads.
      `streams` holds the node id of each (id, properties) pair and is None when
      the key is absent or not an array; `sessionHandle` is None when the key is
      absent or not a string. */
  datatype Results = Results(streams: Option<seq<uint32>>, sessionHandle: Option<string>)

  /** A Request.Response signal: the request path it was emitted on, the
      response code (0 is success) and the results. */
  datatype Signal = Response(path: string, code: uint32, results: Results)

  /** The four fields of PortalHelper that negotiation updates. */
  datatype PortalState = PortalState(sessionHandle: string, requestPath: string, finished: bool, nodeId: uint32)

  const InitialState := PortalState("", "", false, 0)

  /** A whole helper: its fields, the Response signals the bus delivers in
      order, the index of the next one to be delivered, and the method calls
      issued so far. */
  datatype HelperModel = HelperModel(state: PortalState, incoming: seq<Signal>, next: nat, sent: seq<Request>)

  // ---------------------------------------------------------------------------
  // Request options (PortalHelper::opts)

  predicate IsDigit(c: char) { '0' <= c <= '9' }

  function DigitChar(d: int): (c: char)
    requires 0 <= d < 10
    ensures IsDigit(c) && c as int - '0' as int == d
  {
    (48 + d) as char
  }

  /** Decimal rendering of a non-negative number, as std::to_string gives it. */
  function NatToString(n: nat): (s: string)
    ensures 1 <= |s| && forall k :: 0 <= k < |s| ==> IsDigit(s[k])
    decreases n
  {
    if n < 10 then [DigitChar(n)] else NatToString(n / 10) + [DigitChar(n % 10)]
  }

  /** The value of a string of decimal digits. */
  function ParseDecimal(s: string): int
    decreases |s|
  {
    if s == [] then 0 else ParseDecimal(s[..|s| - 1]) * 10 + (s[|s| - 1] as int - '0' as int)
  }

  lemma {:induction false} NatToStringRoundTrip(n: nat)
    ensures ParseDecimal(NatToString(n)) == n
  {
    if n >= 10 {
      var s := NatToString(n);
      assert s[..|s| - 1] == NatToString(n / 10);
      NatToStringRoundTrip(n / 10);
    }
  }

  /** The handle_token of step `step`: the base, an underscore, then the step
      number in decimal, which can be read back from the token. */
  function HandleToken(base: string, step: nat): (tok: string)
    ensures |base| + 1 < |tok| && tok[..|base|] == base && tok[|base|] == '_'
    ensures ParseDecimal(tok[|base| + 1..]) == step
  {
    NatToStringRoundTrip(step);
    var tok := base + "_" + NatToString(step);
    assert tok[|base| + 1..] == NatToString(step);
    tok
  }

  /** The session_handle_token: the base followed by "_s". */
  function SessionToken(base: string): (tok: string)
    ensures |tok| == |base| + 2 && tok[..|base|] == base && tok[|base|..] == "_s"
  {
    base + "_s"
  }

  /** Tokens of different steps differ, and none equals the session handle token,
      so the requests of one negotiation never share a token. */
  lemma TokensDistinct(base: string, step1: nat, step2: nat)
    ensures step1 != step2 ==> HandleToken(base, step1) != HandleToken(base, step2)
    ensures HandleToken(base, step1) != SessionToken(base)
  {
    var t1, t2 := HandleToken(base, step1), HandleToken(base, step2);
    assert t1[|base| + 1..] == NatToString(step1);
    assert t2[|base| + 1..] == NatToString(step2);
    if t1 == t2 {
      NatToStringRoundTrip(step1);
      NatToStringRoundTrip(step2);
    }
    assert t1[|base| + 1] == NatToString(step1)[0];
    assert SessionToken(base)[|base| + 1] == 's';
  }

  /** The `types` bitmask of SelectSources: MONITOR is bit 1, WINDOW is bit 2. */
  function TypeFlag(t: CaptureType): (flag: uint32)
    ensures 1 <= flag <= 3
    ensures flag % 2 == 1 <==> t != Window
    ensures flag / 2 == 1 <==> t != Screen
  {
    if t == Screen then 1 else if t == Window then 2 else 3
  }

  /** The options vardict of step `step` (1 CreateSession, 2 SelectSources, 3 Start). */
  function Opts(base: string, step: nat, t: CaptureType): (o: Options)
    ensures "handle_token" in o && o["handle_token"] == VString(HandleToken(base, step))
    ensures "session_handle_token" in o <==> step == 1
    ensures "types" in o <==> step == 2
  {
    var common := map["handle_token" := VString(HandleToken(base, step))];
    if step == 1 then
      common["session_handle_token" := VString(SessionToken(base))]
    else if step == 2 then
      common["multiple" := VBool(false)]["types" := VUint32(TypeFlag(t))]["cursor_mode" := VUint32(2)]
    else
      common
  }

  /** Every step carries its own handle token; CreateSession adds the session
      handle token, SelectSources asks for one source of the requested types with
      the cursor embedded in the stream, and Start carries nothing else. */
  lemma OptsContents(base: string, step: nat, t: CaptureType)
    ensures var o := Opts(base, step, t);
            "handle_token" in o && o["handle_token"] == VString(HandleToken(base, step)) &&
            (step == 1 ==>
               o.Keys == {"handle_token", "session_handle_token"} &&
               o["session_handle_token"] == VString(SessionToken(base))) &&
            (step == 2 ==>
               o.Keys == {"handle_token", "multiple", "types", "cursor_mode"} &&
               o["multiple"] == VBool(false) && o["types"] == VUint32(TypeFlag(t)) &&
               o["cursor_mode"] == VUint32(2)) &&
            (step != 1 && step != 2 ==> o.Keys == {"handle_token"})
  {}

  // ---------------------------------------------------------------------------
  // Signal handling (PortalHelper::on_signal) and the wait in PortalHelper::call

  /** The signal is a successful Response with at least one stream. */
  ghost predicate CarriesGrant(sig: Signal) {
    sig.code == 0 && sig.results.streams.Some? && |sig.results.streams.value| > 0
  }

  /** The signal grants node `id`: success, and `id` is its first stream entry. */
  ghost predicate Grants(sig: Signal, id: uint32) {
    CarriesGrant(sig) && sig.results.streams.value[0] == id
  }

  /** The effect of one Response signal on the helper's fields. */
  function Respond(s: PortalState, sig: Signal): (r: PortalState)
    ensures r.requestPath == s.requestPath
    ensures sig.path != s.requestPath ==> r == s
    ensures sig.path == s.requestPath ==> r.finished
    ensures sig.code != 0 ==> r.sessionHandle == s.sessionHandle && r.nodeId == s.nodeId
    ensures r.nodeId != s.nodeId ==> Grants(sig, r.nodeId)
    ensures r.sessionHandle != s.sessionHandle ==> sig.code == 0 && sig.results.sessionHandle == Some(r.sessionHandle)
    ensures sig.path == s.requestPath && CarriesGrant(sig) ==> r.nodeId == sig.results.streams.value[0]
    ensures sig.path == s.requestPath && sig.code == 0 && sig.results.sessionHandle.Some? ==>
              r.sessionHandle == sig.results.sessionHandle.value
  {
    if sig.path != s.requestPath then s
    else if sig.code != 0 then s.(finished := true)
    else
      var node := match sig.results.streams
        case Some(ids) => if |ids| > 0 then ids[0] else s.nodeId
        case None => s.nodeId;
      var handle := match sig.results.sessionHandle
        case Some(h) => h
        case None => s.sessionHandle;
      PortalState(handle, s.requestPath, true, node)
  }

  /** Index of the first signal at or after `from` emitted on `path`, or
      |events| when there is none. */
  function FirstMatch(events: seq<Signal>, from: nat, path: string): (k: nat)
    ensures k <= |events|
    ensures k < |events| ==> from <= k && events[k].path == path
    decreases |events| - from
  {
    if from >= |events| then |events|
    else if events[from].path == path then from
    else FirstMatch(events, from + 1, path)
  }

  /** No signal between `from` and the first match is emitted on `path`. */
  lemma {:induction false} FirstMatchIsFirst(events: seq<Signal>, from: nat, path: string, j: nat)
    requires from <= j < FirstMatch(events, from, path)
    ensures events[j].path != path
    decreases |events| - from
  {
    if j > from {
      FirstMatchIsFirst(events, from + 1, path, j);
    }
  }

  /** The wait loop: deliver the signals from index `from` on, in order, until
      `finished` is set; the result is the fields and the index of the next
      undelivered signal. When the events run out first, the source would
      block for ever; the function then returns what it has. */
  function Await(s: PortalState, events: seq<Signal>, from: nat): (r: (PortalState, nat))
    ensures r.0.requestPath == s.requestPath
    ensures from <= r.1
    decreases |events| - from
  {
    if s.finished || from >= |events| then (s, from)
    else Await(Respond(s, events[from]), events, from + 1)
  }

  /** Correlation: the wait ends right after the first signal on the request's
      path, and only that signal changes the fields; every earlier signal is
      discarded. */
  lemma {:induction false} AwaitFirstMatch(s: PortalState, events: seq<Signal>, from: nat)
    requires !s.finished && FirstMatch(events, from, s.requestPath) < |events|
    ensures var k := FirstMatch(events, from, s.requestPath);
            Await(s, events, from) == (Respond(s, events[k]), k + 1)
    decreases |events| - from
  {
    if events[from].path != s.requestPath {
      AwaitFirstMatch(s, events, from + 1);
    }
  }

  /** Two event orders with the same first matching signal leave the same
      fields: stale or unrelated signals, however many and wherever they come
      before the match, make no difference. */
  lemma AwaitIgnoresStale(s: PortalState, e1: seq<Signal>, e2: seq<Signal>)
    requires !s.finished
    requires FirstMatch(e1, 0, s.requestPath) < |e1| && FirstMatch(e2, 0, s.requestPath) < |e2|
    requires e1[FirstMatch(e1, 0, s.requestPath)] == e2[FirstMatch(e2, 0, s.requestPath)]
    ensures Await(s, e1, 0).0 == Await(s, e2, 0).0
  {
    AwaitFirstMatch(s, e1, 0);
    AwaitFirstMatch(s, e2, 0);
  }

  // ---------------------------------------------------------------------------
  // Method calls (PortalHelper::call) and the three-step sequence (get_id)

  /** One method call: reset `finished` and issue the call; on a transport
      error stop there, otherwise record the request path and complete with the
      first signal emitted on it, which must arrive (the source would block for
      ever otherwise). */
  function CallSpec(m: HelperModel, req: Request, reply: Reply): (r: (bool, HelperModel))
    requires reply.RequestPath? ==> FirstMatch(m.incoming, m.next, reply.path) < |m.incoming|
    ensures r.0 == reply.RequestPath?
    ensures r.1.incoming == m.incoming && r.1.sent == m.sent + [req]
    ensures !r.0 ==> r.1 == m.(state := m.state.(finished := false), sent := m.sent + [req])
    ensures r.0 ==> r.1.state.requestPath == reply.path && r.1.state.finished && m.next < r.1.next <= |m.incoming|
  {
    match reply
    case TransportError =>
      (false, m.(state := m.state.(finished := false), sent := m.sent + [req]))
    case RequestPath(p) =>
      var k := FirstMatch(m.incoming, m.next, p);
      (true, HelperModel(Respond(m.state.(requestPath := p, finished := false), m.incoming[k]),
                         m.incoming, k + 1, m.sent + [req]))
  }

  /** The bus answers each call from the i-th on that gets through, in order:
      every returned request path has a Response after the one that completed
      the previous call. */
  ghost predicate Answered(events: seq<Signal>, from: nat, replies: seq<Reply>, i: nat)
    decreases |replies| - i
  {
    i >= |replies| ||
    match replies[i]
    case TransportError => true
    case RequestPath(p) =>
      var k := FirstMatch(events, from, p);
      k < |events| && Answered(events, k + 1, replies, i + 1)
  }

  /** A call on an answered sequence can complete and leaves the later calls answered. */
  lemma CallKeepsAnswered(m: HelperModel, req: Request, replies: seq<Reply>, i: nat)
    requires Answered(m.incoming, m.next, replies, i) && i < |replies| && replies[i].RequestPath?
    ensures FirstMatch(m.incoming, m.next, replies[i].path) < |m.incoming|
    ensures Answered(m.incoming, CallSpec(m, req, replies[i]).1.next, replies, i + 1)
  {}

  /** Number of calls issued from step i + 1 on: one per step, stopping after
      the first transport error. */
  function CallsIssued(replies: seq<Reply>, i: nat): (n: nat)
    requires i < |replies|
    ensures 1 <= n <= |replies| - i
    ensures forall j :: i <= j < i + n - 1 ==> replies[j].RequestPath?
    ensures i + n < |replies| ==> replies[i + n - 1].TransportError?
    decreases |replies| - i
  {
    if replies[i].TransportError? || i == |replies| - 1 then 1 else 1 + CallsIssued(replies, i + 1)
  }

  /** The method call of step `step` (1 CreateSession, 2 SelectSources,
      3 Start), on the session handle held when it is issued. */
  function StepRequest(step: nat, base: string, t: CaptureType, handle: string): (q: Request)
    ensures 1 <= step <= 3 ==> StepOf(q) == step
    ensures q.options == Opts(base, step, t)
    ensures !q.CreateSession? ==> q.sessionHandle == handle
    ensures q.Start? ==> q.parentWindow == ""
  {
    if step == 1 then CreateSession(Opts(base, 1, t))
    else if step == 2 then SelectSources(handle, Opts(base, 2, t))
    else Start(handle, "", Opts(base, step, t))
  }

  /** Which step a request belongs to. */
  function StepOf(q: Request): nat {
    match q
    case CreateSession(_) => 1
    case SelectSources(_, _) => 2
    case Start(_, _, _) => 3
  }

  /** The token base of get_id: "u" followed by the process id in decimal. */
  function TokenBase(pid: nat): (b: string)
    ensures 2 <= |b| && b[0] == 'u' && ParseDecimal(b[1..]) == pid
  {
    NatToStringRoundTrip(pid);
    var b := "u" + NatToString(pid);
    assert b[1..] == NatToString(pid);
    b
  }

  /** Steps i + 1 to 3 of get_id from helper m, replies[j] being what the call
      of step j + 1 returns: the first transport error ends the sequence with
      0; otherwise the result is the node id held after Start. A non-zero
      response code does not end the sequence: it only leaves the fields it
      would have set. */
  function Negotiate(m: HelperModel, base: string, t: CaptureType, replies: seq<Reply>, i: nat): (r: (uint32, HelperModel))
    requires |replies| == 3 && i < 3 && Answered(m.incoming, m.next, replies, i)
    ensures r.1.incoming == m.incoming
    ensures |r.1.sent| == |m.sent| + CallsIssued(replies, i)
    ensures r.0 == if i + CallsIssued(replies, i) == 3 && replies[2].RequestPath? then r.1.state.nodeId else 0
    decreases 3 - i
  {
    var q := StepRequest(i + 1, base, t, m.state.sessionHandle);
    if replies[i].TransportError? then (0, CallSpec(m, q, replies[i]).1)
    else
      CallKeepsAnswered(m, q, replies, i);
      var c := CallSpec(m, q, replies[i]);
      if i == 2 then (c.1.state.nodeId, c.1)
      else Negotiate(c.1, base, t, replies, i + 1)
  }

  /** get_id: CreateSession, SelectSources, Start, with the token base
      "u" followed by the process id. */
  function GetIdSpec(m: HelperModel, t: CaptureType, pid: nat, replies: seq<Reply>): (r: (uint32, HelperModel))
    requires |replies| == 3 && Answered(m.incoming, m.next, replies, 0)
    ensures r.1.incoming == m.incoming
    ensures |r.1.sent| == |m.sent| + CallsIssued(replies, 0)
    ensures r.0 == if CallsIssued(replies, 0) == 3 && replies[2].RequestPath? then r.1.state.nodeId else 0
  {
    Negotiate(m, TokenBase(pid), t, replies, 0)
  }

  /** From index k on, the log holds the calls of steps first, first + 1, ...,
      each with the options of its step and, for Start, an empty parent window. */
  ghost predicate IssuedFrom(sent: seq<Request>, k: int, first: int, base: string, t: CaptureType) {
    forall i :: 0 <= k <= i < |sent| ==>
      StepOf(sent[i]) == first + i - k &&
      sent[i].options == Opts(base, first + i - k, t) &&
      (sent[i].Start? ==> sent[i].parentWindow == "")
  }

  /** Extending IssuedFrom one call to the left, over a log that starts with
      prefix + [q]. */
  lemma IssuedFromStep(sent: seq<Request>, prefix: seq<Request>, q: Request, first: int, base: string, t: CaptureType)
    requires |prefix| < |sent| && sent[..|prefix| + 1] == prefix + [q]
    requires IssuedFrom(sent, |prefix| + 1, first + 1, base, t)
    requires StepOf(q) == first && q.options == Opts(base, first, t) && (q.Start? ==> q.parentWindow == "")
    ensures sent[..|prefix|] == prefix && IssuedFrom(sent, |prefix|, first, base, t)
  {
    assert sent[|prefix|] == (prefix + [q])[|prefix|];
    assert sent[..|prefix|] == (prefix + [q])[..|prefix|];
  }

  /** A log that ends with one call of step `first`. */
  lemma IssuedLast(prefix: seq<Request>, q: Request, first: int, base: string, t: CaptureType)
    requires StepOf(q) == first && q.options == Opts(base, first, t) && (q.Start? ==> q.parentWindow == "")
    ensures (prefix + [q])[..|prefix|] == prefix && IssuedFrom(prefix + [q], |prefix|, first, base, t)
  {
    assert (prefix + [q])[..|prefix|] == prefix;
  }

  /** When step i + 1 fails at transport level or is Start, it is the last call. */
  lemma NegotiateStops(m: HelperModel, base: string, t: CaptureType, replies: seq<Reply>, i: nat)
    requires |replies| == 3 && i < 3 && Answered(m.incoming, m.next, replies, i)
    requires replies[i].TransportError? || i == 2
    ensures Negotiate(m, base, t, replies, i).1.sent == m.sent + [StepRequest(i + 1, base, t, m.state.sessionHandle)]
  {
    if replies[i].RequestPath? { CallKeepsAnswered(m, StepRequest(i + 1, base, t, m.state.sessionHandle), replies, i); }
  }

  /** When step i + 1 gets through and is not Start, the negotiation goes on
      from the helper that call leaves. */
  lemma NegotiateContinues(m: HelperModel, base: string, t: CaptureType, replies: seq<Reply>, i: nat)
    requires |replies| == 3 && i < 2 && Answered(m.incoming, m.next, replies, i) && replies[i].RequestPath?
    ensures var q := StepRequest(i + 1, base, t, m.state.sessionHandle);
            FirstMatch(m.incoming, m.next, replies[i].path) < |m.incoming| &&
            Answered(m.incoming, CallSpec(m, q, replies[i]).1.next, replies, i + 1) &&
            Negotiate(m, base, t, replies, i) == Negotiate(CallSpec(m, q, replies[i]).1, base, t, replies, i + 1)
  {
    CallKeepsAnswered(m, StepRequest(i + 1, base, t, m.state.sessionHandle), replies, i);
  }

  /** The calls issued from step i + 1 on, in step order, each with the options
      of its step, stopping after the first transport error and never before
      it; earlier calls stay as they were. */
  lemma {:induction false} NegotiateIssues(m: HelperModel, base: string, t: CaptureType, replies: seq<Reply>, i: nat)
    requires |replies| == 3 && i < 3 && Answered(m.incoming, m.next, replies, i)
    ensures var sent := Negotiate(m, base, t, replies, i).1.sent;
            |sent| == |m.sent| + CallsIssued(replies, i) && sent[..|m.sent|] == m.sent &&
            IssuedFrom(sent, |m.sent|, i + 1, base, t)
    decreases 3 - i, 1
  {
    if replies[i].RequestPath? && i < 2 {
      NegotiateIssuesOn(m, base, t, replies, i);
    } else {
      var q := StepRequest(i + 1, base, t, m.state.sessionHandle);
      NegotiateStops(m, base, t, replies, i);
      IssuedLast(m.sent, q, i + 1, base, t);
    }
  }

  /** The inductive step of NegotiateIssues, when step i + 1 goes on to the next. */
  lemma {:induction false} NegotiateIssuesOn(m: HelperModel, base: string, t: CaptureType, replies: seq<Reply>, i: nat)
    requires |replies| == 3 && i < 2 && Answered(m.incoming, m.next, replies, i) && replies[i].RequestPath?
    ensures var sent := Negotiate(m, base, t, replies, i).1.sent;
            sent[..|m.sent|] == m.sent && IssuedFrom(sent, |m.sent|, i + 1, base, t)
    decreases 3 - i, 0
  {
    var q := StepRequest(i + 1, base, t, m.state.sessionHandle);
    NegotiateContinues(m, base, t, replies, i);
    var m1 := CallSpec(m, q, replies[i]).1;
    NegotiateIssues(m1, base, t, replies, i + 1);
    var sent := Negotiate(m1, base, t, replies, i + 1).1.sent;
    assert m1.sent == m.sent + [q];
    IssuedFromStep(sent, m.sent, q, i + 1, base, t);
  }

  /** get_id issues CreateSession, then SelectSources, then Start, each with
      the options of its step; it stops after the first transport error. */
  lemma GetIdIssues(m: HelperModel, t: CaptureType, pid: nat, replies: seq<Reply>)
    requires |replies| == 3 && Answered(m.incoming, m.next, replies, 0)
    ensures var sent := GetIdSpec(m, t, pid, replies).1.sent;
            |sent| == |m.sent| + CallsIssued(replies, 0) && sent[..|m.sent|] == m.sent &&
            IssuedFrom(sent, |m.sent|, 1, TokenBase(pid), t)
  {
    NegotiateIssues(m, TokenBase(pid), t, replies, 0);
  }

  /** Some signal at or after `from` was emitted on `path` and grants node `id`. */
  ghost predicate GrantedOn(events: seq<Signal>, from: nat, path: string, id: uint32) {
    exists k :: from <= k < |events| && events[k].path == path && Grants(events[k], id)
  }

  lemma GrantedFromEarlier(events: seq<Signal>, from1: nat, from2: nat, path: string, id: uint32)
    requires from1 <= from2 && GrantedOn(events, from2, path, id)
    ensures GrantedOn(events, from1, path, id)
  {
    var k :| from2 <= k < |events| && events[k].path == path && Grants(events[k], id);
    assert from1 <= k;
  }

  /** After one call the node id is the one held before, or the grant of a
      signal emitted on the path that call returned. */
  lemma CallNodeOrigin(m: HelperModel, req: Request, reply: Reply)
    requires reply.RequestPath? ==> FirstMatch(m.incoming, m.next, reply.path) < |m.incoming|
    ensures var r := CallSpec(m, req, reply).1;
            r.state.nodeId == m.state.nodeId ||
            (reply.RequestPath? && GrantedOn(m.incoming, m.next, reply.path, r.state.nodeId))
  {
    var r := CallSpec(m, req, reply).1;
    if reply.RequestPath? && r.state.nodeId != m.state.nodeId {
      var k := FirstMatch(m.incoming, m.next, reply.path);
      assert m.incoming[k].path == reply.path && Grants(m.incoming[k], r.state.nodeId);
    }
  }

  /** A non-zero result is the node id the helper held before, or the first
      stream entry of a successful Response emitted on one of the request
      paths the calls returned. */
  lemma {:induction false} NegotiateNodeOrigin(m: HelperModel, base: string, t: CaptureType, replies: seq<Reply>, i: nat)
    requires |replies| == 3 && i < 3 && Answered(m.incoming, m.next, replies, i)
    ensures var id := Negotiate(m, base, t, replies, i).0;
            id == 0 || id == m.state.nodeId ||
            exists j :: i <= j < 3 && replies[j].RequestPath? && GrantedOn(m.incoming, m.next, replies[j].path, id)
    decreases 3 - i
  {
    var q := StepRequest(i + 1, base, t, m.state.sessionHandle);
    var id := Negotiate(m, base, t, replies, i).0;
    if replies[i].RequestPath? && id != 0 && id != m.state.nodeId {
      CallKeepsAnswered(m, q, replies, i);
      var m1 := CallSpec(m, q, replies[i]).1;
      CallNodeOrigin(m, q, replies[i]);
      if i < 2 {
        NegotiateContinues(m, base, t, replies, i);
        NegotiateNodeOrigin(m1, base, t, replies, i + 1);
        if id != m1.state.nodeId {
          var j :| i + 1 <= j < 3 && replies[j].RequestPath? && GrantedOn(m.incoming, m1.next, replies[j].path, id);
          GrantedFromEarlier(m.incoming, m.next, m1.next, replies[j].path, id);
        }
      }
    }
  }

  /** From a fresh helper, get_id returns 0 or the first stream entry of a
      successful Response on one of its own request paths. */
  lemma GetIdNodeOrigin(t: CaptureType, pid: nat, incoming: seq<Signal>, replies: seq<Reply>)
    requires |replies| == 3 && Answered(incoming, 0, replies, 0)
    ensures var id := GetIdSpec(HelperModel(InitialState, incoming, 0, []), t, pid, replies).0;
            id == 0 ||
            exists j :: 0 <= j < 3 && replies[j].RequestPath? && GrantedOn(incoming, 0, replies[j].path, id)
  {
    NegotiateNodeOrigin(HelperModel(InitialState, incoming, 0, []), TokenBase(pid), t, replies, 0);
  }

  /** The state of a fresh helper after the first `n` calls of get_id all
      returned a request path. */
  ghost function AfterCalls(incoming: seq<Signal>, t: CaptureType, pid: nat, replies: seq<Reply>, n: nat): (m: HelperModel)
    requires |replies| == 3 && n <= 2 && Answered(incoming, 0, replies, 0)
    requires forall j :: 0 <= j < n ==> replies[j].RequestPath?
    ensures m.incoming == incoming && Answered(incoming, m.next, replies, n)
    ensures GetIdSpec(HelperModel(InitialState, incoming, 0, []), t, pid, replies) ==
            Negotiate(m, TokenBase(pid), t, replies, n)
    decreases n
  {
    if n == 0 then HelperModel(InitialState, incoming, 0, [])
    else
      var m := AfterCalls(incoming, t, pid, replies, n - 1);
      NegotiateContinues(m, TokenBase(pid), t, replies, n - 1);
      CallSpec(m, StepRequest(n, TokenBase(pid), t, m.state.sessionHandle), replies[n - 1]).1
  }

  /** When the three calls return request paths and every Response on Start's
      path grants node `id`, a fresh helper's get_id returns `id`, whatever the
      response codes of the first two steps were. */
  lemma GetIdGranted(t: CaptureType, pid: nat, incoming: seq<Signal>, replies: seq<Reply>, id: uint32)
    requires |replies| == 3 && Answered(incoming, 0, replies, 0)
    requires forall j :: 0 <= j < 3 ==> replies[j].RequestPath?
    requires forall k :: 0 <= k < |incoming| && incoming[k].path == replies[2].path ==> Grants(incoming[k], id)
    ensures GetIdSpec(HelperModel(InitialState, incoming, 0, []), t, pid, replies).0 == id
  {
    var m2 := AfterCalls(incoming, t, pid, replies, 2);
    var q := StepRequest(3, TokenBase(pid), t, m2.state.sessionHandle);
    CallKeepsAnswered(m2, q, replies, 2);
    var k := FirstMatch(incoming, m2.next, replies[2].path);
    assert Grants(incoming[k], id);
  }

  /** When Start's Response is a denial and no Response to the earlier calls
      carried a stream, a fresh helper's get_id returns 0. */
  lemma GetIdStartDenied(t: CaptureType, pid: nat, incoming: seq<Signal>, replies: seq<Reply>)
    requires |replies| == 3 && Answered(incoming, 0, replies, 0)
    requires replies[2].RequestPath? ==>
               forall k :: 0 <= k < |incoming| && incoming[k].path == replies[2].path ==> incoming[k].code != 0
    requires forall j, k ::
               0 <= j < 2 && replies[j].RequestPath? && 0 <= k < |incoming| && incoming[k].path == replies[j].path ==>
               !CarriesGrant(incoming[k])
    ensures GetIdSpec(HelperModel(InitialState, incoming, 0, []), t, pid, replies).0 == 0
  {
    GetIdNodeOrigin(t, pid, incoming, replies);
  }

  /** When the portal denies every request (no Response has code 0), a fresh
      helper's get_id returns 0, whichever step the denials come at. */
  lemma GetIdDenied(t: CaptureType, pid: nat, incoming: seq<Signal>, replies: seq<Reply>)
    requires |replies| == 3 && Answered(incoming, 0, replies, 0)
    requires forall k :: 0 <= k < |incoming| ==> incoming[k].code != 0
    ensures GetIdSpec(HelperModel(InitialState, incoming, 0, []), t, pid, replies).0 == 0
  {
    GetIdNodeOrigin(t, pid, incoming, replies);
  }

  /** The session handle held after a Response on the request path, when
      `held` was held before: the handle in the results of a successful
      Response, or else the one held before. */
  function HandleAfter(sig: Signal, held: string): string {
    if sig.code == 0 && sig.results.sessionHandle.Some? then sig.results.sessionHandle.value else held
  }

  /** One call that gets through leaves the handle HandleAfter gives for the
      first Response on its path. */
  lemma CallHandle(m: HelperModel, req: Request, p: string)
    requires FirstMatch(m.incoming, m.next, p) < |m.incoming|
    ensures var k := FirstMatch(m.incoming, m.next, p);
            var r := CallSpec(m, req, RequestPath(p)).1;
            r.next == k + 1 && r.state.sessionHandle == HandleAfter(m.incoming[k], m.state.sessionHandle)
  {}

  /** From step 2 on, SelectSources carries the handle held when it is issued,
      and Start the handle held after SelectSources' Response. */
  lemma NegotiateHandles(m: HelperModel, base: string, t: CaptureType, replies: seq<Reply>)
    requires |replies| == 3 && Answered(m.incoming, m.next, replies, 1)
    ensures var sent := Negotiate(m, base, t, replies, 1).1.sent;
            |m.sent| < |sent| && sent[|m.sent|] == SelectSources(m.state.sessionHandle, Opts(base, 2, t)) &&
            (replies[1].RequestPath? ==>
               var k1 := FirstMatch(m.incoming, m.next, replies[1].path);
               k1 < |m.incoming| && |sent| == |m.sent| + 2 &&
               sent[|m.sent| + 1] == Start(HandleAfter(m.incoming[k1], m.state.sessionHandle), "", Opts(base, 3, t)))
  {
    var q := StepRequest(2, base, t, m.state.sessionHandle);
    if replies[1].TransportError? {
      NegotiateStops(m, base, t, replies, 1);
    } else {
      NegotiateContinues(m, base, t, replies, 1);
      var m2 := CallSpec(m, q, replies[1]).1;
      CallHandle(m, q, replies[1].path);
      NegotiateStops(m2, base, t, replies, 2);
    }
  }

  /** The session handle flows from step to step: SelectSources carries the
      handle CreateSession's Response left (none gives ""), and Start carries
      the handle held after SelectSources' Response. */
  lemma GetIdSessionHandle(t: CaptureType, pid: nat, incoming: seq<Signal>, replies: seq<Reply>)
    requires |replies| == 3 && Answered(incoming, 0, replies, 0) && replies[0].RequestPath?
    ensures var k0 := FirstMatch(incoming, 0, replies[0].path);
            k0 < |incoming| &&
            var h1 := HandleAfter(incoming[k0], "");
            var sent := GetIdSpec(HelperModel(InitialState, incoming, 0, []), t, pid, replies).1.sent;
            2 <= |sent| && sent[1] == SelectSources(h1, Opts(TokenBase(pid), 2, t)) &&
            (replies[1].RequestPath? ==>
               var k1 := FirstMatch(incoming, k0 + 1, replies[1].path);
               k1 < |incoming| && |sent| == 3 &&
               sent[2] == Start(HandleAfter(incoming[k1], h1), "", Opts(TokenBase(pid), 3, t)))
  {
    var m0 := HelperModel(InitialState, incoming, 0, []);
    var m1 := AfterCalls(incoming, t, pid, replies, 1);
    CallHandle(m0, StepRequest(1, TokenBase(pid), t, ""), replies[0].path);
    NegotiateHandles(m1, TokenBase(pid), t, replies);
  }

  // ---------------------------------------------------------------------------
  // The helper object

  class PortalHelper {
    var sessionHandle: string
    var requestPath: string
    var finished: bool
    var nodeId: uint32
    /** The Response signals the session bus delivers to this process, in order. */
    const incoming: seq<Signal>
    /** Index in `incoming` of the next signal to be delivered. */
    var next: nat
    /** The ScreenCast method calls issued on the bus so far, in order. */
    var sent: seq<Request>

    function State(): PortalState
      reads this
    {
      PortalState(sessionHandle, requestPath, finished, nodeId)
    }

    function Model(): HelperModel
      reads this
    {
      HelperModel(State(), incoming, next, sent)
    }

    /** A helper subscribed to Response signals on a fresh connection. */
    constructor (incoming: seq<Signal>)
      ensures Model() == HelperModel(InitialState, incoming, 0, [])
    {
      sessionHandle, requestPath, finished, nodeId := "", "", false, 0;
      this.incoming := incoming;
      next := 0;
      sent := [];
    }

    /** on_signal: ignore a signal for another request; otherwise record the
      payload of a successful Response and mark the request finished. */
    method OnSignal(sig: Signal)
      modifies this
      ensures Model() == old(Model()).(state := Respond(old(State()), sig))
    {
      if requestPath != sig.path { return; }
      if sig.code == 0 {
        match sig.results.streams {
          case Some(ids) =>
            if |ids| > 0 { nodeId := ids[0]; }
          case None =>
        }
        match sig.results.sessionHandle {
          case Some(h) => sessionHandle := h;
          case None =>
        }
      }
      finished := true;
    }

    /** call: issue a method call and deliver signals until its Response has arrived. */
    method Call(req: Request, reply: Reply) returns (ok: bool)
      requires reply.RequestPath? ==> FirstMatch(incoming, next, reply.path) < |incoming|
      modifies this
      ensures (ok, Model()) == CallSpec(old(Model()), req, reply)
    {
      finished := false;
      sent := sent + [req];
      if reply.TransportError? { return false; }
      requestPath := reply.path;
      ghost var s0, n0 := State(), next;
      AwaitFirstMatch(s0, incoming, n0);
      while !finished
        invariant requestPath == reply.path && sent == old(sent) + [req]
        invariant Await(State(), incoming, next) == Await(s0, incoming, n0)
        invariant !finished ==> FirstMatch(incoming, next, requestPath) < |incoming|
        decreases |incoming| - next
      {
        var sig := incoming[next];
        next := next + 1;
        OnSignal(sig);
      }
      return true;
    }

    /** get_id: the three-step negotiation; 0 when a call fails at transport level. */
    method GetId(t: CaptureType, pid: nat, replies: seq<Reply>) returns (id: uint32)
      requires |replies| == 3 && Answered(incoming, next, replies, 0)
      modifies this
      ensures (id, Model()) == GetIdSpec(old(Model()), t, pid, replies)
    {
      var base := TokenBase(pid);
      var q1 := CreateSession(Opts(base, 1, t));
      assert q1 == StepRequest(1, base, t, sessionHandle);
      if replies[0].RequestPath? { NegotiateContinues(Model(), base, t, replies, 0); }
      var ok := Call(q1, replies[0]);
      if !ok { return 0; }
      var q2 := SelectSources(sessionHandle, Opts(base, 2, t));
      assert q2 == StepRequest(2, base, t, sessionHandle);
      if replies[1].RequestPath? { NegotiateContinues(Model(), base, t, replies, 1); }
      ok := Call(q2, replies[1]);
      if !ok { return 0; }
      var q3 := Start(sessionHandle, "", Opts(base, 3, t));
      assert q3 == StepRequest(3, base, t, sessionHandle);
      if replies[2].RequestPath? { CallKeepsAnswered(Model(), q3, replies, 2); }
      ok := Call(q3, replies[2]);
      if !ok { return 0; }
      return nodeId;
    }
  }
}
