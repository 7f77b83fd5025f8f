/** The request queue of one connection to the console, and the executor that feeds it one request at a
    time. */
module XbdmTransport {
  import opened Common
  import RdcpResponse

  const OK_CONNECTED: u32 := 201
  const OK_SEND_BINARY_DATA: u32 := 204

  datatype ConnectionState = Disconnected | Init | Connected

  /** A request, whether a binary payload is attached to it, and how to size a binary response to it. */
  datatype Request = Request(id: nat, payload: bool, parser: RdcpResponse.SizeParser)

  /** Everything the connection does, in order. `Sent` records whether the connection was up when the
      request was handed over. */
  datatype Action =
    | Sent(id: nat, connected: bool)
    | Written(id: nat)
    | PayloadWritten(id: nat)
    | Received(status: u32)
    | Completed(id: nat, status: u32)
    | Abandoned(id: nat)

  datatype Transport = Transport(state: ConnectionState, queue: seq<Request>, log: seq<Action>)

  function Log(t: Transport, a: Action): Transport { t.(log := t.log + [a]) }

  function WriteNext(t: Transport): Transport
  {
    if t.state != Connected || |t.queue| == 0 then t else Log(t, Written(t.queue[0].id))
  }

  function Send(t: Transport, r: Request): Transport
  {
    WriteNext(Log(t.(queue := t.queue + [r]), Sent(r.id, t.state == Connected)))
  }

  function AbandonAll(queue: seq<Request>): seq<Action>
  {
    if |queue| == 0 then [] else [Abandoned(queue[0].id)] + AbandonAll(queue[1..])
  }

  function Closed(t: Transport): Transport
  {
    Transport(Init, [], t.log + AbandonAll(t.queue))
  }

  /** Whether a response can be handled: the console asks for a payload only if there is one. */
  predicate Answerable(t: Transport, status: u32)
  {
    |t.queue| > 0 && status == OK_SEND_BINARY_DATA ==> t.queue[0].payload
  }

  /** A complete response has arrived. */
  function Respond(t: Transport, status: u32): Transport
    requires Answerable(t, status)
  {
    var t := Log(t, Received(status));
    if |t.queue| == 0 then
      if status == OK_CONNECTED then t.(state := Connected) else Closed(t)
    else if status == OK_SEND_BINARY_DATA then Log(t, PayloadWritten(t.queue[0].id))
    else Log(WriteNext(t.(queue := t.queue[1..])), Completed(t.queue[0].id, status))
  }

  // ---------------------------------------------------------------- the connection object

  class XBDMTransport {
    var state: ConnectionState
    var queue: seq<Request>
    var log: seq<Action>
    var readBuffer: Bytes

    ghost function Value(): Transport
      reads this
    {
      Transport(state, queue, log)
    }

    constructor ()
      ensures Value() == Transport(Init, [], []) && readBuffer == []
    {
      state, queue, log, readBuffer := Init, [], [], [];
    }

    method WriteNextRequest()
      modifies `log
      ensures Value() == WriteNext(old(Value()))
      ensures log == old(log) + if state == Connected && |queue| > 0 then [Written(queue[0].id)] else []
    {
      if state != Connected || |queue| == 0 { return; }
      log := log + [Written(queue[0].id)];
    }

    method SendRequest(request: Request)
      modifies `state, `queue, `log
      ensures Value() == Send(old(Value()), request)
      ensures state == old(state) && queue == old(queue) + [request]
    {
      log := log + [Sent(request.id, state == Connected)];
      queue := queue + [request];
      WriteNextRequest();
    }

    method Close()
      modifies `state, `queue, `log
      ensures Value() == Closed(old(Value())) && state == Init && queue == []
    {
      state := Init;
      var i := 0;
      while i < |queue|
        invariant 0 <= i <= |queue| && queue == old(queue) && state == Init
        invariant log + AbandonAll(queue[i..]) == old(log) + AbandonAll(queue)
      {
        assert queue[i..][1..] == queue[i + 1..];
        log := log + [Abandoned(queue[i].id)];
        i := i + 1;
      }
      queue := [];
    }

    method HandleInitialConnectResponse(status: u32)
      modifies `state, `queue, `log
      ensures Value() == if status == OK_CONNECTED then old(Value()).(state := Connected) else Closed(old(Value()))
    {
      if status == OK_CONNECTED {
        state := Connected;
        return;
      }
      Close();
    }

    method OnResponse(status: u32)
      requires Answerable(Value(), status)
      modifies `state, `queue, `log
      ensures Value() == Respond(old(Value()), status)
      ensures |old(queue)| > 0 ==> state == old(state)
      ensures |old(queue)| > 0 && status == OK_SEND_BINARY_DATA ==>
                queue == old(queue) && log == old(log) + [Received(status), PayloadWritten(old(queue)[0].id)]
      ensures |old(queue)| > 0 && status != OK_SEND_BINARY_DATA ==> queue == old(queue)[1..]
      ensures |old(queue)| == 0 ==> queue == [] && state == if status == OK_CONNECTED then Connected else Init
    {
      log := log + [Received(status)];
      if |queue| == 0 {
        HandleInitialConnectResponse(status);
        return;
      }
      var request := queue[0];
      if status == OK_SEND_BINARY_DATA {
        log := log + [PayloadWritten(request.id)];
        return;
      }
      queue := queue[1..];
      WriteNextRequest();
      log := log + [Completed(request.id, status)];
    }

    ghost function Parser(): RdcpResponse.SizeParser
      reads this
    {
      if |queue| == 0 then RdcpResponse.NoParser else queue[0].parser
    }

    /** Bytes arrive; if they complete a response it is taken out of the buffer and handled. A malformed
        response, or one the pending request cannot answer, is not survived. */
    method OnBytesRead(bytes: Bytes)
      requires var outcome := RdcpResponse.Parse(readBuffer + bytes, Parser());
               outcome.More? || (outcome.Packet? && Answerable(Value(), outcome.response.status))
      modifies this
      ensures var all := old(readBuffer) + bytes;
              var outcome := RdcpResponse.Parse(all, old(Parser()));
              if outcome.More? then Value() == old(Value()) && readBuffer == all
              else && outcome.Packet? && outcome.count <= |all| && readBuffer == all[outcome.count..]
                   && Value() == Respond(old(Value()), outcome.response.status)
    {
      readBuffer := readBuffer + bytes;
      var parser := if |queue| == 0 then RdcpResponse.NoParser else queue[0].parser;
      var outcome := RdcpResponse.Parse(readBuffer, parser);
      if outcome.More? { return; }
      RdcpResponse.PacketFits(readBuffer, parser);
      readBuffer := readBuffer[outcome.count..];
      OnResponse(outcome.response.status);
    }
  }

  // ---------------------------------------------------------------- the executor

  /** One request is executed at a time: the next is taken up only when the current one is finished. */
  datatype System = System(transport: Transport, waiting: Option<nat>, issued: nat)

  /** `Submit` finds the connection in whatever state it is in by the time the request is handed over.
      `Lost` is the removal of a broken connection. */
  datatype Event =
    | Submit(payload: bool, parser: RdcpResponse.SizeParser)
    | Response(status: u32)
    | CloseConnection
    | ForceConnected
    | Lost

  predicate Enabled(s: System, e: Event)
  {
    match e
    case Submit(_, _) => s.waiting.None?
    case Response(status) => Answerable(s.transport, status)
    case _ => true
  }

  /** The executor wakes up when its request is finished. */
  function Woken(s: System, t: Transport): System
  {
    s.(transport := t, waiting := if |t.queue| == 0 then None else s.waiting)
  }

  function Next(s: System, e: Event): System
    requires Enabled(s, e)
  {
    match e
    case Submit(payload, parser) =>
      System(Send(s.transport, Request(s.issued, payload, parser)), Some(s.issued), s.issued + 1)
    case Response(status) => Woken(s, Respond(s.transport, status))
    case CloseConnection => Woken(s, Closed(s.transport))
    case ForceConnected => s.(transport := s.transport.(state := Connected))
    case Lost => s.(transport := s.transport.(state := Disconnected))
  }

  // ---------------------------------------------------------------- what every log satisfies

  function Writes(log: seq<Action>, id: nat): nat
  {
    if log == [] then 0
    else Writes(log[..|log| - 1], id) + if log[|log| - 1] == Written(id) then 1 else 0
  }

  predicate Finishes(a: Action, id: nat) { (a.Completed? || a.Abandoned?) && a.id == id }

  function Endings(log: seq<Action>, id: nat): nat
  {
    if log == [] then 0
    else Endings(log[..|log| - 1], id) + if Finishes(log[|log| - 1], id) then 1 else 0
  }

  ghost predicate SentConnected(log: seq<Action>, id: nat) { Action.Sent(id, true) in log }

  /** No response but requests for the payload since position `from`. */
  ghost predicate Quiet(log: seq<Action>, from: nat, end: nat)
    requires end <= |log|
  {
    forall m | from <= m < end && log[m].Received? :: log[m].status == OK_SEND_BINARY_DATA
  }

  /** Entry `k` completes a request: with the response just before it, the first since the request was
      written that does not ask for the payload. */
  ghost predicate AnsweredBy(log: seq<Action>, j: nat, k: nat)
    requires k < |log| && log[k].Completed?
  {
    && j + 1 < k && log[j] == Written(log[k].id)
    && log[k - 1] == Received(log[k].status) && log[k].status != OK_SEND_BINARY_DATA
    && Quiet(log, j, k - 1)
  }

  ghost predicate AllAnswered(log: seq<Action>)
  {
    forall k | 0 <= k < |log| && log[k].Completed? && SentConnected(log, log[k].id) ::
      exists j: nat :: AnsweredBy(log, j, k)
  }

  /** The outstanding request was written at `j`, and nothing has answered it. */
  ghost predicate Outstanding(log: seq<Action>, id: nat)
  {
    exists j: nat :: j < |log| && log[j] == Written(id) && Quiet(log, j, |log|)
  }

  /** The request has been handed over and has not ended. */
  ghost predicate Open(log: seq<Action>, id: nat)
  {
    (Action.Sent(id, true) in log || Action.Sent(id, false) in log) && Endings(log, id) == 0
  }

  /** A response that asks for the payload is followed at once by the payload of the request that was open when
      it came, and a payload is written on no other occasion. */
  ghost predicate PayloadAt(log: seq<Action>, k: nat)
    requires k < |log|
  {
    && (log[k] == Received(OK_SEND_BINARY_DATA) ==>
          forall id: nat | Open(log[..k], id) :: k + 1 < |log| && log[k + 1] == PayloadWritten(id))
    && (log[k].PayloadWritten? ==>
          k > 0 && log[k - 1] == Received(OK_SEND_BINARY_DATA) && Open(log[..k - 1], log[k].id))
  }

  ghost predicate PayloadsFollow(log: seq<Action>)
  {
    forall k | 0 <= k < |log| :: PayloadAt(log, k)
  }

  // ---------------------------------------------------------------- the invariant

  /** Issued requests are written once if they were handed over while connected and never otherwise, and
      all but the one waited for have ended, once. */
  ghost predicate Counted(log: seq<Action>, issued: nat, waiting: Option<nat>, id: nat)
  {
    if id < issued then
      && Writes(log, id) == (if SentConnected(log, id) then 1 else 0)
      && Endings(log, id) == (if waiting == Some(id) then 0 else 1)
    else
      Writes(log, id) == 0 && Endings(log, id) == 0 && !SentConnected(log, id)
  }

  ghost predicate AllCounted(log: seq<Action>, issued: nat, waiting: Option<nat>)
  {
    forall id: nat :: Counted(log, issued, waiting, id)
  }

  ghost predicate OnlyIssuedComplete(log: seq<Action>, issued: nat)
  {
    forall k | 0 <= k < |log| && log[k].Completed? :: log[k].id < issued
  }

  ghost predicate WaitingIsOutstanding(log: seq<Action>, waiting: Option<nat>)
  {
    waiting.Some? && SentConnected(log, waiting.value) ==> Outstanding(log, waiting.value)
  }

  /** At most one request is queued, the one the executor waits for. */
  ghost predicate OneAtATime(s: System)
  {
    if s.waiting.None? then s.transport.queue == []
    else s.waiting.value < s.issued && |s.transport.queue| == 1 && s.transport.queue[0].id == s.waiting.value
  }

  /** The request waited for is the one that is open. */
  ghost predicate OnlyWaitingOpen(log: seq<Action>, waiting: Option<nat>)
  {
    forall id: nat :: Open(log, id) <==> waiting == Some(id)
  }

  ghost predicate Safe(s: System)
  {
    && OneAtATime(s)
    && OnlyWaitingOpen(s.transport.log, s.waiting) && PayloadsFollow(s.transport.log)
    && AllCounted(s.transport.log, s.issued, s.waiting)
    && OnlyIssuedComplete(s.transport.log, s.issued) && AllAnswered(s.transport.log)
    && WaitingIsOutstanding(s.transport.log, s.waiting)
  }

  // ---------------------------------------------------------------- one action at a time

  lemma Appended(log: seq<Action>, a: Action, id: nat)
    ensures Writes(log + [a], id) == Writes(log, id) + if a == Written(id) then 1 else 0
    ensures Endings(log + [a], id) == Endings(log, id) + if Finishes(a, id) then 1 else 0
    ensures SentConnected(log + [a], id) <==> SentConnected(log, id) || a == Action.Sent(id, true)
  {
    assert (log + [a])[..|log|] == log;
  }

  lemma QuietExtends(log: seq<Action>, a: Action, j: nat)
    requires Quiet(log, j, |log|) && (a.Received? ==> a.status == OK_SEND_BINARY_DATA)
    ensures Quiet(log + [a], j, |log| + 1)
  {
  }

  lemma OutstandingExtends(log: seq<Action>, a: Action, id: nat)
    requires Outstanding(log, id) && (a.Received? ==> a.status == OK_SEND_BINARY_DATA)
    ensures Outstanding(log + [a], id)
  {
    var j: nat :| j < |log| && log[j] == Written(id) && Quiet(log, j, |log|);
    QuietExtends(log, a, j);
    assert (log + [a])[j] == Written(id);
  }

  /** Earlier completions stay answered, as long as no request is handed over a second time. */
  lemma AnsweredExtends(log: seq<Action>, a: Action, issued: nat)
    requires AllAnswered(log) && OnlyIssuedComplete(log, issued)
    requires !a.Completed? && (a.Sent? ==> a.id >= issued)
    ensures AllAnswered(log + [a]) && OnlyIssuedComplete(log + [a], issued)
  {
    var all := log + [a];
    forall k | 0 <= k < |all| && all[k].Completed? && SentConnected(all, all[k].id)
      ensures exists j: nat :: AnsweredBy(all, j, k)
    {
      Appended(log, a, log[k].id);
      var j: nat :| AnsweredBy(log, j, k);
      assert AnsweredBy(all, j, k);
    }
  }

  lemma CompletionAnswered(log: seq<Action>, id: nat, status: u32, issued: nat)
    requires AllAnswered(log) && OnlyIssuedComplete(log, issued) && id < issued
    requires SentConnected(log, id) ==> Outstanding(log, id)
    requires status != OK_SEND_BINARY_DATA
    ensures var all := log + [Received(status)] + [Completed(id, status)];
            AllAnswered(all) && OnlyIssuedComplete(all, issued)
  {
    var heard := log + [Received(status)];
    var all := heard + [Completed(id, status)];
    AnsweredExtends(log, Received(status), issued);
    Appended(log, Received(status), id);
    forall k | 0 <= k < |all| && all[k].Completed? && SentConnected(all, all[k].id)
      ensures exists j: nat :: AnsweredBy(all, j, k)
    {
      Appended(heard, Completed(id, status), all[k].id);
      if k < |heard| {
        assert heard[k] == all[k];
        var j: nat :| AnsweredBy(heard, j, k);
        assert AnsweredBy(all, j, k);
      } else {
        var j: nat :| j < |log| && log[j] == Written(id) && Quiet(log, j, |log|);
        assert AnsweredBy(all, j, k);
      }
    }
  }

  lemma OpenAppended(log: seq<Action>, a: Action, id: nat)
    ensures Open(log + [a], id) <==>
            !Finishes(a, id) && (Open(log, id) || (a.Sent? && a.id == id && Endings(log, id) == 0))
  {
    Appended(log, a, id);
    if a.Sent? && a.id == id { assert a == Action.Sent(id, true) || a == Action.Sent(id, false); }
  }

  lemma PayloadStays(log: seq<Action>, a: Action, k: nat)
    requires k < |log| && PayloadAt(log, k)
    ensures PayloadAt(log + [a], k)
  {
    assert (log + [a])[..k] == log[..k];
    if k > 0 { assert (log + [a])[..k - 1] == log[..k - 1]; }
  }

  /** An action that is neither a payload nor a request for one of an open request. */
  lemma PayloadsUndisturbed(log: seq<Action>, a: Action)
    requires PayloadsFollow(log) && !a.PayloadWritten?
    requires a == Received(OK_SEND_BINARY_DATA) ==> forall id: nat :: !Open(log, id)
    ensures PayloadsFollow(log + [a])
  {
    var all := log + [a];
    forall k | 0 <= k < |all|
      ensures PayloadAt(all, k)
    {
      if k < |log| { PayloadStays(log, a, k); } else { assert all[..k] == log; }
    }
  }

  lemma PayloadFollows(log: seq<Action>, w: nat)
    requires PayloadsFollow(log) && OnlyWaitingOpen(log, Some(w))
    ensures PayloadsFollow(log + [Received(OK_SEND_BINARY_DATA)] + [PayloadWritten(w)])
  {
    var heard := log + [Received(OK_SEND_BINARY_DATA)];
    var all := heard + [PayloadWritten(w)];
    forall k | 0 <= k < |all|
      ensures PayloadAt(all, k)
    {
      if k < |log| {
        PayloadStays(log, Received(OK_SEND_BINARY_DATA), k);
        PayloadStays(heard, PayloadWritten(w), k);
      } else {
        assert all[..|log|] == log;
      }
    }
  }

  /** The action neither opens nor ends a request. */
  lemma OpenUndisturbed(log: seq<Action>, a: Action, waiting: Option<nat>)
    requires OnlyWaitingOpen(log, waiting) && !a.Sent? && !a.Completed? && !a.Abandoned?
    ensures OnlyWaitingOpen(log + [a], waiting)
  {
    forall id: nat
      ensures Open(log + [a], id) <==> waiting == Some(id)
    {
      OpenAppended(log, a, id);
    }
  }

  lemma OpenEnds(log: seq<Action>, a: Action, w: nat)
    requires OnlyWaitingOpen(log, Some(w)) && Finishes(a, w)
    ensures OnlyWaitingOpen(log + [a], None)
  {
    forall id: nat
      ensures !Open(log + [a], id)
    {
      OpenAppended(log, a, id);
      assert Open(log, id) <==> id == w;
    }
  }

  lemma OpenBegins(log: seq<Action>, n: nat, up: bool)
    requires OnlyWaitingOpen(log, None) && Endings(log, n) == 0
    ensures OnlyWaitingOpen(log + [Action.Sent(n, up)], Some(n))
  {
    forall id: nat
      ensures Open(log + [Action.Sent(n, up)], id) <==> id == n
    {
      OpenAppended(log, Action.Sent(n, up), id);
      assert !Open(log, id);
    }
  }

  // ---------------------------------------------------------------- one event at a time

  function Submitted(log: seq<Action>, n: nat, up: bool): seq<Action>
  {
    var sent := log + [Action.Sent(n, up)];
    if up then sent + [Written(n)] else sent
  }

  lemma SubmitCounts(log: seq<Action>, n: nat, up: bool, after: seq<Action>, next: nat, id: nat)
    requires Counted(log, n, None, id) && after == Submitted(log, n, up) && next == n + 1
    ensures Counted(after, next, Some(n), id)
  {
    Appended(log, Action.Sent(n, up), id);
    if up { Appended(log + [Action.Sent(n, up)], Written(n), id); }
  }

  lemma SubmitCounted(log: seq<Action>, n: nat, up: bool, after: seq<Action>, next: nat)
    requires AllCounted(log, n, None) && after == Submitted(log, n, up) && next == n + 1
    ensures AllCounted(after, next, Some(n))
  {
    forall id: nat
      ensures Counted(after, next, Some(n), id)
    {
      SubmitCounts(log, n, up, after, next, id);
    }
  }

  lemma SubmitOutstanding(log: seq<Action>, n: nat, up: bool)
    requires !SentConnected(log, n)
    ensures WaitingIsOutstanding(Submitted(log, n, up), Some(n))
  {
    var sent := log + [Action.Sent(n, up)];
    if up {
      assert (sent + [Written(n)])[|sent|] == Written(n);
    } else {
      Appended(log, Action.Sent(n, up), n);
    }
  }

  lemma SubmitOpens(log: seq<Action>, n: nat, up: bool)
    requires OnlyWaitingOpen(log, None) && PayloadsFollow(log) && Endings(log, n) == 0
    ensures OnlyWaitingOpen(Submitted(log, n, up), Some(n)) && PayloadsFollow(Submitted(log, n, up))
  {
    OpenBegins(log, n, up);
    OpenUndisturbed(log + [Action.Sent(n, up)], Written(n), Some(n));
    PayloadsUndisturbed(log, Action.Sent(n, up));
    PayloadsUndisturbed(log + [Action.Sent(n, up)], Written(n));
  }

  lemma SubmitAnswered(log: seq<Action>, n: nat, up: bool, next: nat)
    requires AllAnswered(log) && OnlyIssuedComplete(log, n) && next == n + 1
    ensures AllAnswered(Submitted(log, n, up)) && OnlyIssuedComplete(Submitted(log, n, up), next)
  {
    AnsweredExtends(log, Action.Sent(n, up), n);
    AnsweredExtends(log + [Action.Sent(n, up)], Written(n), n);
  }

  lemma SubmitIs(s: System, payload: bool, parser: RdcpResponse.SizeParser)
    requires s.waiting.None? && OneAtATime(s)
    ensures var r := Next(s, Submit(payload, parser));
            && r.transport.log == Submitted(s.transport.log, s.issued, s.transport.state == Connected)
            && r.waiting == Some(s.issued) && r.issued == s.issued + 1 && OneAtATime(r)
  {
  }

  lemma SubmitSafe(s: System, payload: bool, parser: RdcpResponse.SizeParser)
    requires Safe(s) && Enabled(s, Submit(payload, parser))
    ensures Safe(Next(s, Submit(payload, parser)))
  {
    var log, n, up := s.transport.log, s.issued, s.transport.state == Connected;
    assert Counted(log, n, s.waiting, n);
    SubmitIs(s, payload, parser);
    SubmitAnswered(log, n, up, n + 1);
    SubmitCounted(log, n, up, Submitted(log, n, up), n + 1);
    SubmitOutstanding(log, n, up);
    SubmitOpens(log, n, up);
  }

  lemma PayloadSafe(s: System)
    requires Safe(s) && s.waiting.Some? && Enabled(s, Response(OK_SEND_BINARY_DATA))
    ensures Safe(Next(s, Response(OK_SEND_BINARY_DATA)))
  {
    var log, n, w := s.transport.log, s.issued, s.waiting.value;
    var heard := log + [Received(OK_SEND_BINARY_DATA)];
    AnsweredExtends(log, Received(OK_SEND_BINARY_DATA), n);
    AnsweredExtends(heard, PayloadWritten(w), n);
    PayloadFollows(log, w);
    OpenUndisturbed(log, Received(OK_SEND_BINARY_DATA), s.waiting);
    OpenUndisturbed(heard, PayloadWritten(w), s.waiting);
    forall id: nat
      ensures Counted(heard + [PayloadWritten(w)], n, s.waiting, id)
    {
      assert Counted(log, n, s.waiting, id);
      Appended(log, Received(OK_SEND_BINARY_DATA), id);
      Appended(heard, PayloadWritten(w), id);
    }
    Appended(log, Received(OK_SEND_BINARY_DATA), w);
    Appended(heard, PayloadWritten(w), w);
    if SentConnected(log, w) {
      OutstandingExtends(log, Received(OK_SEND_BINARY_DATA), w);
      OutstandingExtends(heard, PayloadWritten(w), w);
    }
  }

  lemma CompletionSafe(s: System, status: u32)
    requires Safe(s) && s.waiting.Some? && status != OK_SEND_BINARY_DATA
    ensures Safe(Next(s, Response(status)))
  {
    var log, n, w := s.transport.log, s.issued, s.waiting.value;
    var heard := log + [Received(status)];
    CompletionAnswered(log, w, status, n);
    OpenUndisturbed(log, Received(status), s.waiting);
    OpenEnds(heard, Completed(w, status), w);
    PayloadsUndisturbed(log, Received(status));
    PayloadsUndisturbed(heard, Completed(w, status));
    forall id: nat
      ensures Counted(heard + [Completed(w, status)], n, None, id)
    {
      assert Counted(log, n, s.waiting, id);
      Appended(log, Received(status), id);
      Appended(heard, Completed(w, status), id);
    }
  }

  lemma UnsolicitedSafe(s: System, status: u32)
    requires Safe(s) && s.waiting.None?
    ensures Safe(Next(s, Response(status)))
  {
    var log, n := s.transport.log, s.issued;
    var heard := log + [Received(status)];
    assert heard + AbandonAll([]) == heard;
    AnsweredExtends(log, Received(status), n);
    OpenUndisturbed(log, Received(status), None);
    PayloadsUndisturbed(log, Received(status));
    forall id: nat
      ensures Counted(heard, n, None, id)
    {
      assert Counted(log, n, s.waiting, id);
      Appended(log, Received(status), id);
    }
  }

  lemma CloseSafe(s: System)
    requires Safe(s)
    ensures Safe(Next(s, CloseConnection))
  {
    var log, n := s.transport.log, s.issued;
    if s.waiting.None? {
      assert log + AbandonAll([]) == log;
    } else {
      var w := s.waiting.value;
      assert s.transport.queue[1..] == [];
      assert AbandonAll(s.transport.queue) == [Abandoned(w)];
      AnsweredExtends(log, Abandoned(w), n);
      OpenEnds(log, Abandoned(w), w);
      PayloadsUndisturbed(log, Abandoned(w));
      forall id: nat
        ensures Counted(log + [Abandoned(w)], n, None, id)
      {
        assert Counted(log, n, s.waiting, id);
        Appended(log, Abandoned(w), id);
      }
    }
  }

  lemma NextSafe(s: System, e: Event)
    requires Safe(s) && Enabled(s, e)
    ensures Safe(Next(s, e))
  {
    match e
    case Submit(payload, parser) => SubmitSafe(s, payload, parser);
    case Response(status) =>
      if s.waiting.None? { UnsolicitedSafe(s, status); }
      else if status == OK_SEND_BINARY_DATA { PayloadSafe(s); }
      else { CompletionSafe(s, status); }
    case CloseConnection => CloseSafe(s);
    case _ =>
  }

  // ---------------------------------------------------------------- every run

  ghost predicate Steps(s: System, s': System)
  {
    exists e :: Enabled(s, e) && s' == Next(s, e)
  }

  ghost predicate IsRun(run: seq<System>)
  {
    && run != [] && run[0] == System(Transport(Init, [], []), None, 0)
    && forall i | 0 < i < |run| :: Steps(run[i - 1], run[i])
  }

  /** In every state of every run at most one request is queued, each request handed over while connected
      is written exactly once, each is finished exactly once, and completed by the first response after
      its write that does not ask for the payload. Each response that does, met with a request open, is followed
      at once by the payload of that request, and no payload is written on any other occasion. */
  lemma {:induction false} EveryRunIsSafe(run: seq<System>, i: nat)
    requires IsRun(run) && i < |run|
    ensures Safe(run[i]) && |run[i].transport.queue| <= 1
    decreases i
  {
    if i == 0 {
      assert forall id: nat :: Counted([], 0, None, id);
    } else {
      EveryRunIsSafe(run, i - 1);
      assert Steps(run[i - 1], run[i]);
      var e :| Enabled(run[i - 1], e) && run[i] == Next(run[i - 1], e);
      NextSafe(run[i - 1], e);
    }
  }

  /** The queue alone does not protect the connection: a second request handed over before the first is
      answered makes the first be written again. */
  lemma TwoAtOnceWritesTwice()
    ensures var first, second := Request(0, false, RdcpResponse.NoParser), Request(1, false, RdcpResponse.NoParser);
            var t := Send(Send(Transport(Connected, [], []), first), second);
            Writes(t.log, 0) == 2 && Writes(t.log, 1) == 0
  {
    var first, second := Request(0, false, RdcpResponse.NoParser), Request(1, false, RdcpResponse.NoParser);
    var t := Send(Send(Transport(Connected, [], []), first), second);
    var sent := [Action.Sent(0, true)];
    var written := sent + [Written(0)];
    var again := written + [Action.Sent(1, true)];
    assert t.log == again + [Written(0)];
    forall id | id == 0 || id == 1
      ensures Writes(t.log, id) == if id == 0 then 2 else 0
    {
      Appended([], Action.Sent(0, true), id);
      assert [] + [Action.Sent(0, true)] == sent;
      Appended(sent, Written(0), id);
      Appended(written, Action.Sent(1, true), id);
      Appended(again, Written(0), id);
    }
  }
}
