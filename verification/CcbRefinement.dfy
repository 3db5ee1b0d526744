/**
 The broker server of CcbServer takes part in the protocol of CcbProtocol: whatever one of its
 handlers does to the tables is what some steps of the protocol do to the server's part of the
 protocol state, and those steps are enabled. A client and a daemon are known by the socket
 that the server has to them.
 */
module CcbRefinement {
  import opened Options
  import opened CcbTables
  import S = CcbServer
  import P = CcbProtocol

  /** The server's tables, as the protocol sees them. */
  ghost predicate Abstracts(s: P.State, targets: Targets, requests: Requests)
  {
    && (forall k: nat :: k in s.registered <==> IsCcbid(k) && k in targets)
    && (forall k :: k in targets ==> s.registered[k] == targets[k].sock)
    && (forall r: nat :: r in s.requests <==> IsCcbid(r) && r in requests)
    && (forall r :: r in requests ==> s.requests[r] == PendingOf(requests[r]))
  }

  predicate IsCcbid(k: nat)
  {
    k < ID_LIMIT
  }

  function PendingOf(request: Request): P.Pending
  {
    P.Pending(request.sock, request.target, request.connectId)
  }

  function AfterFrom(s: P.State, events: seq<P.Event>): P.State
    decreases |events|
  {
    if events == [] then s else AfterFrom(P.Step(s, events[0]), events[1..])
  }

  ghost predicate Possible(s: P.State, events: seq<P.Event>)
    decreases |events|
  {
    events == [] || (P.Enabled(s, events[0]) && Possible(P.Step(s, events[0]), events[1..]))
  }

  /** The events can happen from `s`, and lead to a state that the tables abstract to. */
  ghost predicate Simulates(s: P.State, events: seq<P.Event>, targets: Targets, requests: Requests)
  {
    Possible(s, events) && Abstracts(AfterFrom(s, events), targets, requests)
  }

  lemma OneStep(s: P.State, e: P.Event, targets: Targets, requests: Requests)
    requires P.Enabled(s, e) && Abstracts(P.Step(s, e), targets, requests)
    ensures Simulates(s, [e], targets, requests)
  {
    assert [e][1..] == [];
    assert AfterFrom(s, [e]) == AfterFrom(P.Step(s, e), []) == P.Step(s, e);
  }

  lemma TwoSteps(s: P.State, e1: P.Event, e2: P.Event, targets: Targets, requests: Requests)
    requires P.Enabled(s, e1) && P.Enabled(P.Step(s, e1), e2)
    requires Abstracts(P.Step(P.Step(s, e1), e2), targets, requests)
    ensures Simulates(s, [e1, e2], targets, requests)
  {
    assert [e1, e2][1..] == [e2];
    OneStep(P.Step(s, e1), e2, targets, requests);
    assert AfterFrom(s, [e1, e2]) == AfterFrom(P.Step(s, e1), [e2]);
    assert Possible(s, [e1, e2]) == (P.Enabled(s, e1) && Possible(P.Step(s, e1), [e2]));
  }

  // ---------- runs ----------

  /** The server's counter has not come round. */
  ghost predicate Unwrapped(run: seq<P.Event>)
  {
    forall n: nat :: n <= |run| ==> P.Counter(run[..n]) < ID_LIMIT
  }

  /** The server is where the run has led: its tables are those of the run and, unless the counter
      has come round, its counter is that of the run, which all ids came from. */
  ghost predicate InStep(run: seq<P.Event>, targets: Targets, requests: Requests, next: Ccbid)
  {
    && P.IsRun(run) && Abstracts(P.After(run), targets, requests)
    && (Unwrapped(run) ==>
          next == P.Counter(run) && P.CountedIds(run) && forall r :: r in requests ==> r < P.Counter(run))
  }

  lemma {:induction false} RunExtends(run: seq<P.Event>, events: seq<P.Event>)
    requires P.IsRun(run) && Possible(P.After(run), events)
    ensures P.IsRun(run + events) && P.After(run + events) == AfterFrom(P.After(run), events)
    decreases |events|
  {
    if events == [] {
      assert run + events == run;
    } else {
      var more := run + [events[0]];
      assert more[..|run|] == run;
      forall i: nat | i < |more| ensures P.StepEnabled(more, i) {
        assert i < |run| ==> more[..i] == run[..i] && P.StepEnabled(run, i);
      }
      RunExtends(more, events[1..]);
      assert more + events[1..] == run + events;
    }
  }

  lemma UnwrappedBefore(run: seq<P.Event>, events: seq<P.Event>)
    requires Unwrapped(run + events)
    ensures Unwrapped(run)
  {
    forall n: nat | n <= |run| ensures P.Counter(run[..n]) < ID_LIMIT {
      assert (run + events)[..n] == run[..n];
    }
  }

  /** Steps that neither draw a request id nor restart the server. */
  ghost predicate Quiet(events: seq<P.Event>)
  {
    forall e :: e in events ==> !P.DrawsId(e) && !e.ServerRestarts?
  }

  /** They leave the counter alone. */
  lemma {:induction false} CounterKept(run: seq<P.Event>, events: seq<P.Event>)
    requires Quiet(events)
    ensures P.Counter(run + events) == P.Counter(run)
    ensures P.CountedIds(run) ==> P.CountedIds(run + events)
    decreases |events|
  {
    if events == [] {
      assert run + events == run;
    } else {
      var n := |events| - 1;
      CounterKept(run, events[..n]);
      var before, all := run + events[..n], run + events;
      assert all == before + [events[n]] && all[..|before|] == before && all[|before|] == events[n];
      if P.CountedIds(run) {
        CountedMore(before, events[n]);
      }
    }
  }

  lemma CountedMore(run: seq<P.Event>, e: P.Event)
    requires P.CountedIds(run) && (P.DrawsId(e) ==> e.reqid == P.Counter(run))
    ensures P.CountedIds(run + [e])
  {
    var all := run + [e];
    assert all[..|run|] == run;
    forall i: nat | i < |all| ensures P.CountedId(all, i) {
      assert i < |run| ==> all[..i] == run[..i] && P.CountedId(run, i);
    }
  }

  /** Steps that draw no id keep the server in step, if they simulate what it has done. */
  lemma StepsKeep(run: seq<P.Event>, events: seq<P.Event>, targets: Targets, requests: Requests, next: Ccbid,
                  targets': Targets, requests': Requests)
    requires InStep(run, targets, requests, next) && Simulates(P.After(run), events, targets', requests')
    requires Quiet(events) && requests'.Keys <= requests.Keys
    ensures InStep(run + events, targets', requests', next)
  {
    RunExtends(run, events);
    if Unwrapped(run + events) {
      UnwrappedBefore(run, events);
      CounterKept(run, events);
    }
  }

  /** So do the steps of clients, daemons and strangers. */
  lemma OthersKeep(run: seq<P.Event>, e: P.Event, targets: Targets, requests: Requests, next: Ccbid)
    requires InStep(run, targets, requests, next) && P.Enabled(P.After(run), e)
    requires e.NewClient? || e.ClientRequests? || e.DaemonWritesHello? || e.DaemonReports? || e.DaemonFails?
          || e.ClientAccepts? || e.StrangerConnects?
    ensures InStep(run + [e], targets, requests, next)
  {
    OneStep(P.After(run), e, targets, requests);
    StepsKeep(run, [e], targets, requests, next, targets, requests);
  }

  /** The step of a request that draws an id. */
  lemma DrawKeeps(run: seq<P.Event>, e: P.Event, targets: Targets, requests: Requests, next: Ccbid, id: Ccbid,
                  targets': Targets, requests': Requests, next': Ccbid)
    requires InStep(run, targets, requests, next) && Simulates(P.After(run), [e], targets', requests')
    requires P.DrawsId(e) && e.reqid == id && requests'.Keys <= requests.Keys + {id}
    requires FirstFree(next, requests.Keys, id) && next' == Advance(id, 1)
    ensures InStep(run + [e], targets', requests', next')
  {
    RunExtends(run, [e]);
    var all := run + [e];
    if Unwrapped(all) {
      UnwrappedBefore(run, [e]);
      NextIfFree(next, requests.Keys, id);
      assert all[..|run|] == run && all[..|all|] == all;
      CountedMore(run, e);
    }
  }

  /** The request ids of a server are fresh in every run without a restart in which its counter
      does not come round. */
  lemma RequestIdsAreFresh(run: seq<P.Event>, targets: Targets, requests: Requests, next: Ccbid)
    requires InStep(run, targets, requests, next) && Unwrapped(run) && P.ServerRestarts !in run
    ensures P.FreshRequestIds(run)
  {
    P.CountedIdsAreFresh(run);
  }

  /** So every success reply of such a run answers the very request that the connecting daemon was
      sent. */
  lemma RepliesAnswerTheirRequests(run: seq<P.Event>, targets: Targets, requests: Requests, next: Ccbid, n: nat)
    returns (i: nat)
    requires InStep(run, targets, requests, next) && Unwrapped(run) && P.ServerRestarts !in run
    requires n < |run| && run[n].ServerReplies? && run[n].success
    ensures i < n && P.ForwardedTo(run, i, run[n].client, run[n].connectId, run[n].daemon)
    ensures run[n].reqid in P.After(run[..n]).requests
    ensures P.After(run[..n]).requests[run[n].reqid] == P.Pending(run[i].client, run[i].ccbid, run[i].connectId)
  {
    RequestIdsAreFresh(run, targets, requests, next);
    i := P.SuccessReplyIsForThatRequest(run, n);
  }

  // ---------- what the handlers do to the tables ----------

  lemma RegistrationStep(s: P.State, targets: Targets, requests: Requests, k: Ccbid, sock: nat)
    requires Abstracts(s, targets, requests)
    ensures Abstracts(P.Step(s, P.Registers(sock, k)), targets[k := Target(k, sock, map[])], RequestsNotFor(requests, k))
  {
  }

  lemma RemovalStep(s: P.State, targets: Targets, requests: Requests, k: Ccbid)
    requires Abstracts(s, targets, requests) && k in targets
    ensures P.Enabled(s, P.Unregisters(k))
    ensures Abstracts(P.Step(s, P.Unregisters(k)), targets - {k}, RequestsNotFor(requests, k))
  {
  }

  lemma ForwardStep(s: P.State, targets: Targets, requests: Requests, request: Request)
    requires Abstracts(s, targets, requests) && request.target in targets && request.id !in requests
    requires P.RequestMessage(request.sock, request.target, request.connectId) in s.net
    ensures
      var e := P.ServerForwards(request.sock, request.target, request.connectId, request.id, targets[request.target].sock);
      P.Enabled(s, e) && Abstracts(P.Step(s, e), TargetsWith(targets, request), requests[request.id := request])
  {
  }

  /** The step of a request that the server gives an id to: it forwards it, or turns it away. */
  function RequestStep(request: Request, daemon: nat, writable: bool): P.Event
  {
    if writable then P.ServerForwards(request.sock, request.target, request.connectId, request.id, daemon)
    else P.ServerTurnsAway(request.sock, request.target, request.connectId, request.id)
  }

  lemma TurnAwayStep(s: P.State, targets: Targets, requests: Requests, request: Request)
    requires Abstracts(s, targets, requests) && request.target in targets && request.id !in requests
    requires P.RequestMessage(request.sock, request.target, request.connectId) in s.net
    ensures
      var e := P.ServerTurnsAway(request.sock, request.target, request.connectId, request.id);
      P.Enabled(s, e) && Abstracts(P.Step(s, e), targets, requests)
  {
  }

  lemma ForgetStep(s: P.State, targets: Targets, requests: Requests, r: Ccbid)
    requires Abstracts(s, targets, requests) && r in requests
    ensures P.Enabled(s, P.ServerForgets(r))
    ensures Abstracts(P.Step(s, P.ServerForgets(r)), TargetsWithout(targets, requests[r]), requests - {r})
  {
  }

  lemma ReplyStep(s: P.State, targets: Targets, requests: Requests, r: Ccbid, daemon: nat, success: bool)
    requires Abstracts(s, targets, requests) && r in requests
    requires P.ResultMessage(daemon, r, requests[r].connectId, success) in s.net
    ensures
      var e := P.ServerReplies(requests[r].sock, daemon, r, requests[r].connectId, success);
      P.Enabled(s, e) && Abstracts(P.Step(s, e), TargetsWithout(targets, requests[r]), requests - {r})
  {
  }

  // ---------- the handlers ----------

  /** What the server writes to its peers in a step: the request that it forwards, with the
      client's return address, the failure it tells a client that it turns away, or the reply that
      it relays. */
  function SentFor(e: P.Event, returnAddr: string): seq<S.Message>
  {
    if e.ServerForwards? && IsCcbid(e.reqid) then [S.Forwarded(e.daemon, e.reqid, returnAddr, e.connectId)]
    else if e.ServerTurnsAway? then [S.Replied(e.client, false)]
    else if e.ServerReplies? then [S.Replied(e.client, e.success)]
    else []
  }

  function Sent(events: seq<P.Event>, returnAddr: string): seq<S.Message>
  {
    if events == [] then [] else SentFor(events[0], returnAddr) + Sent(events[1..], returnAddr)
  }

  lemma Grouped(x: seq<S.Message>, y: seq<S.Message>, z: seq<S.Message>)
    ensures x + (y + z) == x + y + z
  {
  }

  lemma {:induction false} SentConcat(a: seq<P.Event>, b: seq<P.Event>, returnAddr: string)
    ensures Sent(a + b, returnAddr) == Sent(a, returnAddr) + Sent(b, returnAddr)
  {
    if a == [] {
      assert a + b == b;
    } else {
      SentConcat(a[1..], b, returnAddr);
      assert (a + b)[1..] == a[1..] + b && (a + b)[0] == a[0];
      Grouped(SentFor(a[0], returnAddr), Sent(a[1..], returnAddr), Sent(b, returnAddr));
    }
  }

  /** A server that is started anew, with the records of the reconnect file, is where the step
      ServerRestarts leads any run, and its request ids begin at 1. */
  method Restart(ghost run: seq<P.Event>, interval: int, file: Option<seq<Line>>, now: int)
    returns (server: S.CCBServer, ghost events: seq<P.Event>)
    requires P.IsRun(run) && P.CountedIds(run)
    ensures fresh(server) && server.Valid() && server.FileCurrent() && server.nextRequestId == 1
    ensures server.file == file && server.sweepInterval == interval
    ensures events == [P.ServerRestarts]
    ensures InStep(run + events, server.targets, server.requests, server.nextRequestId)
  {
    server := new S.CCBServer(interval);
    server.file := file;
    server.LoadReconnectInfo(now);
    events := [P.ServerRestarts];
    OneStep(P.After(run), P.ServerRestarts, server.targets, server.requests);
    RunExtends(run, events);
    CountedMore(run, P.ServerRestarts);
  }

  /** A new server, before anything has happened. */
  method Start(interval: int) returns (server: S.CCBServer)
    ensures fresh(server) && server.Valid() && InStep([], server.targets, server.requests, server.nextRequestId)
  {
    server := new S.CCBServer(interval);
  }

  /** A registration is the step Registers, followed by Unregisters when the reply fails. */
  method Registration(server: S.CCBServer, ghost run: seq<P.Event>, sock: nat, ip: string,
                      reconnect: Option<(Ccbid, Ccbid)>, newCookie: Ccbid, now: int, replySent: bool)
    returns (k: Ccbid, ghost events: seq<P.Event>)
    requires server.Valid() && InStep(run, server.targets, server.requests, server.nextRequestId)
    requires |server.reconnects.Keys + server.targets.Keys| < ID_LIMIT
    modifies server
    ensures server.Valid() && server.sent == old(server.sent)
    ensures events == if replySent then [P.Registers(sock, k)] else [P.Registers(sock, k), P.Unregisters(k)]
    ensures InStep(run + events, server.targets, server.requests, server.nextRequestId)
  {
    ghost var targets, requests := server.targets, server.requests;
    k := server.HandleRegistration(sock, ip, reconnect, newCookie, now, replySent);
    events := RegistrationKeeps(run, targets, requests, server.nextRequestId, k, sock, replySent);
  }

  lemma RegistrationKeeps(run: seq<P.Event>, targets: Targets, requests: Requests, next: Ccbid, k: Ccbid, sock: nat,
                          replySent: bool) returns (events: seq<P.Event>)
    requires InStep(run, targets, requests, next)
    ensures events == if replySent then [P.Registers(sock, k)] else [P.Registers(sock, k), P.Unregisters(k)]
    ensures
      var targets' := if replySent then targets[k := Target(k, sock, map[])] else targets - {k};
      InStep(run + events, targets', RequestsNotFor(requests, k), next)
  {
    var s := P.After(run);
    events := if replySent then [P.Registers(sock, k)] else [P.Registers(sock, k), P.Unregisters(k)];
    var targets' := if replySent then targets[k := Target(k, sock, map[])] else targets - {k};
    RegistrationSimulates(s, targets, requests, k, sock, replySent);
    StepsKeep(run, events, targets, requests, next, targets', RequestsNotFor(requests, k));
  }

  lemma RegistrationSimulates(s: P.State, targets: Targets, requests: Requests, k: Ccbid, sock: nat, replySent: bool)
    requires Abstracts(s, targets, requests)
    ensures
      if replySent then Simulates(s, [P.Registers(sock, k)], targets[k := Target(k, sock, map[])], RequestsNotFor(requests, k))
      else Simulates(s, [P.Registers(sock, k), P.Unregisters(k)], targets - {k}, RequestsNotFor(requests, k))
  {
    var e, with := P.Registers(sock, k), targets[k := Target(k, sock, map[])];
    RegistrationStep(s, targets, requests, k, sock);
    if replySent {
      OneStep(s, e, with, RequestsNotFor(requests, k));
    } else {
      RemovalStep(P.Step(s, e), with, RequestsNotFor(requests, k), k);
      S.Removed(targets, with, k, Target(k, sock, map[]));
      S.RemovedTwice(requests, k);
      TwoSteps(s, e, P.Unregisters(k), targets - {k}, RequestsNotFor(requests, k));
    }
  }

  /** A client's request, which the client has sent: for a registered id it is given the counter's
      next id and forwarded or turned away, and the message written is the one of that step.
      Otherwise it changes nothing and the client is told of the failure. */
  method ClientRequest(server: S.CCBServer, ghost run: seq<P.Event>, sock: nat, k: Ccbid, returnAddr: string,
                       connectId: string, writable: bool) returns (ghost events: seq<P.Event>)
    requires server.Valid() && InStep(run, server.targets, server.requests, server.nextRequestId)
    requires |server.requests| < ID_LIMIT && P.RequestMessage(sock, k, connectId) in P.After(run).net
    modifies server
    ensures server.Valid()
    ensures k !in old(server.targets) ==> events == []
    ensures k in old(server.targets) ==> |events| == 1 && exists id ::
      && FirstFree(old(server.nextRequestId), old(server.requests.Keys), id)
      && events[0] == RequestStep(Request(id, k, sock, returnAddr, connectId), old(server.targets)[k].sock, writable)
    ensures server.sent == old(server.sent) + if events == [] then [S.Replied(sock, false)] else Sent(events, returnAddr)
    ensures k in old(server.targets) && !writable ==> server.sent == old(server.sent) + [S.Replied(sock, false)]
    ensures InStep(run + events, server.targets, server.requests, server.nextRequestId)
  {
    ghost var targets, requests, next := server.targets, server.requests, server.nextRequestId;
    ghost var id := server.HandleRequest(sock, k, returnAddr, connectId, writable);
    events := [];
    if k in targets {
      ghost var request := Request(id, k, sock, returnAddr, connectId);
      ghost var e := RequestStep(request, targets[k].sock, writable);
      events := [e];
      RequestSimulates(P.After(run), targets, requests, request, writable, server.targets, server.requests);
      SentOne(e, returnAddr);
      DrawKeeps(run, e, targets, requests, next, id, server.targets, server.requests, server.nextRequestId);
    } else {
      assert run + events == run;
    }
  }

  lemma RequestSimulates(s: P.State, targets: Targets, requests: Requests, request: Request, writable: bool,
                         targets': Targets, requests': Requests)
    requires Abstracts(s, targets, requests) && request.target in targets && request.id !in requests
    requires P.RequestMessage(request.sock, request.target, request.connectId) in s.net
    requires
      if writable then S.Added(targets, requests, request, targets', requests')
      else targets' == targets && requests' == requests
    ensures Simulates(s, [RequestStep(request, targets[request.target].sock, writable)], targets', requests')
  {
    if writable {
      ForwardStep(s, targets, requests, request);
    } else {
      TurnAwayStep(s, targets, requests, request);
    }
    OneStep(s, RequestStep(request, targets[request.target].sock, writable), targets', requests');
  }

  /** A message from a target: the target leaves, a request is forgotten because its client has
      gone, or a result that the target has sent is passed on to the client. A reply is written
      in the last case only, and says what the result says. */
  method TargetMessage(server: S.CCBServer, ghost run: seq<P.Event>, k: Ccbid, msg: S.TargetMessage, clientGone: bool)
    returns (ghost events: seq<P.Event>)
    requires server.Valid() && k in server.targets
    requires InStep(run, server.targets, server.requests, server.nextRequestId)
    requires WasSent(P.After(run), server.targets[k].sock, msg)
    modifies server
    ensures server.Valid()
    ensures |events| <= 1
    ensures forall e :: e in events ==>
      e == P.Unregisters(k) || e.ServerForgets? || (e.ServerReplies? && e.daemon == old(server.targets)[k].sock)
    ensures server.sent == old(server.sent) + Sent(events, "")
    ensures InStep(run + events, server.targets, server.requests, server.nextRequestId)
  {
    ghost var t := server.AsTables();
    server.HandleRequestResultsMsg(k, msg, clientGone);
    events := MessageKeeps(run, t, server.nextRequestId, k, msg, clientGone);
  }

  lemma MessageKeeps(run: seq<P.Event>, t: S.Tables, next: Ccbid, k: Ccbid, msg: S.TargetMessage, clientGone: bool)
    returns (events: seq<P.Event>)
    requires InStep(run, t.targets, t.requests, next) && k in t.targets && WasSent(P.After(run), t.targets[k].sock, msg)
    ensures |events| <= 1
    ensures forall e :: e in events ==>
      e == P.Unregisters(k) || e.ServerForgets? || (e.ServerReplies? && e.daemon == t.targets[k].sock)
    ensures
      var u := S.HandledBy(t, k, msg, clientGone);
      u.sent == t.sent + Sent(events, "") && InStep(run + events, u.targets, u.requests, next)
  {
    var u := S.HandledBy(t, k, msg, clientGone);
    events := MessageSimulates(P.After(run), t, k, msg, clientGone);
    StepsKeep(run, events, t.targets, t.requests, next, u.targets, u.requests);
  }

  /** A result is one that the daemon has written. */
  ghost predicate WasSent(s: P.State, daemon: nat, msg: S.TargetMessage)
  {
    msg.Results? && msg.reqid.Some? ==> P.ResultMessage(daemon, msg.reqid.value, msg.connectId, msg.success) in s.net
  }

  lemma MessageSimulates(s: P.State, t: S.Tables, k: Ccbid, msg: S.TargetMessage, clientGone: bool)
    returns (events: seq<P.Event>)
    requires Abstracts(s, t.targets, t.requests) && k in t.targets && WasSent(s, t.targets[k].sock, msg)
    ensures |events| <= 1
    ensures forall e :: e in events ==>
      e == P.Unregisters(k) || e.ServerForgets? || (e.ServerReplies? && e.daemon == t.targets[k].sock)
    ensures
      var u := S.HandledBy(t, k, msg, clientGone);
      u.sent == t.sent + Sent(events, "") && u.requests.Keys <= t.requests.Keys && Simulates(s, events, u.targets, u.requests)
  {
    events := [];
    if S.Drops(t.requests, msg, clientGone) {
      events := DroppedSimulates(s, t.targets, t.requests, k);
    } else if msg.Results? && msg.reqid.value in t.requests {
      events := ResultSimulates(s, t.targets, t.requests, k, msg.reqid.value, msg.success, clientGone);
    }
  }

  /** A client that hangs up has its request forgotten. */
  method RequestDisconnect(server: S.CCBServer, ghost run: seq<P.Event>, r: Ccbid) returns (ghost events: seq<P.Event>)
    requires server.Valid() && r in server.requests
    requires InStep(run, server.targets, server.requests, server.nextRequestId)
    modifies server
    ensures server.Valid() && events == [P.ServerForgets(r)] && server.sent == old(server.sent)
    ensures InStep(run + events, server.targets, server.requests, server.nextRequestId)
  {
    ghost var targets, requests := server.targets, server.requests;
    server.HandleRequestDisconnect(r);
    events := [P.ServerForgets(r)];
    ForgetKeeps(run, targets, requests, server.nextRequestId, r);
  }

  lemma ForgetKeeps(run: seq<P.Event>, targets: Targets, requests: Requests, next: Ccbid, r: Ccbid)
    requires InStep(run, targets, requests, next) && r in requests
    ensures InStep(run + [P.ServerForgets(r)], TargetsWithout(targets, requests[r]), requests - {r}, next)
  {
    var targets', requests' := TargetsWithout(targets, requests[r]), requests - {r};
    ForgetStep(P.After(run), targets, requests, r);
    OneStep(P.After(run), P.ServerForgets(r), targets', requests');
    StepsKeep(run, [P.ServerForgets(r)], targets, requests, next, targets', requests');
  }

  // ---------- polling ----------

  /** Polling is a run of such steps, whatever order the targets are read in. */
  method Poll(server: S.CCBServer, ghost run: seq<P.Event>, ready: map<Ccbid, S.TargetMessage>, clientGone: set<Ccbid>,
              now: int, clock: int, writes: nat) returns (ghost events: seq<P.Event>)
    requires server.Valid() && now <= clock
    requires InStep(run, server.targets, server.requests, server.nextRequestId)
    requires AllSent(P.After(run), server.targets, ready)
    modifies server
    ensures server.sent == old(server.sent) + Sent(events, "")
    ensures forall e :: e in events ==> e.Unregisters? || e.ServerForgets? || e.ServerReplies?
    ensures InStep(run + events, server.targets, server.requests, server.nextRequestId)
  {
    ghost var t := server.AsTables();
    ghost var order := server.PollSockets(ready, clientGone, now, clock, writes);
    events := PollKeeps(run, t, server.nextRequestId, order, ready, clientGone);
  }

  lemma PollKeeps(run: seq<P.Event>, t: S.Tables, next: Ccbid, order: seq<Ccbid>, ready: map<Ccbid, S.TargetMessage>,
                  clientGone: set<Ccbid>) returns (events: seq<P.Event>)
    requires Linked(t.targets, t.requests) && InStep(run, t.targets, t.requests, next)
    requires AllSent(P.After(run), t.targets, ready)
    ensures forall e :: e in events ==> e.Unregisters? || e.ServerForgets? || e.ServerReplies?
    ensures
      var u := S.ReadAll(t, order, ready, clientGone);
      u.sent == t.sent + Sent(events, "") && InStep(run + events, u.targets, u.requests, next)
  {
    var u := S.ReadAll(t, order, ready, clientGone);
    events := PollSimulates(P.After(run), t, order, ready, clientGone);
    assert PolledTo(P.After(run), t, u, events);
    StepsKeep(run, events, t.targets, t.requests, next, u.targets, u.requests);
  }

  /** Whatever the targets have to say, they have written. */
  ghost predicate AllSent(s: P.State, targets: Targets, ready: map<Ccbid, S.TargetMessage>)
  {
    forall k :: k in ready && k in targets ==> WasSent(s, targets[k].sock, ready[k])
  }

  lemma AllSentOn(s: P.State, events: seq<P.Event>, targets: Targets, targets': Targets, ready: map<Ccbid, S.TargetMessage>)
    requires AllSent(s, targets, ready) && targets'.Keys <= targets.Keys
    requires forall k :: k in targets' ==> targets'[k].sock == targets[k].sock
    ensures AllSent(AfterFrom(s, events), targets', ready)
  {
    NetStays(s, events);
  }

  /** Messages stay in the network. */
  lemma {:induction false} NetStays(s: P.State, events: seq<P.Event>)
    ensures s.net <= AfterFrom(s, events).net
    decreases |events|
  {
    if events != [] {
      P.NetAfter(s, events[0]);
      NetStays(P.Step(s, events[0]), events[1..]);
    }
  }

  lemma {:induction false} SimulatesOn(s: P.State, a: seq<P.Event>, b: seq<P.Event>, targets: Targets, requests: Requests)
    requires Possible(s, a) && Simulates(AfterFrom(s, a), b, targets, requests)
    ensures Simulates(s, a + b, targets, requests)
    decreases |a|
  {
    if a == [] {
      assert a + b == b;
    } else {
      SimulatesOn(P.Step(s, a[0]), a[1..], b, targets, requests);
      assert (a + b)[1..] == a[1..] + b;
    }
  }

  /** The events lead from `s` to a state of the tables `u`, and write what has been sent since `t`. */
  ghost predicate PolledTo(s: P.State, t: S.Tables, u: S.Tables, events: seq<P.Event>)
  {
    && (forall e :: e in events ==> e.Unregisters? || e.ServerForgets? || e.ServerReplies?)
    && u.sent == t.sent + Sent(events, "") && u.requests.Keys <= t.requests.Keys
    && Simulates(s, events, u.targets, u.requests)
  }

  lemma {:induction false} PollSimulates(s: P.State, t: S.Tables, order: seq<Ccbid>, ready: map<Ccbid, S.TargetMessage>,
                                         clientGone: set<Ccbid>) returns (events: seq<P.Event>)
    requires Linked(t.targets, t.requests) && Abstracts(s, t.targets, t.requests)
    requires AllSent(s, t.targets, ready)
    ensures PolledTo(s, t, S.ReadAll(t, order, ready, clientGone), events)
  {
    events := [];
    if order != [] {
      var n := |order| - 1;
      var before, k := S.ReadAll(t, order[..n], ready, clientGone), order[n];
      events := PollSimulates(s, t, order[..n], ready, clientGone);
      S.ReadAllKeeps(t, order[..n], ready, clientGone);
      if k in before.targets && k in ready {
        AllSentOn(s, events, t.targets, before.targets, ready);
        events := PolledOn(s, t, before, events, k, ready, clientGone);
      }
    }
  }

  lemma PolledOn(s: P.State, t: S.Tables, before: S.Tables, events: seq<P.Event>, k: Ccbid,
                 ready: map<Ccbid, S.TargetMessage>, clientGone: set<Ccbid>) returns (more: seq<P.Event>)
    requires PolledTo(s, t, before, events) && AllSent(AfterFrom(s, events), before.targets, ready)
    requires k in before.targets && k in ready
    ensures PolledTo(s, t, S.HandledBy(before, k, ready[k], k in clientGone), more)
  {
    var last := OneMoreRead(s, events, before, k, ready, clientGone);
    more := events + last;
  }

  lemma OneMoreRead(s: P.State, events: seq<P.Event>, t: S.Tables, k: Ccbid, ready: map<Ccbid, S.TargetMessage>,
                    clientGone: set<Ccbid>) returns (last: seq<P.Event>)
    requires Simulates(s, events, t.targets, t.requests) && AllSent(AfterFrom(s, events), t.targets, ready)
    requires k in t.targets && k in ready
    ensures forall e :: e in last ==> e.Unregisters? || e.ServerForgets? || e.ServerReplies?
    ensures Sent(events + last, "") == Sent(events, "") + Sent(last, "")
    ensures
      var u := S.HandledBy(t, k, ready[k], k in clientGone);
      && u.sent == t.sent + Sent(last, "") && u.requests.Keys <= t.requests.Keys
      && Simulates(s, events + last, u.targets, u.requests)
  {
    var u := S.HandledBy(t, k, ready[k], k in clientGone);
    last := MessageSimulates(AfterFrom(s, events), t, k, ready[k], k in clientGone);
    SentConcat(events, last, "");
    SimulatesOn(s, events, last, u.targets, u.requests);
  }

  lemma DroppedSimulates(s: P.State, targets: Targets, requests: Requests, k: Ccbid) returns (events: seq<P.Event>)
    requires Abstracts(s, targets, requests) && k in targets
    ensures events == [P.Unregisters(k)] && Sent(events, "") == []
    ensures Simulates(s, events, targets - {k}, RequestsNotFor(requests, k))
  {
    events := [P.Unregisters(k)];
    RemovalStep(s, targets, requests, k);
    OneStep(s, P.Unregisters(k), targets - {k}, RequestsNotFor(requests, k));
    SentOne(P.Unregisters(k), "");
  }

  lemma ResultSimulates(s: P.State, targets: Targets, requests: Requests, k: Ccbid, r: Ccbid, success: bool,
                        clientGone: bool) returns (events: seq<P.Event>)
    requires Abstracts(s, targets, requests) && k in targets && r in requests
    requires !clientGone ==> P.ResultMessage(targets[k].sock, r, requests[r].connectId, success) in s.net
    ensures events ==
      if clientGone then [P.ServerForgets(r)]
      else [P.ServerReplies(requests[r].sock, targets[k].sock, r, requests[r].connectId, success)]
    ensures Sent(events, "") == if clientGone then [] else [S.Replied(requests[r].sock, success)]
    ensures Simulates(s, events, TargetsWithout(targets, requests[r]), requests - {r})
  {
    var e := if clientGone then P.ServerForgets(r)
             else P.ServerReplies(requests[r].sock, targets[k].sock, r, requests[r].connectId, success);
    events := [e];
    if clientGone {
      ForgetStep(s, targets, requests, r);
    } else {
      ReplyStep(s, targets, requests, r, targets[k].sock, success);
    }
    OneStep(s, e, TargetsWithout(targets, requests[r]), requests - {r});
    SentOne(e, "");
  }

  lemma SentOne(e: P.Event, returnAddr: string)
    ensures Sent([e], returnAddr) == SentFor(e, returnAddr)
  {
    assert [e][1..] == [];
  }
}
