/**
 The three-party reverse-connect protocol: clients (src/ccb/ccb_client.cpp), the broker server
 (src/ccb/ccb_server.cpp) and the daemons' listeners (src/ccb/ccb_listener.cpp), as runs of
 atomic steps. The network may delay, drop, repeat and misdirect messages: a message once
 written can be received any number of times, by any step that accepts it.
 */
module CcbProtocol {

  type Client = nat
  type Daemon = nat
  type Id = nat

  datatype Message =
    | RequestMessage(client: Client, ccbid: Id, connectId: string)
    | ForwardMessage(daemon: Daemon, reqid: Id, connectId: string)
    | HelloMessage(daemon: Daemon, connectId: string)
    | ResultMessage(daemon: Daemon, reqid: Id, connectId: string, success: bool)

  datatype Event =
    // a client draws its random connect id
    | NewClient(client: Client, connectId: string)
    // a client asks for a daemon, under each of its contacts in turn
    | ClientRequests(client: Client, ccbid: Id)
    // a daemon registers or reconnects under an id; it may displace an older connection
    | Registers(daemon: Daemon, ccbid: Id)
    | Unregisters(ccbid: Id)
    // the server passes a request on to the daemon registered under the requested id
    | ServerForwards(client: Client, ccbid: Id, connectId: string, reqid: Id, daemon: Daemon)
    // the server gives a request an id and then cannot write it to the daemon
    | ServerTurnsAway(client: Client, ccbid: Id, connectId: string, reqid: Id)
    // the server forgets a request whose client went away
    | ServerForgets(reqid: Id)
    // the server is started anew: its tables are empty and its counters begin again
    | ServerRestarts
    // the daemon is connected to the return address and writes the hello
    | DaemonWritesHello(daemon: Daemon, reqid: Id, connectId: string)
    // the daemon reports success for a hello that it has written
    | DaemonReports(daemon: Daemon, reqid: Id, connectId: string)
    // the daemon could not connect or not write the hello, and reports failure
    | DaemonFails(daemon: Daemon, reqid: Id, connectId: string)
    // the server relays a result to the client of the request
    | ServerReplies(client: Client, daemon: Daemon, reqid: Id, connectId: string, success: bool)
    // a client takes a connection as the one it asked for
    | ClientAccepts(client: Client, daemon: Daemon, connectId: string)
    // somebody else connects with a connect id that is no client's
    | StrangerConnects(stranger: Daemon, connectId: string)

  datatype Pending = Pending(client: Client, ccbid: Id, connectId: string)

  /** A hello that a listener has written and whose success it has still to report. */
  datatype Greeting = Greeting(daemon: Daemon, reqid: Id, connectId: string)

  datatype State = State(
    clients: map<Client, string>,
    registered: map<Id, Daemon>,
    requests: map<Id, Pending>,
    greeted: set<Greeting>,
    net: set<Message>)

  const INIT := State(map[], map[], map[], {}, {})

  /** What each step requires of the state it happens in. */
  ghost predicate Enabled(s: State, e: Event)
  {
    match e
    case NewClient(c, cid) =>
      && c !in s.clients
      && (forall c' :: c' in s.clients ==> s.clients[c'] != cid)
      && (forall d :: HelloMessage(d, cid) !in s.net)
    case ClientRequests(c, _) => c in s.clients
    case Registers(_, _) => true
    case Unregisters(k) => k in s.registered
    case ServerForwards(c, k, cid, reqid, d) =>
      && RequestMessage(c, k, cid) in s.net
      && k in s.registered && s.registered[k] == d
      && reqid !in s.requests
    case ServerTurnsAway(c, k, cid, reqid) =>
      RequestMessage(c, k, cid) in s.net && k in s.registered && reqid !in s.requests
    case ServerForgets(reqid) => reqid in s.requests
    case ServerRestarts => true
    case DaemonWritesHello(d, reqid, cid) => ForwardMessage(d, reqid, cid) in s.net
    case DaemonReports(d, reqid, cid) => Greeting(d, reqid, cid) in s.greeted
    case DaemonFails(d, reqid, cid) => ForwardMessage(d, reqid, cid) in s.net
    case ServerReplies(c, d, reqid, cid, success) =>
      && ResultMessage(d, reqid, cid, success) in s.net
      && reqid in s.requests && s.requests[reqid].connectId == cid && s.requests[reqid].client == c
    case ClientAccepts(c, d, cid) => HelloMessage(d, cid) in s.net && c in s.clients && s.clients[c] == cid
    case StrangerConnects(_, cid) => forall c :: c in s.clients ==> s.clients[c] != cid
  }

  /** The messages that a step writes. */
  function Written(s: State, e: Event): set<Message>
  {
    match e
    case ClientRequests(c, k) => if c in s.clients then {RequestMessage(c, k, s.clients[c])} else {}
    case ServerForwards(_, _, cid, reqid, d) => {ForwardMessage(d, reqid, cid)}
    case DaemonWritesHello(d, _, cid) => {HelloMessage(d, cid)}
    case DaemonReports(d, reqid, cid) => {ResultMessage(d, reqid, cid, true)}
    case DaemonFails(d, reqid, cid) => {ResultMessage(d, reqid, cid, false)}
    case StrangerConnects(d, cid) => {HelloMessage(d, cid)}
    case _ => {}
  }

  function WithoutTarget(requests: map<Id, Pending>, k: Id): map<Id, Pending>
  {
    map r | r in requests && requests[r].ccbid != k :: requests[r]
  }

  function Step(s: State, e: Event): State
  {
    var net := s.net + Written(s, e);
    match e
    case NewClient(c, cid) => s.(clients := s.clients[c := cid], net := net)
    case Registers(d, k) => s.(registered := s.registered[k := d], requests := WithoutTarget(s.requests, k), net := net)
    case Unregisters(k) => s.(registered := s.registered - {k}, requests := WithoutTarget(s.requests, k), net := net)
    case ServerForwards(c, k, cid, reqid, _) => s.(requests := s.requests[reqid := Pending(c, k, cid)], net := net)
    case ServerForgets(reqid) => s.(requests := s.requests - {reqid}, net := net)
    case ServerRestarts => s.(registered := map[], requests := map[], net := net)
    case ServerReplies(_, _, reqid, _, _) => s.(requests := s.requests - {reqid}, net := net)
    case DaemonWritesHello(d, reqid, cid) => s.(greeted := s.greeted + {Greeting(d, reqid, cid)}, net := net)
    case DaemonReports(d, reqid, cid) => s.(greeted := s.greeted - {Greeting(d, reqid, cid)}, net := net)
    case _ => s.(net := net)
  }

  /** The state after a run from the initial state. */
  function After(run: seq<Event>): State
  {
    if run == [] then INIT else Step(After(run[..|run| - 1]), run[|run| - 1])
  }

  /** Every step was possible when it happened. */
  ghost predicate IsRun(run: seq<Event>)
  {
    forall i: nat :: i < |run| ==> StepEnabled(run, i)
  }

  ghost predicate StepEnabled(run: seq<Event>, i: nat)
    requires i < |run|
  {
    Enabled(After(run[..i]), run[i])
  }

  // ---------- where things come from ----------

  lemma AfterPrefix(run: seq<Event>, n: nat)
    requires n < |run|
    ensures After(run[..n + 1]) == Step(After(run[..n]), run[n])
  {
    assert run[..n + 1][..n] == run[..n];
  }

  lemma NetAfter(s: State, e: Event)
    ensures Step(s, e).net == s.net + Written(s, e)
  {
  }

  /** Every message was written by an earlier step. */
  lemma {:induction false} Writer(run: seq<Event>, n: nat, m: Message) returns (i: nat)
    requires n <= |run| && m in After(run[..n]).net
    ensures i < n && m in Written(After(run[..i]), run[i])
  {
    AfterPrefix(run, n - 1);
    NetAfter(After(run[..n - 1]), run[n - 1]);
    if m in After(run[..n - 1]).net {
      i := Writer(run, n - 1, m);
    } else {
      i := n - 1;
    }
  }

  /** A noted hello was written by an earlier step. */
  lemma {:induction false} Greeter(run: seq<Event>, n: nat, g: Greeting) returns (i: nat)
    requires n <= |run| && g in After(run[..n]).greeted
    ensures i < n && run[i] == DaemonWritesHello(g.daemon, g.reqid, g.connectId)
  {
    AfterPrefix(run, n - 1);
    if run[n - 1] == DaemonWritesHello(g.daemon, g.reqid, g.connectId) {
      i := n - 1;
    } else {
      GreetedAfter(After(run[..n - 1]), run[n - 1], g);
      i := Greeter(run, n - 1, g);
    }
  }

  lemma GreetedAfter(s: State, e: Event, g: Greeting)
    requires g in Step(s, e).greeted
    ensures g in s.greeted || e == DaemonWritesHello(g.daemon, g.reqid, g.connectId)
  {
  }

  lemma {:induction false} NetGrows(run: seq<Event>, i: nat, j: nat)
    requires i <= j <= |run|
    ensures After(run[..i]).net <= After(run[..j]).net
    decreases j - i
  {
    if i < j {
      NetGrows(run, i, j - 1);
      AfterPrefix(run, j - 1);
      NetAfter(After(run[..j - 1]), run[j - 1]);
    }
  }

  lemma RequestsAfter(s: State, e: Event, reqid: Id)
    requires reqid in Step(s, e).requests
    ensures
      if e.ServerForwards? && e.reqid == reqid then Step(s, e).requests[reqid] == Pending(e.client, e.ccbid, e.connectId)
      else reqid in s.requests && s.requests[reqid] == Step(s, e).requests[reqid]
  {
  }

  predicate ForwardsAs(e: Event, reqid: Id)
  {
    e.ServerForwards? && e.reqid == reqid
  }

  /** A pending request was forwarded by an earlier step, the last one with its id; the id that
      it asks for has been registered to the daemon that was sent the request ever since. */
  lemma {:induction false} Forwarder(run: seq<Event>, n: nat, reqid: Id) returns (i: nat)
    requires IsRun(run) && n <= |run| && reqid in After(run[..n]).requests
    ensures i < n && ForwardsAs(run[i], reqid) && forall j :: i < j < n ==> !ForwardsAs(run[j], reqid)
    ensures Pending(run[i].client, run[i].ccbid, run[i].connectId) == After(run[..n]).requests[reqid]
    ensures run[i].ccbid in After(run[..n]).registered && After(run[..n]).registered[run[i].ccbid] == run[i].daemon
  {
    AfterPrefix(run, n - 1);
    RequestsAfter(After(run[..n - 1]), run[n - 1], reqid);
    if ForwardsAs(run[n - 1], reqid) {
      ForwardedToRegistered(run, n - 1);
      i := n - 1;
    } else {
      i := Forwarder(run, n - 1, reqid);
      StillRegistered(After(run[..n - 1]), run[n - 1], reqid);
    }
  }

  lemma ForwardedToRegistered(run: seq<Event>, i: nat)
    requires IsRun(run) && i < |run| && run[i].ServerForwards?
    ensures
      var s := After(run[..i + 1]);
      run[i].ccbid in s.registered && s.registered[run[i].ccbid] == run[i].daemon
  {
    assert StepEnabled(run, i);
    AfterPrefix(run, i);
  }

  /** A request does not outlive the registration under the id that it asks for. */
  lemma StillRegistered(s: State, e: Event, reqid: Id)
    requires reqid in s.requests && reqid in Step(s, e).requests && !ForwardsAs(e, reqid)
    ensures
      var k := s.requests[reqid].ccbid;
      (k in s.registered <==> k in Step(s, e).registered) &&
      (k in s.registered ==> Step(s, e).registered[k] == s.registered[k])
  {
  }

  lemma ClientKept(s: State, e: Event, c: Client)
    requires Enabled(s, e) && c in s.clients
    ensures c in Step(s, e).clients && Step(s, e).clients[c] == s.clients[c]
  {
  }

  /** A client keeps its connect id. */
  lemma {:induction false} SameConnectId(run: seq<Event>, i: nat, j: nat, c: Client)
    requires IsRun(run) && i <= j <= |run| && c in After(run[..i]).clients
    ensures c in After(run[..j]).clients && After(run[..j]).clients[c] == After(run[..i]).clients[c]
    decreases j - i
  {
    if i < j {
      SameConnectId(run, i, j - 1, c);
      AfterPrefix(run, j - 1);
      assert StepEnabled(run, j - 1);
      ClientKept(After(run[..j - 1]), run[j - 1], c);
    }
  }

  lemma ClientsAfter(s: State, e: Event)
    ensures Step(s, e).clients == if e.NewClient? then s.clients[e.client := e.connectId] else s.clients
  {
  }

  /** A client's connect id was drawn by the client. */
  lemma {:induction false} Creator(run: seq<Event>, n: nat, c: Client) returns (i: nat)
    requires n <= |run| && c in After(run[..n]).clients
    ensures i < n && run[i] == NewClient(c, After(run[..n]).clients[c])
  {
    AfterPrefix(run, n - 1);
    ClientsAfter(After(run[..n - 1]), run[n - 1]);
    if run[n - 1].NewClient? && run[n - 1].client == c {
      i := n - 1;
    } else {
      i := Creator(run, n - 1, c);
    }
  }

  ghost predicate Distinct(clients: map<Client, string>)
  {
    forall c, c' :: c in clients && c' in clients && clients[c] == clients[c'] ==> c == c'
  }

  /** Distinct clients keep distinct connect ids. */
  lemma {:induction false} DistinctConnectIds(run: seq<Event>, n: nat)
    requires IsRun(run) && n <= |run|
    ensures Distinct(After(run[..n]).clients)
  {
    if n > 0 {
      DistinctConnectIds(run, n - 1);
      AfterPrefix(run, n - 1);
      assert StepEnabled(run, n - 1);
      ClientsAfter(After(run[..n - 1]), run[n - 1]);
    }
  }

  // ---------- safety ----------

  /** At step `i` of the run the server forwarded a request of client `c` with connect id `cid`
      to daemon `d`, while `d` was registered under an id that `c` had asked for. */
  ghost predicate ForwardedTo(run: seq<Event>, i: nat, c: Client, cid: string, d: Daemon)
  {
    && i < |run|
    && run[i].ServerForwards? && run[i].client == c && run[i].connectId == cid && run[i].daemon == d
    && run[i].ccbid in After(run[..i]).registered && After(run[..i]).registered[run[i].ccbid] == d
    && AskedFor(run, i, c, run[i].ccbid)
  }

  ghost predicate AskedFor(run: seq<Event>, n: nat, c: Client, ccbid: Id)
    requires n <= |run|
  {
    ClientRequests(c, ccbid) in run[..n]
  }

  /** A forwarded request stems from the client whose connect id it carries. */
  lemma ForwardIsGenuine(run: seq<Event>, i: nat)
    requires IsRun(run) && i < |run| && run[i].ServerForwards?
    ensures ForwardedTo(run, i, run[i].client, run[i].connectId, run[i].daemon)
    ensures run[i].client in After(run[..i]).clients && After(run[..i]).clients[run[i].client] == run[i].connectId
  {
    var ServerForwards(c, k, cid, _, d) := run[i];
    assert StepEnabled(run, i);
    var h := Writer(run, i, RequestMessage(c, k, cid));
    assert run[..i][h] == ClientRequests(c, k);
    SameConnectId(run, h, i, c);
  }

  /** A daemon that writes a hello was sent the request by the server before. */
  lemma ConnectIsRequested(run: seq<Event>, j: nat, n: nat, c: Client) returns (i: nat)
    requires IsRun(run) && j < n <= |run| && run[j].DaemonWritesHello?
    requires c in After(run[..n]).clients && After(run[..n]).clients[c] == run[j].connectId
    ensures i < j && ForwardedTo(run, i, c, run[j].connectId, run[j].daemon) && run[i].reqid == run[j].reqid
  {
    assert StepEnabled(run, j);
    i := Writer(run, j, ForwardMessage(run[j].daemon, run[j].reqid, run[j].connectId));
    ForwardIsGenuine(run, i);
    SameConnectId(run, i, n, run[i].client);
    DistinctConnectIds(run, n);
  }

  /** Safety of the protocol: a client accepts a connection only from a daemon that wrote the
      hello (step `j`) after the server had forwarded that client's own request to it (step `i`),
      while the daemon was registered under an id the client had asked for. */
  lemma AcceptedConnectionWasRequested(run: seq<Event>, n: nat) returns (i: nat, j: nat)
    requires IsRun(run) && n < |run| && run[n].ClientAccepts?
    ensures i < j < n
    ensures ForwardedTo(run, i, run[n].client, run[n].connectId, run[n].daemon)
    ensures run[j] == DaemonWritesHello(run[n].daemon, run[i].reqid, run[n].connectId)
  {
    var ClientAccepts(c, d, cid) := run[n];
    assert StepEnabled(run, n);
    j := Writer(run, n, HelloMessage(d, cid));
    if run[j].StrangerConnects? {
      StrangerIsNotAccepted(run, j, n, c);
      assert false;
    }
    i := ConnectIsRequested(run, j, n, c);
  }

  /** The connect id that a stranger used is never drawn by a later client. */
  lemma StrangerIsNotAccepted(run: seq<Event>, j: nat, n: nat, c: Client)
    requires IsRun(run) && j < n <= |run| && run[j].StrangerConnects?
    requires c in After(run[..n]).clients
    ensures After(run[..n]).clients[c] != run[j].connectId
  {
    var StrangerConnects(d, cid) := run[j];
    if After(run[..n]).clients[c] == cid {
      var i := Creator(run, n, c);
      AfterPrefix(run, i);
      AfterPrefix(run, j);
      assert StepEnabled(run, i) && StepEnabled(run, j);
      if i < j {
        SameConnectId(run, i + 1, j, c);
      } else {
        NetGrows(run, j + 1, i);
      }
      assert false;
    }
  }

  /** A success reply is sent to a client only after the daemon it is about wrote the hello (step
      `j`) and then reported success (step `k`), and had before been sent a request of that
      client with the same request id (step `i`). */
  lemma SuccessReplyAfterHello(run: seq<Event>, n: nat) returns (i: nat, j: nat, k: nat)
    requires IsRun(run) && n < |run| && run[n].ServerReplies? && run[n].success
    ensures i < j < k < n
    ensures ForwardedTo(run, i, run[n].client, run[n].connectId, run[n].daemon) && run[i].reqid == run[n].reqid
    ensures run[j] == DaemonWritesHello(run[n].daemon, run[n].reqid, run[n].connectId)
    ensures run[k] == DaemonReports(run[n].daemon, run[n].reqid, run[n].connectId)
  {
    var ServerReplies(c, d, reqid, cid, _) := run[n];
    assert StepEnabled(run, n);
    k := Writer(run, n, ResultMessage(d, reqid, cid, true));
    assert StepEnabled(run, k);
    j := Greeter(run, k, Greeting(d, reqid, cid));
    var f := Forwarder(run, n, reqid);
    ForwardIsGenuine(run, f);
    SameConnectId(run, f, n, c);
    i := ConnectIsRequested(run, j, n, c);
  }

  /** The guard that the server does not have: a result counts only if it comes from the daemon
      that is registered under the id that the pending request asks for. */
  ghost predicate SenderIsTarget(s: State, reqid: Id, d: Daemon)
  {
    && reqid in s.requests
    && s.requests[reqid].ccbid in s.registered && s.registered[s.requests[reqid].ccbid] == d
  }

  /** The request that a reply answers was last forwarded at step `i`. It went to the daemon
      whose result is relayed if and only if that daemon is, at the time of the reply, the one
      registered under the id that the request asks for. */
  lemma ReplyIsFromItsTargetIff(run: seq<Event>, n: nat) returns (i: nat)
    requires IsRun(run) && n < |run| && run[n].ServerReplies?
    ensures i < n && ForwardsAs(run[i], run[n].reqid) && forall j :: i < j < n ==> !ForwardsAs(run[j], run[n].reqid)
    ensures ForwardedTo(run, i, run[n].client, run[n].connectId, run[i].daemon)
    ensures run[n].reqid in After(run[..n]).requests
    ensures After(run[..n]).requests[run[n].reqid] == Pending(run[i].client, run[i].ccbid, run[i].connectId)
    ensures run[i].daemon == run[n].daemon <==> SenderIsTarget(After(run[..n]), run[n].reqid, run[n].daemon)
  {
    assert StepEnabled(run, n);
    i := Forwarder(run, n, run[n].reqid);
    ForwardIsGenuine(run, i);
  }

  /** Request ids are not reused within the run. */
  ghost predicate FreshRequestIds(run: seq<Event>)
  {
    forall i, j :: 0 <= i < j < |run| && run[i].ServerForwards? && run[j].ServerForwards? ==> run[i].reqid != run[j].reqid
  }

  /** The request that step `n` answers was forwarded to the daemon whose result is relayed. */
  ghost predicate AnswersTheForwarded(run: seq<Event>, n: nat)
    requires n < |run| && run[n].ServerReplies?
  {
    exists i: nat ::
      && i < n && ForwardedTo(run, i, run[n].client, run[n].connectId, run[n].daemon)
      && run[n].reqid in After(run[..n]).requests
      && After(run[..n]).requests[run[n].reqid] == Pending(run[i].client, run[i].ccbid, run[i].connectId)
  }

  /** Without reuse of request ids, the request that a success reply answers is the very one
      that the connecting daemon was sent. */
  lemma SuccessReplyIsForThatRequest(run: seq<Event>, n: nat) returns (i: nat)
    requires IsRun(run) && FreshRequestIds(run) && n < |run| && run[n].ServerReplies? && run[n].success
    ensures i < n && ForwardedTo(run, i, run[n].client, run[n].connectId, run[n].daemon)
    ensures run[n].reqid in After(run[..n]).requests
    ensures After(run[..n]).requests[run[n].reqid] == Pending(run[i].client, run[i].ccbid, run[i].connectId)
    ensures SenderIsTarget(After(run[..n]), run[n].reqid, run[n].daemon) && AnswersTheForwarded(run, n)
  {
    i := ReplyIsFromItsTargetIff(run, n);
    var sent, j, k := SuccessReplyAfterHello(run, n);
    assert sent == i;
  }

  /** The step draws a request id from the server's counter. */
  predicate DrawsId(e: Event)
  {
    e.ServerForwards? || e.ServerTurnsAway?
  }

  /** The id that the server's counter gives to the next request, while it has not wrapped around
      and no id is held. */
  function Counter(run: seq<Event>): Id
  {
    if run == [] then 1
    else if run[|run| - 1].ServerRestarts? then 1
    else Counter(run[..|run| - 1]) + if DrawsId(run[|run| - 1]) then 1 else 0
  }

  ghost predicate CountedIds(run: seq<Event>)
  {
    forall i: nat :: i < |run| ==> CountedId(run, i)
  }

  ghost predicate CountedId(run: seq<Event>, i: nat)
    requires i < |run|
  {
    DrawsId(run[i]) ==> run[i].reqid == Counter(run[..i])
  }

  lemma {:induction false} CounterGrows(run: seq<Event>, i: nat, j: nat)
    requires i <= j <= |run| && ServerRestarts !in run
    ensures Counter(run[..i]) <= Counter(run[..j])
    ensures i < j && run[i].ServerForwards? ==> Counter(run[..i]) < Counter(run[..j])
    decreases j - i
  {
    if i < j {
      CounterGrows(run, i, j - 1);
      assert run[..j][..j - 1] == run[..j - 1] && run[..j][j - 1] == run[j - 1];
    }
  }

  /** Ids from the counter are fresh unless the server restarts. */
  lemma CountedIdsAreFresh(run: seq<Event>)
    requires CountedIds(run) && ServerRestarts !in run
    ensures FreshRequestIds(run)
  {
    forall i, j | 0 <= i < j < |run| && run[i].ServerForwards? && run[j].ServerForwards?
      ensures run[i].reqid != run[j].reqid
    {
      assert CountedId(run, i) && CountedId(run, j);
      CounterGrows(run, i, j);
    }
  }

  /** A client's request goes to the first daemon, which writes the hello. Then the server
      restarts and the daemons take their ids back. The client asks for the second daemon and its
      request gets the id that the first one had; the first daemon's success answers it. */
  const ReusedIdRun: seq<Event> := [
    NewClient(0, "c"), ClientRequests(0, 1), Registers(10, 1), Registers(20, 2),
    ServerForwards(0, 1, "c", 1, 10), DaemonWritesHello(10, 1, "c"),
    ServerRestarts, Registers(10, 1), Registers(20, 2), ClientRequests(0, 2),
    ServerForwards(0, 2, "c", 1, 20), DaemonReports(10, 1, "c"), ServerReplies(0, 10, 1, "c", true)]

  const LAST: nat := 12

  /** The states of that run. */
  ghost function ReusedIdStates(): (states: seq<State>)
    ensures |states| == |ReusedIdRun| && states[0] == INIT
  {
    var c, r1, r2 := map[0 := "c"], RequestMessage(0, 1, "c"), RequestMessage(0, 2, "c");
    var f1, f2, hello := ForwardMessage(10, 1, "c"), ForwardMessage(20, 1, "c"), HelloMessage(10, "c");
    var one, two := map[1 := 10], map[1 := 10, 2 := 20];
    var first, second, greeted := map[1 := Pending(0, 1, "c")], map[1 := Pending(0, 2, "c")], {Greeting(10, 1, "c")};
    [ INIT,
      State(c, map[], map[], {}, {}),
      State(c, map[], map[], {}, {r1}),
      State(c, one, map[], {}, {r1}),
      State(c, two, map[], {}, {r1}),
      State(c, two, first, {}, {r1, f1}),
      State(c, two, first, greeted, {r1, f1, hello}),
      State(c, map[], map[], greeted, {r1, f1, hello}),
      State(c, one, map[], greeted, {r1, f1, hello}),
      State(c, two, map[], greeted, {r1, f1, hello}),
      State(c, two, map[], greeted, {r1, f1, hello, r2}),
      State(c, two, second, greeted, {r1, f1, hello, r2, f2}),
      State(c, two, second, {}, {r1, f1, hello, r2, f2, ResultMessage(10, 1, "c", true)})]
  }

  ghost predicate LeadsOn(i: nat)
    requires i < LAST
  {
    && Enabled(ReusedIdStates()[i], ReusedIdRun[i])
    && Step(ReusedIdStates()[i], ReusedIdRun[i]) == ReusedIdStates()[i + 1]
  }

  lemma ReusedIdFirstSteps(i: nat)
    requires i < 6
    ensures LeadsOn(i)
  {
  }

  lemma ReusedIdLastSteps(i: nat)
    requires 6 <= i < LAST
    ensures LeadsOn(i)
  {
  }

  lemma ReusedIdStep(i: nat)
    requires i < LAST
    ensures LeadsOn(i)
  {
    if i < 6 {
      ReusedIdFirstSteps(i);
    } else {
      ReusedIdLastSteps(i);
    }
  }

  lemma {:induction false} ReusedIdAfter(n: nat)
    requires n <= LAST
    ensures After(ReusedIdRun[..n]) == ReusedIdStates()[n]
  {
    if n > 0 {
      ReusedIdAfter(n - 1);
      ReusedIdStep(n - 1);
      AfterPrefix(ReusedIdRun, n - 1);
    }
  }

  lemma {:induction false} ReusedIdCounter(n: nat)
    requires n <= 10
    ensures Counter(ReusedIdRun[..n]) == if 5 <= n <= 6 then 2 else 1
  {
    if n > 0 {
      ReusedIdCounter(n - 1);
      assert ReusedIdRun[..n][..n - 1] == ReusedIdRun[..n - 1] && ReusedIdRun[..n][n - 1] == ReusedIdRun[n - 1];
    }
  }

  /** The first daemon was sent the first request alone. */
  lemma ReusedIdForwards(i: nat)
    requires i < |ReusedIdRun|
    ensures ReusedIdRun[i].ServerForwards? <==> i == 4 || i == 10
    ensures ReusedIdRun[4] == ServerForwards(0, 1, "c", 1, 10) && ReusedIdRun[10] == ServerForwards(0, 2, "c", 1, 20)
    ensures ReusedIdRun[LAST] == ServerReplies(0, 10, 1, "c", true)
  {
  }

  lemma ReusedIdIsRun()
    ensures IsRun(ReusedIdRun) && CountedIds(ReusedIdRun)
  {
    forall i: nat | i < |ReusedIdRun| ensures StepEnabled(ReusedIdRun, i) && CountedId(ReusedIdRun, i) {
      ReusedIdAfter(i);
      if i < LAST {
        ReusedIdStep(i);
      }
      ReusedIdForwards(i);
      ReusedIdCounter(if i <= 10 then i else 0);
    }
  }

  /** The counter begins again when the server restarts, and a run in which that happens sends a
      success reply for a request other than the one that the connecting daemon was sent. */
  lemma ReusedIdMisattributes()
    ensures IsRun(ReusedIdRun) && CountedIds(ReusedIdRun) && !FreshRequestIds(ReusedIdRun)
    ensures ReusedIdRun[LAST].ServerReplies? && ReusedIdRun[LAST].success
    ensures !SenderIsTarget(After(ReusedIdRun[..LAST]), 1, 10) && !AnswersTheForwarded(ReusedIdRun, LAST)
  {
    ReusedIdIsRun();
    ReusedIdAfter(LAST);
    ReusedIdForwards(4);
    assert !AnswersTheForwarded(ReusedIdRun, LAST) by {
      if AnswersTheForwarded(ReusedIdRun, LAST) {
        var i: nat :| i < LAST && ForwardedTo(ReusedIdRun, i, 0, "c", 10)
          && After(ReusedIdRun[..LAST]).requests[1] == Pending(0, ReusedIdRun[i].ccbid, "c");
        ReusedIdForwards(i);
        assert false;
      }
    }
  }

  // ---------- what can happen ----------

  lemma Extended(run: seq<Event>, e: Event)
    requires IsRun(run) && Enabled(After(run), e)
    ensures IsRun(run + [e]) && After(run + [e]) == Step(After(run), e)
  {
    var more := run + [e];
    assert more[..|run|] == run;
    forall i: nat | i < |more| ensures StepEnabled(more, i) {
      assert i < |run| ==> more[..i] == run[..i] && StepEnabled(run, i);
    }
  }

  /** Any run can go on with a client's request that is forwarded to the registered daemon, which
      writes the hello; the client accepts the connection, and hears of the success. */
  lemma RequestCanSucceed(run: seq<Event>, c: Client, k: Id, reqid: Id)
    requires IsRun(run) && c in After(run).clients && k in After(run).registered && reqid !in After(run).requests
    ensures
      var d, cid := After(run).registered[k], After(run).clients[c];
      IsRun(run + [ClientRequests(c, k)] + [ServerForwards(c, k, cid, reqid, d)] + [DaemonWritesHello(d, reqid, cid)]
                + [ClientAccepts(c, d, cid)] + [DaemonReports(d, reqid, cid)] + [ServerReplies(c, d, reqid, cid, true)])
  {
    var d, cid := After(run).registered[k], After(run).clients[c];
    var forwarded := RequestForwarded(run, c, k, reqid);
    Extended(forwarded, DaemonWritesHello(d, reqid, cid));
    var greeted := forwarded + [DaemonWritesHello(d, reqid, cid)];
    Extended(greeted, ClientAccepts(c, d, cid));
    var accepted := greeted + [ClientAccepts(c, d, cid)];
    Extended(accepted, DaemonReports(d, reqid, cid));
    Extended(accepted + [DaemonReports(d, reqid, cid)], ServerReplies(c, d, reqid, cid, true));
  }

  /** Or the daemon fails, and the client hears of that. */
  lemma RequestCanFail(run: seq<Event>, c: Client, k: Id, reqid: Id)
    requires IsRun(run) && c in After(run).clients && k in After(run).registered && reqid !in After(run).requests
    ensures
      var d, cid := After(run).registered[k], After(run).clients[c];
      IsRun(run + [ClientRequests(c, k)] + [ServerForwards(c, k, cid, reqid, d)] + [DaemonFails(d, reqid, cid)]
                + [ServerReplies(c, d, reqid, cid, false)])
  {
    var d, cid := After(run).registered[k], After(run).clients[c];
    var forwarded := RequestForwarded(run, c, k, reqid);
    Extended(forwarded, DaemonFails(d, reqid, cid));
    Extended(forwarded + [DaemonFails(d, reqid, cid)], ServerReplies(c, d, reqid, cid, false));
  }

  lemma RequestForwarded(run: seq<Event>, c: Client, k: Id, reqid: Id) returns (more: seq<Event>)
    requires IsRun(run) && c in After(run).clients && k in After(run).registered && reqid !in After(run).requests
    ensures
      var s, d, cid := After(run), After(run).registered[k], After(run).clients[c];
      && more == run + [ClientRequests(c, k)] + [ServerForwards(c, k, cid, reqid, d)] && IsRun(more)
      && After(more).clients == s.clients && After(more).requests == s.requests[reqid := Pending(c, k, cid)]
      && ForwardMessage(d, reqid, cid) in After(more).net
  {
    var d, cid := After(run).registered[k], After(run).clients[c];
    Extended(run, ClientRequests(c, k));
    more := run + [ClientRequests(c, k)];
    Extended(more, ServerForwards(c, k, cid, reqid, d));
    more := more + [ServerForwards(c, k, cid, reqid, d)];
  }
}
