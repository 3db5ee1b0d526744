/**
 The connection broker server (src/ccb/ccb_server.cpp). What the network, the clock, the
 random generator and the file system do is a parameter of the step it affects. The EXCEPT and
 ASSERT statements on the tables are `assert` statements here.
 */
module CcbServer {
  import opened Options
  import opened CcbTables

  /** What a target's socket delivers when it is read. */
  datatype TargetMessage =
    | Disconnected
    | Alive(responseSent: bool)
    | Results(success: bool, reqid: Option<Ccbid>, connectId: string)

  /** What the server writes to its peers. */
  datatype Message =
    | Forwarded(sock: nat, reqid: Ccbid, returnAddr: string, connectId: string)
    | Replied(sock: nat, success: bool)

  lemma KeysAfterRemoval(targets: Targets, request: Request)
    ensures TargetsWithout(targets, request).Keys == targets.Keys
  {
  }

  /** Removing a request does not touch the other targets or their requests. */
  lemma OthersAfterRemoval(targets: Targets, requests: Requests, r: Ccbid)
    requires r in requests
    ensures
      var k := requests[r].target;
      TargetsWithout(targets, requests[r]) - {k} == targets - {k}
      && RequestsNotFor(requests - {r}, k) == RequestsNotFor(requests, k)
  {
  }

  lemma NoRequestsLeft(targets: Targets, requests: Requests, k: Ccbid)
    requires Linked(targets, requests) && k in targets && targets[k].requests == map[]
    ensures requests == RequestsNotFor(requests, k)
    ensures Linked(targets - {k}, requests)
  {
    forall r | r in requests ensures requests[r].target != k {
      assert r in targets[requests[r].target].requests;
    }
  }

  /** The tables after a new request, under an id that was free. */
  ghost predicate Added(targets: Targets, requests: Requests, request: Request, targets': Targets, requests': Requests)
  {
    && request.id !in requests && request.target in targets
    && requests' == requests[request.id := request] && targets' == TargetsWith(targets, request)
  }

  /** There is a record of the id with this ip and this cookie. */
  predicate Entitled(reconnects: Reconnects, ip: string, k: Ccbid, cookie: Ccbid)
  {
    k in reconnects && reconnects[k].ip == ip && reconnects[k].cookie == cookie
  }

  // ---------- what a message from a target does ----------

  /** What handling messages changes: the tables, and what has been sent. */
  datatype Tables = Tables(targets: Targets, requests: Requests, sent: seq<Message>)

  /** Messages upon which the server drops the target. */
  predicate Drops(requests: Requests, msg: TargetMessage, clientGone: bool)
  {
    match msg
    case Disconnected => true
    case Alive(responseSent) => !responseSent
    case Results(_, reqid, connectId) =>
      reqid.None? || (reqid.value in requests && !clientGone && requests[reqid.value].connectId != connectId)
  }

  /** A dropped target takes its requests with it. A result removes its request and goes on to the
      client, if that is still there. */
  function HandledBy(t: Tables, k: Ccbid, msg: TargetMessage, clientGone: bool): Tables
  {
    if Drops(t.requests, msg, clientGone) then Tables(t.targets - {k}, RequestsNotFor(t.requests, k), t.sent)
    else if msg.Results? && msg.reqid.value in t.requests then
      var request := t.requests[msg.reqid.value];
      Tables(TargetsWithout(t.targets, request), t.requests - {msg.reqid.value},
             t.sent + if clientGone then [] else [Replied(request.sock, msg.success)])
    else t
  }

  /** The targets are read in some order: each one that is still registered then, and has
      something to say. */
  function ReadAll(t: Tables, order: seq<Ccbid>, ready: map<Ccbid, TargetMessage>, clientGone: set<Ccbid>): Tables
  {
    if order == [] then t
    else
      var before, k := ReadAll(t, order[..|order| - 1], ready, clientGone), order[|order| - 1];
      if k in before.targets && k in ready then HandledBy(before, k, ready[k], k in clientGone) else before
  }

  /** Every key once. */
  predicate Enumerates(order: seq<Ccbid>, keys: set<Ccbid>)
  {
    && (forall i :: 0 <= i < |order| ==> order[i] in keys) && (forall k :: k in keys ==> k in order)
    && forall i, j :: 0 <= i < j < |order| ==> order[i] != order[j]
  }

  /** The target that a request waits for has a result for it, the client is there, and no other
      ready message names the request. */
  ghost predicate Answerable(t: Tables, ready: map<Ccbid, TargetMessage>, clientGone: set<Ccbid>, r: Ccbid)
  {
    && r in t.requests && t.requests[r].target in ready
    && ready[t.requests[r].target].Results? && ready[t.requests[r].target].reqid == Some(r)
    && ready[t.requests[r].target].connectId == t.requests[r].connectId && t.requests[r].target !in clientGone
    && forall j :: j in ready && j != t.requests[r].target ==> !Names(ready[j], r)
  }

  predicate Names(msg: TargetMessage, r: Ccbid)
  {
    msg.Results? && msg.reqid == Some(r)
  }

  lemma HandledLinked(t: Tables, k: Ccbid, msg: TargetMessage, clientGone: bool)
    requires Linked(t.targets, t.requests)
    ensures var u := HandledBy(t, k, msg, clientGone); Linked(u.targets, u.requests)
  {
    if !Drops(t.requests, msg, clientGone) && msg.Results? && msg.reqid.value in t.requests {
      LinkedAfterRemoval(t.targets, t.requests, msg.reqid.value);
    }
  }

  /** What is still there is the same as before, and nothing is unsaid. */
  ghost predicate Remains(t: Tables, u: Tables)
  {
    && Linked(u.targets, u.requests) && u.targets.Keys <= t.targets.Keys && u.requests.Keys <= t.requests.Keys
    && (forall r :: r in u.requests ==> u.requests[r] == t.requests[r])
    && (forall k :: k in u.targets ==> u.targets[k].sock == t.targets[k].sock)
    && t.sent <= u.sent
  }

  lemma HandledRemains(t: Tables, k: Ccbid, msg: TargetMessage, clientGone: bool)
    requires Linked(t.targets, t.requests)
    ensures Remains(t, HandledBy(t, k, msg, clientGone))
  {
    HandledLinked(t, k, msg, clientGone);
  }

  lemma {:induction false} ReadAllKeeps(t: Tables, order: seq<Ccbid>, ready: map<Ccbid, TargetMessage>, clientGone: set<Ccbid>)
    requires Linked(t.targets, t.requests)
    ensures Remains(t, ReadAll(t, order, ready, clientGone))
  {
    if order != [] {
      var n := |order| - 1;
      ReadAllKeeps(t, order[..n], ready, clientGone);
      var before := ReadAll(t, order[..n], ready, clientGone);
      if order[n] in before.targets && order[n] in ready {
        HandledRemains(before, order[n], ready[order[n]], order[n] in clientGone);
      }
    }
  }

  /** A request stays until it is named or its target is read. */
  lemma {:induction false} RequestStays(t: Tables, order: seq<Ccbid>, ready: map<Ccbid, TargetMessage>,
                                        clientGone: set<Ccbid>, r: Ccbid)
    requires Linked(t.targets, t.requests) && r in t.requests
    requires forall k :: k in order && k in ready ==> k != t.requests[r].target && !Names(ready[k], r)
    ensures r in ReadAll(t, order, ready, clientGone).requests
  {
    if order != [] {
      var n := |order| - 1;
      RequestStays(t, order[..n], ready, clientGone, r);
      ReadAllKeeps(t, order[..n], ready, clientGone);
      assert order[n] in order;
    }
  }

  /** The message is among those sent since. */
  predicate SentSince(before: seq<Message>, after: seq<Message>, m: Message)
  {
    before <= after && m in after[|before|..]
  }

  lemma SentEver(before: seq<Message>, after: seq<Message>, last: seq<Message>, m: Message)
    requires before <= after <= last && (SentSince(before, after, m) || SentSince(after, last, m))
    ensures SentSince(before, last, m)
  {
    if SentSince(before, after, m) {
      var i :| |before| <= i < |after| && after[i] == m;
      assert last[|before|..][i - |before|] == m;
    } else {
      var i :| |after| <= i < |last| && last[i] == m;
      assert last[|before|..][i - |before|] == m;
    }
  }

  /** A result that its own target has for a request is passed on to the client, once, whatever
      order the targets are read in. */
  lemma {:induction false} RequestAnswered(t: Tables, order: seq<Ccbid>, ready: map<Ccbid, TargetMessage>,
                                           clientGone: set<Ccbid>, r: Ccbid)
    requires Linked(t.targets, t.requests) && Answerable(t, ready, clientGone, r) && t.requests[r].target in order
    requires forall i, j :: 0 <= i < j < |order| ==> order[i] != order[j]
    ensures
      var u := ReadAll(t, order, ready, clientGone);
      r !in u.requests && SentSince(t.sent, u.sent, Replied(t.requests[r].sock, ready[t.requests[r].target].success))
  {
    var n, k := |order| - 1, t.requests[r].target;
    var before, u := ReadAll(t, order[..n], ready, clientGone), ReadAll(t, order, ready, clientGone);
    var reply := Replied(t.requests[r].sock, ready[k].success);
    ReadAllKeeps(t, order[..n], ready, clientGone);
    HandledSends(before, order[n], ready, clientGone);
    if order[n] == k {
      StaysUntil(t, order, ready, clientGone, r);
      LastAnswers(before, k, ready, clientGone, r);
    } else {
      assert order == order[..n] + [order[n]];
      RequestAnswered(t, order[..n], ready, clientGone, r);
    }
    SentEver(t.sent, before.sent, u.sent, reply);
  }

  lemma StaysUntil(t: Tables, order: seq<Ccbid>, ready: map<Ccbid, TargetMessage>, clientGone: set<Ccbid>, r: Ccbid)
    requires Linked(t.targets, t.requests) && Answerable(t, ready, clientGone, r)
    requires order != [] && order[|order| - 1] == t.requests[r].target
    requires forall i, j :: 0 <= i < j < |order| ==> order[i] != order[j]
    ensures Answerable(ReadAll(t, order[..|order| - 1], ready, clientGone), ready, clientGone, r)
    ensures t.requests[r].target in ReadAll(t, order[..|order| - 1], ready, clientGone).targets
  {
    var n := |order| - 1;
    forall j | j in order[..n] && j in ready ensures j != t.requests[r].target && !Names(ready[j], r) {
      var i :| 0 <= i < n && order[i] == j;
    }
    RequestStays(t, order[..n], ready, clientGone, r);
    ReadAllKeeps(t, order[..n], ready, clientGone);
  }

  lemma LastAnswers(t: Tables, k: Ccbid, ready: map<Ccbid, TargetMessage>, clientGone: set<Ccbid>, r: Ccbid)
    requires Answerable(t, ready, clientGone, r) && t.requests[r].target == k
    ensures
      var u := HandledBy(t, k, ready[k], k in clientGone);
      r !in u.requests && SentSince(t.sent, u.sent, Replied(t.requests[r].sock, ready[k].success))
  {
    var reply := Replied(t.requests[r].sock, ready[k].success);
    assert (t.sent + [reply])[|t.sent|..] == [reply];
  }

  lemma HandledSends(t: Tables, k: Ccbid, ready: map<Ccbid, TargetMessage>, clientGone: set<Ccbid>)
    ensures k in ready ==> t.sent <= HandledBy(t, k, ready[k], k in clientGone).sent
  {
  }

  /** The message is a reply to request `r` by the result that target `k` has for it. */
  predicate Relays(t: Tables, ready: map<Ccbid, TargetMessage>, clientGone: set<Ccbid>, k: Ccbid, r: Ccbid, m: Message)
  {
    && k in ready && k !in clientGone && Names(ready[k], r) && r in t.requests
    && ready[k].connectId == t.requests[r].connectId && m == Replied(t.requests[r].sock, ready[k].success)
  }

  /** Nothing else is sent: the messages sent are one reply each to different requests, which are
      gone afterwards. */
  lemma {:induction false} OnlyReplies(t: Tables, order: seq<Ccbid>, ready: map<Ccbid, TargetMessage>, clientGone: set<Ccbid>)
    returns (ks: seq<Ccbid>, rs: seq<Ccbid>)
    requires Linked(t.targets, t.requests)
    ensures
      var u := ReadAll(t, order, ready, clientGone);
      && t.sent <= u.sent && |ks| == |rs| == |u.sent| - |t.sent|
      && (forall i :: 0 <= i < |rs| ==> Relays(t, ready, clientGone, ks[i], rs[i], u.sent[|t.sent| + i]))
      && (forall i, j :: 0 <= i < j < |rs| ==> rs[i] != rs[j]) && (forall i :: 0 <= i < |rs| ==> rs[i] !in u.requests)
  {
    ks, rs := [], [];
    if order != [] {
      var n := |order| - 1;
      var before, k := ReadAll(t, order[..n], ready, clientGone), order[n];
      ks, rs := OnlyReplies(t, order[..n], ready, clientGone);
      ReadAllKeeps(t, order[..n], ready, clientGone);
      if k in before.targets && k in ready {
        var u := HandledBy(before, k, ready[k], k in clientGone);
        if |u.sent| > |before.sent| {
          var r := ready[k].reqid.value;
          assert before.requests[r] == t.requests[r];
          ks, rs := ks + [k], rs + [r];
        }
      }
    }
  }

  lemma {:induction false} TargetsLeave(t: Tables, order: seq<Ccbid>, ready: map<Ccbid, TargetMessage>, clientGone: set<Ccbid>)
    ensures
      var u := ReadAll(t, order, ready, clientGone);
      && u.targets.Keys <= t.targets.Keys
      && (forall k :: k in t.targets && k !in u.targets ==> k in ready)
      && (forall k :: k in order && k in ready && ready[k].Disconnected? ==> k !in u.targets)
  {
    if order != [] {
      var n := |order| - 1;
      TargetsLeave(t, order[..n], ready, clientGone);
      assert forall k :: k in order ==> k in order[..n] || k == order[n];
    }
  }

  lemma Enumerated(order: seq<Ccbid>, keys: set<Ccbid>, todo: set<Ccbid>, k: Ccbid)
    requires Enumerates(order, keys - todo) && k in todo && todo <= keys
    ensures Enumerates(order + [k], keys - (todo - {k}))
  {
    forall j | j in keys - (todo - {k}) ensures j in order + [k] {
      assert j != k ==> j in order;
    }
  }

  /** The record of a registration entitles exactly those with its ip and its cookie. */
  lemma OwnCredentials(reconnects: Reconnects, k: Ccbid, cookie: Ccbid, ip: string, now: int, ip': string, cookie': Ccbid)
    ensures Entitled(reconnects[k := ReconnectInfo(k, cookie, ip, now)], ip', k, cookie') <==> ip' == ip && cookie' == cookie
  {
  }

  class CCBServer {
    var targets: Targets
    var requests: Requests
    var reconnects: Reconnects
    var nextCcbid: Ccbid
    var nextRequestId: Ccbid
    var lastSweep: int
    var sweepInterval: int
    var sent: seq<Message>
    // the reconnect file, and the `.new` file it is rewritten through
    var file: Option<seq<Line>>
    var newFile: Option<seq<Line>>

    ghost predicate Valid()
      reads this`targets, this`requests, this`reconnects
    {
      Linked(targets, requests) && Backed(targets, reconnects)
    }

    /** A reader of the reconnect file obtains the records in memory. */
    ghost predicate FileCurrent()
      reads this`file, this`reconnects
    {
      Replay(FileLines()) == Persistent(reconnects)
    }

    ghost function FileLines(): seq<Line>
      reads this`file
    {
      if file.Some? then file.value else []
    }

    ghost function AsTables(): Tables
      reads this`targets, this`requests, this`sent
    {
      Tables(targets, requests, sent)
    }

    ghost function NewLines(): seq<Line>
      reads this`newFile
    {
      if newFile.Some? then newFile.value else []
    }

    constructor (interval: int)
      ensures Valid() && targets == map[] && requests == map[] && reconnects == map[]
      ensures nextCcbid == nextRequestId == 1 && sent == [] && lastSweep == 0 && sweepInterval == interval
      ensures file.None? && newFile.None? && FileCurrent()
    {
      targets, requests, reconnects := map[], map[], map[];
      nextCcbid, nextRequestId := 1, 1;
      lastSweep, sweepInterval := 0, interval;
      sent, file, newFile := [], None, None;
    }

    // ---------- requests and targets ----------

    method RemoveRequest(r: Ccbid)
      requires Linked(targets, requests) && r in requests
      modifies this`targets, this`requests
      ensures Linked(targets, requests) && targets.Keys == old(targets.Keys)
      ensures requests == old(requests) - {r}
      ensures targets == TargetsWithout(old(targets), old(requests)[r])
    {
      var request := requests[r];
      LinkedAfterRemoval(targets, requests, r);
      KeysAfterRemoval(targets, request);
      assert request.id in requests;  // else EXCEPT: failed to remove request
      requests := requests - {request.id};
      if request.target in targets {
        var target := targets[request.target];
        targets := targets[request.target := target.(requests := target.requests - {request.id})];
      }
    }

    /** Hangs up on all requests for the target, then forgets it. */
    method RemoveTarget(k: Ccbid)
      requires Linked(targets, requests) && k in targets
      modifies this`targets, this`requests
      ensures Linked(targets, requests)
      ensures targets == old(targets) - {k}
      ensures requests == RequestsNotFor(old(requests), k)
    {
      while targets[k].requests != map[]
        invariant Linked(targets, requests) && k in targets
        invariant targets - {k} == old(targets) - {k}
        invariant RequestsNotFor(requests, k) == RequestsNotFor(old(requests), k)
        decreases requests.Keys
      {
        var r :| r in targets[k].requests;
        OthersAfterRemoval(targets, requests, r);
        RemoveRequest(r);
      }
      NoRequestsLeft(targets, requests, k);
      assert k in targets;  // else EXCEPT: failed to remove target
      targets := targets - {k};
    }

    /** The new request gets an id that no live request holds. */
    method AddRequest(sock: nat, k: Ccbid, returnAddr: string, connectId: string) returns (id: Ccbid)
      requires Linked(targets, requests) && k in targets
      requires |requests| < ID_LIMIT
      modifies this`targets, this`requests, this`nextRequestId
      ensures Linked(targets, requests) && targets.Keys == old(targets.Keys)
      ensures id !in old(requests) && FirstFree(old(nextRequestId), old(requests.Keys), id)
      ensures nextRequestId == Advance(id, 1)
      ensures
        var request := Request(id, k, sock, returnAddr, connectId);
        requests == old(requests)[id := request] && targets == TargetsWith(old(targets), request)
    {
      assert |requests.Keys| == |requests|;
      var tries;
      id, nextRequestId, tries := NextFreeId(nextRequestId, requests.Keys);
      var request := Request(id, k, sock, returnAddr, connectId);
      LinkedAfterAddition(targets, requests, request);
      assert id !in targets[k].requests;  // else ASSERT on the target's own table
      requests := requests[id := request];
      targets := TargetsWith(targets, request);
    }

    /** The new target gets an id that no live target and no reconnect record holds. */
    method AddTarget(sock: nat, ip: string, cookie: Ccbid, now: int) returns (id: Ccbid)
      requires Valid()
      requires |reconnects.Keys + targets.Keys| < ID_LIMIT
      modifies this`targets, this`reconnects, this`nextCcbid, this`file
      ensures Valid()
      ensures id !in old(targets) && id !in old(reconnects)
      ensures FirstFree(old(nextCcbid), old(reconnects.Keys + targets.Keys), id) && nextCcbid == Advance(id, 1)
      ensures targets == old(targets)[id := Target(id, sock, map[])]
      ensures reconnects == old(reconnects)[id := ReconnectInfo(id, cookie, ip, now)]
      ensures old(FileCurrent()) ==> FileCurrent()
    {
      var tries;
      id, nextCcbid, tries := NextFreeId(nextCcbid, reconnects.Keys + targets.Keys);
      var info := ReconnectInfo(id, cookie, ip, now);
      NewTargetKeeps(targets, requests, reconnects, sock, info);
      targets := targets[id := Target(id, sock, map[])];
      AddedRecord(reconnects, info);
      reconnects := AddReconnectInfo(reconnects, info);
      SaveReconnectInfo(info);
    }

    /** A daemon may take its id back exactly if ip and cookie agree with its record; an older
        connection under that id is dropped together with its requests. */
    method ReconnectTarget(sock: nat, ip: string, k: Ccbid, cookie: Ccbid, now: int) returns (ok: bool)
      requires Valid()
      modifies this`targets, this`requests, this`reconnects
      ensures Valid()
      ensures ok <==> Entitled(old(reconnects), ip, k, cookie)
      ensures !ok ==> targets == old(targets) && requests == old(requests) && reconnects == old(reconnects)
      ensures ok ==> targets == old(targets)[k := Target(k, sock, map[])]
      ensures ok ==> requests == RequestsNotFor(old(requests), k)
      ensures ok ==> reconnects == old(reconnects)[k := old(reconnects)[k].(lastAlive := now)]
      ensures old(FileCurrent()) ==> FileCurrent()
    {
      if k !in reconnects {
        return false;
      }
      if reconnects[k].ip != ip {
        return false;
      }
      if reconnects[k].cookie != cookie {
        return false;
      }
      reconnects := reconnects[k := reconnects[k].(lastAlive := now)];
      if k in targets {
        RemoveTarget(k);
      } else {
        NoRequestsFor(targets, requests, k);
      }
      assert k !in targets;  // else ASSERT on the insertion
      LinkedAfterNewTarget(targets, requests, k, sock);
      Replaced(old(targets), targets, k, Target(k, sock, map[]));
      targets := targets[k := Target(k, sock, map[])];
      MarkedIsSameFile(old(reconnects), k, now);
      return true;
    }

    /** Reconnects if the message asks for it and may, else hands out a new id. */
    method Register(sock: nat, ip: string, reconnect: Option<(Ccbid, Ccbid)>, newCookie: Ccbid, now: int)
      returns (k: Ccbid)
      requires Valid()
      requires |reconnects.Keys + targets.Keys| < ID_LIMIT
      modifies this`targets, this`requests, this`reconnects, this`nextCcbid, this`file
      ensures Valid()
      ensures k in reconnects && reconnects[k].ip == ip
      ensures targets == old(targets)[k := Target(k, sock, map[])]
      ensures requests == RequestsNotFor(old(requests), k)
      ensures k in old(reconnects) ==>
        reconnect == Some((k, old(reconnects)[k].cookie)) && old(reconnects)[k].ip == ip
      ensures
        if reconnect.Some? && Entitled(old(reconnects), ip, reconnect.value.0, reconnect.value.1) then
          k == reconnect.value.0 && nextCcbid == old(nextCcbid)
        else
          FirstFree(old(nextCcbid), old(reconnects.Keys + targets.Keys), k) && nextCcbid == Advance(k, 1)
      ensures old(FileCurrent()) ==> FileCurrent()
    {
      var reconnected := false;
      k := 0;
      if reconnect.Some? {
        k := reconnect.value.0;
        reconnected := ReconnectTarget(sock, ip, k, reconnect.value.1, now);
      }
      if !reconnected {
        k := AddTarget(sock, ip, newCookie, now);
        NoRequestsFor(old(targets), requests, k);
      }
    }

    /** A registration message. When the reply cannot be written the target is removed again,
        while its reconnect record stays. */
    method HandleRegistration(sock: nat, ip: string, reconnect: Option<(Ccbid, Ccbid)>, newCookie: Ccbid, now: int,
                              replySent: bool) returns (k: Ccbid)
      requires Valid()
      requires |reconnects.Keys + targets.Keys| < ID_LIMIT
      modifies this`targets, this`requests, this`reconnects, this`nextCcbid, this`file
      ensures Valid()
      ensures k in reconnects && reconnects[k].ip == ip
      ensures targets == if replySent then old(targets)[k := Target(k, sock, map[])] else old(targets) - {k}
      ensures requests == RequestsNotFor(old(requests), k)
      ensures k in old(reconnects) ==>
        reconnect == Some((k, old(reconnects)[k].cookie)) && old(reconnects)[k].ip == ip
      ensures
        if reconnect.Some? && Entitled(old(reconnects), ip, reconnect.value.0, reconnect.value.1) then
          k == reconnect.value.0 && nextCcbid == old(nextCcbid)
        else
          FirstFree(old(nextCcbid), old(reconnects.Keys + targets.Keys), k) && nextCcbid == Advance(k, 1)
      ensures old(FileCurrent()) ==> FileCurrent()
    {
      k := Register(sock, ip, reconnect, newCookie, now);
      assert k in reconnects;  // else ASSERT on the reconnect record
      if !replySent {
        Removed(old(targets), targets, k, Target(k, sock, map[]));
        RemovedTwice(old(requests), k);
        RemoveTarget(k);
      }
    }

    // ---------- client requests ----------

    method RequestFinished(r: Ccbid, success: bool, clientGone: bool)
      requires Linked(targets, requests) && r in requests
      modifies this`targets, this`requests, this`sent
      ensures Linked(targets, requests) && targets.Keys == old(targets.Keys)
      ensures requests == old(requests) - {r}
      ensures targets == TargetsWithout(old(targets), old(requests)[r])
      ensures sent == if success && clientGone then old(sent) else old(sent) + [Replied(old(requests)[r].sock, success)]
    {
      if !(success && clientGone) {
        sent := sent + [Replied(requests[r].sock, success)];
      }
      RemoveRequest(r);
    }

    /** A client's request is forwarded to the daemon registered under the id it names, or
        answered with a failure. */
    method HandleRequest(sock: nat, k: Ccbid, returnAddr: string, connectId: string, writable: bool)
      returns (ghost id: Ccbid)
      requires Valid()
      requires |requests| < ID_LIMIT
      modifies this`targets, this`requests, this`nextRequestId, this`sent
      ensures Valid() && targets.Keys == old(targets.Keys)
      ensures k !in targets || !writable ==>
        targets == old(targets) && requests == old(requests) && sent == old(sent) + [Replied(sock, false)]
      ensures if k in old(targets) then FirstFree(old(nextRequestId), old(requests.Keys), id) && nextRequestId == Advance(id, 1)
              else nextRequestId == old(nextRequestId)
      ensures k in targets && writable ==>
        && Added(old(targets), old(requests), Request(id, k, sock, returnAddr, connectId), targets, requests)
        && sent == old(sent) + [Forwarded(old(targets)[k].sock, id, returnAddr, connectId)]
    {
      if k !in targets {
        sent := sent + [Replied(sock, false)];
        return 0;
      }
      var reqid := AddRequest(sock, k, returnAddr, connectId);
      id := reqid;
      if writable {
        sent := sent + [Forwarded(targets[k].sock, reqid, returnAddr, connectId)];
      } else {
        RequestFinished(reqid, false, false);
        AddThenRemove(old(targets), old(requests), Request(reqid, k, sock, returnAddr, connectId));
      }
    }

    method HandleRequestDisconnect(r: Ccbid)
      requires Valid() && r in requests
      modifies this`targets, this`requests
      ensures Valid() && requests == old(requests) - {r} && targets == TargetsWithout(old(targets), old(requests)[r])
    {
      RemoveRequest(r);
    }

    /** The target is gone, and with it every request that waited for it. */
    twostate predicate Dropped(k: Ccbid)
      reads this
    {
      targets == old(targets) - {k} && requests == RequestsNotFor(old(requests), k) && sent == old(sent)
    }

    /** A message from a registered target. A client hears of success or failure only through
        a result that names its request and carries its connect id. */
    method HandleRequestResultsMsg(k: Ccbid, msg: TargetMessage, clientGone: bool)
      requires Valid() && k in targets
      modifies this`targets, this`requests, this`sent
      ensures AsTables() == HandledBy(old(AsTables()), k, msg, clientGone)
      ensures Valid() && old(targets.Keys) - {k} <= targets.Keys <= old(targets.Keys) && requests.Keys <= old(requests.Keys)
      ensures msg.Disconnected? || (msg.Alive? && !msg.responseSent) || (msg.Results? && msg.reqid.None?) ==> Dropped(k)
      ensures msg.Alive? && msg.responseSent ==> targets == old(targets) && requests == old(requests) && sent == old(sent)
      ensures msg.Results? && msg.reqid.Some? ==>
        var r := msg.reqid.value;
        if r !in old(requests) then targets == old(targets) && requests == old(requests) && sent == old(sent)
        else if !clientGone && old(requests)[r].connectId != msg.connectId then Dropped(k)
        else
          && requests == old(requests) - {r} && targets == TargetsWithout(old(targets), old(requests)[r])
          && sent == if clientGone then old(sent) else old(sent) + [Replied(old(requests)[r].sock, msg.success)]
    {
      match msg
      case Disconnected =>
        RemoveTarget(k);
      case Alive(responseSent) =>
        if !responseSent {
          RemoveTarget(k);
        }
      case Results(success, reqid, connectId) =>
        if reqid.None? {
          RemoveTarget(k);
          return;
        }
        var r := reqid.value;
        if r !in requests {
          return;
        }
        if clientGone {
          RemoveRequest(r);
        } else if connectId != requests[r].connectId {
          RemoveTarget(k);
        } else {
          RequestFinished(r, success, clientGone);
        }
    }

    /** Reads every target that has something to say, in some order, and sweeps. A target leaves
        only by what it says itself, and does when it is disconnected. A result that a target has
        for a request of its own is passed on, and its request is gone. */
    method PollSockets(ready: map<Ccbid, TargetMessage>, clientGone: set<Ccbid>, now: int, clock: int, writes: nat)
      returns (ghost order: seq<Ccbid>)
      requires Valid() && now <= clock
      modifies this`targets, this`requests, this`sent, this`reconnects, this`lastSweep, this`file, this`newFile
      ensures Linked(targets, requests) && (sweepInterval >= 0 ==> Valid())
      ensures Enumerates(order, old(targets.Keys)) && AsTables() == ReadAll(old(AsTables()), order, ready, clientGone)
      ensures forall r :: Answerable(old(AsTables()), ready, clientGone, r) ==>
        r !in requests && SentSince(old(sent), sent, Replied(old(requests)[r].sock, ready[old(requests)[r].target].success))
      ensures targets.Keys <= old(targets.Keys) && requests.Keys <= old(requests.Keys)
      ensures forall k :: k in old(targets) && k !in targets ==> k in ready
      ensures forall k :: k in old(targets) && k in ready && ready[k].Disconnected? ==> k !in targets
      ensures reconnects == if old(lastSweep) + sweepInterval > now then old(reconnects)
                            else Unexpired(Marked(old(reconnects), targets.Keys, clock), now, sweepInterval)
    {
      ghost var t := AsTables();
      order := ReadTargets(ready, clientGone);
      ReadAllKeeps(t, order, ready, clientGone);
      TargetsLeave(t, order, ready, clientGone);
      forall r | Answerable(t, ready, clientGone, r)
        ensures r !in requests && SentSince(t.sent, sent, Replied(t.requests[r].sock, ready[t.requests[r].target].success)) {
        RequestAnswered(t, order, ready, clientGone, r);
      }
      SweepReconnectInfo(now, clock, writes);
    }

    method ReadTargets(ready: map<Ccbid, TargetMessage>, clientGone: set<Ccbid>) returns (ghost order: seq<Ccbid>)
      requires Valid()
      modifies this`targets, this`requests, this`sent
      ensures Valid() && Enumerates(order, old(targets.Keys))
      ensures AsTables() == ReadAll(old(AsTables()), order, ready, clientGone)
    {
      var todo := targets.Keys;
      order := [];
      while todo != {}
        invariant Valid() && todo <= old(targets.Keys)
        invariant Enumerates(order, old(targets.Keys) - todo)
        invariant AsTables() == ReadAll(old(AsTables()), order, ready, clientGone)
        decreases todo
      {
        var k :| k in todo;
        Enumerated(order, old(targets.Keys), todo, k);
        assert (order + [k])[..|order|] == order;
        todo, order := todo - {k}, order + [k];
        if k in targets && k in ready {
          HandleRequestResultsMsg(k, ready[k], k in clientGone);
        }
      }
    }

    // ---------- the reconnect file ----------

    method SaveReconnectInfo(info: ReconnectInfo)
      modifies this`file
      ensures FileLines() == old(FileLines()) + [LineOf(info)]
      ensures Replay(FileLines()) == old(Replay(FileLines()))[info.ccbid := Credentials(info.ip, info.cookie)]
    {
      ReplayAppend(FileLines(), LineOf(info));
      file := Some((if file.Some? then file.value else []) + [LineOf(info)]);
    }

    /** Rewrites the file through `.new`; a `.new` file left over from an aborted rewrite is
        appended to, and its records survive. The first `writes` writes succeed; when one fails
        the rewrite is aborted, the file stays and a `.new` file is left behind. */
    method SaveAllReconnectInfo(writes: nat) returns (ghost done: set<Ccbid>)
      requires forall k :: k in reconnects ==> reconnects[k].ccbid == k
      modifies this`file, this`newFile
      ensures done <= reconnects.Keys && |done| == if |reconnects| <= writes then |reconnects| else writes
      ensures reconnects == map[] ==> file.None? && newFile == old(newFile)
      ensures reconnects != map[] && |reconnects| <= writes ==>
        newFile.None? && Replay(FileLines()) == Replay(old(NewLines())) + Persistent(reconnects)
      ensures |reconnects| > writes ==>
        file == old(file) && newFile.Some? && Replay(NewLines()) == Replay(old(NewLines())) + Written(reconnects, done)
      ensures old(newFile).None? && |reconnects| <= writes ==> FileCurrent()
      ensures reconnects != map[] && |reconnects| <= writes ==>
        (FileCurrent() <==> Replay(old(NewLines())).Keys <= reconnects.Keys)
    {
      done := {};
      if reconnects == map[] {
        file := None;
        return;
      }
      var lines, written;
      lines, written, done := WriteRecords(if newFile.Some? then newFile.value else [], writes);
      newFile := Some(lines);
      WrittenCount(reconnects, done);
      if written {
        AllWritten(reconnects, done);
        OverlaidIsTable(Replay(old(NewLines())), Persistent(reconnects));
        file, newFile := Some(lines), None;
      }
    }

    /** The loop that writes the records behind the given lines, until a write fails. */
    method WriteRecords(leftover: seq<Line>, writes: nat) returns (lines: seq<Line>, ok: bool, ghost done: set<Ccbid>)
      requires forall k :: k in reconnects ==> reconnects[k].ccbid == k
      ensures if ok then done == reconnects.Keys && |done| <= writes else done < reconnects.Keys && |done| == writes
      ensures Replay(lines) == Replay(leftover) + Written(reconnects, done)
    {
      lines, done := leftover, {};
      var todo, count := reconnects.Keys, 0;
      assert Replay(leftover) + Written(reconnects, {}) == Replay(leftover);
      while todo != {}
        invariant todo == reconnects.Keys - done && done <= reconnects.Keys
        invariant count == |done| <= writes
        invariant Replay(lines) == Replay(leftover) + Written(reconnects, done)
        decreases todo
      {
        var k :| k in todo;
        if count == writes {
          return lines, false, done;
        }
        OneWritten(leftover, lines, reconnects, done, k);
        lines := lines + [LineOf(reconnects[k])];
        todo, count, done := todo - {k}, count + 1, done + {k};
      }
      ok := true;
    }

    /** Reads the file into memory at start-up, at time `now`. */
    method LoadReconnectInfo(now: int)
      requires forall k :: k in reconnects ==> reconnects[k].ccbid == k
      modifies this`reconnects, this`nextCcbid
      ensures forall k :: k in reconnects ==> reconnects[k].ccbid == k
      ensures file.None? ==> reconnects == old(reconnects) && nextCcbid == old(nextCcbid)
      ensures Persistent(reconnects) == old(Persistent(reconnects)) + Replay(FileLines())
      ensures forall k :: k in reconnects ==>
        reconnects[k].lastAlive == if k in Replay(FileLines()) then now else old(reconnects)[k].lastAlive
      ensures old(reconnects) == map[] ==> FileCurrent()
      ensures file.Some? && old(nextCcbid) < ID_LIMIT - 101 && (forall k :: k in Replay(FileLines()) ==> k < ID_LIMIT - 101) ==>
        JumpsAhead(old(nextCcbid), Replay(FileLines()).Keys, nextCcbid)
    {
      if file.None? {
        return;
      }
      var lines := file.value;
      for i := 0 to |lines|
        invariant reconnects == Loaded(old(reconnects), lines[..i], now)
        invariant nextCcbid == Beyond(old(nextCcbid), lines[..i])
      {
        assert lines[..i + 1][..i] == lines[..i] && lines[..i + 1][i] == lines[i];
        if lines[i].Record? {
          var Record(ip, ccbid, cookie) := lines[i];
          if ccbid > nextCcbid {
            nextCcbid := Advance(ccbid, 1);
          }
          AddedRecord(reconnects, ReconnectInfo(ccbid, cookie, ip, now));
          reconnects := AddReconnectInfo(reconnects, ReconnectInfo(ccbid, cookie, ip, now));
        }
      }
      assert lines[..|lines|] == lines;
      LoadedIsReplay(old(reconnects), lines, now);
      BeyondAll(old(nextCcbid), lines);
      nextCcbid := Advance(nextCcbid, 100);
    }

    // ---------- expiry ----------

    /** Marks the records of registered targets as alive and drops the records unseen for two
        intervals. Registered targets keep their records exactly if the interval allows a record
        that was marked just now. */
    method SweepReconnectInfo(now: int, clock: int, writes: nat)
      requires Valid() && now <= clock
      modifies this`reconnects, this`lastSweep, this`file, this`newFile
      ensures Linked(targets, requests)
      ensures lastSweep == (if old(lastSweep) + sweepInterval > now then old(lastSweep) else now)
      ensures old(lastSweep) + sweepInterval > now ==> reconnects == old(reconnects) && file == old(file)
      ensures old(lastSweep) + sweepInterval <= now ==>
        reconnects == Unexpired(Marked(old(reconnects), targets.Keys, clock), now, sweepInterval)
      ensures old(lastSweep) + sweepInterval <= now ==>
        (Valid() <==> targets == map[] || now - clock <= 2 * sweepInterval)
      ensures if reconnects.Keys == old(reconnects.Keys) then file == old(file) && newFile == old(newFile)
              else Rewritten(old(NewLines()), writes)
      ensures sweepInterval >= 0 ==> Valid()
      ensures old(FileCurrent()) && old(newFile).None? && |old(reconnects)| <= writes ==> FileCurrent() && newFile.None?
    {
      if lastSweep + sweepInterval > now {
        return;
      }
      lastSweep := now;
      MarkAndExpire(now, clock, writes);
    }

    method MarkAndExpire(now: int, clock: int, writes: nat)
      requires Valid()
      modifies this`reconnects, this`file, this`newFile
      ensures reconnects == Unexpired(Marked(old(reconnects), targets.Keys, clock), now, sweepInterval)
      ensures Valid() <==> targets == map[] || now - clock <= 2 * sweepInterval
      ensures if reconnects.Keys == old(reconnects.Keys) then file == old(file) && newFile == old(newFile)
              else Rewritten(old(NewLines()), writes)
      ensures old(FileCurrent()) && old(newFile).None? && |old(reconnects)| <= writes ==> FileCurrent() && newFile.None?
    {
      ghost var before := reconnects;
      MarkRegistered(clock);
      SweptTargets(targets, before, clock, now, sweepInterval);
      MarkedCount(before, targets.Keys, clock);
      assert reconnects.Keys == before.Keys;
      Expire(now, writes);
    }

    /** The file has been rewritten with so many writes: as far as they sufficed, behind what the
        `.new` file held before. */
    ghost predicate Rewritten(leftover: seq<Line>, writes: nat)
      reads this`reconnects, this`file, this`newFile
    {
      if reconnects == map[] then file.None?
      else if |reconnects| <= writes then newFile.None? && Replay(FileLines()) == Replay(leftover) + Persistent(reconnects)
      else
        newFile.Some? && exists ids :: PartWritten(leftover, ids, writes)
    }

    /** The `.new` file has got so many of the records. */
    ghost predicate PartWritten(leftover: seq<Line>, ids: set<Ccbid>, writes: nat)
      reads this`reconnects, this`newFile
    {
      ids <= reconnects.Keys && |ids| == writes && Replay(NewLines()) == Replay(leftover) + Written(reconnects, ids)
    }

    /** The records that have expired are dropped; if there were any the file is rewritten. */
    method Expire(now: int, writes: nat)
      requires forall k :: k in reconnects ==> reconnects[k].ccbid == k
      modifies this`reconnects, this`file, this`newFile
      ensures reconnects == Unexpired(old(reconnects), now, sweepInterval)
      ensures reconnects.Keys == old(reconnects.Keys) ==> file == old(file) && newFile == old(newFile)
      ensures reconnects.Keys != old(reconnects.Keys) ==> Rewritten(old(NewLines()), writes)
      ensures old(FileCurrent()) && old(newFile).None? && |old(reconnects)| <= writes ==> FileCurrent() && newFile.None?
    {
      var removed := DropExpired(now);
      if removed > 0 {
        UnexpiredCount(old(reconnects), now, sweepInterval);
        ghost var leftover := NewLines();
        ghost var ids := SaveAllReconnectInfo(writes);
        assert |reconnects| > writes ==> PartWritten(leftover, ids, writes);
      }
    }

    method MarkRegistered(clock: int)
      requires Backed(targets, reconnects)
      modifies this`reconnects
      ensures reconnects == Marked(old(reconnects), targets.Keys, clock)
    {
      var todo := targets.Keys;
      while todo != {}
        invariant todo <= targets.Keys
        invariant reconnects == Marked(old(reconnects), targets.Keys - todo, clock)
        decreases todo
      {
        var k :| k in todo;
        assert k in reconnects;  // else ASSERT: registered target without a record
        reconnects := reconnects[k := reconnects[k].(lastAlive := clock)];
        todo := todo - {k};
      }
      assert targets.Keys - {} == targets.Keys;
    }

    method DropExpired(now: int) returns (removed: nat)
      modifies this`reconnects
      ensures reconnects == Unexpired(old(reconnects), now, sweepInterval)
      ensures removed == |old(reconnects)| - |reconnects|
      ensures removed == 0 <==> reconnects.Keys == old(reconnects.Keys)
    {
      var todo := reconnects.Keys;
      removed := 0;
      while todo != {}
        invariant todo <= reconnects.Keys <= old(reconnects.Keys)
        invariant forall k :: k in reconnects ==> reconnects[k] == old(reconnects)[k]
        invariant forall k :: k in old(reconnects) && k !in todo ==>
          (k in reconnects <==> now - old(reconnects)[k].lastAlive <= 2 * sweepInterval)
        invariant removed == |old(reconnects)| - |reconnects|
        decreases todo
      {
        var k :| k in todo;
        todo := todo - {k};
        if now - reconnects[k].lastAlive > 2 * sweepInterval {
          OneExpired(reconnects, k);
          reconnects := reconnects - {k};
          removed := removed + 1;
        }
      }
      KeysCount(reconnects, old(reconnects));
    }
  }

  lemma OneExpired(reconnects: Reconnects, k: Ccbid)
    requires k in reconnects
    ensures |reconnects - {k}| == |reconnects| - 1
  {
    assert reconnects.Keys == (reconnects - {k}).Keys + {k};
    assert |reconnects.Keys| == |(reconnects - {k}).Keys| + 1;
  }

  lemma KeysCount(kept: Reconnects, all: Reconnects)
    requires kept.Keys <= all.Keys
    ensures |kept| == |all| <==> kept.Keys == all.Keys
  {
    SubsetCount(kept.Keys, all.Keys);
    assert |kept.Keys| == |kept| && |all.Keys| == |all|;
  }

  lemma LinkedAfterNewTarget(targets: Targets, requests: Requests, k: Ccbid, sock: nat)
    requires Linked(targets, requests) && k !in targets
    ensures Linked(targets[k := Target(k, sock, map[])], requests)
  {
  }

  lemma NewTargetKeeps(targets: Targets, requests: Requests, reconnects: Reconnects, sock: nat, info: ReconnectInfo)
    requires Linked(targets, requests) && Backed(targets, reconnects) && info.ccbid !in targets
    ensures Linked(targets[info.ccbid := Target(info.ccbid, sock, map[])], requests)
    ensures Backed(targets[info.ccbid := Target(info.ccbid, sock, map[])], reconnects[info.ccbid := info])
  {
  }

  lemma Replaced(before: Targets, after: Targets, k: Ccbid, target: Target)
    requires after == before - {k} || (after == before && k !in before)
    ensures after[k := target] == before[k := target]
  {
  }

  lemma Removed(before: Targets, after: Targets, k: Ccbid, target: Target)
    requires after == before[k := target]
    ensures after - {k} == before - {k}
  {
  }

  lemma RemovedTwice(requests: Requests, k: Ccbid)
    ensures RequestsNotFor(RequestsNotFor(requests, k), k) == RequestsNotFor(requests, k)
  {
  }

  lemma AddedRecord(reconnects: Reconnects, info: ReconnectInfo)
    ensures AddReconnectInfo(reconnects, info) == reconnects[info.ccbid := info]
    ensures Persistent(reconnects[info.ccbid := info])
         == Persistent(reconnects)[info.ccbid := Credentials(info.ip, info.cookie)]
  {
  }

  lemma MarkedIsSameFile(reconnects: Reconnects, k: Ccbid, now: int)
    requires k in reconnects
    ensures Persistent(reconnects[k := reconnects[k].(lastAlive := now)]) == Persistent(reconnects)
  {
  }

  /** After a sweep every registered target still has its record exactly if a record marked by
      this very sweep counts as recent. */
  lemma SweptTargets(targets: Targets, reconnects: Reconnects, clock: int, now: int, interval: int)
    requires Backed(targets, reconnects)
    ensures
      var marked := Marked(reconnects, targets.Keys, clock);
      Persistent(marked) == Persistent(reconnects)
      && (Backed(targets, Unexpired(marked, now, interval)) <==> targets == map[] || now - clock <= 2 * interval)
  {
    var marked := Marked(reconnects, targets.Keys, clock);
    if targets != map[] {
      var k :| k in targets;
      assert marked[k].lastAlive == clock;
    }
  }

  /** HashTable::insert refuses a duplicate; the record is then replaced. */
  function AddReconnectInfo(reconnects: Reconnects, info: ReconnectInfo): Reconnects
  {
    if info.ccbid !in reconnects then reconnects[info.ccbid := info]
    else (reconnects - {info.ccbid})[info.ccbid := info]
  }

  function Marked(reconnects: Reconnects, ks: set<Ccbid>, clock: int): Reconnects
  {
    map k | k in reconnects :: if k in ks then reconnects[k].(lastAlive := clock) else reconnects[k]
  }

  function Unexpired(reconnects: Reconnects, now: int, interval: int): Reconnects
  {
    map k | k in reconnects && now - reconnects[k].lastAlive <= 2 * interval :: reconnects[k]
  }

  lemma NoRequestsFor(targets: Targets, requests: Requests, k: Ccbid)
    requires Linked(targets, requests) && k !in targets
    ensures RequestsNotFor(requests, k) == requests
  {
    forall r | r in requests ensures requests[r].target != k {
      assert requests[r].target in targets;
    }
  }

  lemma AddThenRemove(targets: Targets, requests: Requests, request: Request)
    requires Linked(targets, requests) && request.target in targets && request.id !in requests
    ensures TargetsWithout(TargetsWith(targets, request), request) == targets
    ensures requests[request.id := request] - {request.id} == requests
  {
    assert request.id !in targets[request.target].requests;
    assert targets[request.target].requests[request.id := request] - {request.id} == targets[request.target].requests;
  }

  /** Writing the table over older records gives the table exactly if they are of its ids. */
  lemma OverlaidIsTable(older: map<Ccbid, Credentials>, table: map<Ccbid, Credentials>)
    ensures older + table == table <==> older.Keys <= table.Keys
  {
    if older + table == table {
      assert (older + table).Keys == older.Keys + table.Keys;
    }
  }

  /** The records of some ids, as a reader of the file obtains them. */
  function Written(reconnects: Reconnects, ids: set<Ccbid>): map<Ccbid, Credentials>
  {
    map k | k in reconnects && k in ids :: Credentials(reconnects[k].ip, reconnects[k].cookie)
  }

  lemma OneWritten(leftover: seq<Line>, lines: seq<Line>, reconnects: Reconnects, done: set<Ccbid>, k: Ccbid)
    requires Replay(lines) == Replay(leftover) + Written(reconnects, done)
    requires k in reconnects && reconnects[k].ccbid == k
    ensures Replay(lines + [LineOf(reconnects[k])]) == Replay(leftover) + Written(reconnects, done + {k})
  {
    ReplayAppend(lines, LineOf(reconnects[k]));
    assert Written(reconnects, done)[k := Credentials(reconnects[k].ip, reconnects[k].cookie)] == Written(reconnects, done + {k});
  }

  lemma WrittenCount(reconnects: Reconnects, done: set<Ccbid>)
    requires done <= reconnects.Keys
    ensures |done| <= |reconnects| && (|done| == |reconnects| <==> done == reconnects.Keys)
  {
    SubsetCount(done, reconnects.Keys);
    assert |reconnects.Keys| == |reconnects|;
  }

  lemma AllWritten(reconnects: Reconnects, ids: set<Ccbid>)
    requires ids == reconnects.Keys
    ensures Written(reconnects, ids) == Persistent(reconnects)
  {
  }

  lemma UnexpiredCount(reconnects: Reconnects, now: int, interval: int)
    ensures |Unexpired(reconnects, now, interval)| <= |reconnects|
  {
    var kept := Unexpired(reconnects, now, interval);
    SubsetCount(kept.Keys, reconnects.Keys);
    assert |kept.Keys| == |kept| && |reconnects.Keys| == |reconnects|;
  }

  lemma MarkedCount(reconnects: Reconnects, ks: set<Ccbid>, clock: int)
    ensures |Marked(reconnects, ks, clock)| == |reconnects|
  {
    assert Marked(reconnects, ks, clock).Keys == reconnects.Keys;
    assert |Marked(reconnects, ks, clock).Keys| == |reconnects.Keys|;
  }

  /** The records in memory after the lines have been read. */
  ghost function Loaded(reconnects: Reconnects, lines: seq<Line>, now: int): Reconnects
  {
    if lines == [] then reconnects
    else
      var before := Loaded(reconnects, lines[..|lines| - 1], now);
      match lines[|lines| - 1]
      case Record(ip, ccbid, cookie) => before[ccbid := ReconnectInfo(ccbid, cookie, ip, now)]
      case _ => before
  }

  /** The next id after the lines have been read. */
  ghost function Beyond(next: Ccbid, lines: seq<Line>): Ccbid
  {
    if lines == [] then next
    else
      var before := Beyond(next, lines[..|lines| - 1]);
      match lines[|lines| - 1]
      case Record(_, ccbid, _) => if ccbid > before then Advance(ccbid, 1) else before
      case _ => before
  }

  lemma {:induction false} LoadedIsReplay(reconnects: Reconnects, lines: seq<Line>, now: int)
    requires forall k :: k in reconnects ==> reconnects[k].ccbid == k
    ensures
      var r := Loaded(reconnects, lines, now);
      && (forall k :: k in r ==> r[k].ccbid == k)
      && Persistent(r) == Persistent(reconnects) + Replay(lines)
      && (forall k :: k in r ==> k in Replay(lines) || k in reconnects)
      && (forall k :: k in r ==> r[k].lastAlive == if k in Replay(lines) then now else reconnects[k].lastAlive)
  {
    if lines == [] {
      assert Persistent(reconnects) + Replay([]) == Persistent(reconnects);
    } else {
      var front, line := lines[..|lines| - 1], lines[|lines| - 1];
      assert lines == front + [line];
      LoadedIsReplay(reconnects, front, now);
      ReplayAppend(front, line);
      if line.Record? {
        AddedRecord(Loaded(reconnects, front, now), ReconnectInfo(line.ccbid, line.cookie, line.ip, now));
      }
    }
  }

  /** The next id is a hundred past the former one and past every loaded one, and no farther past
      the greatest of them than that. */
  ghost predicate JumpsAhead(before: int, ids: set<Ccbid>, after: int)
  {
    && before + 100 <= after && (forall k :: k in ids ==> k + 100 <= after)
    && (after == before + 100 || exists k :: k in ids && after == k + 101)
  }

  lemma {:induction false} BeyondAll(next: Ccbid, lines: seq<Line>)
    ensures next < ID_LIMIT - 101 && (forall k :: k in Replay(lines) ==> k < ID_LIMIT - 101) ==>
      Beyond(next, lines) < ID_LIMIT - 100 && JumpsAhead(next, Replay(lines).Keys, Beyond(next, lines) + 100)
  {
    if lines != [] {
      var front, line := lines[..|lines| - 1], lines[|lines| - 1];
      assert lines == front + [line];
      BeyondAll(next, front);
      ReplayAppend(front, line);
      assert forall k :: k in Replay(front) ==> k in Replay(lines);
      if line.Record? {
        assert line.ccbid in Replay(lines);
      }
    }
  }
}
