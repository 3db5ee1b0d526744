/**
 The tables of the connection broker (src/ccb/ccb_server.cpp, src/ccb/ccb_server.h) as values:
 registered targets, pending requests, reconnect records and the reconnect file.
 */
module CcbTables {
  /** Ids are unsigned long and wrap around. */
  const ID_LIMIT: int := 0x1_0000_0000_0000_0000

  type Ccbid = i: int | 0 <= i < ID_LIMIT

  datatype Request = Request(id: Ccbid, target: Ccbid, sock: nat, returnAddr: string, connectId: string)

  /** A registered daemon and the requests waiting for it. */
  datatype Target = Target(ccbid: Ccbid, sock: nat, requests: map<Ccbid, Request>)

  datatype ReconnectInfo = ReconnectInfo(ccbid: Ccbid, cookie: Ccbid, ip: string, lastAlive: int)

  type Targets = map<Ccbid, Target>
  type Requests = map<Ccbid, Request>
  type Reconnects = map<Ccbid, ReconnectInfo>

  /** Every entry is stored under its own id, and the request table and the targets' own
      request tables are inverse to each other. */
  ghost predicate Linked(targets: Targets, requests: Requests)
  {
    && (forall k :: k in targets ==> targets[k].ccbid == k)
    && (forall r :: r in requests ==> requests[r].id == r)
    && (forall r :: r in requests ==> requests[r].target in targets && r in targets[requests[r].target].requests)
    && (forall k, r :: k in targets && r in targets[k].requests ==>
          r in requests && requests[r] == targets[k].requests[r] && requests[r].target == k)
  }

  /** Every registered target has a reconnect record, and records are stored under their id. */
  ghost predicate Backed(targets: Targets, reconnects: Reconnects)
  {
    && (forall k :: k in reconnects ==> reconnects[k].ccbid == k)
    && (forall k :: k in targets ==> k in reconnects)
  }

  /** The targets after a request has left the table of its target. */
  function TargetsWithout(targets: Targets, request: Request): Targets
  {
    var k := request.target;
    if k in targets then targets[k := targets[k].(requests := targets[k].requests - {request.id})] else targets
  }

  function TargetsWith(targets: Targets, request: Request): Targets
    requires request.target in targets
  {
    var k := request.target;
    targets[k := targets[k].(requests := targets[k].requests[request.id := request])]
  }

  function RequestsNotFor(requests: Requests, k: Ccbid): Requests
  {
    map r | r in requests && requests[r].target != k :: requests[r]
  }

  lemma LinkedAfterRemoval(targets: Targets, requests: Requests, r: Ccbid)
    requires Linked(targets, requests) && r in requests
    ensures Linked(TargetsWithout(targets, requests[r]), requests - {r})
  {
    var request := requests[r];
    var targets', requests' := TargetsWithout(targets, request), requests - {r};
    forall q | q in requests'
      ensures requests'[q].target in targets' && q in targets'[requests'[q].target].requests
    {
      assert q in requests && q != r;
    }
  }

  lemma LinkedAfterAddition(targets: Targets, requests: Requests, request: Request)
    requires Linked(targets, requests) && request.id !in requests && request.target in targets
    ensures Linked(TargetsWith(targets, request), requests[request.id := request])
  {
  }

  // ---------- id allocation ----------

  /** The counter after some increments, wrapping around at most once. */
  function Advance(id: Ccbid, steps: nat): Ccbid
    requires steps <= ID_LIMIT
  {
    if id + steps < ID_LIMIT then id + steps else id + steps - ID_LIMIT
  }

  /** The ids tried in the first `tries` steps. */
  ghost function Tried(next: Ccbid, tries: nat): (ids: set<Ccbid>)
    requires tries <= ID_LIMIT
    ensures forall j: nat :: tries <= j < ID_LIMIT ==> Advance(next, j) !in ids
  {
    if tries == 0 then {} else Tried(next, tries - 1) + {Advance(next, tries - 1)}
  }

  lemma {:induction false} TriedCount(next: Ccbid, tries: nat)
    requires tries <= ID_LIMIT
    ensures |Tried(next, tries)| == tries
  {
    if tries > 0 {
      TriedCount(next, tries - 1);
    }
  }

  lemma {:induction false} TriedWithin(next: Ccbid, tries: nat, held: set<Ccbid>)
    requires tries <= ID_LIMIT && forall j: nat :: j < tries ==> Advance(next, j) in held
    ensures Tried(next, tries) <= held
  {
    if tries > 0 {
      TriedWithin(next, tries - 1, held);
    }
  }

  lemma SubsetCount<T>(a: set<T>, b: set<T>)
    requires a <= b
    ensures |a| <= |b|
    ensures |a| == |b| ==> a == b
  {
    assert b == a + (b - a);
    if |a| == |b| {
      assert |b - a| == 0;
    }
  }

  /** The first id from `next` on that is not held. */
  ghost predicate FirstFree(next: Ccbid, held: set<Ccbid>, id: Ccbid)
  {
    id !in held && exists n: nat :: n < ID_LIMIT && id == Advance(next, n) && forall j: nat :: j < n ==> Advance(next, j) in held
  }

  /** Without a held id the counter gives the next one. */
  lemma NextIfFree(next: Ccbid, held: set<Ccbid>, id: Ccbid)
    requires FirstFree(next, held, id) && next !in held
    ensures id == next
  {
    var n: nat :| n < ID_LIMIT && id == Advance(next, n) && forall j: nat :: j < n ==> Advance(next, j) in held;
    assert Advance(next, 0) == next;
  }

  /** The allocation loop: step the wrapping counter until an id is free. It ends within one
      more try than there are held ids, at the first free id from the counter on. */
  method NextFreeId(next: Ccbid, held: set<Ccbid>) returns (id: Ccbid, next': Ccbid, tries: nat)
    requires |held| < ID_LIMIT
    ensures id !in held
    ensures 1 <= tries <= |held| + 1
    ensures id == Advance(next, tries - 1) && next' == Advance(id, 1)
    ensures forall j: nat :: j < tries - 1 ==> Advance(next, j) in held
    ensures FirstFree(next, held, id)
  {
    id, next', tries := next, Advance(next, 1), 1;
    while id in held
      invariant 1 <= tries <= |held| + 1
      invariant id == Advance(next, tries - 1) && next' == Advance(id, 1)
      invariant forall j: nat :: j < tries - 1 ==> Advance(next, j) in held
      decreases |held| + 1 - tries
    {
      TriedWithin(next, tries, held);
      SubsetCount(Tried(next, tries), held);
      TriedCount(next, tries);
      assert next' == Advance(next, tries);
      id := next';
      next' := Advance(id, 1);
      tries := tries + 1;
    }
  }

  // ---------- the reconnect file ----------

  /** A line of the file; a line that does not scan as ip, ccbid and cookie is skipped. */
  datatype Line = Record(ip: string, ccbid: Ccbid, cookie: Ccbid) | Invalid

  datatype Credentials = Credentials(ip: string, cookie: Ccbid)

  /** The records a reader of the file ends up with: a later line for an id wins. */
  function Replay(lines: seq<Line>): map<Ccbid, Credentials>
  {
    if lines == [] then map[]
    else
      var last := lines[|lines| - 1];
      var m := Replay(lines[..|lines| - 1]);
      if last.Record? then m[last.ccbid := Credentials(last.ip, last.cookie)] else m
  }

  function Persistent(reconnects: Reconnects): map<Ccbid, Credentials>
  {
    map k | k in reconnects :: Credentials(reconnects[k].ip, reconnects[k].cookie)
  }

  function LineOf(info: ReconnectInfo): Line
  {
    Record(info.ip, info.ccbid, info.cookie)
  }

  lemma ReplayAppend(lines: seq<Line>, line: Line)
    ensures Replay(lines + [line]) ==
      if line.Record? then Replay(lines)[line.ccbid := Credentials(line.ip, line.cookie)] else Replay(lines)
  {
    assert (lines + [line])[..|lines|] == lines;
  }
}
