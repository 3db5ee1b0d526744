/**
 The non-blocking reverse-connect client (src/ccb/ccb_client.cpp): it asks one broker after the
 other until a connection arrives, the contacts run out or the deadline passes. One method per
 callback; which callback comes when is up to the caller. A failed ASSERT sets `aborted`.

 The client is reference counted and deletes itself when the count comes to zero, which happens
 in the middle of its own last callback. Every method that touches a field requires that the
 client has not been released yet.
 */
module CcbClient {

  function One(b: bool): int
  {
    if b then 1 else 0
  }

  datatype Event =
    | BrokerAnswers(delivered: bool, result: bool)
    | Connects
    | SocketCloses
    | DeadlinePasses

  class CCBClient {
    // m_ccb_contacts in shuffled order: whether each is of the form address#ccbid, whether its
    // request fails before try_next_ccb returns, and whether that is for want of a socket pair
    // rather than because no message could be started
    const wellFormed: seq<bool>
    const failsAtOnce: seq<bool>
    const noSocketPair: seq<bool>

    var next: nat            // the contact list's scan position
    var started: bool
    var targetSock: bool     // m_target_sock is set
    var ccbCb: bool          // m_ccb_cb: a reply from a broker is awaited
    var deadlineTimer: bool  // m_deadline_timer is registered
    var refCount: int
    var released: bool       // the count has come to zero and the object is deleted

    // outside the object: the static table of waiting clients, and the target socket
    var waiting: bool        // this client is in waiting_for_reverse_connect
    var socketRef: bool      // the target socket's m_ccb_client refers to this client
    var connected: bool      // the target socket was handed a connection
    var handlerCalls: nat    // calls of the target socket's completion handler

    var requested: seq<nat>  // contacts to which a request was sent
    var aborted: bool

    ghost var held: nat      // references held by callbacks that are running

    /** The state between callbacks. */
    ghost predicate Valid()
      reads this
    {
      && Consistent() && held == 0
      && (socketRef <==> targetSock) && (waiting <==> started && targetSock) && (!started ==> targetSock)
      && (deadlineTimer <==> waiting) && (ccbCb ==> waiting)
      && handlerCalls == One(!targetSock) && (targetSock ==> !connected)
    }

    /** What holds also inside callbacks: the references are those of the target socket, of the
        waiting table, of the awaited reply and of running callbacks; no contact is asked
        twice. */
    ghost predicate Consistent()
      reads this
    {
      && |failsAtOnce| == |wellFormed| && next <= |wellFormed|
      && |noSocketPair| == |wellFormed| && (forall i :: 0 <= i < |noSocketPair| && noSocketPair[i] ==> failsAtOnce[i])
      && refCount == One(socketRef) + One(waiting) + One(ccbCb) + held
      && (released <==> refCount == 0)
      && (forall i :: 0 <= i < |requested| ==> requested[i] < next)
      && (forall i, j :: 0 <= i < j < |requested| ==> requested[i] < requested[j])
    }

    /** Asking from contact `n` on arrives at a malformed one. */
    ghost predicate ReachesMalformed(n: nat)
      requires |failsAtOnce| == |wellFormed|
      decreases |wellFormed| - n
    {
      n < |wellFormed| && (!wellFormed[n] || (failsAtOnce[n] && ReachesMalformed(n + 1)))
    }

    /** Asking from contact `from` on: the request went to the first broker that could be
        asked, or there was none left and the operation is over. */
    ghost predicate Asked(from: nat, before: seq<nat>)
      requires |failsAtOnce| == |wellFormed|
      reads this
    {
      && from <= next <= |wellFormed|
      && (targetSock ==>
            && from < next && requested == before + [next - 1] && !failsAtOnce[next - 1] && ccbCb
            && forall i :: from <= i < next - 1 ==> failsAtOnce[i])
      && (!targetSock ==>
            && next == |wellFormed| && requested == before
            && forall i :: from <= i < next ==> failsAtOnce[i])
    }

    /** ReliSock::do_reverse_connect creates the client and keeps a reference in the socket. */
    constructor (wellFormed: seq<bool>, failsAtOnce: seq<bool>, noSocketPair: seq<bool>)
      requires |failsAtOnce| == |noSocketPair| == |wellFormed|
      requires forall i :: 0 <= i < |noSocketPair| && noSocketPair[i] ==> failsAtOnce[i]
      ensures Valid() && !started && !aborted && !released && requested == []
      ensures this.wellFormed == wellFormed && this.failsAtOnce == failsAtOnce && this.noSocketPair == noSocketPair
    {
      this.wellFormed, this.failsAtOnce, this.noSocketPair := wellFormed, failsAtOnce, noSocketPair;
      next, started, targetSock, ccbCb, deadlineTimer, waiting := 0, false, true, false, false, false;
      socketRef, refCount, released, held := true, 1, false, 0;
      handlerCalls, connected, requested, aborted := 0, false, [], false;
    }

    // ---------- the reference count ----------

    method IncRefCount()
      requires !released
      modifies this`refCount
      ensures refCount == old(refCount) + 1
    {
      refCount := refCount + 1;
    }

    method DecRefCount()
      requires !released && refCount > 0  // the latter an ASSERT
      modifies this`refCount, this`released
      ensures refCount == old(refCount) - 1
      ensures released <==> refCount == 0
    {
      refCount := refCount - 1;
      released := refCount == 0;
    }

    // ---------- the operation ----------

    /** The result of asking from contact `n` on tells whether the operation is under way: it
        does unless the first request fails at once, and then a failed socket pair must mean
        that all later ones fail too, and a message that was not started that one does not. */
    ghost predicate ResultTells(n: nat)
      requires |failsAtOnce| == |noSocketPair| == |wellFormed|
    {
      n < |wellFormed| && failsAtOnce[n] ==>
        (noSocketPair[n] <==> forall i :: n < i < |wellFormed| ==> failsAtOnce[i])
    }

    /** Starts the operation. Without a broker to ask it is over, and the client gone, by the
        time this returns. The result is meant to say whether it is under way. */
    method ReverseConnect() returns (ok: bool)
      requires Valid() && !started && !aborted
      modifies this
      ensures aborted <==> ReachesMalformed(old(next))
      ensures !aborted ==> Valid() && started && Asked(old(next), old(requested))
      ensures !aborted ==> (released <==> !targetSock) && !connected
      ensures !aborted ==> ((ok <==> targetSock) <==> ResultTells(old(next)))
    {
      started := true;
      ok := TryNextCcb();
    }

    /** Asks the next broker, or gives up. Registering a client that is already waiting trips
        an ASSERT, which is what happens after a malformed contact. Unless the caller holds a
        reference, giving up releases the client. The result is false for a failed socket pair,
        whatever broker is asked after it. */
    method TryNextCcb() returns (ok: bool)
      requires Consistent() && started && targetSock && socketRef && !waiting && !ccbCb && !deadlineTimer
      requires handlerCalls == 0 && !aborted && !connected
      modifies this
      ensures aborted <==> ReachesMalformed(old(next))
      ensures !aborted ==> Resting(old(held)) && Asked(old(next), old(requested)) && !connected
      ensures !aborted ==> (released <==> !targetSock && held == 0)
      ensures !aborted ==> (ok <==> old(next) < |wellFormed| && !noSocketPair[old(next)])
      decreases |wellFormed| - next, 1
    {
      RegisterReverseConnectCallback();
      if next == |wellFormed| {
        ReverseConnectCallback(false);
        return false;
      }
      var contact := next;
      next := next + 1;
      if !wellFormed[contact] {
        // try_next_ccb calls itself, which registers the client once more
        RegisterReverseConnectCallback();
        return false;
      }
      IncRefCount();
      ccbCb := true;
      if failsAtOnce[contact] {
        CCBResultsCallback(false, false);
        return !noSocketPair[contact];
      }
      requested := requested + [contact];
      ok := true;
    }

    /** `Valid` while `h` callbacks further out are running. */
    ghost predicate Resting(h: nat)
      reads this
    {
      && Consistent() && held == h && started
      && (socketRef <==> targetSock) && (waiting <==> targetSock)
      && (deadlineTimer <==> waiting) && (ccbCb ==> waiting)
      && handlerCalls == One(!targetSock) && (targetSock ==> !connected)
    }

    /** The broker's answer, or the news that it could not be reached. The reference taken for
        this callback is given up last; the client goes with it if there was no broker left. */
    method CCBResultsCallback(delivered: bool, result: bool)
      requires Consistent() && started && targetSock && socketRef && waiting && deadlineTimer && ccbCb
      requires handlerCalls == 0 && !aborted && !released && !connected
      modifies this
      ensures !aborted ==> !connected
      ensures delivered && result ==>
        !aborted && Resting(old(held)) && targetSock && !ccbCb && requested == old(requested)
      ensures !(delivered && result) ==> (aborted <==> ReachesMalformed(old(next)))
      ensures !(delivered && result) && !aborted ==> Resting(old(held)) && Asked(old(next), old(requested))
      ensures !aborted ==> (released <==> !targetSock && held == 0)
      decreases |wellFormed| - next, 3
    {
      ccbCb, held := false, held + 1;
      if !delivered || !result {
        LeaveAndTryNext();
        if aborted {
          return;
        }
      }
      held := held - 1;
      DecRefCount();
    }

    /** The request has failed: out of the waiting table and on to the next broker. The caller's
        reference keeps the client alive. */
    method LeaveAndTryNext()
      requires Consistent() && started && targetSock && socketRef && waiting && deadlineTimer && !ccbCb
      requires handlerCalls == 0 && !aborted && held > 0 && !connected
      modifies this
      ensures aborted <==> ReachesMalformed(old(next))
      ensures !aborted ==> Resting(old(held)) && Asked(old(next), old(requested)) && !released && !connected
      decreases |wellFormed| - next, 2
    {
      UnregisterReverseConnectCallback();
      var _ := TryNextCcb();
    }

    method RegisterReverseConnectCallback()
      requires !released
      modifies this`deadlineTimer, this`waiting, this`refCount, this`aborted
      ensures deadlineTimer && waiting
      ensures aborted == (old(aborted) || old(waiting))
      ensures refCount == old(refCount) + One(!old(waiting))
    {
      if !deadlineTimer {
        deadlineTimer := true;
      }
      if waiting {
        aborted := true;  // ASSERT: the table refuses a duplicate
        return;
      }
      waiting := true;
      IncRefCount();
    }

    /** Leaving the waiting table may be what releases the client; nothing is touched after it. */
    method UnregisterReverseConnectCallback()
      requires !released && (waiting ==> refCount > 0)
      modifies this`deadlineTimer, this`waiting, this`refCount, this`released, this`aborted
      ensures !deadlineTimer && !waiting
      ensures aborted == (old(aborted) || !old(waiting))
      ensures refCount == old(refCount) - One(old(waiting))
      ensures released <==> old(waiting) && refCount == 0
    {
      deadlineTimer := false;
      if !waiting {
        aborted := true;  // ASSERT: the client is in the table
        return;
      }
      waiting := false;
      DecRefCount();
    }

    // ---------- the last stage ----------

    /** ReliSock::exit_reverse_connecting_state: the socket takes over the connection, if there is
        one, and drops its reference to the client whose method is running. */
    method ExitReverseConnectingState(connection: bool)
      requires !released && socketRef && refCount > 0
      modifies this`socketRef, this`refCount, this`released, this`connected
      ensures !socketRef && refCount == old(refCount) - 1 && (released <==> refCount == 0)
      ensures connected == (old(connected) || connection)
    {
      if connection {
        connected := true;
      }
      socketRef := false;
      DecRefCount();
    }

    method CallSocketHandler()
      requires !released && targetSock  // the client passes on its m_target_sock
      modifies this`handlerCalls
      ensures handlerCalls == old(handlerCalls) + 1
    {
      handlerCalls := handlerCalls + 1;
    }

    method ClearTargetSock()
      requires !released
      modifies this`targetSock
      ensures !targetSock
    {
      targetSock := false;
    }

    method CancelAwaitedReply()
      requires !released && (ccbCb ==> refCount > 0)
      modifies this`ccbCb, this`refCount, this`released
      ensures !ccbCb && refCount == old(refCount) - One(old(ccbCb))
      ensures released <==> old(ccbCb) && refCount == 0
    {
      if ccbCb {
        ccbCb := false;
        DecRefCount();
      }
    }

    /** Hand the connection, or its absence, to the target socket. The socket's reference and
        that of an awaited reply go first, while the one of the waiting table still keeps the
        client alive. The client is released by the very last step, if and only if no running
        callback further out holds a reference. */
    method ReverseConnectCallback(connection: bool)
      requires Consistent() && started && targetSock && socketRef && waiting && handlerCalls == 0 && !aborted
      requires !connected
      modifies this`connected, this`targetSock, this`socketRef, this`handlerCalls, this`ccbCb, this`refCount, this`released,
               this`deadlineTimer, this`waiting, this`aborted
      ensures !aborted && Consistent()
      ensures !targetSock && !socketRef && handlerCalls == 1 && !ccbCb && !waiting && !deadlineTimer
      ensures refCount == held && (released <==> held == 0)
      ensures connected == connection
    {
      assert targetSock;  // ASSERT( m_target_sock )
      ExitReverseConnectingState(connection);
      CallSocketHandler();
      ClearTargetSock();
      CancelAwaitedReply();
      UnregisterReverseConnectCallback();
    }

    /** A reversed connection with this client's connect id: the lookup in the waiting table
        holds a reference for as long as the handler runs. */
    method ReverseConnectCommandHandler() returns (found: bool)
      requires Valid() && !aborted
      modifies this
      ensures !aborted && Valid() && found == old(waiting)
      ensures found ==> !targetSock && handlerCalls == 1 && released && connected
      ensures found ==> started == old(started) && requested == old(requested)
      ensures !found ==> unchanged(this)
    {
      if !waiting {
        return false;
      }
      IncRefCount();
      held := held + 1;
      ReverseConnectCallback(true);
      held := held - 1;
      DecRefCount();
      return true;
    }

    /** The target socket is closed while it waits. It reaches the client through its own
        reference, which the callback drops. */
    method CancelReverseConnect()
      requires Valid() && started && socketRef && !aborted
      modifies this
      ensures !aborted && Valid() && started && requested == old(requested)
      ensures !targetSock && handlerCalls == 1 && released && connected == old(connected)
    {
      if targetSock {
        ReverseConnectCallback(false);
      }
    }

    method DeadlineExpired()
      requires Valid() && started && deadlineTimer && !aborted
      modifies this
      ensures !aborted && Valid() && started && requested == old(requested)
      ensures !targetSock && handlerCalls == 1 && released && connected == old(connected)
    {
      deadlineTimer := false;
      if targetSock {
        ReverseConnectCallback(false);
      }
    }

    // ---------- whole runs ----------

    /** Whether something outside still refers to the client and so can bring this event. */
    predicate Possible(e: Event)
      reads this
    {
      match e
      case BrokerAnswers(_, _) => ccbCb
      case Connects => waiting
      case SocketCloses => socketRef
      case DeadlinePasses => deadlineTimer
    }

    /** Between callbacks the client is released exactly if it has completed, and then nothing
        refers to it any more: no callback ever meets a released client. */
    lemma ReleasedIffCompleted()
      requires Valid() && started
      ensures released <==> handlerCalls == 1
      ensures handlerCalls <= 1
      ensures waiting <==> targetSock
      ensures waiting <==> handlerCalls == 0
      ensures (exists e :: Possible(e)) <==> !released
      ensures |requested| <= |wellFormed|
    {
      AtMostOnePerContact(requested, next);
      assert socketRef ==> Possible(SocketCloses);
    }

    /** Every run: start, and then any events that can come, in any order. No contact is asked
        twice. The target socket is handed a connection exactly if the event that ends the
        operation is the arrival of one; `last` is that event, -1 if it ends while it is started. */
    method Run(events: seq<Event>) returns (ghost last: int)
      requires Valid() && !started && !aborted
      modifies this
      ensures aborted ==> exists i :: 0 <= i < |wellFormed| && !wellFormed[i]
      ensures !aborted ==> Valid() && handlerCalls <= 1 && (released <==> handlerCalls == 1)
      ensures !aborted ==> (waiting <==> targetSock) && (waiting <==> handlerCalls == 0)
      ensures !aborted ==> forall i :: 0 <= i < |requested| ==> requested[i] < |wellFormed|
      ensures !aborted ==> forall i, j :: 0 <= i < j < |requested| ==> requested[i] != requested[j]
      ensures !aborted ==> |requested| <= |wellFormed|
      ensures !aborted && SocketCloses in events ==> handlerCalls == 1
      ensures !aborted ==> -1 <= last <= |events| && (handlerCalls == 1 <==> last < |events|)
      ensures !aborted ==> (connected <==> 0 <= last < |events| && events[last] == Connects)
      ensures !aborted ==> forall i :: 0 <= i < last ==> events[i] !in {Connects, SocketCloses, DeadlinePasses}
    {
      ghost var first := next;
      var _ := ReverseConnect();
      last := -1;
      if aborted {
        MalformedExists(first);
        return;
      }
      ReleasedIffCompleted();
      for i := 0 to |events|
        invariant !aborted && Valid() && started
        invariant SocketCloses in events[..i] ==> handlerCalls == 1
        invariant -1 <= last < i
        invariant handlerCalls == 1 ==> (connected <==> last >= 0 && events[last] == Connects)
        invariant forall j :: 0 <= j < (if handlerCalls == 1 then last else i) ==>
          events[j] !in {Connects, SocketCloses, DeadlinePasses}
      {
        ReleasedIffCompleted();
        if Possible(events[i]) {
          ghost var from := next;
          match events[i] {
            case BrokerAnswers(delivered, result) => CCBResultsCallback(delivered, result);
            case Connects => var _ := ReverseConnectCommandHandler();
            case SocketCloses => CancelReverseConnect();
            case DeadlinePasses => DeadlineExpired();
          }
          if aborted {
            MalformedExists(from);
            return;
          }
          last := i;
        }
      }
      ReleasedIffCompleted();
      assert events[..|events|] == events;
      if handlerCalls == 0 {
        last := |events|;
      }
    }

    lemma {:induction false} MalformedExists(n: nat)
      requires |failsAtOnce| == |wellFormed| && ReachesMalformed(n)
      ensures exists i :: 0 <= i < |wellFormed| && !wellFormed[i]
      decreases |wellFormed| - n
    {
      if wellFormed[n] {
        MalformedExists(n + 1);
      }
    }
  }

  /** An increasing sequence of contacts below `next` has at most `next` entries. */
  lemma {:induction false} AtMostOnePerContact(requested: seq<nat>, next: nat)
    requires forall i :: 0 <= i < |requested| ==> requested[i] < next
    requires forall i, j :: 0 <= i < j < |requested| ==> requested[i] < requested[j]
    ensures |requested| <= next
  {
    if requested != [] {
      var last := requested[|requested| - 1];
      AtMostOnePerContact(requested[..|requested| - 1], last);
    }
  }
}
