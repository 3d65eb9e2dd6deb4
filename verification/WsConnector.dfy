/**
 Request/response correlation over one socket (crates/rfq-router/src/ws_connector.rs:27-138): request ids, the
 map of pending requests, timeouts and the drain on disconnect. Each method is one section of the program that
 runs under the pending lock or on one task; calls interleave in any order.
 */
module WsConnector {
  import opened Options

  datatype Reply = Quote(text: string) | Prices(text: string) | Settlement(text: string) | Err(message: string)

  datatype CallError = ConnectionClosed | TimedOut

  const DISCONNECTED := Err("maker disconnected")

  /** None of the responses from `start` up to `n` carries this id. */
  ghost predicate Unanswered(frames: seq<(nat, Reply)>, start: nat, n: nat, id: nat) {
    forall j :: start <= j < n && j < |frames| ==> frames[j].0 != id
  }

  /** The reply is the disconnect notice, or response `k`, the first with this id from `start` on. */
  ghost predicate AnsweredAt(frames: seq<(nat, Reply)>, start: nat, id: nat, reply: Reply, k: nat) {
    start <= k < |frames| && frames[k] == (id, reply) && Unanswered(frames, start, k, id)
  }

  ghost predicate Answered(frames: seq<(nat, Reply)>, start: nat, id: nat, reply: Reply) {
    reply == DISCONNECTED || exists k :: AnsweredAt(frames, start, id, reply, k)
  }

  lemma AnsweredGrows(frames: seq<(nat, Reply)>, frame: (nat, Reply), start: nat, id: nat, reply: Reply)
    requires Answered(frames, start, id, reply)
    ensures Answered(frames + [frame], start, id, reply)
  {
    if reply != DISCONNECTED {
      var k :| AnsweredAt(frames, start, id, reply, k);
      assert AnsweredAt(frames + [frame], start, id, reply, k);
    }
  }

  /** The notices a drained map of pending requests sends. */
  method Drain(pending: set<nat>) returns (notices: map<nat, Reply>)
    ensures notices == map id | id in pending :: DISCONNECTED
  {
    notices := map[];
    var draining := pending;
    while draining != {}
      invariant draining <= pending
      invariant notices == map id | id in pending && id !in draining :: DISCONNECTED
      decreases |draining|
    {
      var id :| id in draining;
      draining := draining - {id};
      notices := notices[id := DISCONNECTED];
    }
  }

  class Connector {
    var nextReqId: nat
    /** Requests with a sender in the pending map. */
    var pending: set<nat>
    /** What was sent on a request's one-shot channel. */
    var delivered: map<nat, Reply>
    /** What a call has returned to its caller. */
    var returned: map<nat, Result<Reply, CallError>>
    /** The responses read so far. */
    ghost var frames: seq<(nat, Reply)>
    /** How many responses had been read when a request was registered. */
    ghost var registered: map<nat, nat>

    /** Ids are handed out once; a pending request has had no response since it was registered; what was
        delivered to a request is the first response with its own id since then, or the disconnect notice;
        and a call that succeeded returned what was delivered to it. */
    ghost predicate Valid()
      reads this
    {
      && nextReqId >= 1 && (forall id :: id in registered <==> 1 <= id < nextReqId)
      && (forall id :: id in registered ==> registered[id] <= |frames|)
      && (forall id :: id in pending ==>
            id in registered && id !in delivered && Unanswered(frames, registered[id], |frames|, id))
      && (forall id :: id in delivered ==> id in registered && Answered(frames, registered[id], id, delivered[id]))
      && (forall id :: id in returned ==> id in registered && id !in pending)
      && (forall id :: id in returned && returned[id].Success? ==> id in delivered && returned[id].value == delivered[id])
    }

    /** Nothing delivered or returned is ever replaced. */
    twostate predicate Grows()
      reads this
    {
      && (forall id :: id in old(delivered) ==> id in delivered && delivered[id] == old(delivered)[id])
      && (forall id :: id in old(returned) ==> id in returned && returned[id] == old(returned)[id])
      && old(frames) <= frames
    }

    constructor ()
      ensures Valid() && nextReqId == 1 && pending == {} && delivered == map[] && returned == map[] && frames == []
    {
      nextReqId, pending, delivered, returned := 1, {}, map[], map[];
      frames, registered := [], map[];
    }

    /** A call takes the next id and registers its channel. */
    method Register() returns (id: nat)
      requires Valid()
      modifies this
      ensures Valid() && Grows()
      ensures id == old(nextReqId) && nextReqId == id + 1 && id !in old(registered)
      ensures pending == old(pending) + {id} && registered == old(registered)[id := |frames|]
      ensures delivered == old(delivered) && returned == old(returned) && frames == old(frames)
    {
      id := nextReqId;
      nextReqId := nextReqId + 1;
      registered := registered[id := |frames|];
      pending := pending + {id};
    }

    /** The reader got a response: whoever waits for this id gets it; without one it is ignored. */
    method ReadResponse(id: nat, reply: Reply)
      requires Valid()
      modifies this
      ensures Valid() && Grows()
      ensures frames == old(frames) + [(id, reply)] && pending == old(pending) - {id}
      ensures delivered == if id in old(pending) then old(delivered)[id := reply] else old(delivered)
      ensures nextReqId == old(nextReqId) && returned == old(returned) && registered == old(registered)
    {
      forall other | other in delivered
        ensures Answered(frames + [(id, reply)], registered[other], other, delivered[other])
      {
        AnsweredGrows(frames, (id, reply), registered[other], other, delivered[other]);
      }
      frames := frames + [(id, reply)];
      if id in pending {
        assert AnsweredAt(frames, registered[id], id, reply, |frames| - 1);
        pending := pending - {id};
        delivered := delivered[id := reply];
      }
    }

    /** The stream ended: every request still pending is told so. */
    method EndOfStream()
      requires Valid()
      modifies this
      ensures Valid() && Grows() && pending == {}
      ensures delivered == old(delivered) + map id | id in old(pending) :: DISCONNECTED
      ensures nextReqId == old(nextReqId) && returned == old(returned) && frames == old(frames) && registered == old(registered)
    {
      var notices := Drain(pending);
      pending := {};
      delivered := delivered + notices;
    }

    /** The outgoing channel was closed: the call withdraws its request. */
    method SendFailed(id: nat)
      requires Valid() && id in registered && id !in returned
      modifies this
      ensures Valid() && Grows() && pending == old(pending) - {id}
      ensures returned == old(returned)[id := Failure(ConnectionClosed)]
      ensures delivered == old(delivered) && frames == old(frames) && registered == old(registered) && nextReqId == old(nextReqId)
    {
      pending := pending - {id};
      returned := returned[id := Failure(ConnectionClosed)];
    }

    /** A waiting call is polled: it returns what was delivered, or, past its deadline, withdraws. */
    method Poll(id: nat, deadlinePassed: bool) returns (r: Option<Result<Reply, CallError>>)
      requires Valid() && id in registered && id !in returned
      modifies this
      ensures Valid() && Grows()
      ensures r == if id in delivered then Some(Success(delivered[id])) else if deadlinePassed then Some(Failure(TimedOut)) else None
      ensures returned == if r.Some? then old(returned)[id := r.value] else old(returned)
      ensures pending == if r.Some? then old(pending) - {id} else old(pending)
      ensures delivered == old(delivered) && frames == old(frames) && registered == old(registered) && nextReqId == old(nextReqId)
    {
      if id in delivered {
        r := Some(Success(delivered[id]));
      } else if deadlinePassed {
        pending := pending - {id};
        r := Some(Failure(TimedOut));
      } else {
        return None;
      }
      returned := returned[id := r.value];
    }
  }

  /** What the invariant says of a finished call: a reply it returned is the disconnect notice or a response
      that carried its own id and arrived after the call was made, the first such response. */
  lemma OwnReply(c: Connector, id: nat)
    requires c.Valid() && id in c.returned && c.returned[id].Success? && c.returned[id].value != DISCONNECTED
    ensures id in c.registered
    ensures exists k :: AnsweredAt(c.frames, c.registered[id], id, c.returned[id].value, k)
  {
    assert Answered(c.frames, c.registered[id], id, c.delivered[id]);
  }
}
