/** The life of publish requests: queued, retained, in flight, and completed exactly once. */
module PublishRequests {

  datatype Status = OK | ErrNoRoute | ErrWrite | ErrFailed(code: nat)

  /** What one call to send a publication comes to. */
  datatype Outcome =
    | NotSent                // nothing was handed to the network
    | Done(status: Status)   // completed before the call returned
    | InFlight               // completes later

  /** A request: at first it has no route; one successful send makes it a success. */
  ghost function Verdict(results: seq<Status>): Status {
    if results == [] then ErrNoRoute
    else if Verdict(results[..|results| - 1]) == OK then OK
    else results[|results| - 1]
  }

  lemma {:induction false} VerdictMeans(results: seq<Status>)
    ensures Verdict(results) == OK <==> OK in results
    ensures results != [] && OK !in results ==> Verdict(results) == results[|results| - 1]
  {
    if results != [] {
      var front := results[..|results| - 1];
      VerdictMeans(front);
      assert results == front + [results[|results| - 1]];
    }
  }

  /** The statuses of the sends that have completed at once, in order, and the number of those that complete later. */
  ghost function Statuses(outcomes: seq<Outcome>): seq<Status> {
    if outcomes == [] then []
    else
      var last := outcomes[|outcomes| - 1];
      Statuses(outcomes[..|outcomes| - 1]) + if last.Done? then [last.status] else []
  }

  ghost function Flights(outcomes: seq<Outcome>): nat {
    if outcomes == [] then 0
    else Flights(outcomes[..|outcomes| - 1]) + if outcomes[|outcomes| - 1].InFlight? then 1 else 0
  }

  lemma NothingPlanned()
    ensures Statuses([]) == [] && Flights([]) == 0
  {
  }

  lemma OneOutcome(outcomes: seq<Outcome>, i: nat)
    requires i < |outcomes|
    ensures Statuses(outcomes[..i + 1]) == Statuses(outcomes[..i]) + if outcomes[i].Done? then [outcomes[i].status] else []
    ensures Flights(outcomes[..i + 1]) == Flights(outcomes[..i]) + if outcomes[i].InFlight? then 1 else 0
  {
    assert outcomes[..i + 1][..i] == outcomes[..i];
  }

  /** What is planned for the `k`th request. */
  function PlanAt(plan: seq<seq<Outcome>>, k: nat): seq<Outcome> {
    if k < |plan| then plan[k] else []
  }

  /** What is planned for a request if it is among the first `i` of a queue. */
  ghost function Share(queue: seq<Request>, plan: seq<seq<Outcome>>, i: nat, r: Request): seq<Outcome>
    requires i <= |queue|
  {
    if i == 0 then [] else if queue[i - 1] == r then PlanAt(plan, i - 1) else Share(queue, plan, i - 1, r)
  }

  lemma {:induction false} NotShared(queue: seq<Request>, plan: seq<seq<Outcome>>, i: nat, r: Request)
    requires i <= |queue| && forall j | 0 <= j < i :: queue[j] != r
    ensures Share(queue, plan, i, r) == []
  {
    if i > 0 {
      NotShared(queue, plan, i - 1, r);
    }
  }

  ghost predicate NoRepeats(queue: seq<Request>) {
    forall i, j | 0 <= i < j < |queue| :: queue[i] != queue[j]
  }

  /** Each request of a queue without repetition has its own plan. */
  lemma {:induction false} SharedAt(queue: seq<Request>, plan: seq<seq<Outcome>>, i: nat, k: nat)
    requires k < i <= |queue| && NoRepeats(queue)
    ensures Share(queue, plan, i, queue[k]) == PlanAt(plan, k)
  {
    if k < i - 1 {
      SharedAt(queue, plan, i - 1, k);
    }
  }

  /** How often a request is in a queue. */
  ghost function Times(q: seq<Request>, r: Request): nat {
    multiset(q)[r]
  }

  lemma Popped(q: seq<Request>)
    requires q != []
    ensures forall r: Request :: Times(q[1..], r) == Times(q, r) - if r == q[0] then 1 else 0
    ensures forall r | r in q[1..] :: r in q
    ensures Times(q, q[0]) > 0
  {
    assert q == [q[0]] + q[1..];
  }

  lemma Pushed(q: seq<Request>, x: Request)
    ensures forall r: Request :: Times(q + [x], r) == Times(q, r) + if r == x then 1 else 0
  {
  }

  lemma TwiceQueued(q: seq<Request>, i: nat, j: nat)
    requires i < j < |q| && q[i] == q[j]
    ensures Times(q, q[i]) > 1
  {
    assert q == q[..i] + [q[i]] + q[i + 1..j] + [q[j]] + q[j + 1..];
  }

  lemma NotQueued(q: seq<Request>)
    ensures forall r: Request :: r in q <==> Times(q, r) > 0
  {
  }

  class Request {
    var refCount: nat
    var status: Status
    var ttl: int
    var expires: nat
    /** How often the completion callback has run, and with what status the last time. */
    var completions: nat
    var reported: Status
    /** The statuses of all sends that have completed, and whether the request was dropped with its publication. */
    ghost var results: seq<Status>
    ghost var dropped: bool

    constructor (ttl: int)
      ensures refCount == 0 && status == ErrNoRoute && this.ttl == ttl && expires == 0 && completions == 0
      ensures results == [] && !dropped
    {
      refCount, status, this.ttl, expires, completions, reported := 0, ErrNoRoute, ttl, 0, 0, OK;
      results, dropped := [], false;
    }

    ghost predicate Faithful()
      reads `status, `dropped, `results
    {
      status == if dropped then ErrWrite else Verdict(results)
    }
  }

  class Publication {
    var refCount: nat
    var local: bool
    var retained: bool
    var expired: bool
    var wasFreed: bool
    var ttl: int
    var sendQueue: seq<Request>
    var retainedQueue: seq<Request>

    /** The requests accepted so far, those with a send in flight, and the number of other references. */
    ghost var requests: set<Request>
    ghost var inFlight: multiset<Request>
    ghost var holders: nat

    /** In how many places a request is held. */
    ghost function Held(r: Request): nat
      reads `sendQueue, `retainedQueue, `inFlight
    {
      Times(sendQueue, r) + Times(retainedQueue, r) + inFlight[r]
    }

    /** A request is in at most one queue, and its reference count says in how many places it is held; one that is kept is in
        no queue, but has a reference of its own. */
    ghost predicate Counted(r: Request, kept: bool)
      reads `sendQueue, `retainedQueue, `inFlight, r`refCount, r`dropped
    {
      && Times(sendQueue, r) + Times(retainedQueue, r) <= (if kept then 0 else 1)
      && r.refCount == Held(r) + (if kept then 1 else 0) && (r.refCount > 0 ==> !r.dropped)
    }

    /** The callback of a request has run exactly when it is held nowhere and not being worked on. */
    ghost predicate CompletedOnce(r: Request, busy: bool)
      reads `sendQueue, `retainedQueue, `inFlight, r`completions
    {
      r.completions == if Held(r) == 0 && !busy then 1 else 0
    }

    ghost predicate Known()
      reads `sendQueue, `retainedQueue, `inFlight, `requests
    {
      && (forall r | r in sendQueue :: r in requests) && (forall r | r in retainedQueue :: r in requests)
      && (forall r | r in inFlight :: r in requests)
    }

    /** The state while one request is kept after its expiration, and some are being worked on. */
    ghost predicate During(kept: Request?, limbo: set<Request>)
      reads this, requests
    {
      && Known() && refCount == |inFlight| + holders && |retainedQueue| <= 1
      && (kept != null ==> kept in requests && kept !in limbo)
      && limbo <= requests && (forall r | r in limbo :: r !in sendQueue && r !in retainedQueue)
      && (forall r | r in requests :: Counted(r, r == kept) && CompletedOnce(r, r == kept || r in limbo) && r.Faithful())
    }

    ghost predicate Valid()
      reads this, requests
    {
      During(null, {}) && (wasFreed && refCount == 0 ==> sendQueue == [] && retainedQueue == [])
    }

    constructor (local: bool)
      ensures Valid() && requests == {} && !wasFreed && holders == 0
    {
      this.local := local;
      refCount, retained, expired, wasFreed, ttl := 0, false, false, false, 0;
      sendQueue, retainedQueue := [], [];
      requests, inFlight, holders := {}, multiset{}, 0;
    }

    /** A request that a step does not touch is as it was before. */
    twostate lemma Undisturbed(r: Request)
      requires Times(sendQueue, r) == old(Times(sendQueue, r)) && Times(retainedQueue, r) == old(Times(retainedQueue, r))
      requires inFlight[r] == old(inFlight[r])
      requires r.refCount == old(r.refCount) && r.dropped == old(r.dropped) && r.completions == old(r.completions)
      ensures forall kept :: Counted(r, kept) <==> old(Counted(r, kept))
      ensures forall busy :: CompletedOnce(r, busy) <==> old(CompletedOnce(r, busy))
    {
    }

    /** A request that is being worked on, or is held, has not completed. */
    lemma Unfinished(req: Request, kept: Request?, limbo: set<Request>)
      requires During(kept, limbo) && req in requests && req != kept && (req in limbo || Held(req) > 0)
      ensures req.refCount == Held(req) && req.completions == 0 && Counted(req, false)
    {
      assert Counted(req, req == kept) && CompletedOnce(req, req == kept || req in limbo);
    }

    /** A request in a queue. */
    lemma InOneQueue(req: Request, kept: Request?, limbo: set<Request>)
      requires During(kept, limbo) && (req in sendQueue || req in retainedQueue)
      ensures Times(sendQueue, req) + Times(retainedQueue, req) == 1 && Counted(req, false) && req.completions == 0
      ensures req.refCount == Held(req) && !req.dropped && req != kept && req in requests
    {
      assert Counted(req, req == kept) && CompletedOnce(req, req == kept || req in limbo);
      NotQueued(sendQueue);
      NotQueued(retainedQueue);
    }

    /** A request that is in no queue, but is being worked on. */
    lemma Working(req: Request)
      requires Times(sendQueue, req) + Times(retainedQueue, req) == 0 && req.completions == 0
      requires req.refCount == Held(req) && !req.dropped
      ensures Counted(req, false) && CompletedOnce(req, true)
    {
    }

    /** A request that is in no queue, but is kept. */
    lemma Keeping(req: Request)
      requires Times(sendQueue, req) + Times(retainedQueue, req) == 0 && req.completions == 0
      requires req.refCount == Held(req) + 1 && !req.dropped
      ensures Counted(req, true) && CompletedOnce(req, true)
    {
    }

    /** A request that has been put in a queue. */
    lemma Queued(req: Request)
      requires Times(sendQueue, req) + Times(retainedQueue, req) == 1 && req.completions == 0
      requires req.refCount == Held(req) && !req.dropped
      ensures Counted(req, false) && CompletedOnce(req, false)
    {
    }

    lemma NowCompleted(req: Request)
      requires req.completions == (if Held(req) == 0 then 1 else 0)
      ensures CompletedOnce(req, false)
    {
    }

    /** Runs the callback of a request that nothing refers to any more. */
    method PublishCompletion(req: Request, ghost kept: Request?, ghost limbo: set<Request>)
      requires During(kept, limbo) && req in requests && req != kept && (req in limbo || Held(req) > 0)
      modifies req`completions, req`reported
      ensures During(kept, limbo - {req})
      ensures Held(req) == 0 ==> req.reported == if req.status == ErrNoRoute then OK else req.status
    {
      hide Counted, CompletedOnce, Times, Held, Request.Faithful, Known;
      Unfinished(req, kept, limbo);
      if req.refCount == 0 {
        req.completions := req.completions + 1;
        req.reported := if req.status == ErrNoRoute then OK else req.status;
      }
      NowCompleted(req);
      forall r | r in requests && r != req
        ensures Counted(r, r == kept) && CompletedOnce(r, r == kept || r in limbo - {req})
      {
        Undisturbed(r);
      }
    }

    /** Takes the first request off the send queue. */
    method PopSend(ghost kept: Request?) returns (req: Request)
      requires During(kept, {}) && sendQueue != []
      modifies `sendQueue, requests`refCount
      ensures During(kept, {req}) && !req.dropped && sendQueue == old(sendQueue)[1..] && req == old(sendQueue)[0]
    {
      hide Times, Counted, CompletedOnce, Request.Faithful;
      ghost var q := sendQueue;
      Popped(q);
      NotQueued(q[1..]);
      NotQueued(retainedQueue);
      req := sendQueue[0];
      InOneQueue(req, kept, {});
      sendQueue := sendQueue[1..];
      req.refCount := req.refCount - 1;
      Working(req);
      forall r | r in requests && r != req
        ensures Counted(r, r == kept) && CompletedOnce(r, r == kept)
      {
        Undisturbed(r);
      }
    }

    /** Takes the retained request off its queue; the reference of the queue is kept. */
    method PopRetained(ghost limbo: set<Request>) returns (kept: Request)
      requires During(null, limbo) && retainedQueue != []
      modifies `retainedQueue
      ensures During(kept, limbo) && retainedQueue == [] && kept == old(retainedQueue)[0]
    {
      hide Times, Counted, CompletedOnce, Request.Faithful;
      Popped(retainedQueue);
      NotQueued(sendQueue);
      kept := retainedQueue[0];
      InOneQueue(kept, null, limbo);
      retainedQueue := retainedQueue[1..];
      Keeping(kept);
      forall r | r in requests && r != kept
        ensures Counted(r, false) && CompletedOnce(r, r in limbo)
      {
        Undisturbed(r);
      }
    }

    /** Drops the reference that an expired request was kept with. */
    method DropKept(kept: Request?, ghost limbo: set<Request>)
      requires During(kept, limbo)
      modifies requests`refCount, requests`completions, requests`reported
      ensures During(null, limbo)
    {
      if kept != null {
        kept.refCount := kept.refCount - 1;
        PublishCompletion(kept, null, limbo + {kept});
        assert limbo + {kept} - {kept} == limbo;
      }
    }

    /** Retains the request that has been sent. */
    method Retain(req: Request, ghost kept: Request?, ghost limbo: set<Request>)
      requires During(kept, limbo) && req in limbo && !req.dropped && retainedQueue == []
      modifies `retainedQueue, req`refCount
      ensures During(kept, limbo - {req}) && retainedQueue == [req]
    {
      hide Times, Counted, CompletedOnce, Request.Faithful;
      Pushed(retainedQueue, req);
      NotQueued(sendQueue);
      NotQueued(retainedQueue);
      Unfinished(req, kept, limbo);
      retainedQueue := retainedQueue + [req];
      req.refCount := req.refCount + 1;
      Queued(req);
      forall r | r in requests && r != req
        ensures Counted(r, r == kept) && CompletedOnce(r, r == kept || r in limbo - {req})
      {
        Undisturbed(r);
      }
    }

    /** Notes the completion of one send. */
    method SendComplete(req: Request, status: Status)
      requires req.refCount > 0 && req.Faithful() && !req.dropped
      modifies req`refCount, req`status, req`results
      ensures req.refCount == old(req.refCount) - 1 && req.results == old(req.results) + [status] && req.Faithful()
    {
      req.refCount := req.refCount - 1;
      if req.status != OK {
        req.status := status;
      }
      req.results := req.results + [status];
      assert req.results[..|req.results| - 1] == old(req.results);
    }

    /** A send that completes before the call returns. */
    method SendNow(req: Request, status: Status, ghost kept: Request?, ghost limbo: set<Request>)
      requires During(kept, limbo) && req in limbo && !req.dropped
      modifies req`refCount, req`status, req`results
      ensures During(kept, limbo) && req.results == old(req.results) + [status]
    {
      hide Counted, CompletedOnce, Times, Request.Faithful, Known;
      Unfinished(req, kept, limbo);
      req.refCount := req.refCount + 1;
      SendComplete(req, status);
      forall r | r in requests
        ensures Counted(r, r == kept) && CompletedOnce(r, r == kept || r in limbo)
      {
        Undisturbed(r);
      }
    }

    /** A send that completes later, and that prevents the publication from being freed until then. */
    method SendLater(req: Request, ghost kept: Request?, ghost limbo: set<Request>)
      requires During(kept, limbo) && req in limbo && !req.dropped
      modifies `refCount, `inFlight, req`refCount
      ensures During(kept, limbo) && inFlight == old(inFlight) + multiset{req} && refCount == old(refCount) + 1
    {
      hide Times, Counted, CompletedOnce, Request.Faithful;
      Unfinished(req, kept, limbo);
      NotQueued(sendQueue);
      NotQueued(retainedQueue);
      req.refCount := req.refCount + 1;
      refCount := refCount + 1;
      inFlight := inFlight + multiset{req};
      Working(req);
      forall r | r in requests && r != req
        ensures Counted(r, r == kept) && CompletedOnce(r, r == kept || r in limbo)
      {
        Undisturbed(r);
      }
    }

    /** Sends a request once. */
    method SendPublication(req: Request, outcome: Outcome, ghost kept: Request?, ghost limbo: set<Request>)
      requires During(kept, limbo) && req in limbo && !req.dropped
      modifies `refCount, `inFlight, req`refCount, req`status, req`results
      ensures During(kept, limbo)
      ensures refCount >= old(refCount)
      ensures req.results == if outcome.Done? then old(req.results) + [outcome.status] else old(req.results)
      ensures inFlight == if outcome == InFlight then old(inFlight) + multiset{req} else old(inFlight)
    {
      hide During;
      match outcome
      case NotSent =>
      case Done(status) => SendNow(req, status, kept, limbo);
      case InFlight => SendLater(req, kept, limbo);
    }

    /** Drops a request with its publication. */
    method Drop(req: Request)
      requires During(null, {req}) && Held(req) == 0
      modifies req`status, req`dropped, req`completions, req`reported
      ensures During(null, {}) && req.reported == ErrWrite
    {
      req.status := ErrWrite;
      req.dropped := true;
      PublishCompletion(req, null, {req});
      assert {req} - {req} == {};
    }

    /** Drops the first request of the send queue. */
    method DropQueued()
      requires During(null, {}) && inFlight == multiset{} && sendQueue != []
      modifies `sendQueue
      modifies requests`refCount, requests`status, requests`dropped, requests`completions, requests`reported
      ensures During(null, {}) && sendQueue == old(sendQueue)[1..]
    {
      var req := PopSend(null);
      Drop(req);
    }

    /** Drops the first request of the retained queue. */
    method DropRetained()
      requires During(null, {}) && inFlight == multiset{} && retainedQueue != []
      modifies `retainedQueue
      modifies requests`refCount, requests`status, requests`dropped, requests`completions, requests`reported
      ensures During(null, {}) && retainedQueue == old(retainedQueue)[1..]
    {
      hide Known;
      var req := PopRetained({});
      req.refCount := req.refCount - 1;
      assert During(null, {req});
      Drop(req);
    }

    lemma NothingInFlight()
      requires During(null, {}) && refCount == 0
      ensures inFlight == multiset{}
    {
    }

    /** Drops the requests of a publication that nothing refers to any more. */
    method Drain()
      requires During(null, {}) && refCount == 0
      modifies `sendQueue, `retainedQueue
      modifies requests`refCount, requests`status, requests`dropped, requests`completions, requests`reported
      ensures During(null, {}) && sendQueue == [] && retainedQueue == []
    {
      NothingInFlight();
      hide During;
      while sendQueue != []
        invariant During(null, {}) && inFlight == multiset{}
        decreases |sendQueue|
      {
        DropQueued();
      }
      while retainedQueue != []
        invariant During(null, {}) && inFlight == multiset{} && sendQueue == []
        decreases |retainedQueue|
      {
        DropRetained();
      }
    }

    method Unlist(ghost kept: Request?)
      requires During(kept, {})
      modifies `wasFreed, `local, `retained, `expired
      ensures During(kept, {}) && wasFreed && (old(wasFreed) ==> expired == old(expired))
    {
      hide Request.Faithful, Counted, CompletedOnce, Known;
      if !wasFreed {
        wasFreed, local, retained, expired := true, false, false, false;
      }
    }

    /** Takes a publication off the node; it is dropped when nothing refers to it. */
    method FreePublication(ghost kept: Request?)
      requires During(kept, {}) && (refCount == 0 ==> kept == null)
      modifies `wasFreed, `local, `retained, `expired, `sendQueue, `retainedQueue
      modifies requests`refCount, requests`status, requests`dropped, requests`completions, requests`reported
      ensures During(kept, {}) && wasFreed && (old(wasFreed) ==> expired == old(expired))
      ensures refCount == 0 ==> sendQueue == [] && retainedQueue == []
      ensures refCount > 0 ==> sendQueue == old(sendQueue) && retainedQueue == old(retainedQueue)
    {
      Unlist(kept);
      hide During;
      if refCount == 0 {
        Drain();
      }
    }

    method IncRef()
      requires Valid() && !wasFreed
      modifies `refCount, `holders
      ensures Valid() && holders == old(holders) + 1
    {
      refCount := refCount + 1;
      holders := holders + 1;
    }

    method DecRef()
      requires During(null, {}) && holders > 0
      modifies `refCount, `holders, `wasFreed, `local, `retained, `expired, `sendQueue, `retainedQueue
      modifies requests`refCount, requests`status, requests`dropped, requests`completions, requests`reported
      ensures Valid() && holders == old(holders) - 1 && wasFreed == old(wasFreed) && expired == old(expired)
      ensures !wasFreed || refCount > 0 ==> sendQueue == old(sendQueue) && retainedQueue == old(retainedQueue)
    {
      refCount := refCount - 1;
      holders := holders - 1;
      if refCount == 0 && wasFreed {
        FreePublication(null);
      }
    }

    method ExpirePub(ghost kept: Request?)
      requires During(kept, {}) && (refCount == 0 ==> kept == null) && sendQueue == [] && retainedQueue == []
      modifies `wasFreed, `local, `retained, `expired, `sendQueue, `retainedQueue
      modifies requests`refCount, requests`status, requests`dropped, requests`completions, requests`reported
      ensures During(kept, {}) && sendQueue == [] && retainedQueue == []
      ensures if old(local) then expired && wasFreed == old(wasFreed) else wasFreed
    {
      hide During;
      if local {
        Expire(kept);
      } else {
        FreePublication(kept);
      }
    }

    method Expire(ghost kept: Request?)
      requires During(kept, {})
      modifies `expired
      ensures During(kept, {}) && expired
    {
      hide Counted, CompletedOnce, Known;
      expired := true;
    }

    /** The time when a request expires is fixed when it is sent for the first time. */
    function Expires(req: Request, now: nat): nat
      reads req`expires, req`ttl
    {
      if req.expires != 0 || req.ttl < 0 then req.expires else now + 1000 * req.ttl
    }

    lemma InLimbo(req: Request, kept: Request?)
      requires During(kept, {req})
      ensures req in requests && req !in sendQueue && req !in retainedQueue && req != kept
    {
    }

    /** Sends a request to everyone concerned. */
    method SendToAll(req: Request, outcomes: seq<Outcome>, ghost kept: Request?)
      requires During(kept, {req}) && !req.dropped
      modifies `refCount, `inFlight, req`refCount, req`status, req`results
      ensures During(kept, {req}) && refCount >= old(refCount)
      ensures req.results == old(req.results) + Statuses(outcomes)
      ensures inFlight[req] == old(inFlight[req]) + Flights(outcomes)
      ensures forall r | r != req :: inFlight[r] == old(inFlight[r])
    {
      hide During;
      for i := 0 to |outcomes|
        invariant During(kept, {req}) && !req.dropped && refCount >= old(refCount)
        invariant req.results == old(req.results) + Statuses(outcomes[..i])
        invariant inFlight[req] == old(inFlight[req]) + Flights(outcomes[..i])
        invariant forall r | r != req :: inFlight[r] == old(inFlight[r])
      {
        OneOutcome(outcomes, i);
        SendPublication(req, outcomes[i], kept, {req});
      }
      assert outcomes[..|outcomes|] == outcomes;
    }

    /** Makes room for one more retained request. */
    method MakeRoom(req: Request, expiring: Request?) returns (kept: Request?)
      requires During(expiring, {req})
      modifies `retainedQueue, requests`refCount, requests`completions, requests`reported
      ensures During(kept, {req}) && retainedQueue == []
    {
      hide During;
      kept := expiring;
      if retainedQueue != [] {
        DropKept(expiring, {req});
        kept := PopRetained({req});
      }
    }

    /** Sends a request that has been taken off the send queue, and retains it unless it has expired. */
    method SendOne(req: Request, now: nat, outcomes: seq<Outcome>, expiring: Request?) returns (kept: Request?)
      requires During(expiring, {req}) && req in requests && !req.dropped
      modifies `refCount, `inFlight, `retainedQueue, req`expires, req`status, req`results
      modifies requests`refCount, requests`completions, requests`reported
      ensures During(kept, {})
      ensures req.expires == old(Expires(req, now)) && retainedQueue == if now < req.expires then [req] else []
      ensures refCount >= old(refCount)
      ensures req.results == old(req.results) + Statuses(outcomes)
      ensures inFlight[req] == old(inFlight[req]) + Flights(outcomes)
      ensures forall r | r != req :: inFlight[r] == old(inFlight[r])
    {
      hide During;
      if req.expires == 0 && req.ttl >= 0 {
        SetExpires(req, now + 1000 * req.ttl, expiring);
      }
      SendToAll(req, outcomes, expiring);
      kept := MakeRoom(req, expiring);
      Settle(req, now, kept);
    }

    method SetExpires(req: Request, expires: nat, ghost kept: Request?)
      requires During(kept, {req})
      modifies req`expires
      ensures During(kept, {req}) && req.expires == expires
    {
      hide Counted, CompletedOnce, Known, Request.Faithful;
      req.expires := expires;
    }

    /** What happens to a request after it has been sent. */
    method Settle(req: Request, now: nat, ghost kept: Request?)
      requires During(kept, {req}) && !req.dropped && retainedQueue == []
      modifies `retainedQueue, req`refCount, req`completions, req`reported
      ensures During(kept, {}) && retainedQueue == if now < req.expires then [req] else []
    {
      assert {req} - {req} == {};
      if now < req.expires {
        Retain(req, kept, {req});
        HeldInQueue(req, kept);
        PublishCompletion(req, kept, {});
        assert {} - {req} == {};
      } else {
        PublishCompletion(req, kept, {req});
      }
    }

    lemma HeldInQueue(req: Request, kept: Request?)
      requires During(kept, {}) && retainedQueue == [req]
      ensures req in requests && Held(req) > 0 && req != kept
    {
      NotQueued(retainedQueue);
      assert Counted(req, req == kept);
    }

    /** Sends the first queued request. */
    method SendNext(now: nat, outcomes: seq<Outcome>, expiring: Request?) returns (kept: Request?)
      requires During(expiring, {}) && sendQueue != []
      modifies `refCount, `inFlight, `sendQueue, `retainedQueue, requests`expires
      modifies requests`refCount, requests`status, requests`results, requests`completions, requests`reported
      ensures During(kept, {}) && sendQueue == old(sendQueue)[1..] && refCount >= old(refCount)
      ensures var req := old(sendQueue)[0];
        && req.results == old(sendQueue[0].results) + Statuses(outcomes)
        && inFlight[req] == old(inFlight[sendQueue[0]]) + Flights(outcomes)
        && req.expires == (
             if old(sendQueue[0].expires) != 0 || old(sendQueue[0].ttl) < 0 then old(sendQueue[0].expires)
             else now + 1000 * old(sendQueue[0].ttl))
        && retainedQueue == (if now < req.expires then [req] else [])
      ensures forall r | r in requests && r != old(sendQueue)[0] ::
        r.results == old(r.results) && inFlight[r] == old(inFlight[r]) && r.expires == old(r.expires)
      ensures old(sendQueue)[0] !in sendQueue
    {
      hide During;
      var req := PopSend(expiring);
      InLimbo(req, expiring);
      assert req !in sendQueue;
      kept := SendOne(req, now, outcomes, expiring);
    }

    /** Sends all queued requests of a publication of the node, and deals with the request that expires. */
    method SendPubs(now: nat, plan: seq<seq<Outcome>>)
      requires Valid() && !wasFreed
      modifies this
      modifies requests
      ensures Valid() && sendQueue == [] && requests == old(requests) && holders == old(holders)
      ensures retainedQueue == old(Remaining(now))
      ensures retainedQueue == [] ==> if old(local) then expired else wasFreed
      ensures forall k | 0 <= k < |old(sendQueue)| ::
        var req := old(sendQueue)[k];
        && req.results == old(sendQueue[k].results) + Statuses(PlanAt(plan, k))
        && inFlight[req] == old(inFlight[sendQueue[k]]) + Flights(PlanAt(plan, k))
      ensures forall r | r in requests && r !in old(sendQueue) :: r.results == old(r.results) && inFlight[r] == old(inFlight[r])
    {
      hide During, Statuses, Flights, Share;
      ghost var queue, results := sendQueue, map r | r in requests :: r.results;
      Hold();
      Shares(queue, plan);
      var kept := SendQueued(now, plan, results);
      Finish(now, kept);
    }

    /** No request is queued twice. */
    lemma Distinct()
      requires During(null, {})
      ensures NoRepeats(sendQueue) && forall r | r in sendQueue :: r in requests
    {
      if i, j :| 0 <= i < j < |sendQueue| && sendQueue[i] == sendQueue[j] {
        assert sendQueue[i] in requests;
        assert Counted(sendQueue[i], false);
        TwiceQueued(sendQueue, i, j);
        assert false;
      }
    }

    /** Every queued request has its own plan, and no other request has one. */
    lemma Shares(queue: seq<Request>, plan: seq<seq<Outcome>>)
      requires During(null, {}) && queue == sendQueue
      ensures forall k | 0 <= k < |queue| :: queue[k] in requests && Share(queue, plan, |queue|, queue[k]) == PlanAt(plan, k)
      ensures forall r: Request | r !in queue ::
        Statuses(Share(queue, plan, |queue|, r)) == [] && Flights(Share(queue, plan, |queue|, r)) == 0
    {
      Distinct();
      forall k | 0 <= k < |queue|
        ensures Share(queue, plan, |queue|, queue[k]) == PlanAt(plan, k)
      {
        SharedAt(queue, plan, |queue|, k);
      }
      forall r: Request | r !in queue
        ensures Share(queue, plan, |queue|, r) == []
      {
        NotShared(queue, plan, |queue|, r);
      }
    }

    /** The first `i` requests of a queue have been sent as planned, and no other one has been sent: each has the results it
        had, those of its plan, and its planned sends in flight. */
    ghost predicate Sent(queue: seq<Request>, plan: seq<seq<Outcome>>, i: nat, results: map<Request, seq<Status>>,
                         flights: multiset<Request>)
      requires i <= |queue|
      reads `requests, `inFlight, requests`results
    {
      forall r | r in requests ::
        && r in results && r.results == results[r] + Statuses(Share(queue, plan, i, r))
        && inFlight[r] == flights[r] + Flights(Share(queue, plan, i, r))
    }

    ghost function Dues(queue: seq<Request>, now: nat): (dues: seq<nat>)
      reads queue
      ensures |dues| == |queue| && forall k | 0 <= k < |queue| :: dues[k] == Expires(queue[k], now)
    {
      if queue == [] then [] else Dues(queue[..|queue| - 1], now) + [Expires(queue[|queue| - 1], now)]
    }

    /** What is retained after the first `i` requests of a queue have been sent: the last one, unless it has expired. The others
        are due when they were. */
    ghost predicate Retained(queue: seq<Request>, i: nat, dues: seq<nat>, now: nat)
      reads `sendQueue, `retainedQueue, sendQueue, retainedQueue
    {
      && i <= |queue| == |dues| && sendQueue == queue[i..]
      && (forall k | i <= k < |queue| :: Expires(queue[k], now) == dues[k])
      && (i > 0 ==> retainedQueue == (if now < dues[i - 1] then [queue[i - 1]] else []))
      && (i > 0 && retainedQueue != [] ==> now < retainedQueue[0].expires)
    }

    /** Sends the next request of a queue. */
    method SendAt(now: nat, plan: seq<seq<Outcome>>, i: nat, expiring: Request?, ghost queue: seq<Request>,
                  ghost results: map<Request, seq<Status>>, ghost flights: multiset<Request>, ghost dues: seq<nat>)
      returns (kept: Request?)
      requires Retained(queue, i, dues, now)
      requires During(expiring, {}) && i < |queue| && sendQueue == queue[i..] && Sent(queue, plan, i, results, flights)
      requires NoRepeats(queue)
      modifies `refCount, `inFlight, `sendQueue, `retainedQueue, requests`expires
      modifies requests`refCount, requests`status, requests`results, requests`completions, requests`reported
      ensures During(kept, {}) && sendQueue == queue[i + 1..] && refCount >= old(refCount)
      ensures Sent(queue, plan, i + 1, results, flights)
      ensures Retained(queue, i + 1, dues, now)
    {
      hide During, Statuses, Flights, Counted;
      InQueue(queue[i], expiring);
      NotShared(queue, plan, i, queue[i]);
      NothingPlanned();
      kept := SendNext(now, PlanAt(plan, i), expiring);
    }

    lemma InQueue(req: Request, kept: Request?)
      requires During(kept, {}) && req in sendQueue
      ensures forall r | r in sendQueue :: r in requests
    {
    }

    method SendQueued(now: nat, plan: seq<seq<Outcome>>, ghost results: map<Request, seq<Status>>) returns (kept: Request?)
      requires During(null, {}) && refCount > 0
      requires results.Keys == requests && forall r | r in requests :: results[r] == r.results
      modifies `refCount, `inFlight, `sendQueue, `retainedQueue, requests`expires
      modifies requests`refCount, requests`status, requests`results, requests`completions, requests`reported
      ensures During(kept, {}) && sendQueue == [] && refCount > 0
      ensures old(sendQueue) != [] ==> retainedQueue == old(Remaining(now))
      ensures old(sendQueue) != [] && retainedQueue != [] ==> now < retainedQueue[0].expires
      ensures old(sendQueue) == [] ==> retainedQueue == old(retainedQueue)
      ensures old(sendQueue) == [] ==> forall r | r in retainedQueue :: r.expires == old(r.expires)
      ensures Sent(old(sendQueue), plan, |old(sendQueue)|, results, old(inFlight))
    {
      Distinct();
      hide During, Sent, Share, NoRepeats, Retained;
      ghost var queue, flights := sendQueue, inFlight;
      ghost var dues := Dues(queue, now);
      NothingSent(queue, plan, results, flights, dues, now);
      kept := null;
      if sendQueue == [] {
        return;
      }
      var i := 0;
      while sendQueue != []
        invariant During(kept, {}) && Retained(queue, i, dues, now) && i <= |queue| && sendQueue == queue[i..] && refCount > 0
        invariant Sent(queue, plan, i, results, flights)
        decreases |sendQueue|
      {
        kept := SendAt(now, plan, i, kept, queue, results, flights, dues);
        i := i + 1;
      }
      AllSent(queue, dues, now);
    }

    lemma AllSent(queue: seq<Request>, dues: seq<nat>, now: nat)
      requires Retained(queue, |queue|, dues, now) && |queue| > 0
      ensures retainedQueue == if now < dues[|queue| - 1] then [queue[|queue| - 1]] else []
      ensures retainedQueue != [] ==> now < retainedQueue[0].expires
    {
    }

    lemma NothingSent(queue: seq<Request>, plan: seq<seq<Outcome>>, results: map<Request, seq<Status>>,
                      flights: multiset<Request>, dues: seq<nat>, now: nat)
      requires queue == sendQueue && |dues| == |queue| && forall k | 0 <= k < |queue| :: dues[k] == Expires(queue[k], now)
      requires flights == inFlight && results.Keys == requests && forall r | r in requests :: results[r] == r.results
      ensures Sent(queue, plan, 0, results, flights) && Retained(queue, 0, dues, now)
    {
    }

    /** Deals with the request that expires, and drops the reference of the call. */
    method Finish(now: nat, expiring: Request?)
      requires During(expiring, {}) && refCount > 0 && holders > 0 && sendQueue == [] && !wasFreed
      modifies this
      modifies requests
      ensures Valid() && sendQueue == [] && requests == old(requests) && holders == old(holders) - 1
      ensures inFlight == old(inFlight) && forall r | r in requests :: r.results == old(r.results)
      ensures retainedQueue == old(if retainedQueue != [] && now < retainedQueue[0].expires then retainedQueue else [])
      ensures retainedQueue == [] ==> if old(local) then expired else wasFreed
    {
      hide During, Valid;
      var kept := expiring;
      if retainedQueue != [] && retainedQueue[0].expires <= now {
        DropKept(expiring, {});
        kept := PopRetained({});
      }
      ghost var remaining := retainedQueue;
      if retainedQueue == [] {
        CancelKept(kept);
        ExpirePub(kept);
      }
      DropKept(kept, {});
      ReleaseCall();
    }

    /** The handlers are called for a retained publication that expires. */
    method CancelKept(kept: Request?)
      requires During(kept, {})
      modifies `expired, `ttl
      modifies requests`ttl
      ensures During(kept, {})
    {
      hide Counted, CompletedOnce, Known, Request.Faithful;
      if kept != null && !expired {
        expired, ttl := true, -1;
        kept.ttl := -1;
      }
    }

    method ReleaseCall()
      requires During(null, {}) && holders > 0 && sendQueue == []
      modifies `refCount, `holders, `wasFreed, `local, `retained, `expired, `sendQueue, `retainedQueue
      modifies requests`refCount, requests`status, requests`dropped, requests`completions, requests`reported
      ensures Valid() && holders == old(holders) - 1 && sendQueue == []
      ensures !old(wasFreed) || refCount > 0 || old(retainedQueue) == [] ==>
        wasFreed == old(wasFreed) && expired == old(expired) && retainedQueue == old(retainedQueue)
    {
      DecRef();
    }

    /** What stays retained: the request sent last, or the one retained before, unless it expires. */
    ghost function Remaining(now: nat): seq<Request>
      reads this, sendQueue, retainedQueue
    {
      if sendQueue != [] then
        var last := sendQueue[|sendQueue| - 1];
        if now < Expires(last, now) then [last] else []
      else if retainedQueue != [] && now < retainedQueue[0].expires then retainedQueue
      else []
    }

    /** Takes a reference for the time of a call. */
    method Hold()
      requires Valid()
      modifies `refCount, `holders
      ensures During(null, {}) && holders == old(holders) + 1 && refCount > 0
    {
      hide Counted, CompletedOnce, Known;
      refCount := refCount + 1;
      holders := holders + 1;
    }

    /** The network reports the completion of a send. */
    method OnNetSendComplete(req: Request, status: Status)
      requires Valid() && req in inFlight
      modifies this
      modifies requests
      ensures Valid() && inFlight == old(inFlight) - multiset{req} && requests == old(requests) && req in requests
      ensures req.completions == 1 <==> old(Held(req)) == 1 || (wasFreed && refCount == 0)
      ensures req.results == old(req.results) + [status]
      ensures forall r | r in requests && r != req :: r.results == old(r.results)
    {
      hide During;
      InFlightKnown(req);
      EndSend(req, status);
      DecRef();
      CompletedMeans(req);
      if wasFreed && refCount == 0 {
        NothingInFlight();
        NotQueued([]);
      }
    }

    lemma InFlightKnown(req: Request)
      requires During(null, {}) && req in inFlight
      ensures req in requests && req.refCount == Held(req) > 0 && !req.dropped && req.Faithful()
    {
      assert Counted(req, false);
    }

    /** A send of a request has completed; its reference to the publication is still to be dropped. */
    method EndSend(req: Request, status: Status)
      requires During(null, {}) && req in inFlight && req in requests
      modifies `inFlight, `holders
      modifies req`refCount, req`status, req`results, req`completions, req`reported
      ensures During(null, {}) && inFlight == old(inFlight) - multiset{req} && holders == old(holders) + 1
      ensures req.results == old(req.results) + [status]
    {
      hide During;
      InFlightKnown(req);
      ghost var limbo := Land(req, status);
      PublishCompletion(req, null, limbo);
      assert limbo - {req} == {};
    }

    /** A request is no longer in flight; its callback has not run yet. */
    method Land(req: Request, status: Status) returns (ghost limbo: set<Request>)
      requires During(null, {}) && req in inFlight && req in requests
      requires req.refCount == Held(req) > 0 && !req.dropped && req.Faithful()
      modifies `inFlight, `holders, req`refCount, req`status, req`results
      ensures During(null, limbo) && limbo == if Held(req) == 0 then {req} else {}
      ensures req.results == old(req.results) + [status]
      ensures inFlight == old(inFlight) - multiset{req} && holders == old(holders) + 1
    {
      hide Times, Request.Faithful, Counted, CompletedOnce;
      InTwoPlaces(req);
      SendComplete(req, status);
      inFlight := inFlight - multiset{req};
      holders := holders + 1;
      limbo := if Held(req) == 0 then {req} else {};
      NotHeld(req);
      forall r | r in requests && r != req
        ensures Counted(r, false) && CompletedOnce(r, r in limbo) && r.Faithful()
      {
        Undisturbed(r);
      }
      Landed(req);
    }

    lemma NotHeld(r: Request)
      ensures Held(r) == 0 ==> r !in sendQueue && r !in retainedQueue && r !in inFlight
    {
      NotQueued(sendQueue);
      NotQueued(retainedQueue);
    }

    lemma InTwoPlaces(req: Request)
      requires During(null, {}) && req in inFlight && req in requests
      ensures Times(sendQueue, req) + Times(retainedQueue, req) <= 1 && req.completions == 0
    {
      assert Counted(req, false) && CompletedOnce(req, false);
    }

    /** The request that is not in flight any more; its callback has not run. */
    lemma Landed(req: Request)
      requires Times(sendQueue, req) + Times(retainedQueue, req) <= 1 && req.completions == 0
      requires req.refCount == Held(req) && !req.dropped
      ensures Counted(req, false) && CompletedOnce(req, Held(req) == 0)
    {
    }

    lemma CompletedMeans(req: Request)
      requires During(null, {}) && req in requests
      ensures req.completions == if Held(req) == 0 then 1 else 0
    {
      assert CompletedOnce(req, false);
    }

    /** The first part of publishing, before the lock is released for serialization. */
    method PublishBegin(newTtl: int, hasPayload: bool) returns (ok: bool)
      requires Valid() && !wasFreed && local
      modifies `refCount, `holders, `retained, `expired, `ttl
      ensures Valid() && ok == (newTtl >= 0 || (old(retained) && !hasPayload))
      ensures holders == old(holders) + if ok then 1 else 0
      ensures ok ==> ttl == (if newTtl < 0 then 0 else newTtl) && expired == (newTtl < 0) && retained == (newTtl != 0)
      ensures !ok ==> ttl == old(ttl) && expired == old(expired) && retained == old(retained)
    {
      hide Counted, CompletedOnce, Known, Request.Faithful;
      if newTtl < 0 && (!retained || hasPayload) {
        return false;
      }
      refCount := refCount + 1;
      holders := holders + 1;
      if newTtl < 0 {
        expired, ttl := true, 0;
      } else {
        retained, expired, ttl := newTtl > 0, false, newTtl;
      }
      ok := true;
    }

    /** The last part of publishing: the serialized request is queued. Meanwhile the publication may have been freed. */
    method PublishEnd(req: Request)
      requires Valid() && holders > 0 && req !in requests
      requires req.refCount == 0 && req.completions == 0 && req.Faithful() && !req.dropped
      modifies this
      modifies requests, req
      ensures Valid() && holders == old(holders) - 1 && requests == old(requests) + {req}
      ensures !wasFreed || refCount > 0 ==> sendQueue == old(sendQueue) + [req] && req.completions == 0
      ensures wasFreed && refCount == 0 ==> req.completions == 1
    {
      Enqueue(req);
      hide During;
      DecRef();
      CompletedMeans(req);
      if !wasFreed || refCount > 0 {
        assert req == sendQueue[|sendQueue| - 1];
        NotQueued(sendQueue);
      } else {
        NothingInFlight();
        NotQueued([]);
      }
    }

    method Enqueue(req: Request)
      requires During(null, {}) && req !in requests
      requires req.refCount == 0 && req.completions == 0 && req.Faithful() && !req.dropped
      modifies `sendQueue, `requests, req`refCount
      ensures During(null, {}) && requests == old(requests) + {req} && sendQueue == old(sendQueue) + [req]
    {
      hide Times;
      Pushed(sendQueue, req);
      NotQueued(sendQueue);
      NotQueued(retainedQueue);
      sendQueue := sendQueue + [req];
      req.refCount := req.refCount + 1;
      requests := requests + {req};
    }

    /** Serialization failed; the request is not accepted. */
    method PublishFail()
      requires Valid() && holders > 0
      modifies this
      modifies requests
      ensures Valid() && holders == old(holders) - 1 && requests == old(requests)
      ensures !wasFreed || refCount > 0 ==> sendQueue == old(sendQueue) && retainedQueue == old(retainedQueue)
    {
      hide During;
      DecRef();
    }

    /** Puts the retained request back on the send queue when the subscriptions have changed. */
    method UpdatePubs(hasTargets: bool)
      requires Valid() && !wasFreed
      modifies this
      modifies requests
      ensures Valid() && requests == old(requests)
      ensures sendQueue + retainedQueue == old(sendQueue + retainedQueue)
      ensures retainedQueue == if old(sendQueue) == [] && hasTargets then [] else old(retainedQueue)
      ensures old(sendQueue) == [] && old(retainedQueue) == [] ==> if old(local) then expired else wasFreed
    {
      if sendQueue != [] {
      } else if retainedQueue == [] {
        ExpirePub(null);
      } else if hasTargets {
        Requeue();
      }
    }

    method Requeue()
      requires Valid() && sendQueue == [] && retainedQueue != []
      modifies `sendQueue, `retainedQueue
      ensures Valid() && sendQueue == old(retainedQueue) && retainedQueue == []
    {
      hide Times, Request.Faithful;
      var req := retainedQueue[0];
      NotQueued([]);
      Pushed([], req);
      assert retainedQueue == [] + [req];
      retainedQueue := retainedQueue[1..];
      sendQueue := sendQueue + [req];
    }

    /** The application destroys a publication; it may do so again. A listed publication that came from another node is
        not its own to destroy. */
    method DestroyPublication() returns (ok: bool)
      requires Valid()
      modifies this
      modifies requests
      ensures Valid() && requests == old(requests) && holders == old(holders) && inFlight == old(inFlight)
      ensures ok == (old(wasFreed) || old(local)) && wasFreed == (ok || old(wasFreed))
      ensures !ok || refCount > 0 ==> sendQueue == old(sendQueue) && retainedQueue == old(retainedQueue)
    {
      hide During;
      if !wasFreed && !local {
        return false;
      }
      FreePublication(null);
      ok := true;
    }

    // ---- completion happens exactly once ----

    /** A callback runs at most once, and not while its request is queued or in flight. */
    lemma AtMostOnce(r: Request)
      requires Valid() && r in requests
      ensures r.completions <= 1
      ensures r.completions == 1 <==> r !in sendQueue && r !in retainedQueue && r !in inFlight
      ensures r.refCount == Held(r)
    {
      NotQueued(sendQueue);
      NotQueued(retainedQueue);
      assert Counted(r, false) && CompletedOnce(r, false);
    }

    /** When a freed publication is referenced no more, all requests ever accepted have completed. */
    lemma AllComplete(r: Request)
      requires Valid() && r in requests && wasFreed && refCount == 0
      ensures r.completions == 1
    {
      NothingInFlight();
      AtMostOnce(r);
    }

    /** At most one request is retained. */
    lemma OneRetained()
      requires Valid()
      ensures |retainedQueue| <= 1 && forall r | r in retainedQueue :: r !in sendQueue
    {
      forall r | r in retainedQueue
        ensures r !in sendQueue
      {
        assert Counted(r, false);
        NotQueued(retainedQueue);
        NotQueued(sendQueue);
      }
    }

    /** The status of a request that was not dropped tells whether any send succeeded. */
    lemma StatusMeans(r: Request)
      requires Valid() && r in requests && !r.dropped
      ensures r.status == OK <==> OK in r.results
      ensures r.status != OK ==> r.status == if r.results == [] then ErrNoRoute else r.results[|r.results| - 1]
    {
      VerdictMeans(r.results);
      assert r.Faithful();
    }
  }
}
