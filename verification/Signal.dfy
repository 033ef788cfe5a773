/**
 Making and delivering an offer: `PeerContext.Offer` on top of `SessionDesc`, and the retry loop of
 `Signal.DispatchOffer` on top of that. Clocks, the peer connection, the client's commits and the
 websocket are parameters, one record per attempt.
 */
module Signal {
  import opened Offers
  import opened Options
  import opened Negotiation

  const RETRY_MS := 100
  const LAST_ATTEMPT: nat := 25

  datatype LocalDesc = Accepted | InvalidModification | Rejected

  /**
   What one call of `Offer` meets: the connection state, the offer created, the spinning, commits that
   arrive after the offer is pending and before it is read back, the local description, the encoder.
   */
  datatype OfferEnv = OfferEnv(
    connectionClosed: bool,
    created: Option<Desc>,
    spin: SpinEnv,
    commits: seq<Hash>,
    local: LocalDesc,
    lateCommits: seq<Hash>,
    encodes: bool)

  datatype OfferResult = Offered(d: Desc, h: Hash) | PeerClosed | Failed

  datatype WriteResult = Written | CloseSent | WriteFailed

  datatype DispatchResult = Delivered | Closed | SocketClosed | Retry

  /** What makes an attempt on an open peer fail: no offer, or none that can be described, answered too soon, or encoded. */
  predicate Fails(env: OfferEnv) {
    || env.created.None?
    || env.local.Rejected?
    || (env.local.InvalidModification? && HashOf(env.created.value) in env.commits)
    || !env.encodes
  }

  /** What makes a peer count as closed: its connection, or its context during one of the six turns of the spin loop. */
  ghost predicate MayBeClosed(env: OfferEnv) {
    env.connectionClosed || (env.created.Some? && exists k: nat :: k < 6 && env.spin.peerClosed(k))
  }

  /** The hash announced with an offer: empty if it was answered before it was read. */
  function AnnouncedHash(env: OfferEnv): Hash
    requires env.created.Some?
  {
    if HashOf(env.created.value) in env.commits + env.lateCommits then Empty else HashOf(env.created.value)
  }

  /** The result of an attempt in terms of what it met. */
  ghost predicate ResultOf(env: OfferEnv, r: OfferResult) {
    match r
    case PeerClosed => MayBeClosed(env)
    case Failed => !env.connectionClosed && Fails(env)
    case Offered(d, h) => !env.connectionClosed && !Fails(env) && env.created == Some(d) && h == AnnouncedHash(env)
  }

  class PeerContext {
    const offer: SessionDesc

    constructor ()
      ensures fresh(offer) && offer.Snapshot() == START
    {
      offer := new SessionDesc();
    }

    /**
     From the pending description to the message: what was just made pending is announced, even on the
     path that rereads it, under its own hash, or under the empty one if it has been committed already.
     */
    method ReadBack(d: Desc, env: OfferEnv) returns (r: OfferResult, ghost trace: seq<Event>)
      requires Inv(offer.Snapshot()) && !offer.closed && offer.pending == Some(d) && env.created == Some(d)
      modifies offer
      ensures offer.Snapshot() == Run(old(offer.Snapshot()), trace)
      ensures Inv(offer.Snapshot()) && !offer.closed && offer.sets == old(offer.sets) && offer.deadline == old(offer.deadline)
      ensures r == if Fails(env) then Failed else Offered(d, AnnouncedHash(env))
      ensures r.Offered? && r.h == Empty ==> !Unanswered(offer.Snapshot())
    {
      hide Run, Inv;
      var offerSdp := d;
      ghost var entry := offer.Snapshot();
      PendingIsHeld(entry);
      trace := offer.SubmitAll(env.commits);
      match env.local {
        case Accepted =>
        case InvalidModification =>
          var pendingSdp := offer.pending;
          if pendingSdp.None? { return Failed, trace; }
          offerSdp := pendingSdp.value;
        case Rejected =>
          return Failed, trace;
      }
      ghost var arrivals := offer.SubmitAll(env.lateCommits);
      RunConcat(entry, trace, arrivals);
      trace := trace + arrivals;
      if !env.encodes { return Failed, trace; }
      return Offered(offerSdp, offer.pendingHash.value), trace;
    }

    /** An offer handed out is always the one created in this call. */
    method Offer(start: int, env: OfferEnv) returns (r: OfferResult, now: int, ghost trace: seq<Event>)
      requires offer.Usable(start)
      modifies offer
      ensures offer.Snapshot() == Run(old(offer.Snapshot()), trace) && Inv(offer.Snapshot())
      ensures start <= now <= start + 1000
      ensures !r.PeerClosed? ==> offer.Usable(now)
      ensures ResultOf(env, r) && (env.connectionClosed ==> r == PeerClosed)
      ensures r.Offered? ==> offer.sets == old(offer.sets) + [r.d] && (r.h == Empty ==> !Unanswered(offer.Snapshot()))
    {
      hide Run, Inv, Unanswered;
      now, trace := start, [];
      ghost var entry := offer.Snapshot();
      NoRun(entry);
      UsableIsInv(offer, start);
      if env.connectionClosed { return PeerClosed, now, trace; }
      if env.created.None? { return Failed, now, trace; }
      var ok, turns;
      ok, turns, now, trace := offer.SetPendingDesc(env.created.value, start, env.spin);
      if !ok { return PeerClosed, now, trace; }
      ghost var rest;
      r, rest := ReadBack(env.created.value, env);
      RunConcat(entry, trace, rest);
      trace := trace + rest;
    }
  }

  lemma UsableIsInv(offer: SessionDesc, now: int)
    requires offer.Usable(now)
    ensures Inv(offer.Snapshot())
  {}

  /** How many attempts made an offer, and how many failed. */
  function OffersIn(results: seq<OfferResult>): (count: nat)
    ensures count <= |results|
  {
    if results == [] then 0 else OffersIn(results[..|results| - 1]) + if Last(results).Offered? then 1 else 0
  }

  function FailuresIn(results: seq<OfferResult>): (count: nat)
    ensures count <= |results|
  {
    if results == [] then 0 else FailuresIn(results[..|results| - 1]) + if Last(results).Failed? then 1 else 0
  }

  lemma CountOneMore(results: seq<OfferResult>, r: OfferResult)
    ensures OffersIn(results + [r]) == OffersIn(results) + if r.Offered? then 1 else 0
    ensures FailuresIn(results + [r]) == FailuresIn(results) + if r.Failed? then 1 else 0
  {
    assert (results + [r])[..|results|] == results;
  }

  /** Attempt `k` was not the last one for a reason: it failed, or it made an offer whose write failed. */
  ghost predicate GoesOn(results: seq<OfferResult>, writes: nat -> WriteResult, k: nat)
    requires k < |results|
  {
    results[k].Failed? || (results[k].Offered? && writes(OffersIn(results[..k])) == WriteFailed)
  }

  /** Each result comes from what its attempt met, and each of the first `n` attempts had to be followed by another. */
  ghost predicate Explained(results: seq<OfferResult>, envs: nat -> OfferEnv, writes: nat -> WriteResult, n: nat) {
    && n <= |results|
    && (forall k :: 0 <= k < |results| ==> ResultOf(envs(k), results[k]))
    && (forall k :: 0 <= k < n ==> GoesOn(results, writes, k))
  }

  lemma OneAttemptMore(results: seq<OfferResult>, r: OfferResult, envs: nat -> OfferEnv, writes: nat -> WriteResult)
    requires Explained(results, envs, writes, |results|) && ResultOf(envs(|results|), r)
    ensures Explained(results + [r], envs, writes, |results|)
    ensures r.Failed? || (r.Offered? && writes(OffersIn(results)) == WriteFailed) ==> Explained(results + [r], envs, writes, |results| + 1)
  {
    hide ResultOf, OffersIn;
    var more := results + [r];
    assert more[..|results|] == results;
    forall k | 0 <= k < |results| ensures GoesOn(more, writes, k) {
      assert GoesOn(results, writes, k) && more[..k] == results[..k];
    }
  }

  /** Up to attempt 25, what the last attempt came to decides the outcome; the 26th is never written. */
  ghost predicate Decides(last: OfferResult, count: nat, lastWrite: WriteResult, result: DispatchResult) {
    if count == 26 then result == Retry
    else match last
      case PeerClosed => result == Closed
      case Failed => false
      case Offered(_, _) => lastWrite != WriteFailed && result == if lastWrite == Written then Delivered else SocketClosed
  }

  /**
   One run of `DispatchOffer`. It calls `Offer` at most 26 times and writes at most 25 times, goes on exactly
   after an attempt that failed or whose write failed, sleeps 100 ms after each of the former, leaves the lock in
   a reachable state, and succeeds exactly when one offer went out; running out of attempts is the only outcome
   that starts another run.
   */
  method DispatchOffer(peer: PeerContext, start: int, envs: nat -> OfferEnv, writes: nat -> WriteResult)
    returns (result: DispatchResult, results: seq<OfferResult>, written: nat, delivered: seq<(Desc, Hash)>, now: int, ghost trace: seq<Event>)
    requires peer.offer.Usable(start)
    modifies peer.offer
    ensures 1 <= |results| <= 26 && written <= 25
    ensures Explained(results, envs, writes, |results| - 1)
    ensures written == OffersIn(if |results| == 26 then results[..25] else results)
    ensures Decides(Last(results), |results|, if written > 0 then writes(written - 1) else WriteFailed, result)
    ensures delivered == if result == Delivered then [(Last(results).d, Last(results).h)] else []
    ensures start + 100 * FailuresIn(results[..|results| - 1]) <= now
    ensures now <= start + 100 * FailuresIn(results[..|results| - 1]) + 1000 * |results|
    ensures peer.offer.Snapshot() == Run(old(peer.offer.Snapshot()), trace) && Inv(peer.offer.Snapshot())
    ensures result.Delivered? || result.SocketClosed? ==> peer.offer.Usable(now)
    ensures result == Delivered ==>
      && peer.offer.sets != [] && Last(peer.offer.sets) == delivered[0].0
      && (delivered[0].1 == HashOf(delivered[0].0) || (delivered[0].1 == Empty && !Unanswered(peer.offer.Snapshot())))
  {
    hide Inv, Run, Unanswered, ResultOf, OffersIn, FailuresIn, Explained;
    results, written, delivered, now, trace := [], 0, [], start, [];
    ghost var entry := peer.offer.Snapshot();
    NoRun(entry);
    NothingCounted(envs, writes);
    var attempt := 0;
    while true
      invariant attempt == |results| <= LAST_ATTEMPT && delivered == []
      invariant Explained(results, envs, writes, |results|)
      invariant written == OffersIn(results)
      invariant start + 100 * FailuresIn(results) <= now <= start + 100 * FailuresIn(results) + 1000 * |results|
      invariant peer.offer.Snapshot() == Run(entry, trace) && peer.offer.Usable(now)
      decreases LAST_ATTEMPT - attempt
    {
      var offer, done;
      ghost var arrivals;
      offer, done, arrivals := peer.Offer(now, envs(attempt));
      RunConcat(entry, trace, arrivals);
      trace := trace + arrivals;
      CountOneMore(results, offer);
      OneAttemptMore(results, offer, envs, writes);
      ghost var before := results;
      results, now := results + [offer], done;
      assert results[..|before|] == before;
      if attempt >= LAST_ATTEMPT {
        return Retry, results, written, delivered, now, trace;
      }
      match offer {
        case PeerClosed =>
          return Closed, results, written, delivered, now, trace;
        case Failed =>
          now := now + RETRY_MS;
        case Offered(d, h) =>
          OwnHashOrEmpty(envs(attempt), offer);
          var w := writes(written);
          written := written + 1;
          if w == CloseSent {
            return SocketClosed, results, written, delivered, now, trace;
          }
          if w == Written {
            delivered := [(d, h)];
            return Delivered, results, written, delivered, now, trace;
          }
      }
      attempt := attempt + 1;
    }
  }

  lemma NothingCounted(envs: nat -> OfferEnv, writes: nat -> WriteResult)
    ensures OffersIn([]) == 0 && FailuresIn([]) == 0 && Explained([], envs, writes, 0)
  {}

  lemma OwnHashOrEmpty(env: OfferEnv, r: OfferResult)
    requires ResultOf(env, r) && r.Offered?
    ensures r.h == HashOf(r.d) || r.h == Empty
  {}
}
