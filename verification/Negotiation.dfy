/**
 The offer lock at the granularity of whole operations, now with the one-second deadline after which
 a stuck lock is replaced. A commit is one step; one attempt of the setter, from resetting an expired
 lock to the last store, is one step. A peer found closed is terminal.
 */
module Negotiation {
  import opened Offers
  import opened Options

  const DEADLINE_MS := 1000
  const SPIN_MS := 200

  /**
   `sets`, `setAt` and `committed` are history: the descriptions made pending, when each was, and the positions
   in `sets` of those that were committed. `fault` records an unlock of a free mutex.
   */
  datatype State = State(
    pending: Option<Desc>,
    pendingHash: Option<Hash>,
    negotiated: Option<Desc>,
    negotiatedHash: Option<Hash>,
    locked: bool,
    flag: bool,
    deadline: Option<int>,
    closed: bool,
    sets: seq<Desc>,
    setAt: seq<int>,
    committed: seq<nat>,
    fault: bool)

  const START := State(None, None, None, None, false, false, None, false, [], [], [], false)

  datatype Event =
    | First(d: Desc, now: int)
    | Spin(d: Desc, now: int, peerClosed: bool)
    | Submit(h: Hash)

  function Store(s: State, d: Desc, now: int): State {
    s.(locked := true, flag := true, deadline := Some(now + DEADLINE_MS),
       pendingHash := Some(HashOf(d)), pending := Some(d), sets := s.sets + [d], setAt := s.setAt + [now])
  }

  /** The first `TryLock`, before the spin loop. */
  function TryFirst(s: State, d: Desc, now: int): State {
    if s.locked then s else Store(s, d, now)
  }

  predicate Expired(s: State, now: int, peerClosed: bool) {
    s.deadline.Some? && (now >= s.deadline.value || peerClosed)
  }

  /** One turn of the spin loop. */
  function TrySpin(s: State, d: Desc, now: int, peerClosed: bool): State {
    var free := !s.locked || Expired(s, now, peerClosed);
    if peerClosed then s.(locked := !free, closed := true)
    else if free then Store(s, d, now)
    else s
  }

  function SubmitOutcome(s: State, h: Hash): (outcome: Option<SubmitError>)
  {
    if s.pending.None? then Some(EmptyPending)
    else if h == Empty then Some(EmptyHash)
    else if s.pendingHash != Some(h) then Some(RaceCondition)
    else None
  }

  function TrySubmit(s: State, h: Hash): State {
    if SubmitOutcome(s, h).Some? then s
    else s.(pendingHash := Some(Empty), negotiatedHash := Some(h), negotiated := s.pending, pending := None,
            committed := s.committed + (if s.sets == [] then [] else [|s.sets| - 1]),
            locked := s.locked && !s.flag, fault := s.fault || (s.flag && !s.locked))
  }

  function Step(s: State, e: Event): State {
    if s.closed then s else
    match e
    case First(d, now) => TryFirst(s, d, now)
    case Spin(d, now, peerClosed) => TrySpin(s, d, now, peerClosed)
    case Submit(h) => TrySubmit(s, h)
  }

  function Run(s: State, events: seq<Event>): State {
    if events == [] then s else Step(Run(s, events[..|events| - 1]), Last(events))
  }

  lemma {:induction false} RunConcat(s: State, first: seq<Event>, second: seq<Event>)
    ensures Run(s, first + second) == Run(Run(s, first), second)
  {
    if second == [] {
      assert first + second == first;
    } else {
      var all := first + second;
      assert all[..|all| - 1] == first + second[..|second| - 1];
      RunConcat(s, first, second[..|second| - 1]);
    }
  }

  lemma NoRun(s: State)
    ensures Run(s, []) == s
  {}

  lemma RunSnoc(s: State, events: seq<Event>, e: Event)
    ensures Run(s, events + [e]) == Step(Run(s, events), e)
  {
    assert (events + [e])[..|events|] == events;
  }

  // ---------------------------------------------------------------------------------------------
  // The invariant
  // ---------------------------------------------------------------------------------------------

  ghost predicate Increasing(at: seq<nat>) {
    forall i, j :: 0 <= i < j < |at| ==> at[i] < at[j]
  }

  /** The latest description set, unless it has been committed, waits under its own hash. */
  predicate PendingIsLatest(s: State) {
    s.pending.Some? ==>
      && s.sets != [] && s.pending.value == Last(s.sets) && s.pendingHash == Some(HashOf(Last(s.sets)))
      && (s.committed != [] ==> Last(s.committed) < |s.sets| - 1)
  }

  predicate NegotiatedIsLastCommit(s: State)
    requires forall i :: 0 <= i < |s.committed| ==> s.committed[i] < |s.sets|
  {
    if s.committed == [] then s.negotiated.None? && s.negotiatedHash.None?
    else
      && s.negotiated == Some(s.sets[Last(s.committed)])
      && s.negotiatedHash == Some(HashOf(s.sets[Last(s.committed)]))
  }

  predicate LockMatchesPending(s: State) {
    && (!s.closed ==> (s.locked <==> s.pending.Some?))
    && (s.pending.Some? ==> s.flag)
    && (s.locked ==> s.deadline.Some?)
    && (s.pending.None? ==> if s.sets == [] then s.committed == [] else s.committed != [] && Last(s.committed) == |s.sets| - 1)
  }

  ghost predicate Inv(s: State) {
    && !s.fault
    && Increasing(s.committed)
    && (forall i :: 0 <= i < |s.committed| ==> s.committed[i] < |s.sets|)
    && PendingIsLatest(s)
    && NegotiatedIsLastCommit(s)
    && LockMatchesPending(s)
  }

  lemma StoreKeepsInv(s: State, d: Desc, now: int)
    requires Inv(s) && !s.closed
    ensures Inv(Store(s, d, now))
  {
    var t := Store(s, d, now);
    assert Last(t.sets) == d;
    assert t.committed != [] ==> t.sets[Last(t.committed)] == s.sets[Last(s.committed)];
  }

  lemma SubmitKeepsInv(s: State, h: Hash)
    requires Inv(s) && !s.closed
    ensures Inv(TrySubmit(s, h))
  {
  }

  lemma StepKeepsInv(s: State, e: Event)
    requires Inv(s)
    ensures Inv(Step(s, e))
  {
    if !s.closed {
      match e
      case First(d, now) => StoreKeepsInv(s, d, now);
      case Spin(d, now, peerClosed) => StoreKeepsInv(s, d, now);
      case Submit(h) => SubmitKeepsInv(s, h);
    }
  }

  lemma {:induction false} RunKeepsInv(s: State, events: seq<Event>)
    requires Inv(s)
    ensures Inv(Run(s, events))
  {
    if events != [] {
      RunKeepsInv(s, events[..|events| - 1]);
      StepKeepsInv(Run(s, events[..|events| - 1]), Last(events));
    }
  }

  // ---------------------------------------------------------------------------------------------
  // Main results, for every run with expiry
  // ---------------------------------------------------------------------------------------------

  /** The descriptions at the committed positions. */
  function Committed(s: State): seq<Desc>
    requires forall i :: 0 <= i < |s.committed| ==> s.committed[i] < |s.sets|
  {
    seq(|s.committed|, i requires 0 <= i < |s.committed| => s.sets[s.committed[i]])
  }

  /**
   Commits are a subsequence of sets in which no set appears twice, and the negotiated pair is the last
   of them under its own hash. The mutex is never unlocked while free, and while the peer is open it is
   held exactly when an offer is pending.
   */
  lemma CommitsFollowSets(events: seq<Event>)
    ensures var s := Run(START, events);
      && Increasing(s.committed)
      && (forall i :: 0 <= i < |s.committed| ==> s.committed[i] < |s.sets|)
      && s.negotiated == (if s.committed == [] then None else Some(Last(Committed(s))))
      && s.negotiatedHash == (if s.negotiated.None? then None else Some(HashOf(s.negotiated.value)))
      && !s.fault
      && (!s.closed ==> (s.locked <==> s.pending.Some?))
  {
    RunKeepsInv(START, events);
  }

  /** The latest set has not been committed. */
  predicate Unanswered(s: State) {
    s.sets != [] && (s.committed == [] || Last(s.committed) != |s.sets| - 1)
  }

  /** A commit succeeds exactly when the latest set is unanswered and the hash is that set's own. */
  lemma SubmitSucceedsIff(events: seq<Event>, h: Hash)
    ensures var s := Run(START, events);
      SubmitOutcome(s, h).None? <==> Unanswered(s) && h == HashOf(Last(s.sets))
  {
    RunKeepsInv(START, events);
  }

  lemma {:induction false} SetsOnlyGrow(s: State, events: seq<Event>)
    ensures s.sets <= Run(s, events).sets && s.committed <= Run(s, events).committed
  {
    if events != [] { SetsOnlyGrow(s, events[..|events| - 1]); }
  }

  /** A step commits nothing or the latest set. */
  lemma StepCommits(s: State, e: Event)
    requires Inv(s)
    ensures Step(s, e).committed == s.committed || Step(s, e).committed == s.committed + [|s.sets| - 1]
  {}

  /** Once a later offer has been set, whether an earlier one is committed is settled for good. */
  lemma {:induction false} SupersededIsSettled(s: State, events: seq<Event>, k: nat)
    requires Inv(s) && k + 1 < |s.sets|
    ensures k in Run(s, events).committed <==> k in s.committed
  {
    hide Inv, Step;
    if events != [] {
      var before := events[..|events| - 1];
      SupersededIsSettled(s, before, k);
      SetsOnlyGrow(s, before);
      RunKeepsInv(s, before);
      StepCommits(Run(s, before), Last(events));
    }
  }

  /**
   Whether the hash of a superseded offer can still commit: exactly when the latest set is unanswered
   and repeats the superseded SDP text.
   */
  lemma SupersededHashCommitsIff(first: seq<Event>, second: seq<Event>, k: nat)
    requires k + 1 < |Run(START, first).sets|
    ensures var before, now := Run(START, first), Run(START, first + second);
      SubmitOutcome(now, HashOf(before.sets[k])).None? <==> Unanswered(now) && Last(now.sets).sdp == before.sets[k].sdp
  {
    SubmitSucceedsIff(first + second, HashOf(Run(START, first).sets[k]));
  }

  /**
   Which error a failing commit is answered with: none pending, if every set has been committed or there was
   none; else an empty hash, if it is; else a race.
   */
  lemma SubmitFailsWith(events: seq<Event>, h: Hash)
    ensures var s, outcome := Run(START, events), SubmitOutcome(Run(START, events), h);
      && (outcome == Some(EmptyPending) <==> !Unanswered(s))
      && (outcome == Some(EmptyHash) <==> Unanswered(s) && h == Empty)
      && (outcome == Some(RaceCondition) <==> Unanswered(s) && h != Empty && h != HashOf(Last(s.sets)))
  {
    RunKeepsInv(START, events);
  }

  // ---------------------------------------------------------------------------------------------
  // Time
  // ---------------------------------------------------------------------------------------------

  /** A set that was never committed gave way only after a second, and the pending one will too. */
  ghost predicate Timed(s: State) {
    && |s.setAt| == |s.sets|
    && (s.pending.Some? && s.sets != [] ==> s.deadline == Some(Last(s.setAt) + 1000))
    && (forall k: nat :: k + 1 < |s.sets| && k !in s.committed ==> s.setAt[k] + 1000 <= s.setAt[k + 1])
  }

  lemma StoreKeepsTimed(s: State, d: Desc, now: int)
    requires Inv(s) && Timed(s)
    requires s.pending.None? || now >= s.deadline.value
    ensures Timed(Store(s, d, now))
  {
    var t := Store(s, d, now);
    assert Last(t.setAt) == now;
    assert s.committed != [] ==> Last(s.committed) in s.committed;
  }

  lemma TimedStep(s: State, e: Event)
    requires Inv(s) && Timed(s)
    ensures Timed(Step(s, e))
  {
    hide Store, Timed;
    if !s.closed {
      match e
      case First(d, now) => if !s.locked { StoreKeepsTimed(s, d, now); }
      case Spin(d, now, peerClosed) =>
        if peerClosed { OthersKeepTimed(s, TrySpin(s, d, now, true)); }
        else if !s.locked || Expired(s, now, false) { StoreKeepsTimed(s, d, now); }
      case Submit(h) => OthersKeepTimed(s, TrySubmit(s, h));
    }
  }

  lemma OthersKeepTimed(s: State, t: State)
    requires Timed(s) && t.sets == s.sets && t.setAt == s.setAt && t.deadline == s.deadline && s.committed <= t.committed
    requires t.pending.Some? ==> s.pending.Some?
    ensures Timed(t)
  {
    assert forall k :: k in s.committed ==> k in t.committed;
  }

  lemma {:induction false} RunIsTimed(events: seq<Event>)
    ensures Timed(Run(START, events))
  {
    hide Step, Timed;
    if events == [] {
      assert Timed(START) by { StartIsTimed(); }
    } else {
      var before := events[..|events| - 1];
      RunIsTimed(before);
      RunKeepsInv(START, before);
      TimedStep(Run(START, before), Last(events));
    }
  }

  lemma StartIsTimed()
    ensures Timed(START)
  {}

  /** An offer that is not answered keeps the lock for a full second: no other is set before. */
  lemma UnansweredKeepsItsSecond(events: seq<Event>, k: nat)
    requires k + 1 < |Run(START, events).sets| && k !in Run(START, events).committed
    ensures var s := Run(START, events);
      |s.setAt| == |s.sets| && s.setAt[k + 1] - s.setAt[k] >= 1000
  {
    RunIsTimed(events);
  }

  /**
   And for no longer: in every reachable state of an open peer a turn of the spin loop sets its description
   exactly if the latest one has been answered or was set a second ago or more.
   */
  lemma TurnSetsIff(events: seq<Event>, d: Desc, now: int)
    requires !Run(START, events).closed
    ensures var s, t := Run(START, events), Run(START, events + [Spin(d, now, false)]);
      && |s.setAt| == |s.sets|
      && (if Unanswered(s) && now - Last(s.setAt) < 1000 then t == s
          else t.sets == s.sets + [d] && t.setAt == s.setAt + [now] && t.pending == Some(d) && Unanswered(t))
  {
    RunKeepsInv(START, events);
    RunIsTimed(events);
    RunSnoc(START, events, Spin(d, now, false));
  }

  /** Set A, let it expire, set B, let it expire, set A's text again: A's old hash commits. */
  lemma SupersededHashMayCommit(a: Desc, b: Desc)
    requires a.sdp != b.sdp
    ensures var events := [First(a, 0), Spin(b, 1000, false), Spin(a, 2000, false)];
      var s := Run(START, events);
      s.sets == [a, b, a] && SubmitOutcome(s, HashOf(a)).None?
  {
    var e1, e2, e3 := First(a, 0), Spin(b, 1000, false), Spin(a, 2000, false);
    assert [e1, e2, e3][..2] == [e1, e2] && [e1, e2][..1] == [e1] && [e1][..0] == [];
    assert Run(START, [e1]) == Store(START, a, 0);
    assert Run(START, [e1, e2]) == Store(Store(START, a, 0), b, 1000);
  }

  // ---------------------------------------------------------------------------------------------
  // SessionDesc
  // ---------------------------------------------------------------------------------------------

  /** What happens around a spinning setter: hashes submitted during turn k's sleep, peer closed by turn k. */
  datatype SpinEnv = SpinEnv(submits: nat -> seq<Hash>, peerClosed: nat -> bool)

  lemma HeldHasDeadline(s: State)
    requires Inv(s)
    ensures s.locked ==> s.deadline.Some?
  {}

  lemma FirstStores(s: State, d: Desc, now: int)
    requires !s.locked && !s.closed
    ensures Step(s, First(d, now)) == Store(s, d, now)
  {}

  lemma PendingIsHeld(s: State)
    requires Inv(s) && s.pending.Some? && !s.closed
    ensures s.locked && s.flag && s.sets != [] && Last(s.sets) == s.pending.value && s.pendingHash == Some(HashOf(s.pending.value))
  {}

  /** The offer pending in `s` has been committed in `t`. */
  predicate Answered(s: State, t: State) {
    s.pending.Some? && s.sets != [] && t.pending.None? && t.pendingHash == Some(Empty) && t.committed == s.committed + [|s.sets| - 1]
  }

  lemma AnsweredIsOver(s: State)
    ensures forall t :: Answered(s, t) ==> t.pending.None?
  {}

  /** A commit answers the pending offer or changes nothing. */
  lemma SubmitAnswers(s: State, h: Hash)
    requires Inv(s) && !s.closed
    ensures var t := Step(s, Event.Submit(h));
      && Inv(t) && !t.closed && t.sets == s.sets && t.setAt == s.setAt && t.deadline == s.deadline
      && (if s.pending.Some? && h == HashOf(s.pending.value) then Answered(s, t) else t == s)
  {
    SubmitKeepsInv(s, h);
  }

  class SessionDesc {
    var negotiated: Option<Desc>
    var pending: Option<Desc>
    var negotiatedHash: Option<Hash>
    var pendingHash: Option<Hash>
    var locked: bool
    var flag: bool
    var deadline: Option<int>
    ghost var closed: bool
    ghost var sets: seq<Desc>
    ghost var setAt: seq<int>
    ghost var committed: seq<nat>
    ghost var fault: bool

    ghost function Snapshot(): State
      reads this
    {
      State(pending, pendingHash, negotiated, negotiatedHash, locked, flag, deadline, closed, sets, setAt, committed, fault)
    }

    /** Open, in a reachable state, and the clock has not run backwards since the deadline was stored. */
    ghost predicate Usable(now: int)
      reads this
    {
      Inv(Snapshot()) && !closed && (deadline.Some? ==> deadline.value <= now + DEADLINE_MS)
    }

    constructor ()
      ensures Snapshot() == START
    {
      negotiated, pending, negotiatedHash, pendingHash := None, None, None, None;
      locked, flag, deadline := false, false, None;
      closed, sets, setAt, committed, fault := false, [], [], [], false;
    }

    method Submit(offerHash: Hash) returns (err: Option<SubmitError>)
      requires Inv(Snapshot()) && !closed
      modifies this
      ensures err == SubmitOutcome(old(Snapshot()), offerHash)
      ensures Snapshot() == Step(old(Snapshot()), Event.Submit(offerHash))
    {
      hide Inv, HashOf;
      if pending.None? { return Some(EmptyPending); }
      PendingIsHeld(Snapshot());
      if offerHash == Empty { return Some(EmptyHash); }
      if pendingHash != Some(offerHash) { return Some(RaceCondition); }
      pendingHash := Some(Empty);
      negotiatedHash := Some(offerHash);
      var taken := pending;
      pending := None;
      negotiated := taken;
      committed := committed + [|sets| - 1];
      if flag {
        fault := fault || !locked;
        locked := false;
      }
      return None;
    }

    /** Commits that arrive one after the other. */
    method SubmitAll(hashes: seq<Hash>) returns (ghost trace: seq<Event>)
      requires Inv(Snapshot()) && !closed
      modifies this
      ensures Snapshot() == Run(old(Snapshot()), trace)
      ensures Inv(Snapshot()) && !closed && sets == old(sets) && setAt == old(setAt) && deadline == old(deadline)
      ensures if old(pending).Some? && HashOf(old(pending).value) in hashes then Answered(old(Snapshot()), Snapshot())
        else Snapshot() == old(Snapshot())
    {
      hide Inv, Run, Step, Answered;
      trace := [];
      ghost var entry := Snapshot();
      NoRun(entry);
      AnsweredIsOver(entry);
      for i := 0 to |hashes|
        invariant Snapshot() == Run(entry, trace)
        invariant Inv(Snapshot()) && !closed && sets == entry.sets && setAt == entry.setAt && deadline == entry.deadline
        invariant if entry.pending.Some? && HashOf(entry.pending.value) in hashes[..i] then Answered(entry, Snapshot()) && pending.None?
          else Snapshot() == entry
      {
        ghost var before := Snapshot();
        SubmitAnswers(before, hashes[i]);
        AnsweredIsOver(before);
        var _ := Submit(hashes[i]);
        RunSnoc(entry, trace, Event.Submit(hashes[i]));
        trace := trace + [Event.Submit(hashes[i])];
      }
    }

    method StoreAll(d: Desc, now: int)
      requires !locked
      modifies this
      ensures Snapshot() == Store(old(Snapshot()), d, now)
      ensures pending == Some(d) && sets == old(sets) + [d] && setAt == old(setAt) + [now] && deadline == Some(now + 1000)
      ensures closed == old(closed)
    {
      locked := true;
      flag := true;
      deadline := Some(now + DEADLINE_MS);
      pendingHash := Some(HashOf(d));
      pending := Some(d);
      sets := sets + [d];
      setAt := setAt + [now];
    }

    /** One turn of the spin loop; `got` when the lock was taken and everything stored. */
    method SpinTurn(d: Desc, now: int, peerClosed: bool) returns (got: bool)
      requires Usable(now)
      modifies this
      ensures Snapshot() == Step(old(Snapshot()), Spin(d, now, peerClosed)) && Inv(Snapshot())
      ensures closed == peerClosed
      ensures got ==> !peerClosed && Snapshot() == Store(old(Snapshot()), d, now)
      ensures got ==> pending == Some(d) && sets == old(sets) + [d] && setAt == old(setAt) + [now] && deadline == Some(now + 1000)
      ensures !got && !peerClosed ==> Snapshot() == old(Snapshot()) && locked && !Expired(Snapshot(), now, false)
      ensures peerClosed ==> sets == old(sets)
    {
      StepKeepsInv(Snapshot(), Spin(d, now, peerClosed));
      got := false;
      if deadline.Some? && (now >= deadline.value || peerClosed) {
        locked := false;
      }
      if peerClosed {
        closed := true;
      } else if !locked {
        StoreAll(d, now);
        got := true;
      }
    }

    /**
     Makes `d` pending, waiting for the lock at most five naps: a held lock always has a stored deadline,
     and it has passed by the sixth turn. Fails only when the peer is closed.
     */
    method SetPendingDesc(d: Desc, start: int, env: SpinEnv) returns (ok: bool, turns: nat, now: int, ghost trace: seq<Event>)
      requires Usable(start)
      modifies this
      ensures Snapshot() == Run(old(Snapshot()), trace) && Inv(Snapshot())
      ensures turns <= 6 && now == start + (if turns == 0 then 0 else 200 * (turns - 1))
      ensures turns == 0 <==> !old(locked)
      ensures ok ==> Usable(now) && pending == Some(d) && sets == old(sets) + [d] && setAt == old(setAt) + [now]
      ensures ok ==> forall k: nat :: k < turns ==> !env.peerClosed(k)
      ensures !ok ==> closed && sets == old(sets) && exists k: nat :: k < turns && env.peerClosed(k)
    {
      hide Inv, Run, Step, Store;
      turns, now, trace := 0, start, [];
      ghost var entry := Snapshot();
      NoRun(entry);
      HeldHasDeadline(entry);
      if !locked {
        StoreAll(d, now);
        FirstStores(entry, d, now);
        StepKeepsInv(entry, First(d, now));
        RunSnoc(entry, [], First(d, now));
        trace := [] + [First(d, now)];
        return true, turns, now, trace;
      }
      while true
        invariant turns <= 5 && now == start + turns * SPIN_MS
        invariant Snapshot() == Run(entry, trace)
        invariant Usable(now) && sets == entry.sets && setAt == entry.setAt
        invariant forall k: nat :: k < turns ==> !env.peerClosed(k)
        invariant deadline.Some? && deadline.value <= start + DEADLINE_MS
        decreases 5 - turns
      {
        var closing := env.peerClosed(turns);
        var got := SpinTurn(d, now, closing);
        RunSnoc(entry, trace, Spin(d, now, closing));
        trace := trace + [Spin(d, now, closing)];
        if closing { return false, turns + 1, now, trace; }
        if got { return true, turns + 1, now, trace; }
        ghost var arrivals := SubmitAll(env.submits(turns));
        RunConcat(entry, trace, arrivals);
        trace := trace + arrivals;
        now := now + SPIN_MS;
        turns := turns + 1;
      }
    }
  }
}
