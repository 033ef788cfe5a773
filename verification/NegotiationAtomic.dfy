/**
 The offer lock at the granularity of single atomic loads, stores and swaps, deadlines included. One thread
 runs `SetPendingDesc` and then announces the offer, one thread runs `Submit`, and a schedule interleaves their
 steps in any way. A setter that spins may find the deadline passed and replace the mutex; the claims hold as
 long as no commit overlaps such a replacement, and exactly so long.
 */
module NegotiationAtomic {
  import opened Offers
  import opened Options

  /** Where the setter is: the next access it makes. */
  datatype Setter =
    | Idle
    | TryLock(d: Desc)
    | StoreFlag(d: Desc)
    | StoreDeadline(d: Desc)
    | StoreCancel(d: Desc)
    | StoreHash(d: Desc)
    | StorePending(d: Desc)
    | Announce(d: Desc)

  /** Where the committer is: the next access it makes. */
  datatype Committer =
    | Waiting
    | LoadPending(h: Hash)
    | Swap(h: Hash)
    | StoreNegotiatedHash(h: Hash)
    | TakePending(h: Hash)
    | StoreNegotiated(h: Hash, taken: Option<Desc>)
    | LoadFlag
    | Unlock

  /**
   History: what was made pending, what was committed and at which places of `sets` it stands, what was
   announced to the client, whether the mutex was unlocked while free, whether a held mutex has been replaced
   and no description stored since, and whether a commit ever overlapped that.
   */
  datatype Log = Log(
    sets: seq<Desc>,
    commits: seq<Desc>,
    at: seq<nat>,
    announced: seq<(Desc, Hash)>,
    fault: bool,
    replacing: bool,
    overlapped: bool)

  /** The fields of `SessionDesc`, the two threads, and history. */
  datatype State = State(
    pending: Option<Desc>,
    pendingHash: Option<Hash>,
    negotiated: Option<Desc>,
    negotiatedHash: Option<Hash>,
    locked: bool,
    flag: bool,
    setter: Setter,
    committer: Committer,
    log: Log)

  const START := State(None, None, None, None, false, false, Idle, Waiting, Log([], [], [], [], false, false, false))

  /** `Expire` is the spinning setter finding the deadline passed, `GiveUp` finding its peer closed. */
  datatype Action = BeginSet(d: Desc) | SetterMoves | Expire | GiveUp | BeginSubmit(h: Hash) | CommitterMoves

  /** From the swap that succeeded to the unlock. */
  predicate Committing(c: Committer) { !c.Waiting? && !c.LoadPending? && !c.Swap? }

  function SetterStep(s: State): State {
    match s.setter
    case Idle => s
    case TryLock(d) => if s.locked then s else s.(locked := true, setter := StoreFlag(d))
    case StoreFlag(d) => s.(flag := true, setter := StoreDeadline(d))
    case StoreDeadline(d) => s.(setter := StoreCancel(d))
    case StoreCancel(d) => s.(setter := StoreHash(d))
    case StoreHash(d) => s.(pendingHash := Some(HashOf(d)), setter := StorePending(d))
    case StorePending(d) => s.(pending := Some(d), setter := Announce(d), log := s.log.(sets := s.log.sets + [d], replacing := false))
    case Announce(d) =>
      var h := if s.pendingHash.Some? then s.pendingHash.value else Empty;
      s.(setter := Idle, log := s.log.(announced := s.log.announced + [(d, h)]))
  }

  function CommitterStep(s: State): State {
    match s.committer
    case Waiting => s
    case LoadPending(h) =>
      if s.pending.None? || h == Empty then s.(committer := Waiting) else s.(committer := Swap(h))
    case Swap(h) =>
      if s.pendingHash == Some(h) then
        s.(pendingHash := Some(Empty), committer := StoreNegotiatedHash(h),
           log := s.log.(overlapped := s.log.overlapped || s.log.replacing))
      else s.(committer := Waiting)
    case StoreNegotiatedHash(h) => s.(negotiatedHash := Some(h), committer := TakePending(h))
    case TakePending(h) => s.(pending := None, committer := StoreNegotiated(h, s.pending))
    case StoreNegotiated(_, taken) =>
      if taken.None? then s.(negotiated := None, committer := LoadFlag)
      else
        s.(negotiated := taken, committer := LoadFlag,
           log := s.log.(commits := s.log.commits + [taken.value], at := s.log.at + [if s.log.sets == [] then 0 else |s.log.sets| - 1]))
    case LoadFlag => s.(committer := if s.flag then Unlock else Waiting)
    case Unlock => s.(locked := false, committer := Waiting, log := s.log.(fault := s.log.fault || !s.locked))
  }

  function Step(s: State, a: Action): State {
    match a
    case BeginSet(d) => if s.setter.Idle? then s.(setter := TryLock(d)) else s
    case SetterMoves => SetterStep(s)
    case Expire =>
      if s.setter.TryLock? && s.log.sets != [] && s.locked then
        s.(locked := false, log := s.log.(replacing := true, overlapped := s.log.overlapped || Committing(s.committer)))
      else s
    case GiveUp => if s.setter.TryLock? then s.(setter := Idle) else s
    case BeginSubmit(h) => if s.committer.Waiting? then s.(committer := LoadPending(h)) else s
    case CommitterMoves => CommitterStep(s)
  }

  function Run(schedule: seq<Action>): State {
    if schedule == [] then START else Step(Run(schedule[..|schedule| - 1]), Last(schedule))
  }

  // ---------------------------------------------------------------------------------------------
  // The phases of an offer
  // ---------------------------------------------------------------------------------------------

  /** The setter holds the mutex and has not published the description yet. */
  predicate Publishing(p: Setter) { !p.Idle? && !p.TryLock? && !p.Announce? }

  predicate Relaxed(c: Committer) { c.Waiting? || c.LoadPending? }

  /** The latest description set has been committed; or it has not. */
  predicate AllAnswered(s: State) { if s.log.sets == [] then s.log.at == [] else s.log.at != [] && Last(s.log.at) == |s.log.sets| - 1 }

  predicate OneOpen(s: State, d: Desc) { s.log.sets != [] && d == Last(s.log.sets) && (s.log.at == [] || Last(s.log.at) < |s.log.sets| - 1) }

  predicate Free(s: State) {
    !s.locked && s.pending.None? && !Publishing(s.setter) && Relaxed(s.committer) && AllAnswered(s)
  }

  predicate Setting(s: State) {
    && s.locked && s.pending.None? && Publishing(s.setter) && Relaxed(s.committer) && AllAnswered(s)
    && (s.setter.StorePending? ==> s.pendingHash == Some(HashOf(s.setter.d)))
    && (!s.setter.StoreFlag? ==> s.flag)
  }

  predicate Outstanding(s: State) {
    && s.locked && s.flag && s.pending.Some? && !Publishing(s.setter)
    && (Relaxed(s.committer) || s.committer.Swap?)
    && OneOpen(s, s.pending.value) && s.pendingHash == Some(HashOf(s.pending.value))
  }

  predicate Swapped(s: State) {
    && s.locked && s.flag && s.pending.Some? && !Publishing(s.setter)
    && (s.committer.StoreNegotiatedHash? || s.committer.TakePending?)
    && OneOpen(s, s.pending.value) && s.committer.h == HashOf(s.pending.value)
  }

  predicate Releasing(s: State) {
    && s.locked && s.flag && s.pending.None? && !Publishing(s.setter)
    && (s.committer.StoreNegotiated? || s.committer.LoadFlag? || s.committer.Unlock?)
    && (if s.committer.StoreNegotiated? then
          s.committer.taken.Some? && s.committer.h == HashOf(s.committer.taken.value) && OneOpen(s, s.committer.taken.value)
        else AllAnswered(s))
  }

  /** The mutex was replaced and the description that held it is still there. */
  predicate Replacing(s: State) {
    && s.flag && s.pending.Some? && !s.setter.Announce? && (s.locked <==> Publishing(s.setter))
    && (Relaxed(s.committer) || s.committer.Swap?)
    && OneOpen(s, s.pending.value)
    && (s.setter.StorePending? ==> s.pendingHash == Some(HashOf(s.setter.d)))
  }

  /** Whatever is stored as negotiated is the last commit, under its own hash, outside the store itself. */
  predicate Recorded(s: State) {
    && s.negotiated == (if s.log.commits == [] then None else Some(Last(s.log.commits)))
    && (s.committer.TakePending? || s.committer.StoreNegotiated? ==> s.negotiatedHash == Some(s.committer.h))
    && (!s.committer.TakePending? && !s.committer.StoreNegotiated? ==>
          s.negotiatedHash == if s.negotiated.None? then None else Some(HashOf(s.negotiated.value)))
  }

  /** The commit of `d` has happened, or has begun and can no longer fail. */
  predicate Settled(s: State, d: Desc) {
    || d in s.log.commits
    || (Swapped(s) && s.pending == Some(d))
    || (s.committer.StoreNegotiated? && s.committer.taken == Some(d))
  }

  predicate ReadyToAnnounce(s: State) {
    s.setter.Announce? ==>
      s.pendingHash == Some(HashOf(s.setter.d)) || (s.pendingHash == Some(Empty) && Settled(s, s.setter.d))
  }

  /** Between `SetPendingDesc` and the announcement nobody else sets: the offer is the latest one. */
  predicate Latest(s: State) {
    s.setter.Announce? ==> s.log.sets != [] && Last(s.log.sets) == s.setter.d
  }

  ghost predicate AnnouncedTruly(s: State) {
    forall k :: 0 <= k < |s.log.announced| ==>
      var (d, h) := s.log.announced[k];
      h == HashOf(d) || (h == Empty && Settled(s, d))
  }

  predicate Phase(s: State) {
    if s.log.replacing then Replacing(s) else Free(s) || Setting(s) || Outstanding(s) || Swapped(s) || Releasing(s)
  }

  /** Commits stand among the sets in order, none twice. */
  ghost predicate Placed(s: State) {
    && |s.log.at| == |s.log.commits|
    && (forall i, k :: 0 <= i < k < |s.log.at| ==> s.log.at[i] < s.log.at[k])
    && (forall i :: 0 <= i < |s.log.at| ==> s.log.at[i] < |s.log.sets| && s.log.commits[i] == s.log.sets[s.log.at[i]])
  }

  ghost predicate Inv(s: State) {
    !s.log.fault && Phase(s) && Placed(s) && Recorded(s) && Latest(s) && ReadyToAnnounce(s) && AnnouncedTruly(s)
  }

  lemma PhaseStep(s: State, a: Action)
    requires !s.log.fault && Phase(s) && !Step(s, a).log.overlapped
    ensures !Step(s, a).log.fault && Phase(Step(s, a))
  {
    hide HashOf;
    match a
    case CommitterMoves => CommitterPhase(s);
    case SetterMoves => SetterPhase(s);
    case Expire => assert s.locked && s.setter.TryLock? ==> !s.log.replacing && (Outstanding(s) || Committing(s.committer));
    case _ =>
  }

  lemma SetterPhase(s: State)
    requires !s.log.fault && Phase(s)
    ensures !SetterStep(s).log.fault && Phase(SetterStep(s))
  {
    hide HashOf;
    var t := SetterStep(s);
    if s.setter.StorePending? {
      assert Last(t.log.sets) == s.setter.d && Outstanding(t);
    } else if s.setter.TryLock? && !s.locked {
      assert if s.log.replacing then Replacing(t) else Setting(t);
    }
  }

  lemma CommitterPhase(s: State)
    requires !s.log.fault && Phase(s) && !CommitterStep(s).log.overlapped
    ensures !CommitterStep(s).log.fault && Phase(CommitterStep(s))
  {
    hide HashOf;
  }

  lemma SetterLeaves(s: State)
    ensures var t := SetterStep(s);
      t.log.at == s.log.at && t.log.commits == s.log.commits && t.negotiated == s.negotiated && s.log.sets <= t.log.sets
  {
    hide HashOf;
  }

  lemma CommitterLeaves(s: State)
    requires !s.committer.StoreNegotiated?
    ensures var t := CommitterStep(s);
      t.log.at == s.log.at && t.log.commits == s.log.commits && t.negotiated == s.negotiated && s.log.sets == t.log.sets
  {
    hide HashOf;
  }

  /** What a step other than the commit itself leaves of the history. */
  lemma HistoryStays(s: State, a: Action)
    requires !(a.CommitterMoves? && s.committer.StoreNegotiated?)
    ensures var t := Step(s, a);
      t.log.at == s.log.at && t.log.commits == s.log.commits && t.negotiated == s.negotiated && s.log.sets <= t.log.sets
  {
    hide HashOf, SetterStep, CommitterStep;
    if a.SetterMoves? { SetterLeaves(s); }
    if a.CommitterMoves? { CommitterLeaves(s); }
  }

  lemma CommitIsStored(s: State)
    requires s.committer.StoreNegotiated? && s.committer.taken.Some? && s.log.sets != []
    ensures var t := CommitterStep(s);
      && t.log.at == s.log.at + [|s.log.sets| - 1] && t.log.commits == s.log.commits + [s.committer.taken.value] && t.log.sets == s.log.sets
      && t.negotiated == s.committer.taken && t.negotiatedHash == s.negotiatedHash && t.committer == LoadFlag
  {}

  lemma PlacedStep(s: State, a: Action)
    requires Phase(s) && Placed(s)
    ensures Placed(Step(s, a))
  {
    hide HashOf, Phase, CommitterStep, SetterStep;
    if a.CommitterMoves? && s.committer.StoreNegotiated? {
      StoringIsOpen(s);
      CommitIsStored(s);
    } else {
      HistoryStays(s, a);
    }
  }

  lemma StoringIsOpen(s: State)
    requires Phase(s) && s.committer.StoreNegotiated?
    ensures s.committer.taken.Some? && OneOpen(s, s.committer.taken.value)
  {}

  lemma RecordedStep(s: State, a: Action)
    requires Phase(s) && Recorded(s)
    ensures Recorded(Step(s, a))
  {
    hide Phase, Recorded, CommitterStep;
    CommittingPhase(s);
    if a.CommitterMoves? { CommitterRecords(s); } else { OthersKeepRecord(s, a); }
  }

  lemma OthersKeepRecord(s: State, a: Action)
    requires Recorded(s) && !a.CommitterMoves?
    ensures Recorded(Step(s, a))
  {
    hide Step, HashOf;
    HistoryStays(s, a);
    CommitterStays(s, a);
  }

  lemma CommitterStays(s: State, a: Action)
    requires !a.CommitterMoves?
    ensures Step(s, a).negotiatedHash == s.negotiatedHash
    ensures Step(s, a).committer == s.committer || (s.committer.Waiting? && Step(s, a).committer.LoadPending?)
  {
    hide CommitterStep, HashOf;
  }

  /** The three parts of `Recorded` that a step of the committer moves between. */
  lemma HashMoves(s: State)
    requires !s.committer.StoreNegotiated?
    ensures var c, t := s.committer, CommitterStep(s);
      if c.StoreNegotiatedHash? then t.negotiatedHash == Some(c.h) && t.committer == TakePending(c.h)
      else
        && t.negotiatedHash == s.negotiatedHash && !t.committer.TakePending?
        && (if c.TakePending? then t.committer.StoreNegotiated? && t.committer.h == c.h else !t.committer.StoreNegotiated?)
  {
    hide HashOf;
  }

  lemma CommitterRecords(s: State)
    requires Recorded(s)
    requires s.committer.StoreNegotiated? ==>
      s.committer.taken.Some? && s.log.sets != [] && s.committer.h == HashOf(s.committer.taken.value)
    ensures Recorded(CommitterStep(s))
  {
    hide HashOf, CommitterStep;
    if s.committer.StoreNegotiated? {
      CommitIsStored(s);
      assert Last(s.log.commits + [s.committer.taken.value]) == s.committer.taken.value;
    } else {
      assert Step(s, CommitterMoves) == CommitterStep(s);
      HistoryStays(s, CommitterMoves);
      HashMoves(s);
    }
  }

  lemma CommittingPhase(s: State)
    requires Phase(s)
    ensures s.committer.StoreNegotiated? ==>
      s.committer.taken.Some? && s.log.sets != [] && s.committer.h == HashOf(s.committer.taken.value)
  {
    hide HashOf;
  }

  lemma SettledForGood(s: State, a: Action, d: Desc)
    requires Phase(s) && Settled(s, d) && !Step(s, a).log.overlapped
    ensures Settled(Step(s, a), d)
  {
    if a.SetterMoves? { assert Step(s, a).log.commits == s.log.commits; }
  }

  lemma ReadyStep(s: State, a: Action)
    requires Phase(s) && Latest(s) && ReadyToAnnounce(s) && !Step(s, a).log.overlapped
    ensures Latest(Step(s, a)) && ReadyToAnnounce(Step(s, a))
  {
    if s.setter.Announce? && Settled(s, s.setter.d) { SettledForGood(s, a, s.setter.d); }
  }

  lemma AnnouncedStep(s: State, a: Action)
    requires Phase(s) && ReadyToAnnounce(s) && AnnouncedTruly(s) && !Step(s, a).log.overlapped
    ensures AnnouncedTruly(Step(s, a))
  {
    hide HashOf, Phase, CommitterStep, Settled;
    forall d | Settled(s, d) ensures Settled(Step(s, a), d) { SettledForGood(s, a, d); }
    AnnouncesOne(s, a);
    var t := Step(s, a);
    forall k | 0 <= k < |t.log.announced|
      ensures t.log.announced[k].1 == HashOf(t.log.announced[k].0) || (t.log.announced[k].1 == Empty && Settled(t, t.log.announced[k].0))
    {
      if k < |s.log.announced| { assert t.log.announced[k] == s.log.announced[k]; }
    }
  }

  lemma AnnouncesOne(s: State, a: Action)
    ensures var t := Step(s, a);
      if a.SetterMoves? && s.setter.Announce? then
        t.log.announced == s.log.announced + [(s.setter.d, if s.pendingHash.Some? then s.pendingHash.value else Empty)]
      else t.log.announced == s.log.announced
  {
    hide HashOf;
  }

  lemma OverlapStays(s: State, a: Action)
    requires s.log.overlapped
    ensures Step(s, a).log.overlapped
  {}

  lemma {:induction false} RunKeepsInv(schedule: seq<Action>)
    requires !Run(schedule).log.overlapped
    ensures Inv(Run(schedule))
  {
    hide Step, Phase, Placed, Recorded, Latest, ReadyToAnnounce, AnnouncedTruly;
    if schedule == [] {
      StartsFree();
    } else {
      var s, a := Run(schedule[..|schedule| - 1]), Last(schedule);
      if s.log.overlapped { OverlapStays(s, a); }
      RunKeepsInv(schedule[..|schedule| - 1]);
      PhaseStep(s, a);
      PlacedStep(s, a);
      RecordedStep(s, a);
      ReadyStep(s, a);
      AnnouncedStep(s, a);
    }
  }

  lemma StartsFree()
    ensures Inv(START)
  {}

  // ---------------------------------------------------------------------------------------------
  // Main results, for every interleaving in which no commit overlaps a replacement of the mutex
  // ---------------------------------------------------------------------------------------------

  /** Commits follow the order of sets, none twice, and only the latest set can be pending. */
  lemma CommitsFollowSets(schedule: seq<Action>)
    requires !Run(schedule).log.overlapped
    ensures var s := Run(schedule);
      Placed(s) && (s.pending.Some? ==> s.log.sets != [] && s.pending.value == Last(s.log.sets) && (s.log.at == [] || Last(s.log.at) < |s.log.sets| - 1))
  {
    RunKeepsInv(schedule);
  }

  /** Without expiry nothing is superseded. */
  ghost predicate InStep(s: State) {
    !s.log.replacing && !s.log.overlapped && |s.log.sets| <= |s.log.at| + 1 && forall i :: 0 <= i < |s.log.at| ==> s.log.at[i] == i
  }

  lemma InStepStep(s: State, a: Action)
    requires Phase(s) && InStep(s) && !a.Expire?
    ensures InStep(Step(s, a))
  {
    hide HashOf;
    if a.CommitterMoves? && s.committer.StoreNegotiated? { StoringIsOpen(s); }
    if a.SetterMoves? && s.setter.StorePending? { assert Setting(s); }
  }

  lemma {:induction false} WithoutExpiry(schedule: seq<Action>)
    requires Expire !in schedule
    ensures InStep(Run(schedule))
  {
    hide Step, Inv;
    if schedule != [] {
      var before := schedule[..|schedule| - 1];
      WithoutExpiry(before);
      RunKeepsInv(before);
      assert Phase(Run(before)) by { InvPhase(Run(before)); }
      InStepStep(Run(before), Last(schedule));
    }
  }

  lemma InvPhase(s: State)
    requires Inv(s)
    ensures Phase(s)
  {}

  /** Without expiry at most one offer is unanswered, and descriptions are committed in the order they were set. */
  lemma AtMostOneOutstanding(schedule: seq<Action>)
    requires Expire !in schedule
    ensures Run(schedule).log.commits <= Run(schedule).log.sets
    ensures |Run(schedule).log.sets| <= |Run(schedule).log.commits| + 1
    ensures Run(schedule).pending.Some? ==> Run(schedule).log.sets == Run(schedule).log.commits + [Run(schedule).pending.value]
  {
    hide Run;
    var s := Run(schedule);
    WithoutExpiry(schedule);
    CommitsFollowSets(schedule);
    if s.log.at != [] { assert s.log.at[|s.log.at| - 1] == |s.log.at| - 1 < |s.log.sets|; }
    assert forall i :: 0 <= i < |s.log.commits| ==> s.log.commits[i] == s.log.sets[s.log.at[i]] == s.log.sets[i];
  }

  /**
   The compare-and-swap is tried only while something is pending, and succeeds exactly for the hash of that
   description; a success while the mutex is being replaced is an overlap.
   */
  lemma SwapHitsPending(schedule: seq<Action>)
    requires !Run(schedule).log.overlapped
    ensures var s, t := Run(schedule), Step(Run(schedule), CommitterMoves);
      s.committer.Swap? ==>
        && s.pending.Some?
        && (if s.log.replacing then t.committer.StoreNegotiatedHash? <==> t.log.overlapped
            else t.committer.StoreNegotiatedHash? <==> s.committer.h == HashOf(s.pending.value))
  {
    RunKeepsInv(schedule);
  }

  lemma RunSnoc(schedule: seq<Action>, a: Action)
    ensures Run(schedule + [a]) == Step(Run(schedule), a)
  {
    assert (schedule + [a])[..|schedule|] == schedule;
  }

  /** The description taken out of `pending` after a swap is the one the swap was for. */
  lemma TakenIsSwapped(schedule: seq<Action>)
    requires !Run(schedule).log.overlapped
    ensures var s := Run(schedule);
      s.committer.StoreNegotiated? ==> s.committer.taken.Some? && HashOf(s.committer.taken.value) == s.committer.h
  {
    RunKeepsInv(schedule);
  }

  /** Unlocked while free; or both threads at rest, nothing being replaced, and held without an offer or free with one. */
  predicate Broken(s: State) {
    s.log.fault || (s.setter.Idle? && s.committer.Waiting? && !s.log.replacing && s.locked != s.pending.Some?)
  }

  /** The mutex is never unlocked while free, and with both threads at rest it is free iff nothing is pending. */
  lemma MutexDiscipline(schedule: seq<Action>)
    requires !Run(schedule).log.overlapped
    ensures !Broken(Run(schedule))
  {
    RunKeepsInv(schedule);
  }

  /** Once the committer rests, the negotiated pair is the last commit under its own hash. */
  lemma NegotiatedAtRest(schedule: seq<Action>)
    requires !Run(schedule).log.overlapped
    ensures var s := Run(schedule);
      s.committer.Waiting? ==>
        && s.negotiated == (if s.log.commits == [] then None else Some(Last(s.log.commits)))
        && s.negotiatedHash == (if s.negotiated.None? then None else Some(HashOf(s.negotiated.value)))
  {
    RunKeepsInv(schedule);
  }

  /** An announced offer carries its own hash, or the empty one because its commit is past recall. */
  lemma AnnouncedUnderOwnHash(schedule: seq<Action>, k: nat)
    requires !Run(schedule).log.overlapped && k < |Run(schedule).log.announced|
    ensures var (d, h) := Run(schedule).log.announced[k];
      h == HashOf(d) || (h == Empty && Settled(Run(schedule), d))
  {
    RunKeepsInv(schedule);
  }

  // ---------------------------------------------------------------------------------------------
  // Overlap
  // ---------------------------------------------------------------------------------------------

  function StepsToUnlock(c: Committer): nat {
    match c
    case StoreNegotiatedHash(_) => 5
    case TakePending(_) => 4
    case StoreNegotiated(_, _) => 3
    case LoadFlag => 2
    case Unlock => 1
    case _ => 0
  }

  lemma CommitterMovesOn(s: State)
    requires s.flag && Committing(s.committer)
    ensures var t := CommitterStep(s);
      && t.setter == s.setter && (s.log.fault ==> t.log.fault)
      && (if s.committer.Unlock? then t.committer.Waiting? && !t.locked && (!s.locked ==> t.log.fault)
          else t.flag && t.locked == s.locked && Committing(t.committer) && StepsToUnlock(t.committer) < StepsToUnlock(s.committer))
  {}

  /** The committer runs on alone to its unlock. */
  lemma {:induction false} FinishCommit(schedule: seq<Action>) returns (full: seq<Action>)
    requires Run(schedule).flag && Committing(Run(schedule).committer)
    ensures schedule <= full
    ensures var s, t := Run(schedule), Run(full);
      t.committer.Waiting? && !t.locked && t.setter == s.setter && (s.log.fault || !s.locked ==> t.log.fault)
    decreases StepsToUnlock(Run(schedule).committer)
  {
    hide Run, CommitterStep;
    RunSnoc(schedule, CommitterMoves);
    CommitterMovesOn(Run(schedule));
    full := schedule + [CommitterMoves];
    if !Run(schedule).committer.Unlock? { full := FinishCommit(full); }
  }

  function StepsToAnnounce(p: Setter): nat {
    match p
    case StoreFlag(_) => 6
    case StoreDeadline(_) => 5
    case StoreCancel(_) => 4
    case StoreHash(_) => 3
    case StorePending(_) => 2
    case Announce(_) => 1
    case _ => 0
  }

  /** The setter on its way to the announcement, with the description stored from there on. */
  predicate OnItsWay(s: State) { Publishing(s.setter) || (s.setter.Announce? && s.pending.Some? && !s.log.replacing) }

  lemma SetterMovesOn(s: State)
    requires OnItsWay(s)
    ensures var t := SetterStep(s);
      && t.committer == s.committer && t.locked == s.locked
      && (if s.setter.Announce? then t.setter.Idle? && t.pending.Some? && !t.log.replacing
          else OnItsWay(t) && StepsToAnnounce(t.setter) < StepsToAnnounce(s.setter))
  {
    hide HashOf;
    if s.setter.Announce? || s.setter.StorePending? {
    } else {
      assert Publishing(SetterStep(s).setter);
    }
  }

  /** The setter runs on alone to its announcement. */
  lemma {:induction false} FinishSet(schedule: seq<Action>) returns (full: seq<Action>)
    requires OnItsWay(Run(schedule))
    ensures schedule <= full
    ensures var s, t := Run(schedule), Run(full);
      t.setter.Idle? && t.committer == s.committer && t.locked == s.locked && t.pending.Some? && !t.log.replacing
    decreases StepsToAnnounce(Run(schedule).setter)
  {
    hide Run, SetterStep, OnItsWay;
    RunSnoc(schedule, SetterMoves);
    SetterMovesOn(Run(schedule));
    full := schedule + [SetterMoves];
    if !Run(schedule).setter.Announce? { full := FinishSet(full); }
  }

  lemma OverlapMeans(s: State, a: Action)
    requires Inv(s) && !s.log.overlapped && Step(s, a).log.overlapped
    ensures var t := Step(s, a);
      t.flag && Committing(t.committer) && (!t.locked || Publishing(t.setter))
  {
    hide Placed, Recorded, Latest, ReadyToAnnounce, AnnouncedTruly, HashOf;
  }

  /** And exactly so long: as soon as a commit overlaps a replacement, some continuation breaks the discipline. */
  lemma OverlapBreaks(schedule: seq<Action>, a: Action) returns (full: seq<Action>)
    requires !Run(schedule).log.overlapped && Run(schedule + [a]).log.overlapped
    ensures schedule + [a] <= full && Broken(Run(full))
  {
    hide Run, Inv;
    RunSnoc(schedule, a);
    RunKeepsInv(schedule);
    OverlapMeans(Run(schedule), a);
    full := FinishCommit(schedule + [a]);
    if !Run(full).log.fault { full := FinishSet(full); }
  }

  /** Such a schedule: a set, an expiry under the next one, and the first offer's answer before the lock is retaken. */
  function ClashOf(a: Desc, b: Desc): seq<Action> {
    [BeginSet(a), SetterMoves, SetterMoves, SetterMoves, SetterMoves, SetterMoves, SetterMoves, SetterMoves, BeginSet(b), Expire,
     BeginSubmit(HashOf(a)), CommitterMoves, CommitterMoves, CommitterMoves, CommitterMoves, CommitterMoves, CommitterMoves,
     CommitterMoves]
  }

  /** The states of that run. */
  function Clash(a: Desc, b: Desc, n: nat): State {
    var h := HashOf(a);
    var locked := START.(locked := true, flag := true);
    var one := START.log.(sets := [a]);
    var stored := locked.(pendingHash := Some(h), pending := Some(a), log := one);
    var replaced := stored.(setter := TryLock(b), locked := false, log := one.(announced := [(a, h)], replacing := true));
    var swapped := replaced.(pendingHash := Some(Empty), log := replaced.log.(overlapped := true));
    var taken := swapped.(negotiatedHash := Some(h), pending := None);
    var committed := taken.(negotiated := Some(a), log := taken.log.(commits := [a], at := [0]));
    match n
    case 0 => START
    case 1 => START.(setter := TryLock(a))
    case 2 => START.(locked := true, setter := StoreFlag(a))
    case 3 => locked.(setter := StoreDeadline(a))
    case 4 => locked.(setter := StoreCancel(a))
    case 5 => locked.(setter := StoreHash(a))
    case 6 => locked.(pendingHash := Some(h), setter := StorePending(a))
    case 7 => stored.(setter := Announce(a))
    case 8 => stored.(log := one.(announced := [(a, h)]))
    case 9 => stored.(log := one.(announced := [(a, h)]), setter := TryLock(b))
    case 10 => replaced
    case 11 => replaced.(committer := LoadPending(h))
    case 12 => replaced.(committer := Swap(h))
    case 13 => swapped.(committer := StoreNegotiatedHash(h))
    case 14 => swapped.(negotiatedHash := Some(h), committer := TakePending(h))
    case 15 => taken.(committer := StoreNegotiated(h, Some(a)))
    case 16 => committed.(committer := LoadFlag)
    case 17 => committed.(committer := Unlock)
    case _ => committed.(log := committed.log.(fault := true))
  }

  lemma ClashSets(a: Desc, b: Desc, n: nat)
    requires n < 10
    ensures Step(Clash(a, b, n), ClashOf(a, b)[n]) == Clash(a, b, n + 1)
  {
    hide HashOf, CommitterStep;
  }

  lemma ClashCommits(a: Desc, b: Desc, n: nat)
    requires 10 <= n < 18
    ensures Step(Clash(a, b, n), ClashOf(a, b)[n]) == Clash(a, b, n + 1)
  {
    hide SetterStep;
    assert [] + [a] == [a] && [] + [0 as nat] == [0];
  }

  lemma NotRun()
    ensures Run([]) == START
  {}

  lemma MayUnlockFree(a: Desc, b: Desc)
    ensures Run(ClashOf(a, b)).log.fault
  {
    hide HashOf, Run, Step, ClashOf;
    var schedule := ClashOf(a, b);
    assert |schedule| == 18 by { ClashLength(a, b); }
    NotRun();
    for n := 0 to 18
      invariant Run(schedule[..n]) == Clash(a, b, n)
    {
      assert schedule[..n + 1] == schedule[..n] + [schedule[n]];
      RunSnoc(schedule[..n], schedule[n]);
      if n < 10 { ClashSets(a, b, n); } else { ClashCommits(a, b, n); }
    }
    assert schedule[..18] == schedule;
  }

  lemma ClashLength(a: Desc, b: Desc)
    ensures |ClashOf(a, b)| == 18
  {}
}
