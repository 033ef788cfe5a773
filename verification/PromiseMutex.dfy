/**
 The client's `Mutex`, a chain of promises. Ticket j is the j-th call of `lock()`. Promise `wait` number
 j is what the field held before that call; ticket j is granted by a callback on it, and number j + 1
 follows the ticket's own promise, which its unlock function resolves. Callbacks may run in any order
 the promises allow, and unlock functions may be called again and again.
 */
module PromiseMutex {

  /** `following`: number j + 1 has been told to wait for this ticket's release. */
  datatype Ticket = Ticket(granted: bool, following: bool, unlocks: nat)

  predicate Released(t: Ticket) { t.unlocks > 0 }

  /** `settled[j]` is whether promise number j has resolved; `grants` records the order of grants. */
  datatype State = State(locks: int, tickets: seq<Ticket>, settled: seq<bool>, grants: seq<nat>)

  const START := State(0, [], [true], [])

  datatype Action = Lock | Grant(j: nat) | Follow(j: nat) | Settle(j: nat) | Unlock(j: nat)

  predicate Enabled(s: State, a: Action) {
    match a
    case Lock => true
    case Grant(j) => j < |s.tickets| && j < |s.settled| && s.settled[j] && !s.tickets[j].granted
    case Follow(j) => j < |s.tickets| && j < |s.settled| && s.settled[j] && !s.tickets[j].following
    case Settle(j) =>
      j < |s.tickets| && j + 1 < |s.settled| && s.tickets[j].following && Released(s.tickets[j]) && !s.settled[j + 1]
    case Unlock(j) => j < |s.tickets| && s.tickets[j].granted
  }

  function Step(s: State, a: Action): State {
    if !Enabled(s, a) then s else
    match a
    case Lock => s.(locks := s.locks + 1, tickets := s.tickets + [Ticket(false, false, 0)], settled := s.settled + [false])
    case Grant(j) => s.(tickets := s.tickets[j := s.tickets[j].(granted := true)], grants := s.grants + [j])
    case Follow(j) => s.(tickets := s.tickets[j := s.tickets[j].(following := true)])
    case Settle(j) => s.(settled := s.settled[j + 1 := true])
    case Unlock(j) => s.(locks := s.locks - 1, tickets := s.tickets[j := s.tickets[j].(unlocks := s.tickets[j].unlocks + 1)])
  }

  function Run(s: State, schedule: seq<Action>): State {
    if schedule == [] then s else Step(Run(s, schedule[..|schedule| - 1]), schedule[|schedule| - 1])
  }

  // ---------------------------------------------------------------------------------------------
  // The invariant
  // ---------------------------------------------------------------------------------------------

  /** Unlock calls beyond the first, over all tickets. */
  function Repeats(tickets: seq<Ticket>): nat {
    if tickets == [] then 0
    else Repeats(tickets[..|tickets| - 1]) + (var u := tickets[|tickets| - 1].unlocks; if u > 1 then u - 1 else 0)
  }

  /** Tickets taken and not released. */
  function Pending(tickets: seq<Ticket>): nat {
    if tickets == [] then 0
    else Pending(tickets[..|tickets| - 1]) + if Released(tickets[|tickets| - 1]) then 0 else 1
  }

  /** Settled behind a ticket only after its release, released only after its grant, granted only when settled. */
  predicate ChainedAt(s: State, j: nat)
    requires j < |s.tickets| && |s.settled| == |s.tickets| + 1
  {
    && (s.settled[j + 1] ==> s.tickets[j].following && Released(s.tickets[j]))
    && (s.tickets[j].following ==> s.settled[j])
    && (Released(s.tickets[j]) ==> s.tickets[j].granted)
    && (s.tickets[j].granted ==> s.settled[j])
  }

  ghost predicate Chained(s: State) {
    && |s.settled| == |s.tickets| + 1 && s.settled[0]
    && (forall j: nat :: j < |s.tickets| ==> ChainedAt(s, j))
  }

  ghost predicate InOrder(s: State) {
    && (forall k :: 0 <= k < |s.grants| ==> s.grants[k] == k)
    && (forall j :: 0 <= j < |s.tickets| ==> (s.tickets[j].granted <==> j < |s.grants|))
    && |s.grants| <= |s.tickets|
  }

  predicate Counted(s: State) { s.locks == Pending(s.tickets) - Repeats(s.tickets) }

  ghost predicate Inv(s: State) { Chained(s) && InOrder(s) && Counted(s) }

  lemma {:induction false} TicketUpdate(tickets: seq<Ticket>, j: nat, t: Ticket)
    requires j < |tickets|
    ensures Pending(tickets[j := t]) ==
      Pending(tickets) - (if Released(tickets[j]) then 0 else 1) + (if Released(t) then 0 else 1)
    ensures Repeats(tickets[j := t]) ==
      Repeats(tickets) - (if tickets[j].unlocks > 1 then tickets[j].unlocks - 1 else 0) + (if t.unlocks > 1 then t.unlocks - 1 else 0)
  {
    var n := |tickets| - 1;
    if j == n {
      assert tickets[j := t][..n] == tickets[..n];
    } else {
      assert tickets[j := t][..n] == tickets[..n][j := t];
      TicketUpdate(tickets[..n], j, t);
    }
  }

  lemma ChainedStep(s: State, a: Action)
    requires Chained(s) && Enabled(s, a)
    ensures Chained(Step(s, a))
  {
    var t := Step(s, a);
    forall j: nat | j < |t.tickets| ensures ChainedAt(t, j) {
      if j < |s.tickets| { assert ChainedAt(s, j); }
    }
  }

  lemma InOrderStep(s: State, a: Action)
    requires Chained(s) && InOrder(s) && Enabled(s, a)
    ensures InOrder(Step(s, a))
  {
    if a.Grant? && a.j > 0 {
      assert ChainedAt(s, a.j - 1);
    }
  }

  lemma CountedStep(s: State, a: Action)
    requires Counted(s) && Enabled(s, a)
    ensures Counted(Step(s, a))
  {
    match a
    case Lock => assert (s.tickets + [Ticket(false, false, 0)])[..|s.tickets|] == s.tickets;
    case Grant(j) => TicketUpdate(s.tickets, j, s.tickets[j].(granted := true));
    case Follow(j) => TicketUpdate(s.tickets, j, s.tickets[j].(following := true));
    case Settle(j) =>
    case Unlock(j) => TicketUpdate(s.tickets, j, s.tickets[j].(unlocks := s.tickets[j].unlocks + 1));
  }

  lemma StepKeepsInv(s: State, a: Action)
    requires Inv(s)
    ensures Inv(Step(s, a))
  {
    hide Chained, InOrder, Counted;
    if Enabled(s, a) {
      ChainedStep(s, a);
      InOrderStep(s, a);
      CountedStep(s, a);
    }
  }

  lemma {:induction false} RunKeepsInv(s: State, schedule: seq<Action>)
    requires Inv(s)
    ensures Inv(Run(s, schedule))
  {
    if schedule != [] {
      RunKeepsInv(s, schedule[..|schedule| - 1]);
      StepKeepsInv(Run(s, schedule[..|schedule| - 1]), schedule[|schedule| - 1]);
    }
  }

  // ---------------------------------------------------------------------------------------------
  // Main results, for every schedule of callbacks and calls
  // ---------------------------------------------------------------------------------------------

  /** A settled promise of the chain has all earlier tickets released. */
  lemma {:induction false} SettledMeansReleased(s: State, j: nat, i: nat)
    requires Chained(s) && j <= |s.tickets| && s.settled[j] && i < j
    ensures Released(s.tickets[i])
  {
    assert ChainedAt(s, j - 1);
    if i < j - 1 { SettledMeansReleased(s, j - 1, i); }
  }

  /** Never two holders: a ticket is granted only after every earlier one was released. */
  lemma MutualExclusion(schedule: seq<Action>, i: nat, j: nat)
    requires i < j < |Run(START, schedule).tickets| && Run(START, schedule).tickets[j].granted
    ensures Run(START, schedule).tickets[i].granted && Released(Run(START, schedule).tickets[i])
  {
    RunKeepsInv(START, schedule);
    assert ChainedAt(Run(START, schedule), j);
    SettledMeansReleased(Run(START, schedule), j, i);
    assert ChainedAt(Run(START, schedule), i);
  }

  /** Grants follow the order of `lock()`. */
  lemma GrantsFollowLocks(schedule: seq<Action>)
    ensures var s := Run(START, schedule);
      |s.grants| <= |s.tickets| && forall k :: 0 <= k < |s.grants| ==> s.grants[k] == k
  {
    RunKeepsInv(START, schedule);
  }

  /** A `wait` promise resolves only behind the one before it, whose callback tied it to a ticket, and that ticket's release. */
  lemma WaitFollowsTicket(schedule: seq<Action>, j: nat)
    requires j < |Run(START, schedule).tickets|
    ensures var s := Run(START, schedule);
      |s.settled| == |s.tickets| + 1 && (s.settled[j + 1] ==> s.settled[j] && s.tickets[j].following && Released(s.tickets[j]))
  {
    RunKeepsInv(START, schedule);
    assert ChainedAt(Run(START, schedule), j);
  }

  lemma {:induction false} TicketsOnlyGrow(s: State, schedule: seq<Action>)
    ensures |Run(s, schedule).tickets| >= |s.tickets|
  {
    if schedule != [] { TicketsOnlyGrow(s, schedule[..|schedule| - 1]); }
  }

  lemma {:induction false} RunConcat(s: State, a: seq<Action>, b: seq<Action>)
    ensures Run(s, a + b) == Run(Run(s, a), b)
  {
    if b == [] {
      assert a + b == a;
    } else {
      assert (a + b)[..|a + b| - 1] == a + b[..|b| - 1];
      RunConcat(s, a, b[..|b| - 1]);
    }
  }

  /** The promise read from `wait` at some moment resolves only after every ticket taken before is released. */
  lemma WaitMeansReleased(first: seq<Action>, second: seq<Action>, i: nat)
    requires i < |Run(START, first).tickets|
    ensures var n, s := |Run(START, first).tickets|, Run(START, first + second);
      n <= |s.tickets| && |s.settled| == |s.tickets| + 1 && (s.settled[n] ==> Released(s.tickets[i]))
  {
    RunKeepsInv(START, first + second);
    RunConcat(START, first, second);
    TicketsOnlyGrow(Run(START, first), second);
    var s := Run(START, first + second);
    if s.settled[|Run(START, first).tickets|] { SettledMeansReleased(s, |Run(START, first).tickets|, i); }
  }

  lemma {:induction false} PendingIsSome(tickets: seq<Ticket>)
    ensures Pending(tickets) > 0 <==> exists j :: 0 <= j < |tickets| && !Released(tickets[j])
  {
    if tickets != [] {
      var n := |tickets| - 1;
      PendingIsSome(tickets[..n]);
      if j :| 0 <= j < n && !Released(tickets[j]) { assert !Released(tickets[..n][j]); }
      if j :| 0 <= j < n && !Released(tickets[..n][j]) { assert !Released(tickets[j]); }
    }
  }

  /**
   `isLocked` tells whether some ticket is unreleased, exactly when repeated unlock calls do not make up
   for the tickets still out; so always, if no unlock function is called twice.
   */
  lemma IsLockedIff(schedule: seq<Action>)
    ensures var s := Run(START, schedule);
      var out := exists j :: 0 <= j < |s.tickets| && !Released(s.tickets[j]);
      (s.locks > 0 <==> out) <==> Pending(s.tickets) == 0 || Repeats(s.tickets) < Pending(s.tickets)
  {
    RunKeepsInv(START, schedule);
    PendingIsSome(Run(START, schedule).tickets);
  }

  /** Two tickets, the first unlocked twice: the second is still out, yet `isLocked` says it is not. */
  lemma UnlockedTwice()
    ensures var s := Run(START, [Lock, Lock, Grant(0), Unlock(0), Unlock(0)]);
      s.locks == 0 && |s.tickets| == 2 && !Released(s.tickets[1])
  {
    hide Run, Step;
    NotRun(START);
    var schedule := [Lock, Lock, Grant(0), Unlock(0), Unlock(0)];
    for n := 0 to 5
      invariant Run(START, schedule[..n]) == Doubled(n)
    {
      assert schedule[..n + 1] == schedule[..n] + [schedule[n]];
      RunAppends(schedule[..n], schedule[n]);
      DoubledStep(n);
    }
    assert schedule[..5] == schedule;
  }

  /** The states of that run. */
  function Doubled(n: nat): State {
    var taken, held := Ticket(false, false, 0), Ticket(true, false, 0);
    match n
    case 0 => START
    case 1 => State(1, [taken], [true, false], [])
    case 2 => State(2, [taken, taken], [true, false, false], [])
    case 3 => State(2, [held, taken], [true, false, false], [0])
    case 4 => State(1, [held.(unlocks := 1), taken], [true, false, false], [0])
    case _ => State(0, [held.(unlocks := 2), taken], [true, false, false], [0])
  }

  lemma DoubledStep(n: nat)
    requires n < 5
    ensures Step(Doubled(n), [Lock, Lock, Grant(0), Unlock(0), Unlock(0)][n]) == Doubled(n + 1)
  {}

  lemma NotRun(s: State)
    ensures Run(s, []) == s
  {}

  lemma RunAppends(schedule: seq<Action>, a: Action)
    ensures Run(START, schedule + [a]) == Step(Run(START, schedule), a)
  {
    assert (schedule + [a])[..|schedule|] == schedule;
  }

  lemma {:induction false} NoRepeats(tickets: seq<Ticket>)
    requires forall j :: 0 <= j < |tickets| ==> tickets[j].unlocks <= 1
    ensures Repeats(tickets) == 0
  {
    if tickets != [] { NoRepeats(tickets[..|tickets| - 1]); }
  }

  lemma IsLockedWhenUnlockedOnce(schedule: seq<Action>)
    requires forall j :: 0 <= j < |Run(START, schedule).tickets| ==> Run(START, schedule).tickets[j].unlocks <= 1
    ensures var s := Run(START, schedule);
      s.locks > 0 <==> exists j :: 0 <= j < |s.tickets| && !Released(s.tickets[j])
  {
    IsLockedIff(schedule);
    NoRepeats(Run(START, schedule).tickets);
  }

  /** No lost wake-up: while tickets wait and none is held, a callback can run. */
  lemma Progress(schedule: seq<Action>, waiting: nat)
    requires waiting < |Run(START, schedule).tickets| && !Run(START, schedule).tickets[waiting].granted
    ensures var s := Run(START, schedule);
      (exists j :: 0 <= j < |s.tickets| && s.tickets[j].granted && !Released(s.tickets[j])) ||
      (exists j :: 0 <= j < |s.tickets| && (Enabled(s, Grant(j)) || Enabled(s, Follow(j)) || Enabled(s, Settle(j))))
  {
    var s := Run(START, schedule);
    RunKeepsInv(START, schedule);
    var j := |s.grants|;
    assert !s.tickets[j].granted;
    if s.settled[j] {
      assert Enabled(s, Grant(j));
    } else {
      assert j > 0 && s.tickets[j - 1].granted && ChainedAt(s, j - 1);
      if Released(s.tickets[j - 1]) {
        assert if s.tickets[j - 1].following then Enabled(s, Settle(j - 1)) else Enabled(s, Follow(j - 1));
      }
    }
  }

  // ---------------------------------------------------------------------------------------------
  // The class
  // ---------------------------------------------------------------------------------------------

  /** `wait` is the number of a promise in the chain; the promises themselves are the fields below it. */
  class Mutex {
    var wait: nat
    var locks: int
    var tickets: seq<Ticket>
    var settled: seq<bool>
    ghost var grants: seq<nat>

    ghost function Snapshot(): State
      reads this
    {
      State(locks, tickets, settled, grants)
    }

    ghost predicate Valid()
      reads this
    {
      Inv(Snapshot()) && wait == |tickets|
    }

    constructor ()
      ensures Valid() && Snapshot() == START
    {
      wait, locks, tickets, settled, grants := 0, 0, [], [true], [];
    }

    method IsLocked() returns (locked: bool)
      requires Valid()
      ensures locked <==> Pending(tickets) > Repeats(tickets)
    {
      return locks > 0;
    }

    /** Takes a ticket; `wait` moves on to a promise that follows it. */
    method TakeLock() returns (ticket: nat)
      requires Valid()
      modifies this
      ensures Valid() && Snapshot() == Step(old(Snapshot()), Lock)
      ensures ticket == old(wait) == |old(tickets)| && wait == ticket + 1
    {
      StepKeepsInv(Snapshot(), Lock);
      ticket := wait;
      locks := locks + 1;
      tickets := tickets + [Ticket(false, false, 0)];
      settled := settled + [false];
      wait := wait + 1;
    }

    /** The ticket's unlock function. */
    method Release(ticket: nat)
      requires Valid() && ticket < |tickets| && tickets[ticket].granted
      modifies this
      ensures Valid() && Snapshot() == Step(old(Snapshot()), Unlock(ticket))
      ensures settled == old(settled) && wait == old(wait)
    {
      StepKeepsInv(Snapshot(), Unlock(ticket));
      locks := locks - 1;
      tickets := tickets[ticket := tickets[ticket].(unlocks := tickets[ticket].unlocks + 1)];
    }

    /** The runtime runs a callback that is due. */
    method RunCallback(a: Action)
      requires Valid() && Enabled(Snapshot(), a) && (a.Grant? || a.Follow? || a.Settle?)
      modifies this
      ensures Valid() && Snapshot() == Step(old(Snapshot()), a) && locks == old(locks) && wait == old(wait)
    {
      StepKeepsInv(Snapshot(), a);
      match a {
        case Grant(j) =>
          tickets := tickets[j := tickets[j].(granted := true)];
          grants := grants + [j];
        case Follow(j) =>
          tickets := tickets[j := tickets[j].(following := true)];
        case Settle(j) =>
          settled := settled[j + 1 := true];
      }
    }
  }
}
