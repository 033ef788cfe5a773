/**
 ParallelExec: workers claim slices of an array through one shared 64-bit atomic counter.

 The parallel branch is a state machine whose step is one atomic access or one call of `fn` by one
 worker. A schedule names the worker that moves next, so a statement about every schedule is a
 statement about every interleaving.
 */
module ParallelExec {
  import opened PowersOfTwo

  const HALF: nat := 0x8000_0000_0000_0000

  function Add64(a: nat, b: nat): nat { (a + b) % WORD }
  function Sub64(a: nat, b: nat): nat { (a - b) % WORD }

  datatype Job = Job(end: nat, step: nat, workers: nat)

  predicate ValidJob(j: Job) { j.end < WORD && j.step < WORD && j.workers > 0 }

  /** About to claim; inside `for i := n - step; i < n && i < end; i++`; returned. */
  datatype Worker = Claiming | Slicing(n: nat, i: nat) | Done

  /** `claims` and `wrapped` are history: how often `start.Add` ran, and whether it ever wrapped. */
  datatype State = State(start: nat, workers: seq<Worker>, calls: seq<nat>, claims: nat, wrapped: bool)

  function Init(j: Job): State {
    State(0, seq(j.workers, _ => Claiming), [], 0, false)
  }

  /** `end + step`, where a claim makes its worker return. */
  function Threshold(j: Job): nat { Add64(j.end, j.step) }

  /** One step of worker `w`. */
  function Step(j: Job, s: State, w: nat): State
    requires w < |s.workers|
  {
    match s.workers[w]
    case Done => s
    case Claiming =>
      var n := Add64(s.start, j.step);
      var next := if n >= Threshold(j) then Done else Slicing(n, Sub64(n, j.step));
      State(n, s.workers[w := next], s.calls, s.claims + 1, s.wrapped || s.start + j.step >= WORD)
    case Slicing(n, i) =>
      if i < n && i < j.end then s.(calls := s.calls + [i], workers := s.workers[w := Slicing(n, i + 1)])
      else s.(workers := s.workers[w := Claiming])
  }

  ghost predicate ValidSchedule(j: Job, schedule: seq<nat>) {
    forall k :: 0 <= k < |schedule| ==> schedule[k] < j.workers
  }

  /** The state after the workers named by `schedule` have moved, in that order. */
  ghost function Run(j: Job, schedule: seq<nat>): (s: State)
    requires ValidSchedule(j, schedule)
    ensures |s.workers| == j.workers
  {
    if schedule == [] then Init(j)
    else Step(j, Run(j, schedule[..|schedule| - 1]), schedule[|schedule| - 1])
  }

  predicate Complete(s: State) { forall w :: 0 <= w < |s.workers| ==> s.workers[w] == Done }

  /** Every index was passed to `fn` once, and nothing else was. */
  ghost predicate ExactlyOnce(j: Job, s: State) {
    forall x: nat :: multiset(s.calls)[x] == if x < j.end then 1 else 0
  }

  /** Slices needed to cover the array. */
  function Slices(j: Job): nat
    requires j.step > 0
  {
    (j.end + j.step - 1) / j.step
  }

  /** What a caller can check beforehand: a useful step, and room for every claim that will be made. */
  predicate Safe(j: Job) {
    if j.step == 0 then j.end == 0 else (Slices(j) + j.workers) * j.step < WORD
  }

  /** The product, unfolded one claim at a time. */
  function Times(count: nat, step: nat): nat {
    if count == 0 then 0 else Times(count - 1, step) + step
  }

  lemma {:induction false} TimesIsProduct(count: nat, step: nat)
    ensures Times(count, step) == count * step
  {
    if count > 0 {
      TimesIsProduct(count - 1, step);
      assert count * step == (count - 1) * step + step;
    }
  }

  lemma TimesOneMore(count: nat, step: nat)
    ensures Times(count + 1, step) == Times(count, step) + step
  {}

  lemma {:induction false} TimesMonotone(a: nat, b: nat, step: nat)
    requires a <= b
    ensures Times(a, step) <= Times(b, step)
    ensures a < b ==> Times(a, step) + step <= Times(b, step)
  {
    if a < b { TimesMonotone(a, b - 1, step); }
  }

  // ---------------------------------------------------------------------------------------------
  // Ownership of indices
  // ---------------------------------------------------------------------------------------------

  function Owes(v: Worker, x: nat): nat {
    if v.Slicing? && v.i <= x < v.n then 1 else 0
  }

  /** How many workers still have to call `fn` on index `x`. */
  function Owed(workers: seq<Worker>, x: nat): nat {
    if workers == [] then 0 else Owes(workers[0], x) + Owed(workers[1..], x)
  }

  lemma {:induction false} OwedUpdate(workers: seq<Worker>, w: nat, v: Worker, x: nat)
    requires w < |workers|
    ensures Owed(workers[w := v], x) == Owed(workers, x) - Owes(workers[w], x) + Owes(v, x)
  {
    if w == 0 {
      assert workers[0 := v][1..] == workers[1..];
    } else {
      assert workers[w := v][1..] == workers[1..][w - 1 := v];
      OwedUpdate(workers[1..], w - 1, v, x);
    }
  }

  lemma {:induction false} NobodyOwes(workers: seq<Worker>, x: nat)
    requires forall w :: 0 <= w < |workers| ==> !workers[w].Slicing?
    ensures Owed(workers, x) == 0
  {
    if workers != [] { NobodyOwes(workers[1..], x); }
  }

  function Finished(workers: seq<Worker>): nat {
    if workers == [] then 0 else (if workers[0] == Done then 1 else 0) + Finished(workers[1..])
  }

  lemma {:induction false} FinishedUpdate(workers: seq<Worker>, w: nat, v: Worker)
    requires w < |workers| && workers[w] != Done
    ensures Finished(workers[w := v]) == Finished(workers) + (if v == Done then 1 else 0)
    ensures Finished(workers) < |workers|
  {
    FinishedAtMostAll(workers[1..]);
    if w == 0 {
      assert workers[0 := v][1..] == workers[1..];
    } else {
      assert workers[w := v][1..] == workers[1..][w - 1 := v];
      FinishedUpdate(workers[1..], w - 1, v);
    }
  }

  lemma {:induction false} FinishedAtMostAll(workers: seq<Worker>)
    ensures Finished(workers) <= |workers|
    ensures (forall w :: 0 <= w < |workers| ==> workers[w] == Done) ==> Finished(workers) == |workers|
  {
    if workers != [] { FinishedAtMostAll(workers[1..]); }
  }

  lemma {:induction false} SomebodyFinished(workers: seq<Worker>, w: nat)
    requires w < |workers| && workers[w] == Done
    ensures Finished(workers) > 0
  {
    if w > 0 { SomebodyFinished(workers[1..], w - 1); }
  }

  lemma {:induction false} NobodyFinished(workers: seq<Worker>)
    requires forall w :: 0 <= w < |workers| ==> workers[w] != Done
    ensures Finished(workers) == 0
  {
    if workers != [] { NobodyFinished(workers[1..]); }
  }

  lemma SliceCount(j: Job, claims: nat)
    requires j.step > 0
    ensures Times(claims, j.step) < j.end ==> claims < Slices(j)
    ensures Times(claims, j.step) >= j.end ==> claims >= Slices(j)
  {
    var c := Slices(j);
    TimesIsProduct(c, j.step);
    assert c * j.step <= j.end + j.step - 1 < c * j.step + j.step by {
      assert j.end + j.step - 1 == c * j.step + (j.end + j.step - 1) % j.step;
    }
    if claims >= c { TimesMonotone(c, claims, j.step); } else { TimesMonotone(claims, c, j.step); }
  }

  // ---------------------------------------------------------------------------------------------
  // The counter over all its rounds
  // ---------------------------------------------------------------------------------------------

  /** The counter after `c` claims, and how often it has come round by then. */
  function CounterAt(j: Job, c: nat): nat { Times(c, j.step) % WORD }
  function RoundsAt(j: Job, c: nat): nat { Times(c, j.step) / WORD }

  /**
   What a caller can check beforehand, wrapping allowed: the threshold fits a word, and while workers remain
   that have not returned, the counter never comes round to a value inside the array. Of the claims after the
   first pass each either makes a worker return or comes round.
   */
  ghost predicate Once(j: Job) {
    j.end == 0 ||
    (j.step > 0 && j.end + j.step < WORD &&
     forall c: nat :: c >= Slices(j) && c - Slices(j) - RoundsAt(j, c) < j.workers ==> CounterAt(j, c) >= j.end)
  }

  lemma NothingToDo(j: Job)
    requires j.end == 0
    ensures Once(j)
  {}

  lemma ThresholdMustFit(j: Job)
    requires j.step < WORD <= j.end + j.step
    ensures !Once(j)
  {}

  lemma WordParts(a: nat, k: nat, r: nat)
    requires a == WORD * k + r && r < WORD
    ensures a / WORD == k && a % WORD == r
  {}

  lemma NextClaim(j: Job, c: nat)
    requires j.step < WORD
    ensures var v := CounterAt(j, c);
      if v + j.step < WORD then CounterAt(j, c + 1) == v + j.step && RoundsAt(j, c + 1) == RoundsAt(j, c)
      else CounterAt(j, c + 1) == v + j.step - WORD && RoundsAt(j, c + 1) == RoundsAt(j, c) + 1
    ensures CounterAt(j, c) < WORD
  {
    hide Times;
    var a := Times(c, j.step);
    TimesOneMore(c, j.step);
    if a % WORD + j.step < WORD { WordParts(a + j.step, a / WORD, a % WORD + j.step); }
    else { WordParts(a + j.step, a / WORD + 1, a % WORD + j.step - WORD); }
  }

  /** Of the first `c` claims, how many give a slice with index `x` in it, and how many make a worker return. */
  function Covered(j: Job, c: nat, x: nat): nat {
    if c == 0 then 0 else Covered(j, c - 1, x) + if CounterAt(j, c - 1) <= x < CounterAt(j, c - 1) + j.step then 1 else 0
  }

  function Returns(j: Job, c: nat): nat {
    if c == 0 then 0 else Returns(j, c - 1) + if CounterAt(j, c) >= Threshold(j) then 1 else 0
  }

  lemma {:induction false} ClaimsAddUp(j: Job, k: nat, c: nat, x: nat)
    requires k <= c
    ensures Covered(j, k, x) <= Covered(j, c, x) && Returns(j, k) <= Returns(j, c)
  {
    if k < c { ClaimsAddUp(j, k, c - 1, x); }
  }

  /** Each worker that has returned did so on a claim, and the last claim was made while one had not. */
  ghost predicate Claimed(j: Job, s: State) {
    && s.start == CounterAt(j, s.claims)
    && (s.wrapped <==> RoundsAt(j, s.claims) > 0)
    && Finished(s.workers) == Returns(j, s.claims)
    && (s.claims > 0 ==> Returns(j, s.claims - 1) < j.workers)
    && (forall x: nat :: x >= j.end ==> multiset(s.calls)[x] == 0)
  }

  /** Each call of `fn` made or owed belongs to a claim. */
  ghost predicate Accounted(j: Job, s: State) {
    forall x: nat :: x < j.end ==> multiset(s.calls)[x] + Owed(s.workers, x) == Covered(j, s.claims, x)
  }

  /** The claim that takes the counter from `before`: where its slice begins and what it holds. */
  lemma SliceOfClaim(j: Job, before: nat, x: nat)
    requires j.end + j.step < WORD && before < WORD && x < j.end
    ensures var n := Add64(before, j.step);
      && Threshold(j) == j.end + j.step && Sub64(n, j.step) == before
      && (before <= x < n <==> before <= x < before + j.step)
      && (n >= j.end + j.step ==> !(before <= x < before + j.step))
  {}

  lemma CallsStepAt(j: Job, s: State, w: nat, x: nat)
    requires j.end + j.step < WORD && w < |s.workers| && s.start == CounterAt(j, s.claims) && x < j.end
    ensures var t := Step(j, s, w);
      multiset(t.calls)[x] + Owed(t.workers, x) - Covered(j, t.claims, x)
      == multiset(s.calls)[x] + Owed(s.workers, x) - Covered(j, s.claims, x)
  {
    hide CounterAt, Owed, Add64, Sub64, Threshold;
    match s.workers[w]
    case Done =>
    case Claiming =>
      var n := Add64(s.start, j.step);
      NextClaim(j, s.claims);
      SliceOfClaim(j, s.start, x);
      OwedUpdate(s.workers, w, if n >= Threshold(j) then Done else Slicing(n, s.start), x);
    case Slicing(n, i) =>
      OwedUpdate(s.workers, w, if i < n && i < j.end then Slicing(n, i + 1) else Claiming, x);
  }

  lemma ClaimsStep(j: Job, s: State, w: nat)
    requires ValidJob(j) && w < |s.workers| == j.workers && Claimed(j, s)
    ensures Claimed(j, Step(j, s, w))
  {
    hide CounterAt, RoundsAt, Finished, Threshold;
    match s.workers[w]
    case Done =>
    case Claiming =>
      NextClaim(j, s.claims);
      var n := Add64(s.start, j.step);
      FinishedUpdate(s.workers, w, if n >= Threshold(j) then Done else Slicing(n, Sub64(n, j.step)));
    case Slicing(n, i) =>
      FinishedUpdate(s.workers, w, if i < n && i < j.end then Slicing(n, i + 1) else Claiming);
  }

  lemma StartClaimed(j: Job)
    ensures Claimed(j, Init(j))
  {
    NobodyFinished(Init(j).workers);
  }

  lemma {:induction false} RunClaimed(j: Job, schedule: seq<nat>)
    requires ValidJob(j) && ValidSchedule(j, schedule)
    ensures Claimed(j, Run(j, schedule))
  {
    hide Step, Claimed;
    if schedule == [] {
      StartClaimed(j);
    } else {
      RunClaimed(j, schedule[..|schedule| - 1]);
      ClaimsStep(j, Run(j, schedule[..|schedule| - 1]), schedule[|schedule| - 1]);
    }
  }

  lemma {:induction false} RunAccounted(j: Job, schedule: seq<nat>)
    requires ValidJob(j) && j.end + j.step < WORD && ValidSchedule(j, schedule)
    ensures Accounted(j, Run(j, schedule))
  {
    hide Step, Owed;
    if schedule == [] {
      forall x: nat ensures Owed(Init(j).workers, x) == 0 { NobodyOwes(Init(j).workers, x); }
    } else {
      var s, w := Run(j, schedule[..|schedule| - 1]), schedule[|schedule| - 1];
      RunAccounted(j, schedule[..|schedule| - 1]);
      RunClaimed(j, schedule[..|schedule| - 1]);
      forall x: nat | x < j.end { CallsStepAt(j, s, w, x); }
    }
  }

  lemma ThresholdFits(j: Job)
    requires j.end + j.step < WORD
    ensures Threshold(j) == j.end + j.step
  {}

  /** The first pass covers each index once and no worker returns before it is over. */
  lemma {:induction false} FirstPass(j: Job, c: nat, x: nat)
    requires j.step > 0 && j.end + j.step < WORD && c <= Slices(j)
    ensures CounterAt(j, c) == Times(c, j.step) && RoundsAt(j, c) == 0 && Returns(j, c) == 0
    ensures x < j.end ==> Covered(j, c, x) == if x < Times(c, j.step) then 1 else 0
    ensures c == Slices(j) ==> Times(c, j.step) >= j.end
  {
    hide Slices, Threshold;
    ThresholdFits(j);
    SliceCount(j, c);
    if c > 0 {
      FirstPass(j, c - 1, x);
      SliceCount(j, c - 1);
      NextClaim(j, c - 1);
      TimesOneMore(c - 1, j.step);
    }
  }

  /** From the end of the first pass to claim `c` the counter stays outside the array. */
  ghost predicate StaysOutside(j: Job, c: nat)
    requires j.step > 0
  {
    forall k: nat :: Slices(j) <= k < c ==> CounterAt(j, k) >= j.end
  }

  lemma {:induction false} WhileOutside(j: Job, c: nat, x: nat)
    requires j.step > 0 && j.end + j.step < WORD && c >= Slices(j) && StaysOutside(j, c)
    ensures x < j.end ==> Covered(j, c, x) == 1
    ensures Returns(j, c) == c - Slices(j) - RoundsAt(j, c)
  {
    hide Slices, CounterAt, RoundsAt;
    if c == Slices(j) {
      FirstPass(j, c, x);
    } else {
      WhileOutside(j, c - 1, x);
      NextClaim(j, c - 1);
    }
  }

  /** The first time the counter is found inside the array again. */
  lemma {:induction false} FirstHit(j: Job, c: nat) returns (k: nat)
    requires j.step > 0 && j.end + j.step < WORD && c >= Slices(j) && CounterAt(j, c) < j.end
    ensures Slices(j) <= k <= c && StaysOutside(j, k) && CounterAt(j, k) < j.end
    ensures k - RoundsAt(j, k) <= c - RoundsAt(j, c)
  {
    hide Slices, CounterAt, RoundsAt;
    k := Slices(j);
    while CounterAt(j, k) >= j.end
      invariant Slices(j) <= k <= c && StaysOutside(j, k)
      decreases c - k
    {
      k := k + 1;
    }
    RoundsGrowSlower(j, k, c);
  }

  lemma {:induction false} RoundsGrowSlower(j: Job, k: nat, c: nat)
    requires j.step < WORD && k <= c
    ensures k - RoundsAt(j, k) <= c - RoundsAt(j, c)
  {
    hide CounterAt, RoundsAt;
    if k < c {
      RoundsGrowSlower(j, k, c - 1);
      NextClaim(j, c - 1);
    }
  }

  lemma {:induction false} OnceStaysOutside(j: Job, c: nat)
    requires j.step > 0 && j.end + j.step < WORD && Once(j)
    requires c > Slices(j) ==> Returns(j, c - 1) < j.workers
    ensures StaysOutside(j, c)
  {
    hide Slices, CounterAt, RoundsAt;
    if c > Slices(j) {
      ClaimsAddUp(j, if c > 1 then c - 2 else 0, c - 1, 0);
      OnceStaysOutside(j, c - 1);
      WhileOutside(j, c - 1, 0);
    }
  }

  /** All workers have returned after exactly `c` claims: these cover each index once iff the job allows it. */
  lemma CoveredOnceIff(j: Job, c: nat)
    requires ValidJob(j) && j.step > 0 && j.end + j.step < WORD
    requires Returns(j, c) == j.workers && (c > 0 ==> Returns(j, c - 1) < j.workers)
    ensures (forall x: nat :: x < j.end ==> Covered(j, c, x) == 1) <==> Once(j)
  {
    hide Slices, CounterAt, RoundsAt, Covered, Returns;
    if c <= Slices(j) {
      FirstPass(j, c, 0);
    } else if j.end > 0 {
      if Once(j) {
        OnceStaysOutside(j, c);
        forall x: nat { WhileOutside(j, c, x); }
      } else {
        var hit: nat :| hit >= Slices(j) && hit - Slices(j) - RoundsAt(j, hit) < j.workers && CounterAt(j, hit) < j.end;
        var k := FirstHit(j, hit);
        var x := CounterAt(j, k);
        WhileOutside(j, k, x);
        if c <= k { ClaimsAddUp(j, c, k, x); }
        CoveredTwice(j, k, c);
      }
    }
  }

  lemma CoveredTwice(j: Job, k: nat, c: nat)
    requires j.step > 0 && k < c
    ensures Covered(j, c, CounterAt(j, k)) > Covered(j, k, CounterAt(j, k))
  {
    hide CounterAt;
    ClaimsAddUp(j, k + 1, c, CounterAt(j, k));
  }

  // ---------------------------------------------------------------------------------------------
  // Overflow
  // ---------------------------------------------------------------------------------------------

  lemma SafeThreshold(j: Job)
    requires ValidJob(j) && j.step > 0 && Safe(j)
    ensures j.end + j.step < WORD
    ensures Times(Slices(j) + j.workers, j.step) < WORD
  {
    TimesIsProduct(Slices(j) + j.workers, j.step);
    TimesMonotone(Slices(j), Slices(j) + j.workers, j.step);
    SliceCount(j, Slices(j));
  }

  /** One slice more than there are workers, beyond the end of the array, is room enough. */
  lemma RoomIsSafe(j: Job)
    requires j.step > 0 && j.end + (j.workers + 1) * j.step < WORD
    ensures Safe(j)
  {
    var c := Slices(j);
    assert c * j.step <= j.end + j.step - 1 by {
      assert j.end + j.step - 1 == c * j.step + (j.end + j.step - 1) % j.step;
    }
    assert (c + j.workers) * j.step == c * j.step + j.workers * j.step;
    assert (j.workers + 1) * j.step == j.workers * j.step + j.step;
  }

  /** A safe job is over after one claim for each slice and each worker, all in the first round. */
  lemma SafeClaims(j: Job)
    requires ValidJob(j) && j.step > 0 && Safe(j)
    ensures Returns(j, Slices(j) + j.workers) == j.workers && RoundsAt(j, Slices(j) + j.workers) == 0
  {
    hide Slices, Safe, Returns;
    var total := Slices(j) + j.workers;
    SafeThreshold(j);
    WordParts(Times(total, j.step), 0, Times(total, j.step));
    forall c: nat | Slices(j) <= c < total ensures CounterAt(j, c) >= j.end {
      RoundsGrowSlower(j, c, total);
      SafeCounter(j, c);
    }
    WhileOutside(j, total, 0);
  }

  /** With workers still running, fewer claims have been made than would make all of them return. */
  lemma ClaimsWithin(j: Job, s: State, total: nat)
    requires Claimed(j, s) && Returns(j, total) >= j.workers
    ensures s.claims <= total
    ensures Finished(s.workers) < j.workers ==> s.claims < total
  {
    hide CounterAt, RoundsAt, Returns;
    if s.claims > total { ClaimsAddUp(j, total, s.claims - 1, 0); }
    if s.claims >= total { ClaimsAddUp(j, total, s.claims, 0); }
  }

  /** No schedule of a safe job makes the counter wrap. */
  lemma NeverWraps(j: Job, schedule: seq<nat>)
    requires ValidJob(j) && j.step > 0 && Safe(j) && ValidSchedule(j, schedule)
    ensures !Run(j, schedule).wrapped
  {
    hide Run, Slices, Returns;
    var s, total := Run(j, schedule), Slices(j) + j.workers;
    RunClaimed(j, schedule);
    SafeClaims(j);
    ClaimsWithin(j, s, total);
    TimesMonotone(s.claims, total, j.step);
  }

  /** A safe job is one whose counter never comes round in time. */
  lemma SafeIsOnce(j: Job)
    requires ValidJob(j) && Safe(j)
    ensures Once(j)
  {
    if j.end > 0 {
      SafeThreshold(j);
      forall c: nat | c >= Slices(j) && c - Slices(j) - RoundsAt(j, c) < j.workers ensures CounterAt(j, c) >= j.end {
        SafeCounter(j, c);
      }
    }
  }

  lemma SafeCounter(j: Job, c: nat)
    requires ValidJob(j) && j.step > 0 && Safe(j)
    requires c >= Slices(j) && c - Slices(j) - RoundsAt(j, c) < j.workers
    ensures CounterAt(j, c) >= j.end
  {
    hide Slices, Safe;
    var total := Slices(j) + j.workers;
    SafeThreshold(j);
    if c > total {
      RoundsGrowSlower(j, total, c);
      WordParts(Times(total, j.step), 0, Times(total, j.step));
    } else {
      TimesMonotone(c, total, j.step);
      TimesMonotone(Slices(j), c, j.step);
      SliceCount(j, c);
      FirstPass(j, Slices(j), 0);
    }
  }

  lemma ThresholdWraps(j: Job)
    requires ValidJob(j) && j.end + j.step >= WORD
    ensures Threshold(j) == j.end + j.step - WORD
  {}

  /** Nothing was called, and nothing is left to call in the slices at hand. */
  ghost predicate Idling(s: State) {
    s.calls == [] && s.start < WORD && forall w :: 0 <= w < |s.workers| && s.workers[w].Slicing? ==> s.workers[w].n <= s.workers[w].i
  }

  lemma IdlingStep(j: Job, s: State, w: nat)
    requires ValidJob(j) && j.end + j.step >= WORD && w < |s.workers| && Idling(s)
    ensures Idling(Step(j, s, w))
  {
    hide Threshold;
    ThresholdWraps(j);
  }

  /** When `end + step` wraps, every claim is either the worker's last or gives an empty slice: nothing is ever called. */
  lemma {:induction false} WrappedThresholdCallsNothing(j: Job, schedule: seq<nat>)
    requires ValidJob(j) && j.end + j.step >= WORD && ValidSchedule(j, schedule)
    ensures Run(j, schedule).calls == [] && Idling(Run(j, schedule))
  {
    hide Step;
    if schedule != [] {
      WrappedThresholdCallsNothing(j, schedule[..|schedule| - 1]);
      IdlingStep(j, Run(j, schedule[..|schedule| - 1]), schedule[|schedule| - 1]);
    }
  }

  /** With a zero step and something to do, no schedule is ever complete. */
  lemma ZeroStepNotComplete(j: Job, schedule: seq<nat>)
    requires ValidJob(j) && j.step == 0 && j.end > 0 && ValidSchedule(j, schedule)
    ensures !Complete(Run(j, schedule))
  {
    hide Run;
    if Complete(Run(j, schedule)) {
      var c := CompleteMeansStop(j, schedule);
      TimesIsProduct(c, j.step);
    }
  }

  /** A claim that makes its worker return. */
  predicate StopsAt(j: Job, c: nat) { c > 0 && CounterAt(j, c) >= Threshold(j) }

  lemma {:induction false} SomeStop(j: Job, c: nat) returns (k: nat)
    requires Returns(j, c) > 0
    ensures k <= c && StopsAt(j, k)
  {
    hide CounterAt, Threshold;
    k := c;
    if !StopsAt(j, c) { k := SomeStop(j, c - 1); }
  }

  lemma CompleteMeansStop(j: Job, schedule: seq<nat>) returns (c: nat)
    requires ValidJob(j) && ValidSchedule(j, schedule) && Complete(Run(j, schedule))
    ensures StopsAt(j, c)
  {
    hide Run, CounterAt, Threshold, Returns;
    RunClaimed(j, schedule);
    FinishedAtMostAll(Run(j, schedule).workers);
    c := SomeStop(j, Run(j, schedule).claims);
  }

  // ---------------------------------------------------------------------------------------------
  // Main results
  // ---------------------------------------------------------------------------------------------

  /**
   Exactly when a completed run calls `fn` once on every index, whatever the interleaving and whether or not
   the counter wraps on the way.
   */
  lemma CompletedRunOnceIff(j: Job, schedule: seq<nat>)
    requires ValidJob(j) && ValidSchedule(j, schedule) && Complete(Run(j, schedule))
    ensures ExactlyOnce(j, Run(j, schedule)) <==> Once(j)
  {
    hide Run, Once, CounterAt, RoundsAt, Returns;
    var s := Run(j, schedule);
    RunClaimed(j, schedule);
    if j.end == 0 {
      NothingToDo(j);
    } else if j.step == 0 {
      ZeroStepNotComplete(j, schedule);
    } else if j.end + j.step >= WORD {
      WrappedThresholdCallsNothing(j, schedule);
      ThresholdMustFit(j);
      assert multiset(s.calls)[0] == 0;
    } else {
      RunAccounted(j, schedule);
      AllCallsMadeIff(j, s);
    }
  }

  lemma AllCallsMadeIff(j: Job, s: State)
    requires ValidJob(j) && j.step > 0 && j.end + j.step < WORD
    requires Claimed(j, s) && Accounted(j, s) && Complete(s) && |s.workers| == j.workers
    ensures ExactlyOnce(j, s) <==> Once(j)
  {
    hide Once, Covered, Returns, CounterAt, RoundsAt, Finished, Owed;
    FinishedAtMostAll(s.workers);
    forall x: nat | x < j.end ensures multiset(s.calls)[x] == Covered(j, s.claims, x) { NobodyOwes(s.workers, x); }
    CoveredOnceIff(j, s.claims);
    if ExactlyOnce(j, s) {
      forall x: nat | x < j.end ensures Covered(j, s.claims, x) == 1 { assert multiset(s.calls)[x] == 1; }
    }
    if Once(j) {
      forall x: nat ensures multiset(s.calls)[x] == if x < j.end then 1 else 0 {
        if x < j.end { assert Covered(j, s.claims, x) == 1; }
      }
    }
  }

  /**
   Exactly when it is correct without the counter ever wrapping: a completed run called `fn` once on every
   index and never wrapped if and only if the job is safe.
   */
  lemma CompletedRunCorrectIff(j: Job, schedule: seq<nat>)
    requires ValidJob(j) && ValidSchedule(j, schedule) && Complete(Run(j, schedule))
    ensures (ExactlyOnce(j, Run(j, schedule)) && !Run(j, schedule).wrapped) <==> Safe(j)
  {
    hide Run, ExactlyOnce, Once, Slices;
    CompletedRunOnceIff(j, schedule);
    if Safe(j) {
      SafeIsOnce(j);
      if j.step == 0 { ZeroStepNeverWraps(j, schedule); } else { NeverWraps(j, schedule); }
    } else if Once(j) && !Run(j, schedule).wrapped {
      UnwrappedIsSafe(j, schedule);
    }
  }

  lemma ZeroStepNeverWraps(j: Job, schedule: seq<nat>)
    requires ValidJob(j) && j.step == 0 && ValidSchedule(j, schedule)
    ensures !Run(j, schedule).wrapped
  {
    hide Run;
    RunClaimed(j, schedule);
    TimesIsProduct(Run(j, schedule).claims, j.step);
  }

  lemma UnwrappedIsSafe(j: Job, schedule: seq<nat>)
    requires ValidJob(j) && ValidSchedule(j, schedule) && Complete(Run(j, schedule))
    requires Once(j) && !Run(j, schedule).wrapped
    ensures Safe(j)
  {
    hide Run, Slices, Returns, Finished;
    var s := Run(j, schedule);
    RunClaimed(j, schedule);
    FinishedAtMostAll(s.workers);
    if j.step == 0 {
      if j.end > 0 { ZeroStepNotComplete(j, schedule); }
    } else {
      if s.claims < Slices(j) { FirstPass(j, s.claims, 0); }
      OnceStaysOutside(j, s.claims);
      WhileOutside(j, s.claims, 0);
      TimesIsProduct(s.claims, j.step);
    }
  }

  // ---------------------------------------------------------------------------------------------
  // Termination
  // ---------------------------------------------------------------------------------------------

  /** Every step is taken by a worker that has not returned. */
  ghost predicate Busy(j: Job, schedule: seq<nat>)
    requires ValidSchedule(j, schedule)
  {
    forall k :: 0 <= k < |schedule| ==> Run(j, schedule[..k]).workers[schedule[k]] != Done
  }

  /** Whoever moves when, all workers have returned after `bound` steps. */
  ghost predicate Bounded(j: Job, bound: nat) {
    forall schedule :: ValidSchedule(j, schedule) && Busy(j, schedule) ==> |schedule| <= bound
  }

  ghost predicate Terminates(j: Job) { exists bound: nat :: Bounded(j, bound) }

  function Remaining(v: Worker): nat {
    if !v.Slicing? then 0 else if v.i <= v.n then v.n - v.i + 1 else 1
  }

  function Work(workers: seq<Worker>): nat {
    if workers == [] then 0 else Remaining(workers[0]) + Work(workers[1..])
  }

  lemma {:induction false} WorkUpdate(workers: seq<Worker>, w: nat, v: Worker)
    requires w < |workers|
    ensures Work(workers[w := v]) == Work(workers) - Remaining(workers[w]) + Remaining(v)
  {
    if w == 0 {
      assert workers[0 := v][1..] == workers[1..];
    } else {
      assert workers[w := v][1..] == workers[1..][w - 1 := v];
      WorkUpdate(workers[1..], w - 1, v);
    }
  }

  lemma {:induction false} NoWork(workers: seq<Worker>)
    requires forall w :: 0 <= w < |workers| ==> workers[w] == Claiming
    ensures Work(workers) == 0
  {
    if workers != [] { NoWork(workers[1..]); }
  }

  /** Upper bound on the steps still to be taken when `total` claims make every worker return. */
  ghost function Budget(j: Job, s: State, total: nat): nat {
    Work(s.workers) + if s.claims <= total then Times(total - s.claims, j.step + 2) else 0
  }

  /** What one step does to the claims made and the work at hand. */
  lemma StepWork(j: Job, s: State, w: nat)
    requires ValidJob(j) && w < |s.workers| && s.workers[w] != Done && s.start < WORD
    ensures var t := Step(j, s, w);
      if s.workers[w] == Claiming
      then t.claims == s.claims + 1 && Work(t.workers) <= Work(s.workers) + j.step + 1
      else t.claims == s.claims && Work(t.workers) < Work(s.workers)
  {
    hide Work, Threshold, Add64, Sub64;
    match s.workers[w]
    case Claiming =>
      var n := Add64(s.start, j.step);
      assert Sub64(n, j.step) == s.start && n <= s.start + j.step by { SliceStarts(s.start, j.step); }
      WorkUpdate(s.workers, w, if n >= Threshold(j) then Done else Slicing(n, s.start));
    case Slicing(n, i) =>
      WorkUpdate(s.workers, w, if i < n && i < j.end then Slicing(n, i + 1) else Claiming);
  }

  lemma SliceStarts(before: nat, step: nat)
    requires before < WORD && step < WORD
    ensures Sub64(Add64(before, step), step) == before && Add64(before, step) <= before + step
  {}

  lemma BudgetFalls(j: Job, s: State, w: nat, total: nat)
    requires ValidJob(j) && Claimed(j, s) && w < |s.workers| == j.workers && s.workers[w] != Done
    requires Returns(j, total) >= j.workers
    ensures Budget(j, Step(j, s, w), total) < Budget(j, s, total)
  {
    hide Step, Work, Times, Finished, Returns, RoundsAt;
    FinishedUpdate(s.workers, w, Done);
    ClaimsWithin(j, s, total);
    StepWork(j, s, w);
    if s.workers[w] == Claiming { TimesOneMore(total - s.claims - 1, j.step + 2); }
  }

  lemma {:induction false} BusyIsBounded(j: Job, schedule: seq<nat>, total: nat)
    requires ValidJob(j) && Returns(j, total) >= j.workers && ValidSchedule(j, schedule) && Busy(j, schedule)
    ensures |schedule| + Budget(j, Run(j, schedule), total) <= total * (j.step + 2)
  {
    hide Returns, Step;
    if schedule == [] {
      NoWork(Init(j).workers);
      TimesIsProduct(total, j.step + 2);
    } else {
      var k := |schedule| - 1;
      var before := schedule[..k];
      forall i | 0 <= i < |before| ensures Run(j, before[..i]).workers[before[i]] != Done {
        assert before[..i] == schedule[..i];
      }
      BusyIsBounded(j, before, total);
      RunClaimed(j, before);
      BudgetFalls(j, Run(j, before), schedule[k], total);
    }
  }

  /** In a safe job no interleaving makes more steps than this. */
  lemma EveryScheduleIsBounded(j: Job, schedule: seq<nat>)
    requires ValidJob(j) && j.step > 0 && Safe(j) && ValidSchedule(j, schedule) && Busy(j, schedule)
    ensures |schedule| <= (Slices(j) + j.workers) * (j.step + 2)
  {
    hide Returns, Safe, Slices, Busy, Budget;
    SafeClaims(j);
    BusyIsBounded(j, schedule, Slices(j) + j.workers);
  }

  /** After 2^64 claims the counter is where it was. */
  lemma CounterRepeats(j: Job, c: nat)
    ensures CounterAt(j, c + WORD) == CounterAt(j, c)
  {
    hide Times;
    TimesIsProduct(c, j.step);
    TimesIsProduct(c + WORD, j.step);
    var a := Times(c, j.step);
    assert Times(c + WORD, j.step) == a + WORD * j.step;
    WordParts(a + WORD * j.step, a / WORD + j.step, a % WORD);
  }

  /** So one claim that stops a worker is followed by one for every other. */
  lemma {:induction false} EnoughStops(j: Job, c: nat, n: nat) returns (total: nat)
    requires StopsAt(j, c)
    ensures StopsAt(j, total) && Returns(j, total) >= n
  {
    hide CounterAt, Threshold, Returns;
    if n == 0 {
      total := c;
    } else {
      var before := EnoughStops(j, c, n - 1);
      total := before + WORD;
      CounterRepeats(j, before);
      ClaimsAddUp(j, before, total - 1, 0);
      assert Returns(j, total) == Returns(j, total - 1) + 1 by { OneReturnMore(j, total); }
    }
  }

  lemma OneReturnMore(j: Job, c: nat)
    requires StopsAt(j, c)
    ensures Returns(j, c) == Returns(j, c - 1) + 1
  {}

  lemma StopsMeansTerminates(j: Job, c: nat)
    requires ValidJob(j) && StopsAt(j, c)
    ensures Terminates(j)
  {
    hide Returns, Budget, StopsAt;
    var total := EnoughStops(j, c, j.workers);
    var bound: nat := total * (j.step + 2);
    forall schedule | ValidSchedule(j, schedule) && Busy(j, schedule) ensures |schedule| <= bound {
      BusyIsBounded(j, schedule, total);
    }
    assert Bounded(j, bound);
  }

  /** Without a claim that stops a worker none has returned in any schedule. */
  lemma NobodyReturns(j: Job, schedule: seq<nat>, w: nat)
    requires ValidJob(j) && ValidSchedule(j, schedule) && w < j.workers && Run(j, schedule).workers[w] == Done
    ensures exists c: nat :: StopsAt(j, c)
  {
    hide Run, StopsAt, Returns;
    RunClaimed(j, schedule);
    SomebodyFinished(Run(j, schedule).workers, w);
    var c := SomeStop(j, Run(j, schedule).claims);
  }

  /** Worker 0 moves `n` times. */
  function Alone(n: nat): seq<nat> { seq(n, _ => 0) }

  lemma NoSchedule(j: Job)
    ensures Run(j, []) == Init(j)
  {}

  lemma RunOneMore(j: Job, schedule: seq<nat>, w: nat)
    requires ValidSchedule(j, schedule) && w < j.workers
    ensures ValidSchedule(j, schedule + [w]) && Run(j, schedule + [w]) == Step(j, Run(j, schedule), w)
  {
    assert (schedule + [w])[..|schedule|] == schedule;
  }

  lemma AloneOnce(j: Job, n: nat)
    requires j.workers > 0
    ensures ValidSchedule(j, Alone(n)) && ValidSchedule(j, Alone(n + 1))
    ensures Run(j, Alone(n + 1)) == Step(j, Run(j, Alone(n)), 0)
  {
    assert Alone(n + 1)[..n] == Alone(n);
  }

  /** Without a claim that stops a worker, worker 0 can go on for as long as one likes. */
  lemma AloneIsBusy(j: Job, n: nat)
    requires ValidJob(j) && forall c: nat :: !StopsAt(j, c)
    ensures ValidSchedule(j, Alone(n)) && Busy(j, Alone(n))
  {
    hide StopsAt, Run;
    var long := Alone(n);
    forall k | 0 <= k < |long| ensures Run(j, long[..k]).workers[long[k]] != Done {
      if Run(j, long[..k]).workers[long[k]] == Done { NobodyReturns(j, long[..k], long[k]); }
    }
  }

  /** Exactly if the counter ever reaches the threshold is there a bound on the steps of every schedule. */
  lemma TerminatesIffStops(j: Job)
    requires ValidJob(j)
    ensures Terminates(j) <==> exists c: nat :: StopsAt(j, c)
  {
    hide StopsAt, Run, Busy;
    if c: nat :| StopsAt(j, c) {
      StopsMeansTerminates(j, c);
    } else {
      forall bound: nat ensures !Bounded(j, bound) {
        AloneIsBusy(j, bound + 1);
        assert |Alone(bound + 1)| > bound;
      }
    }
  }

  // ---------------------------------------------------------------------------------------------
  // How far the counter reaches
  // ---------------------------------------------------------------------------------------------

  /** What a caller can check beforehand. */
  predicate Ends(j: Job) { Threshold(j) + LowBit(j.step) <= WORD }

  /** The counter takes the value one lowest bit short of 2^64. */
  lemma CounterReaches(j: Job) returns (c: nat)
    requires 0 < j.step < WORD
    ensures c > 0 && CounterAt(j, c) == WORD - LowBit(j.step)
  {
    hide Times, LowBit, IsPowerOfTwo;
    WordIsPowerOfTwo();
    var m, h := LowBitParts(j.step, WORD);
    var bit, t := LowBit(j.step), 0;
    c, t := OneBelow(m, h);
    TimesIsProduct(c, j.step);
    assert c * (bit * m) == bit * (c * m) == bit * (t * h - 1) == t * (bit * h) - bit;
    BitWithinWord(bit, h);
    WordParts(Times(c, j.step), t - 1, WORD - bit);
  }

  /** And it takes none above. */
  lemma CounterIsMultiple(j: Job, c: nat)
    requires 0 < j.step < WORD
    ensures CounterAt(j, c) <= WORD - LowBit(j.step)
  {
    hide Times, LowBit, IsPowerOfTwo;
    WordIsPowerOfTwo();
    var m, h := LowBitParts(j.step, WORD);
    var bit := LowBit(j.step);
    TimesIsProduct(c, j.step);
    var r := RoundsAt(j, c);
    var q := c * m - r * h;
    assert c * (bit * m) == bit * (c * m) && r * (bit * h) == bit * (r * h);
    assert bit * q == bit * (c * m) - bit * (r * h);
    assert CounterAt(j, c) == bit * q;
    BelowMultiple(bit, q, h);
  }

  /**
   Exactly when it terminates: there is a bound on the steps of every schedule if and only if the threshold is no
   higher than the highest value the counter ever takes.
   */
  lemma TerminatesIff(j: Job)
    requires ValidJob(j)
    ensures Terminates(j) <==> Ends(j)
  {
    hide Terminates, CounterAt, Threshold, LowBit;
    TerminatesIffStops(j);
    if j.step == 0 {
      ZeroStepStopsIff(j);
    } else {
      forall c: nat { CounterIsMultiple(j, c); }
      var c := CounterReaches(j);
      assert Ends(j) ==> StopsAt(j, c);
    }
  }

  lemma ZeroStepStopsIff(j: Job)
    requires ValidJob(j) && j.step == 0
    ensures (exists c: nat :: StopsAt(j, c)) <==> Ends(j)
  {
    forall c: nat ensures CounterAt(j, c) == 0 { TimesIsProduct(c, j.step); }
    assert LowBit(0) == WORD;
    if Ends(j) { assert StopsAt(j, 1); }
  }

  /** A job that is correct when it completes does complete. */
  lemma OnceStops(j: Job) returns (c: nat)
    requires ValidJob(j) && Once(j)
    ensures StopsAt(j, c)
  {
    hide Slices, Once, Returns;
    if j.end == 0 {
      NextClaim(j, 0);
      c := 1;
    } else {
      OnceHasStep(j);
      var first := Slices(j);
      c := (first + 1) * WORD;
      if Returns(j, c - 1) == 0 {
        assert c > first;
        OnceStaysOutside(j, c);
        WhileOutside(j, c, 0);
        RoundsAfterWords(j, first + 1);
      } else {
        ClaimsAddUp(j, c - 1, c, 0);
      }
      c := SomeStop(j, c);
    }
  }

  lemma OnceHasStep(j: Job)
    requires Once(j) && j.end > 0
    ensures j.step > 0 && j.end + j.step < WORD
  {}

  lemma Regroup(k: nat, word: nat, step: nat)
    requires step < word
    ensures k * word * step == word * (k * step)
    ensures k * word - k * step >= k
  {
    var d := word - step;
    assert k * word * step == k * (word * step) == k * (step * word);
    assert k * (d + step) == k * d + k * step;
    assert k * (1 + (d - 1)) == k + k * (d - 1) && k * (d - 1) >= 0;
  }

  lemma RoundsAfterWords(j: Job, k: nat)
    requires j.step < WORD
    ensures k * WORD - RoundsAt(j, k * WORD) >= k
  {
    hide Times;
    TimesIsProduct(k * WORD, j.step);
    Regroup(k, WORD, j.step);
    WordParts(Times(k * WORD, j.step), k * j.step, 0);
  }

  lemma BusyOneMore(j: Job, schedule: seq<nat>, w: nat)
    requires ValidSchedule(j, schedule) && Busy(j, schedule) && w < j.workers && Run(j, schedule).workers[w] != Done
    ensures ValidSchedule(j, schedule + [w]) && Busy(j, schedule + [w])
  {
    hide Run;
    var longer := schedule + [w];
    assert longer[..|schedule|] == schedule;
    forall k | 0 <= k < |longer| ensures Run(j, longer[..k]).workers[longer[k]] != Done {
      if k < |schedule| { assert longer[..k] == schedule[..k]; }
    }
  }

  /** Some schedule runs to completion, from any busy one on. */
  lemma Completion(j: Job, schedule: seq<nat>, bound: nat) returns (full: seq<nat>)
    requires ValidJob(j) && Bounded(j, bound) && ValidSchedule(j, schedule) && Busy(j, schedule)
    ensures ValidSchedule(j, full) && Complete(Run(j, full))
    decreases bound - |schedule|
  {
    hide Run, Busy, ValidSchedule;
    if Complete(Run(j, schedule)) {
      full := schedule;
    } else {
      var w :| 0 <= w < j.workers && Run(j, schedule).workers[w] != Done;
      BusyOneMore(j, schedule, w);
      assert |schedule + [w]| <= bound;
      full := Completion(j, schedule + [w], bound);
    }
  }

  /** Every schedule ends, and whenever one has ended each index was passed to `fn` exactly once. */
  ghost predicate Correct(j: Job) {
    Terminates(j) && forall schedule :: ValidSchedule(j, schedule) && Complete(Run(j, schedule)) ==> ExactlyOnce(j, Run(j, schedule))
  }

  /** Total correctness, in every interleaving, and the exact condition for it. */
  lemma CorrectIff(j: Job)
    requires ValidJob(j)
    ensures Correct(j) <==> Once(j)
  {
    hide Run, Once, ExactlyOnce, Complete, Bounded, StopsAt;
    forall schedule | ValidSchedule(j, schedule) && Complete(Run(j, schedule)) {
      CompletedRunOnceIff(j, schedule);
    }
    if Once(j) {
      var c := OnceStops(j);
      StopsMeansTerminates(j, c);
    } else if Terminates(j) {
      var bound: nat :| Bounded(j, bound);
      var full := Completion(j, [], bound);
      assert !ExactlyOnce(j, Run(j, full));
    }
  }

  // ---------------------------------------------------------------------------------------------
  // Inputs that fail
  // ---------------------------------------------------------------------------------------------

  /** One value and a step of 2^64 - 1: the threshold wraps to 0, and the only worker returns at once. */
  lemma MayCallNothing()
    ensures var j := Job(1, WORD - 1, 1);
      ValidJob(j) && ValidSchedule(j, Alone(1)) && Complete(Run(j, Alone(1))) && !ExactlyOnce(j, Run(j, Alone(1)))
  {
    var j := Job(1, WORD - 1, 1);
    AloneOnce(j, 0);
    assert multiset(Run(j, Alone(1)).calls)[0] == 0;
  }

  /**
   Three values and a step of 2^63 + 1: the counter comes round to 2, inside the array, and the last value is
   passed to `fn` again before the only worker returns.
   */
  lemma MayCallTwice()
    ensures var j := Job(3, HALF + 1, 1);
      ValidJob(j) && ValidSchedule(j, Alone(13)) && Complete(Run(j, Alone(13))) && Run(j, Alone(13)).calls == [0, 1, 2, 2]
  {
    var j := Job(3, HALF + 1, 1);
    for n := 0 to 13
      invariant ValidSchedule(j, Alone(n)) && Run(j, Alone(n)) == Thirteen(n)
    {
      AloneOnce(j, n);
      ThirteenStep(n);
    }
  }

  /** The states of that run. */
  function Thirteen(n: nat): State {
    var h := HALF + 1;
    match n
    case 0 => State(0, [Claiming], [], 0, false)
    case 1 => State(h, [Slicing(h, 0)], [], 1, false)
    case 2 => State(h, [Slicing(h, 1)], [0], 1, false)
    case 3 => State(h, [Slicing(h, 2)], [0, 1], 1, false)
    case 4 => State(h, [Slicing(h, 3)], [0, 1, 2], 1, false)
    case 5 => State(h, [Claiming], [0, 1, 2], 1, false)
    case 6 => State(2, [Slicing(2, h)], [0, 1, 2], 2, true)
    case 7 => State(2, [Claiming], [0, 1, 2], 2, true)
    case 8 => State(h + 2, [Slicing(h + 2, 2)], [0, 1, 2], 3, true)
    case 9 => State(h + 2, [Slicing(h + 2, 3)], [0, 1, 2, 2], 3, true)
    case 10 => State(h + 2, [Claiming], [0, 1, 2, 2], 3, true)
    case 11 => State(4, [Slicing(4, h + 2)], [0, 1, 2, 2], 4, true)
    case 12 => State(4, [Claiming], [0, 1, 2, 2], 4, true)
    case _ => State(h + 4, [Done], [0, 1, 2, 2], 5, true)
  }

  lemma ThirteenStep(n: nat)
    requires n < 13
    ensures Step(Job(3, HALF + 1, 1), Thirteen(n), 0) == Thirteen(n + 1)
  {}

  /** One value and the same step: the counter comes round to 2, beyond the array, and no harm is done. */
  lemma WrapMayBeHarmless()
    ensures var j := Job(1, HALF + 1, 1);
      && ValidJob(j) && !Safe(j) && Once(j) && ValidSchedule(j, Alone(6))
      && Complete(Run(j, Alone(6))) && Run(j, Alone(6)).wrapped && Run(j, Alone(6)).calls == [0]
  {
    var j := Job(1, HALF + 1, 1);
    hide Run, Step, Once;
    NoSchedule(j);
    assert Alone(0) == [];
    for n := 0 to 6
      invariant ValidSchedule(j, Alone(n)) && Run(j, Alone(n)) == Six(n)
    {
      AloneOnce(j, n);
      SixStep(n);
    }
    forall x: nat ensures multiset(Run(j, Alone(6)).calls)[x] == if x < 1 then 1 else 0 {
      assert Run(j, Alone(6)).calls == [0];
    }
    CompletedRunOnceIff(j, Alone(6));
  }

  /** The states of that run. */
  function Six(n: nat): State {
    var h := HALF + 1;
    match n
    case 0 => State(0, [Claiming], [], 0, false)
    case 1 => State(h, [Slicing(h, 0)], [], 1, false)
    case 2 => State(h, [Slicing(h, 1)], [0], 1, false)
    case 3 => State(h, [Claiming], [0], 1, false)
    case 4 => State(2, [Slicing(2, h)], [0], 2, true)
    case 5 => State(2, [Claiming], [0], 2, true)
    case _ => State(h + 2, [Done], [0], 3, true)
  }

  lemma SixStep(n: nat)
    requires n < 6
    ensures Step(Job(1, HALF + 1, 1), Six(n), 0) == Six(n + 1)
  {}

  /** One value and a step of 2^63: the counter goes back and forth between 2^63 and 0, and no worker returns. */
  lemma MayNeverReturn(schedule: seq<nat>)
    requires ValidSchedule(Job(1, HALF, 1), schedule)
    ensures ValidJob(Job(1, HALF, 1)) && !Terminates(Job(1, HALF, 1))
    ensures !Complete(Run(Job(1, HALF, 1), schedule))
  {
    hide Run, Terminates, CounterAt;
    var j := Job(1, HALF, 1);
    forall c: nat ensures !StopsAt(j, c) { BackAndForth(c); }
    TerminatesIffStops(j);
    if Complete(Run(j, schedule)) { var c := CompleteMeansStop(j, schedule); }
  }

  lemma {:induction false} BackAndForth(c: nat)
    ensures CounterAt(Job(1, HALF, 1), c) in {0, HALF}
  {
    if c > 0 {
      BackAndForth(c - 1);
      NextClaim(Job(1, HALF, 1), c - 1);
    }
  }

  // ---------------------------------------------------------------------------------------------
  // The function itself
  // ---------------------------------------------------------------------------------------------

  /** The values at a list of positions. */
  function Pick<T>(vals: seq<T>, at: seq<nat>): (picked: seq<T>)
    requires forall k :: 0 <= k < |at| ==> at[k] < |vals|
    ensures |picked| == |at|
  {
    seq(|at|, k requires 0 <= k < |at| => vals[at[k]])
  }

  lemma PickWithout<T>(vals: seq<T>, at: seq<nat>, p: nat)
    requires p < |at| && forall k :: 0 <= k < |at| ==> at[k] < |vals|
    ensures multiset(Pick(vals, at)) == multiset(Pick(vals, at[..p] + at[p + 1..])) + multiset{vals[at[p]]}
    ensures multiset(at) == multiset(at[..p] + at[p + 1..]) + multiset{at[p]}
  {
    var picked := Pick(vals, at);
    assert Pick(vals, at[..p] + at[p + 1..]) == picked[..p] + picked[p + 1..];
    assert picked == picked[..p] + [picked[p]] + picked[p + 1..];
    assert at == at[..p] + [at[p]] + at[p + 1..];
  }

  lemma OthersOnce(at: seq<nat>, rest: seq<nat>, last: nat)
    requires forall x: nat :: multiset(at)[x] == if x < last + 1 then 1 else 0
    requires multiset(at) == multiset(rest) + multiset{last}
    ensures forall x: nat :: multiset(rest)[x] == if x < last then 1 else 0
  {
    forall x: nat ensures multiset(rest)[x] == if x < last then 1 else 0 {
      assert multiset(at)[x] == multiset(rest)[x] + multiset{last}[x];
    }
  }

  /** Positions that are each named once pick a rearrangement of the values. */
  lemma {:induction false} PickIsPermutation<T>(vals: seq<T>, at: seq<nat>)
    requires forall x: nat :: multiset(at)[x] == if x < |vals| then 1 else 0
    requires forall k :: 0 <= k < |at| ==> at[k] < |vals|
    ensures multiset(Pick(vals, at)) == multiset(vals)
  {
    if at == [] {
      assert multiset(at)[0] == 0;
      assert |vals| == 0;
    } else {
      assert at[0] < |vals|;
      var last := |vals| - 1;
      assert last in multiset(at);
      var p :| 0 <= p < |at| && at[p] == last;
      var rest := at[..p] + at[p + 1..];
      PickWithout(vals, at, p);
      OthersOnce(at, rest, last);
      forall k {:trigger rest[k]} | 0 <= k < |rest| ensures rest[k] < last {
        var x: nat := rest[k];
        assert x in multiset(rest);
      }
      PickIsPermutation(vals[..last], rest);
      assert Pick(vals[..last], rest) == Pick(vals, rest);
      assert vals == vals[..last] + [vals[last]];
    }
  }

  /** The shared counter, each worker's place in its loop, and the arguments of `fn` in call order. */
  class Pool<T> {
    const vals: seq<T>
    const step: nat
    var start: nat
    var running: seq<Worker>
    var calls: seq<T>
    ghost var at: seq<nat>
    ghost var claims: nat
    ghost var wrapped: bool

    ghost function Snapshot(): State
      reads this
    {
      State(start, running, at, claims, wrapped)
    }

    ghost predicate Valid()
      reads this
    {
      (forall k :: 0 <= k < |at| ==> at[k] < |vals|) && calls == Pick(vals, at)
    }

    constructor (vals: seq<T>, step: nat, workers: nat)
      ensures Valid() && this.vals == vals && this.step == step
      ensures Snapshot() == Init(Job(|vals|, step, workers))
    {
      this.vals, this.step, start, running, calls := vals, step, 0, seq(workers, _ => Claiming), [];
      at, claims, wrapped := [], 0, false;
    }

    /** Worker `w` moves: claim a slice, call `fn` on the next index of it, or go back to claim. */
    method Move(w: nat)
      requires Valid() && w < |running|
      modifies this
      ensures Valid()
      ensures Snapshot() == Step(Job(|vals|, step, |running|), old(Snapshot()), w)
    {
      var end := |vals|;
      match running[w] {
        case Claiming =>
          wrapped := wrapped || start + step >= WORD;
          claims := claims + 1;
          start := Add64(start, step);
          if start >= Add64(end, step) {
            running := running[w := Done];
          } else {
            running := running[w := Slicing(start, Sub64(start, step))];
          }
        case Slicing(n, i) =>
          if i < n && i < end {
            calls := calls + [vals[i]];
            at := at + [i];
            running := running[w := Slicing(n, i + 1)];
          } else {
            running := running[w := Claiming];
          }
        case Done =>
      }
    }
  }

  /** The sequential branch. */
  method ExecuteInOrder<T>(vals: seq<T>) returns (calls: seq<T>)
    ensures calls == vals
  {
    calls := [];
    for i := 0 to |vals|
      invariant calls == vals[..i]
    {
      calls := calls + [vals[i]];
    }
  }

  /**
   The scheduler is the nondeterministic choice in the loop, so the postcondition covers every
   interleaving and the `decreases` clause its termination.
   */
  method Execute<T>(vals: seq<T>, threshold: nat, step: nat, workers: nat) returns (calls: seq<T>)
    requires ValidJob(Job(|vals|, step, workers))
    requires |vals| < threshold || Once(Job(|vals|, step, workers))
    ensures multiset(calls) == multiset(vals)
    ensures |vals| < threshold ==> calls == vals
  {
    hide Once, Returns, StopsAt, Budget;
    if |vals| < threshold {
      calls := ExecuteInOrder(vals);
      return;
    }
    ghost var j := Job(|vals|, step, workers);
    ghost var stop := OnceStops(j);
    ghost var total := EnoughStops(j, stop, workers);
    ghost var schedule: seq<nat> := [];
    var pool := new Pool(vals, step, workers);
    NoSchedule(j);
    while exists w :: 0 <= w < |pool.running| && pool.running[w] != Done
      invariant pool.Valid() && pool.vals == vals && pool.step == step && |pool.running| == workers
      invariant ValidSchedule(j, schedule) && pool.Snapshot() == Run(j, schedule)
      decreases Budget(j, pool.Snapshot(), total)
    {
      var w :| 0 <= w < |pool.running| && pool.running[w] != Done;
      RunClaimed(j, schedule);
      BudgetFalls(j, Run(j, schedule), w, total);
      RunOneMore(j, schedule, w);
      pool.Move(w);
      schedule := schedule + [w];
    }
    CompletedRunOnceIff(j, schedule);
    PickIsPermutation(vals, pool.at);
    calls := pool.calls;
  }
}
