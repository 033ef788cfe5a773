/**
 The shared resize observer: entries reported by the platform are collected and handed to callbacks once
 per animation frame. Callbacks are taken not to subscribe or unsubscribe while a frame delivers.
 */
module ResizeObserver {
  import opened Options

  type Target = nat
  type Callback = nat

  /** `serial` tells entries of one target apart. */
  datatype Entry = Entry(target: Target, serial: nat)

  datatype Call = Call(cb: Callback, entry: Entry)

  // ---------------------------------------------------------------------------------------------
  // What one frame owes each target
  // ---------------------------------------------------------------------------------------------

  function Callbacks(callbacks: map<Target, seq<Callback>>, target: Target): seq<Callback> {
    if target in callbacks then callbacks[target] else []
  }

  /** The earliest pending entry of a target. */
  function FirstEntry(entries: seq<Entry>, target: Target): Option<Entry> {
    if entries == [] then None
    else if entries[0].target == target then Some(entries[0])
    else FirstEntry(entries[1..], target)
  }

  function CallEach(cbs: seq<Callback>, entry: Entry): (calls: seq<Call>)
    ensures |calls| == |cbs| && forall k :: 0 <= k < |cbs| ==> calls[k] == Call(cbs[k], entry)
  {
    seq(|cbs|, k requires 0 <= k < |cbs| => Call(cbs[k], entry))
  }

  /** Every callback once, in order of subscription, with the earliest entry; nothing for an idle target. */
  function Owed(entries: seq<Entry>, callbacks: map<Target, seq<Callback>>, target: Target): seq<Call> {
    match FirstEntry(entries, target)
    case None => []
    case Some(entry) => CallEach(Callbacks(callbacks, target), entry)
  }

  /** The calls made on behalf of one target, in order. */
  function CallsFor(calls: seq<Call>, target: Target): seq<Call> {
    if calls == [] then []
    else (if calls[0].entry.target == target then [calls[0]] else []) + CallsFor(calls[1..], target)
  }

  lemma {:induction false} FirstEntrySnoc(entries: seq<Entry>, e: Entry, target: Target)
    ensures FirstEntry(entries + [e], target) ==
      if FirstEntry(entries, target).Some? then FirstEntry(entries, target) else if e.target == target then Some(e) else None
  {
    if entries == [] {
      assert entries + [e] == [e];
    } else {
      assert (entries + [e])[1..] == entries[1..] + [e];
      FirstEntrySnoc(entries[1..], e, target);
    }
  }

  lemma {:induction false} CallsForConcat(a: seq<Call>, b: seq<Call>, target: Target)
    ensures CallsFor(a + b, target) == CallsFor(a, target) + CallsFor(b, target)
  {
    if a == [] {
      assert a + b == b;
    } else {
      assert (a + b)[1..] == a[1..] + b;
      CallsForConcat(a[1..], b, target);
      var first := if a[0].entry.target == target then [a[0]] else [];
      assert first + (CallsFor(a[1..], target) + CallsFor(b, target)) == first + CallsFor(a[1..], target) + CallsFor(b, target);
    }
  }

  lemma {:induction false} CallsForEach(cbs: seq<Callback>, entry: Entry, target: Target)
    ensures CallsFor(CallEach(cbs, entry), target) == if entry.target == target then CallEach(cbs, entry) else []
  {
    if cbs != [] {
      assert CallEach(cbs, entry)[1..] == CallEach(cbs[1..], entry);
      CallsForEach(cbs[1..], entry, target);
    }
  }

  /** All the calls of a frame in which no callback throws, in order. */
  function AllCalls(entries: seq<Entry>, callbacks: map<Target, seq<Callback>>): seq<Call> {
    if entries == [] then []
    else
      var before, e := entries[..|entries| - 1], entries[|entries| - 1];
      AllCalls(before, callbacks) + if FirstEntry(before, e.target).Some? then [] else CallEach(Callbacks(callbacks, e.target), e)
  }

  /** What each target gets in such a frame is exactly what it is owed. */
  lemma {:induction false} AllCallsAreOwed(entries: seq<Entry>, callbacks: map<Target, seq<Callback>>, target: Target)
    ensures CallsFor(AllCalls(entries, callbacks), target) == Owed(entries, callbacks, target)
  {
    hide CallsFor, CallEach, Callbacks;
    if entries == [] {
      NothingOwed(callbacks, target);
    } else {
      var before, e := entries[..|entries| - 1], entries[|entries| - 1];
      AllCallsAreOwed(before, callbacks, target);
      assert entries == before + [e];
      DeliverStep(before, e, callbacks, AllCalls(before, callbacks), target);
    }
  }

  /** One turn of the frame's loop. */
  lemma DeliverStep(entries: seq<Entry>, e: Entry, callbacks: map<Target, seq<Callback>>, calls: seq<Call>, target: Target)
    requires CallsFor(calls, target) == Owed(entries, callbacks, target)
    ensures var more := if FirstEntry(entries, e.target).Some? then [] else CallEach(Callbacks(callbacks, e.target), e);
      CallsFor(calls + more, target) == Owed(entries + [e], callbacks, target)
  {
    var more := if FirstEntry(entries, e.target).Some? then [] else CallEach(Callbacks(callbacks, e.target), e);
    FirstEntrySnoc(entries, e, target);
    CallsForConcat(calls, more, target);
    CallsForEach(Callbacks(callbacks, e.target), e, target);
  }

  lemma NothingOwed(callbacks: map<Target, seq<Callback>>, target: Target)
    ensures FirstEntry([], target) == None && CallsFor([], target) == Owed([], callbacks, target)
  {}

  /** Where a target first stands among the entries. */
  function FirstPlace(entries: seq<Entry>, target: Target): nat {
    if entries == [] || entries[0].target == target then 0 else 1 + FirstPlace(entries[1..], target)
  }

  lemma {:induction false} FirstPlaceSnoc(entries: seq<Entry>, e: Entry, target: Target)
    ensures FirstPlace(entries, target) <= |entries|
    ensures FirstPlace(entries, target) < |entries| <==> FirstEntry(entries, target).Some?
    ensures FirstPlace(entries + [e], target) ==
      if FirstPlace(entries, target) < |entries| then FirstPlace(entries, target) else if e.target == target then |entries| else |entries| + 1
  {
    if entries == [] {
      assert entries + [e] == [e];
    } else {
      assert (entries + [e])[1..] == entries[1..] + [e];
      FirstPlaceSnoc(entries[1..], e, target);
    }
  }

  /** Targets take turns in the order in which they first stand among the entries. */
  ghost predicate InTurn(entries: seq<Entry>, calls: seq<Call>) {
    && (forall i :: 0 <= i < |calls| ==> FirstPlace(entries, calls[i].entry.target) < |entries|)
    && (forall i, k :: 0 <= i <= k < |calls| ==> FirstPlace(entries, calls[i].entry.target) <= FirstPlace(entries, calls[k].entry.target))
  }

  lemma {:induction false} AllCallsInTurn(entries: seq<Entry>, callbacks: map<Target, seq<Callback>>)
    ensures InTurn(entries, AllCalls(entries, callbacks))
  {
    hide FirstEntry, FirstPlace, Callbacks;
    if entries != [] {
      var before, e := entries[..|entries| - 1], entries[|entries| - 1];
      var some := AllCalls(before, callbacks);
      var more := if FirstEntry(before, e.target).Some? then [] else CallEach(Callbacks(callbacks, e.target), e);
      assert entries == before + [e];
      AllCallsInTurn(before, callbacks);
      FirstPlaceSnoc(before, e, e.target);
      forall i | 0 <= i < |some| ensures FirstPlace(entries, some[i].entry.target) == FirstPlace(before, some[i].entry.target) < |before| {
        FirstPlaceSnoc(before, e, some[i].entry.target);
      }
      assert InTurn(entries, some + more);
    }
  }

  /** Calls up to the first that throws, which is made as well. */
  function UntilThrow(calls: seq<Call>, throws: Call -> bool): seq<Call> {
    if calls == [] then [] else if throws(calls[0]) then [calls[0]] else [calls[0]] + UntilThrow(calls[1..], throws)
  }

  ghost predicate SomeThrows(calls: seq<Call>, throws: Call -> bool) {
    exists k :: 0 <= k < |calls| && throws(calls[k])
  }

  lemma {:induction false} UntilThrowIs(calls: seq<Call>, throws: Call -> bool)
    ensures UntilThrow(calls, throws) <= calls
    ensures !SomeThrows(calls, throws) ==> UntilThrow(calls, throws) == calls
    ensures SomeThrows(calls, throws) ==>
      var made := UntilThrow(calls, throws);
      made != [] && throws(made[|made| - 1]) && forall k :: 0 <= k < |made| - 1 ==> !throws(made[k])
  {
    if calls != [] {
      UntilThrowIs(calls[1..], throws);
      assert calls == [calls[0]] + calls[1..];
      if k :| 0 < k < |calls| && throws(calls[k]) { assert throws(calls[1..][k - 1]); }
      if k :| 0 <= k < |calls| - 1 && throws(calls[1..][k]) { assert throws(calls[k + 1]); }
    }
  }

  lemma ThrowsConcat(a: seq<Call>, b: seq<Call>, throws: Call -> bool)
    ensures SomeThrows(a + b, throws) <==> SomeThrows(a, throws) || SomeThrows(b, throws)
  {
    if k :| 0 <= k < |a| && throws(a[k]) { assert throws((a + b)[k]); }
    if k :| 0 <= k < |b| && throws(b[k]) { assert throws((a + b)[|a| + k]); }
    if k :| 0 <= k < |a + b| && throws((a + b)[k]) { assert if k < |a| then throws(a[k]) else throws(b[k - |a|]); }
  }

  /** More calls after some that did not throw, or that did. */
  lemma {:induction false} UntilThrowConcat(a: seq<Call>, b: seq<Call>, throws: Call -> bool)
    ensures UntilThrow(a + b, throws) == if SomeThrows(a, throws) then UntilThrow(a, throws) else a + UntilThrow(b, throws)
    ensures SomeThrows(a + b, throws) <==> SomeThrows(a, throws) || SomeThrows(b, throws)
  {
    hide SomeThrows;
    ThrowsConcat(a, b, throws);
    if a == [] {
      NoneThrows(throws);
      assert a + b == b;
    } else {
      assert (a + b)[1..] == a[1..] + b && (a + b)[0] == a[0];
      UntilThrowConcat(a[1..], b, throws);
      ThrowsInTail(a, throws);
      assert [a[0]] + (a[1..] + UntilThrow(b, throws)) == a + UntilThrow(b, throws);
    }
  }

  lemma ThrowsInTail(calls: seq<Call>, throws: Call -> bool)
    requires calls != []
    ensures SomeThrows(calls, throws) <==> throws(calls[0]) || SomeThrows(calls[1..], throws)
  {
    if k :| 0 < k < |calls| && throws(calls[k]) { assert throws(calls[1..][k - 1]); }
    if k :| 0 <= k < |calls| - 1 && throws(calls[1..][k]) { assert throws(calls[k + 1]); }
  }

  /** `forEach` over the callbacks of one target. */
  method CallBacks(cbs: seq<Callback>, entry: Entry, throws: Call -> bool) returns (calls: seq<Call>, thrown: bool)
    ensures calls == UntilThrow(CallEach(cbs, entry), throws) && (thrown <==> SomeThrows(CallEach(cbs, entry), throws))
  {
    hide UntilThrow, SomeThrows;
    calls := [];
    assert CallEach(cbs, entry)[..0] == [];
    NoneThrows(throws);
    for i := 0 to |cbs|
      invariant calls == CallEach(cbs, entry)[..i] && !SomeThrows(calls, throws)
    {
      var call := Call(cbs[i], entry);
      var all := CallEach(cbs, entry);
      assert all[..i + 1] == all[..i] + [call] && all == all[..i + 1] + all[i + 1..];
      UntilThrowConcat(all[..i], [call], throws);
      UntilThrowConcat(all[..i + 1], all[i + 1..], throws);
      OneCallThrows(call, throws);
      calls := calls + [call];
      if throws(call) { return calls, true; }
    }
    UntilThrowIs(calls, throws);
    assert CallEach(cbs, entry)[..|cbs|] == CallEach(cbs, entry);
    thrown := false;
  }

  lemma NoneThrows(throws: Call -> bool)
    ensures !SomeThrows([], throws)
  {}

  lemma OneCallThrows(call: Call, throws: Call -> bool)
    ensures SomeThrows([call], throws) <==> throws(call)
    ensures UntilThrow([call], throws) == [call]
  {
    if throws(call) { assert throws([call][0]); }
  }

  /** The loop of the frame callback: every call until one throws. */
  method Deliver(entries: seq<Entry>, callbacks: map<Target, seq<Callback>>, throws: Call -> bool)
    returns (calls: seq<Call>, thrown: bool)
    ensures calls == UntilThrow(AllCalls(entries, callbacks), throws)
    ensures thrown <==> SomeThrows(AllCalls(entries, callbacks), throws)
    ensures !thrown ==> forall target :: CallsFor(calls, target) == Owed(entries, callbacks, target)
  {
    hide CallsFor, Owed, FirstEntry, CallEach, Callbacks, UntilThrow, SomeThrows;
    calls := [];
    NoneThrows(throws);
    var triggered: set<Target> := {};
    forall target ensures FirstEntry([], target) == None { NothingOwed(callbacks, target); }
    for i := 0 to |entries|
      invariant forall target :: target in triggered <==> FirstEntry(entries[..i], target).Some?
      invariant calls == AllCalls(entries[..i], callbacks) && !SomeThrows(calls, throws)
    {
      var e := entries[i];
      assert entries[..i + 1][..i] == entries[..i] && entries[..i + 1] == entries[..i] + [e];
      forall target
        ensures FirstEntry(entries[..i + 1], target).Some? <==> FirstEntry(entries[..i], target).Some? || target == e.target
      {
        FirstEntrySnoc(entries[..i], e, target);
      }
      if e.target in triggered { continue; }
      triggered := triggered + {e.target};
      ghost var each := CallEach(Callbacks(callbacks, e.target), e);
      UntilThrowConcat(calls, each, throws);
      var cbs := if e.target in callbacks then callbacks[e.target] else [];
      assert cbs == Callbacks(callbacks, e.target) by { CallbacksIs(callbacks, e.target); }
      var more;
      more, thrown := CallBacks(cbs, e, throws);
      if thrown {
        ghost var rest := AllCallsContinue(entries, i + 1, callbacks);
        UntilThrowConcat(calls + each, rest, throws);
        return calls + more, true;
      }
      UntilThrowIs(each, throws);
      calls := calls + more;
    }
    assert entries[..|entries|] == entries;
    UntilThrowIs(calls, throws);
    forall target ensures CallsFor(calls, target) == Owed(entries, callbacks, target) {
      AllCallsAreOwed(entries, callbacks, target);
    }
    thrown := false;
  }

  lemma CallbacksIs(callbacks: map<Target, seq<Callback>>, target: Target)
    ensures Callbacks(callbacks, target) == if target in callbacks then callbacks[target] else []
  {}

  /** The calls for a prefix of the entries are a prefix of all the calls. */
  lemma {:induction false} AllCallsContinue(entries: seq<Entry>, n: nat, callbacks: map<Target, seq<Callback>>) returns (rest: seq<Call>)
    requires n <= |entries|
    ensures AllCalls(entries, callbacks) == AllCalls(entries[..n], callbacks) + rest
  {
    hide FirstEntry, CallEach, Callbacks;
    if n == |entries| {
      assert entries[..n] == entries;
      rest := [];
    } else {
      var before, e := entries[..|entries| - 1], entries[|entries| - 1];
      assert before[..n] == entries[..n];
      var tail := AllCallsContinue(before, n, callbacks);
      rest := tail + if FirstEntry(before, e.target).Some? then [] else CallEach(Callbacks(callbacks, e.target), e);
    }
  }

  // ---------------------------------------------------------------------------------------------
  // The observer
  // ---------------------------------------------------------------------------------------------

  /** `indexOf` and `splice`: without its first occurrence. */
  function WithoutFirst(cbs: seq<Callback>, cb: Callback): seq<Callback> {
    if cbs == [] then [] else if cbs[0] == cb then cbs[1..] else [cbs[0]] + WithoutFirst(cbs[1..], cb)
  }

  lemma {:induction false} WithoutFirstRemovesOne(cbs: seq<Callback>, cb: Callback)
    ensures multiset(WithoutFirst(cbs, cb)) == multiset(cbs) - multiset{cb}
    ensures |WithoutFirst(cbs, cb)| >= |cbs| - 1
  {
    if cbs != [] {
      assert cbs == [cbs[0]] + cbs[1..];
      if cbs[0] != cb { WithoutFirstRemovesOne(cbs[1..], cb); }
    }
  }

  lemma StillListened(cbs: seq<Callback>, cb: Callback)
    requires |cbs| != 1
    ensures WithoutFirst(cbs, cb) == [] <==> cbs == []
  {
    WithoutFirstRemovesOne(cbs, cb);
  }

  /** `observed` is the platform observer's list, `frames` the animation frames it still owes us. */
  class Observer {
    var ticking: bool
    var allEntries: seq<Entry>
    var callbacks: map<Target, seq<Callback>>
    var observed: set<Target>
    var frames: nat

    /** A callback threw in a frame: the frame is gone, but `ticking` still announces it. */
    predicate Stuck()
      reads this`ticking, this`frames
    {
      ticking && frames == 0
    }

    /** At most one frame, scheduled whenever entries wait unless stuck; observed exactly where someone listens. */
    ghost predicate Valid()
      reads this
    {
      && frames <= 1
      && (frames == 1 ==> ticking)
      && (allEntries != [] ==> frames == 1 || Stuck())
      && forall target :: target in observed <==> Callbacks(callbacks, target) != []
    }

    constructor ()
      ensures Valid() && callbacks == map[] && allEntries == [] && !Stuck()
    {
      ticking, allEntries, callbacks, observed, frames := false, [], map[], {}, 0;
    }

    /** Once stuck, no frame is ever scheduled again. */
    method OnResize(entries: seq<Entry>)
      requires Valid()
      modifies this`ticking, this`allEntries, this`frames
      ensures Valid() && allEntries == old(allEntries) + entries
      ensures Stuck() == old(Stuck()) && frames == if old(Stuck()) then 0 else 1
    {
      allEntries := allEntries + entries;
      if !ticking {
        frames := frames + 1;
      }
      ticking := true;
    }

    /**
     The frame makes its calls up to the first that throws. Exactly if none does, every target gets what it is
     owed and nothing stays pending or scheduled; otherwise the entries stay and the observer is stuck.
     */
    method OnFrame(throws: Call -> bool) returns (calls: seq<Call>)
      requires Valid() && frames > 0
      modifies this`ticking, this`allEntries, this`frames
      ensures Valid() && frames == 0
      ensures calls == UntilThrow(AllCalls(old(allEntries), callbacks), throws)
      ensures Stuck() <==> SomeThrows(AllCalls(old(allEntries), callbacks), throws)
      ensures Stuck() ==> allEntries == old(allEntries)
      ensures !Stuck() ==> allEntries == [] && forall target :: CallsFor(calls, target) == Owed(old(allEntries), callbacks, target)
    {
      frames := frames - 1;
      var thrown;
      calls, thrown := Deliver(allEntries, callbacks, throws);
      if thrown { return; }
      allEntries := [];
      ticking := false;
    }

    method Subscribe(target: Target, callback: Callback)
      requires Valid()
      modifies this`callbacks, this`observed
      ensures Valid()
      ensures callbacks == old(callbacks)[target := old(Callbacks(callbacks, target)) + [callback]]
    {
      observed := observed + {target};
      var cbs := if target in callbacks then callbacks[target] else [];
      callbacks := callbacks[target := cbs + [callback]];
    }

    /** A single listener goes whichever callback is named; otherwise the first occurrence does. */
    method Unsubscribe(target: Target, callback: Callback)
      requires Valid()
      modifies this`callbacks, this`observed
      ensures Valid()
      ensures forall other :: other != target ==> Callbacks(callbacks, other) == old(Callbacks(callbacks, other))
      ensures Callbacks(callbacks, target) ==
        if |old(Callbacks(callbacks, target))| == 1 then [] else WithoutFirst(old(Callbacks(callbacks, target)), callback)
    {
      hide WithoutFirst, Splice;
      var cbs := if target in callbacks then callbacks[target] else [];
      if |cbs| == 1 {
        observed := observed - {target};
        callbacks := callbacks - {target};
        return;
      }
      StillListened(cbs, callback);
      callbacks := callbacks[target := Splice(cbs, callback)];
    }
  }

  /** Removing by position, as `splice` does. */
  function Splice(cbs: seq<Callback>, cb: Callback): (rest: seq<Callback>)
    ensures rest == WithoutFirst(cbs, cb)
  {
    var at := IndexOf(cbs, cb);
    WithoutAt(cbs, cb, at);
    if at < |cbs| then cbs[..at] + cbs[at + 1..] else cbs
  }

  /** `indexOf`, with the length for -1. */
  function IndexOf(cbs: seq<Callback>, cb: Callback): (at: nat)
    ensures at <= |cbs| && (at < |cbs| ==> cbs[at] == cb) && forall k :: 0 <= k < at ==> cbs[k] != cb
  {
    if cbs == [] || cbs[0] == cb then 0 else 1 + IndexOf(cbs[1..], cb)
  }

  lemma {:induction false} WithoutAt(cbs: seq<Callback>, cb: Callback, at: nat)
    requires at <= |cbs| && (at < |cbs| ==> cbs[at] == cb) && forall k :: 0 <= k < at ==> cbs[k] != cb
    ensures WithoutFirst(cbs, cb) == if at < |cbs| then cbs[..at] + cbs[at + 1..] else cbs
  {
    if cbs != [] && cbs[0] != cb {
      WithoutAt(cbs[1..], cb, at - 1);
      assert cbs == [cbs[0]] + cbs[1..];
      if at < |cbs| { assert cbs[..at] == [cbs[0]] + cbs[1..][..at - 1]; }
    }
  }
}
