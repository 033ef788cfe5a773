/**
 Repairing what a peer sends until it matches what the room publishes. One call takes off at most one sender
 of an unpublished track and attaches every published track the subscriber does not know.
 */
module Sanitize {
  import opened Options
  import opened Fanout

  /** For each published track, the sender it is attached with, or nothing if it is not attached. */
  type PubSenders = map<TrackId, Option<nat>>

  function Publishing(p: Peer, pub: set<TrackId>): PubSenders {
    map t | t in pub :: if t in p.tracks then Some(p.tracks[t].sender) else None
  }

  // ---------------------------------------------------------------------------------------------
  // The two halves of a call
  // ---------------------------------------------------------------------------------------------

  /** The track a transceiver sends, if any. */
  function TrackOf(t: Transceiver): Option<TrackId> { if t.sender.Some? then t.sender.value.track else None }

  /**
   The scan over the senders from transceiver `m` on: it ends with the first unpublished track, and for a
   track sent beside the sender it is attached with it takes off the latter.
   */
  function Prune(conn: seq<Transceiver>, m: nat, senders: PubSenders): (after: seq<Transceiver>)
    ensures |after| == |conn|
    decreases |conn| - m
  {
    if m >= |conn| then conn
    else
      match TrackOf(conn[m])
      case None => Prune(conn, m + 1, senders)
      case Some(t) =>
        var existing := conn[m].sender.value.id;
        if t !in senders then RemoveTrack(conn, existing)
        else match senders[t]
          case None => Prune(conn, m + 1, senders)
          case Some(sender) => Prune(if sender != existing then RemoveTrack(conn, sender) else conn, m + 1, senders)
  }

  /** An attachment to make, with the transceiver the pool happens to give. */
  datatype Choice = Choice(id: TrackId, pick: Mid)

  predicate Feasible(p: Peer, order: seq<Choice>)
    decreases |order|
  {
    order == [] || (CanPick(p, order[0].pick) && Feasible(Attach(p, order[0].id, order[0].pick), order[1..]))
  }

  function AttachAll(p: Peer, order: seq<Choice>): Peer
    requires Feasible(p, order)
    decreases |order|
  {
    if order == [] then p else AttachAll(Attach(p, order[0].id, order[0].pick), order[1..])
  }

  function Pruned(p: Peer, pub: set<TrackId>): Peer { p.(conn := Prune(p.conn, 0, Publishing(p, pub))) }

  ghost predicate Chosen(order: seq<Choice>, t: TrackId) { exists i :: 0 <= i < |order| && order[i].id == t }

  /** `order` lists the published tracks that are not attached, in any order the map may be walked. */
  ghost predicate Covers(p: Peer, pub: set<TrackId>, order: seq<Choice>) {
    && Feasible(Pruned(p, pub), order)
    && forall t :: t in pub && t !in p.tracks <==> Chosen(order, t)
  }

  function Sanitized(p: Peer, pub: set<TrackId>, order: seq<Choice>): Peer
    requires Feasible(Pruned(p, pub), order)
  {
    AttachAll(Pruned(p, pub), order)
  }

  // ---------------------------------------------------------------------------------------------
  // What is being sent
  // ---------------------------------------------------------------------------------------------

  predicate Sends(conn: seq<Transceiver>, t: TrackId) { exists m :: 0 <= m < |conn| && TrackOf(conn[m]) == Some(t) }

  predicate IsStale(t: Transceiver, pub: set<TrackId>) { TrackOf(t).Some? && TrackOf(t).value !in pub }

  /** How many senders carry a track that nobody publishes. */
  function Stale(conn: seq<Transceiver>, pub: set<TrackId>): nat {
    if conn == [] then 0 else Stale(conn[..|conn| - 1], pub) + if IsStale(Last(conn), pub) then 1 else 0
  }

  lemma {:induction false} StaleZeroIff(conn: seq<Transceiver>, pub: set<TrackId>)
    ensures Stale(conn, pub) == 0 <==> forall m :: 0 <= m < |conn| ==> !IsStale(conn[m], pub)
  {
    if conn != [] { StaleZeroIff(conn[..|conn| - 1], pub); }
  }

  lemma {:induction false} StaleSame(c: seq<Transceiver>, d: seq<Transceiver>, pub: set<TrackId>)
    requires |c| == |d| && forall m :: 0 <= m < |c| ==> (IsStale(c[m], pub) <==> IsStale(d[m], pub))
    ensures Stale(c, pub) == Stale(d, pub)
  {
    if c != [] { StaleSame(c[..|c| - 1], d[..|d| - 1], pub); }
  }

  lemma {:induction false} StaleOneLess(c: seq<Transceiver>, d: seq<Transceiver>, k: nat, pub: set<TrackId>)
    requires |c| == |d| && k < |c| && IsStale(c[k], pub) && !IsStale(d[k], pub)
    requires forall m :: 0 <= m < |c| && m != k ==> (IsStale(c[m], pub) <==> IsStale(d[m], pub))
    ensures Stale(c, pub) == Stale(d, pub) + 1
  {
    if k == |c| - 1 {
      StaleSame(c[..k], d[..k], pub);
    } else {
      StaleOneLess(c[..|c| - 1], d[..|d| - 1], k, pub);
    }
  }

  // ---------------------------------------------------------------------------------------------
  // The scan
  // ---------------------------------------------------------------------------------------------

  /** What the scan only does: silence some transceivers. */
  ghost predicate OnlySilences(c: seq<Transceiver>, d: seq<Transceiver>) {
    |c| == |d| && forall m :: 0 <= m < |c| && d[m] != c[m] ==> c[m].sender.Some? && d[m] == WithoutSender(c[m])
  }

  /** The connection half of what a peer's invariant says, for the senders of published tracks. */
  ghost predicate Sound(conn: seq<Transceiver>, senders: PubSenders) {
    && (forall m, n :: 0 <= m < n < |conn| && conn[m].sender.Some? && conn[n].sender.Some? ==>
          conn[m].sender.value.id != conn[n].sender.value.id)
    && (forall m, t :: 0 <= m < |conn| && conn[m].sender.Some? && t in senders && senders[t] == Some(conn[m].sender.value.id) ==>
          TrackOf(conn[m]) == Some(t))
  }

  lemma InvIsSound(p: Peer, pub: set<TrackId>)
    requires Inv(p)
    ensures Sound(p.conn, Publishing(p, pub))
  {
    hide PoolIsIdle, Economical;
    var senders := Publishing(p, pub);
    forall m, t | 0 <= m < |p.conn| && p.conn[m].sender.Some? && t in senders && senders[t] == Some(p.conn[m].sender.value.id)
      ensures TrackOf(p.conn[m]) == Some(t)
    {
      assert Carries(p.conn[m], p.tracks[t].sender) && Holds(p, t);
    }
  }

  lemma SilencedStaysSound(c: seq<Transceiver>, d: seq<Transceiver>, senders: PubSenders)
    requires Sound(c, senders) && OnlySilences(c, d)
    ensures Sound(d, senders)
  {
    assert forall m :: 0 <= m < |d| && d[m].sender.Some? ==> d[m] == c[m];
  }

  lemma {:induction false} PruneSilences(conn: seq<Transceiver>, m: nat, senders: PubSenders)
    ensures OnlySilences(conn, Prune(conn, m, senders))
    decreases |conn| - m
  {
    if m < |conn| {
      match TrackOf(conn[m])
      case None => PruneSilences(conn, m + 1, senders);
      case Some(t) =>
        if t in senders {
          match senders[t]
          case None => PruneSilences(conn, m + 1, senders);
          case Some(sender) =>
            var next := if sender != conn[m].sender.value.id then RemoveTrack(conn, sender) else conn;
            PruneSilences(next, m + 1, senders);
            assert forall i :: 0 <= i < |conn| ==> next[i] == conn[i] || next[i] == WithoutSender(conn[i]);
        }
    }
  }

  /** Where the scan stops early, if it does: the first stale transceiver. */
  predicate FirstStale(conn: seq<Transceiver>, m: nat, k: nat, pub: set<TrackId>) {
    m <= k < |conn| && IsStale(conn[k], pub) && forall i :: m <= i < k ==> !IsStale(conn[i], pub)
  }

  /** Taking off the sender of a published track touches no stale transceiver. */
  lemma RemovingSpares(conn: seq<Transceiver>, t: TrackId, sender: nat, senders: PubSenders)
    requires Sound(conn, senders) && t in senders && senders[t] == Some(sender)
    ensures Sound(RemoveTrack(conn, sender), senders)
    ensures forall i :: 0 <= i < |conn| ==>
      (IsStale(conn[i], senders.Keys) <==> IsStale(RemoveTrack(conn, sender)[i], senders.Keys))
  {
    assert OnlySilences(conn, RemoveTrack(conn, sender));
    SilencedStaysSound(conn, RemoveTrack(conn, sender), senders);
  }

  /** The scan from `m` silences the first stale transceiver from there on, and no other stale one. */
  lemma {:induction false} PruneTakesFirstStale(conn: seq<Transceiver>, m: nat, senders: PubSenders)
    requires Sound(conn, senders)
    ensures forall i :: 0 <= i < |conn| ==>
      (IsStale(Prune(conn, m, senders)[i], senders.Keys) <==>
        IsStale(conn[i], senders.Keys) && !FirstStale(conn, m, i, senders.Keys))
    decreases |conn| - m
  {
    var pub := senders.Keys;
    if m < |conn| {
      match TrackOf(conn[m])
      case None => PruneTakesFirstStale(conn, m + 1, senders);
      case Some(t) =>
        if t !in senders {
          assert FirstStale(conn, m, m, pub);
        } else {
          match senders[t]
          case None => PruneTakesFirstStale(conn, m + 1, senders);
          case Some(sender) =>
            var next := conn;
            if sender != conn[m].sender.value.id {
              next := RemoveTrack(conn, sender);
              RemovingSpares(conn, t, sender, senders);
            }
            PruneTakesFirstStale(next, m + 1, senders);
            assert forall i :: 0 <= i < |conn| ==> (FirstStale(conn, m, i, pub) <==> FirstStale(next, m + 1, i, pub));
        }
    }
  }

  /** A published track that is sent is still sent after the scan: of two senders of it one is spared. */
  lemma {:induction false} PruneKeepsPublished(conn: seq<Transceiver>, m: nat, senders: PubSenders, t: TrackId, k: nat)
    returns (k': nat)
    requires Sound(conn, senders) && t in senders
    requires k < |conn| && TrackOf(conn[k]) == Some(t)
    ensures k' < |conn| && TrackOf(Prune(conn, m, senders)[k']) == Some(t)
    decreases |conn| - m
  {
    k' := k;
    if m < |conn| {
      match TrackOf(conn[m])
      case None => k' := PruneKeepsPublished(conn, m + 1, senders, t, k);
      case Some(u) =>
        if u in senders {
          match senders[u]
          case None => k' := PruneKeepsPublished(conn, m + 1, senders, t, k);
          case Some(sender) =>
            if sender == conn[m].sender.value.id {
              k' := PruneKeepsPublished(conn, m + 1, senders, t, k);
            } else {
              RemovingSpares(conn, u, sender, senders);
              // if `k` is what goes, then `u` is `t` and `m` sends it too
              k' := PruneKeepsPublished(RemoveTrack(conn, sender), m + 1, senders, t, if Carries(conn[k], sender) then m else k);
            }
        }
    }
  }

  /** No stale transceiver lies between `m` and `k`: a scan from `m` gets as far as `k`. */
  predicate Reaches(conn: seq<Transceiver>, m: nat, k: nat, pub: set<TrackId>)
    requires k <= |conn|
  {
    forall i :: m <= i < k ==> !IsStale(conn[i], pub)
  }

  /** Transceiver `k` sends a published track with another sender than the one it is attached with. */
  predicate IsBeside(conn: seq<Transceiver>, k: nat, senders: PubSenders, sender: nat)
    requires k < |conn|
  {
    && TrackOf(conn[k]).Some? && TrackOf(conn[k]).value in senders
    && senders[TrackOf(conn[k]).value] == Some(sender) && conn[k].sender.value.id != sender
  }

  /** The attached sender goes if the scan gets to another one of the same track. */
  predicate Superseded(conn: seq<Transceiver>, m: nat, i: nat, senders: PubSenders)
    requires i < |conn|
  {
    conn[i].sender.Some? && exists k :: m <= k < |conn| && Reaches(conn, m, k, senders.Keys) && IsBeside(conn, k, senders, conn[i].sender.value.id)
  }

  /** Taking off an attached sender leaves the others, what is stale, and who stands beside whom. */
  lemma RemovingLeaves(conn: seq<Transceiver>, t: TrackId, sender: nat, senders: PubSenders, m: nat, i: nat)
    requires Sound(conn, senders) && t in senders && senders[t] == Some(sender) && i < |conn| && m <= |conn|
    ensures var next := RemoveTrack(conn, sender);
      && (next[i] == conn[i] <==> !Carries(conn[i], sender))
      && (next[i] == conn[i] ==> (Superseded(next, m, i, senders) <==> Superseded(conn, m, i, senders)))
  {
    hide Sound, IsStale;
    var next := RemoveTrack(conn, sender);
    RemovingSpares(conn, t, sender, senders);
    forall k | m <= k < |conn|
      ensures Reaches(next, m, k, senders.Keys) == Reaches(conn, m, k, senders.Keys)
      ensures next[i] == conn[i] && conn[i].sender.Some? ==>
        IsBeside(next, k, senders, conn[i].sender.value.id) == IsBeside(conn, k, senders, conn[i].sender.value.id)
    {
      BesideStays(conn, t, sender, senders, k);
    }
  }

  /** A transceiver that loses its sender sent the track that is attached with it, so it stood beside no other. */
  lemma BesideStays(conn: seq<Transceiver>, t: TrackId, sender: nat, senders: PubSenders, k: nat)
    requires Sound(conn, senders) && t in senders && senders[t] == Some(sender) && k < |conn|
    ensures forall other :: IsBeside(RemoveTrack(conn, sender), k, senders, other) <==> IsBeside(conn, k, senders, other)
  {}

  lemma SupersededFrom(conn: seq<Transceiver>, m: nat, i: nat, senders: PubSenders)
    requires m < |conn| && i < |conn|
    ensures Superseded(conn, m, i, senders) <==>
      conn[i].sender.Some? && (IsBeside(conn, m, senders, conn[i].sender.value.id) ||
        (!IsStale(conn[m], senders.Keys) && Superseded(conn, m + 1, i, senders)))
    ensures Superseded(conn, m + 1, i, senders) ==> conn[i].sender.Some?
  {
    hide IsStale, IsBeside;
    if conn[i].sender.Some? {
      var id := conn[i].sender.value.id;
      if k :| m <= k < |conn| && Reaches(conn, m, k, senders.Keys) && IsBeside(conn, k, senders, id) {
        if k > m { assert Reaches(conn, m + 1, k, senders.Keys); }
      }
      if IsBeside(conn, m, senders, id) { assert Reaches(conn, m, m, senders.Keys); }
      if k :| m + 1 <= k < |conn| && !IsStale(conn[m], senders.Keys) && Reaches(conn, m + 1, k, senders.Keys) && IsBeside(conn, k, senders, id) {
        assert Reaches(conn, m, k, senders.Keys);
      }
    }
  }

  lemma NoneBeyond(conn: seq<Transceiver>, m: nat, i: nat, senders: PubSenders)
    requires m >= |conn| > i
    ensures !Superseded(conn, m, i, senders)
  {}

  lemma FirstStaleFrom(conn: seq<Transceiver>, m: nat, i: nat, pub: set<TrackId>)
    requires m < |conn| && !IsStale(conn[m], pub)
    ensures FirstStale(conn, m, i, pub) <==> FirstStale(conn, m + 1, i, pub)
  {
    hide IsStale;
  }

  lemma FirstStaleSame(c: seq<Transceiver>, d: seq<Transceiver>, m: nat, i: nat, pub: set<TrackId>)
    requires |c| == |d| && forall k :: 0 <= k < |c| ==> (IsStale(c[k], pub) <==> IsStale(d[k], pub))
    ensures FirstStale(c, m, i, pub) <==> FirstStale(d, m, i, pub)
  {
    hide IsStale;
  }

  /** At a stale transceiver the scan ends with that one. */
  lemma StaleStops(conn: seq<Transceiver>, m: nat, i: nat, senders: PubSenders)
    requires Sound(conn, senders) && m < |conn| && i < |conn| && IsStale(conn[m], senders.Keys)
    ensures RemoveTrack(conn, conn[m].sender.value.id)[i] != conn[i] <==> i == m
    ensures FirstStale(conn, m, i, senders.Keys) <==> i == m
    ensures !Superseded(conn, m, i, senders)
  {
    SupersededFrom(conn, m, i, senders);
  }

  /**
   Exactly what a scan from `m` silences: the first stale transceiver, and the attached sender of every track it
   finds sent beside it on the way there.
   */
  lemma {:induction false} PruneSilencesIff(conn: seq<Transceiver>, m: nat, senders: PubSenders, i: nat)
    requires Sound(conn, senders) && i < |conn|
    ensures Prune(conn, m, senders)[i] != conn[i] <==> FirstStale(conn, m, i, senders.Keys) || Superseded(conn, m, i, senders)
    decreases |conn| - m
  {
    hide Sound, Superseded;
    if m < |conn| {
      SupersededFrom(conn, m, i, senders);
      match TrackOf(conn[m])
      case None => PruneSilencesIff(conn, m + 1, senders, i); FirstStaleFrom(conn, m, i, senders.Keys);
      case Some(t) =>
        if t !in senders {
          StaleStops(conn, m, i, senders);
        } else {
          FirstStaleFrom(conn, m, i, senders.Keys);
          match senders[t]
          case None => PruneSilencesIff(conn, m + 1, senders, i);
          case Some(sender) =>
            if sender == conn[m].sender.value.id {
              PruneSilencesIff(conn, m + 1, senders, i);
            } else {
              RemovingLeaves(conn, t, sender, senders, m + 1, i);
              RemovingSpares(conn, t, sender, senders);
              PruneSilencesIff(RemoveTrack(conn, sender), m + 1, senders, i);
              PruneSilences(RemoveTrack(conn, sender), m + 1, senders);
              FirstStaleSame(conn, RemoveTrack(conn, sender), m + 1, i, senders.Keys);
            }
        }
    } else {
      assert !Superseded(conn, m, i, senders) by { NoneBeyond(conn, m, i, senders); }
    }
  }

  lemma {:induction false} PruneKeepsInv(p: Peer, m: nat, senders: PubSenders)
    requires Inv(p)
    ensures Inv(p.(conn := Prune(p.conn, m, senders)))
    decreases |p.conn| - m
  {
    hide Inv, RemoveTrack, TakeOff;
    if m < |p.conn| {
      match TrackOf(p.conn[m])
      case None => PruneKeepsInv(p, m + 1, senders);
      case Some(t) =>
        if t !in senders {
          SilencingKeepsInv(p, p.conn[m].sender.value.id);
        } else {
          match senders[t]
          case None => PruneKeepsInv(p, m + 1, senders);
          case Some(sender) =>
            if sender != p.conn[m].sender.value.id {
              SilencingKeepsInv(p, sender);
              PruneKeepsInv(p.(conn := RemoveTrack(p.conn, sender)), m + 1, senders);
            } else {
              PruneKeepsInv(p, m + 1, senders);
            }
        }
    }
  }

  lemma SilencingKeepsInv(p: Peer, sender: nat)
    requires Inv(p)
    ensures Inv(p.(conn := RemoveTrack(p.conn, sender)))
  {
    hide Inv;
    TakeOffKeepsInv(p, sender);
  }

  // ---------------------------------------------------------------------------------------------
  // The attachments
  // ---------------------------------------------------------------------------------------------

  lemma AttachSends(p: Peer, id: TrackId, pick: Mid, t: TrackId)
    requires PoolIsIdle(p) && CanPick(p, pick)
    ensures Sends(Attach(p, id, pick).conn, t) <==> Sends(p.conn, t) || (t == id && id !in p.tracks)
  {
    if id !in p.tracks {
      var q := Attach(p, id, pick);
      assert TrackOf(q.conn[q.tracks[id].mid]) == Some(id);
      forall m | 0 <= m < |p.conn| && TrackOf(p.conn[m]) == Some(t) ensures TrackOf(q.conn[m]) == Some(t) {}
    }
  }

  lemma AttachStale(p: Peer, id: TrackId, pick: Mid, pub: set<TrackId>)
    requires PoolIsIdle(p) && CanPick(p, pick) && id in pub
    ensures Stale(Attach(p, id, pick).conn, pub) == Stale(p.conn, pub)
  {
    if id !in p.tracks {
      var q := Attach(p, id, pick);
      if p.free == {} {
        assert !IsStale(Last(q.conn), pub);
        assert q.conn[..|p.conn|] == p.conn;
      } else {
        StaleSame(p.conn, q.conn, pub);
      }
    }
  }

  lemma ChosenCons(order: seq<Choice>, t: TrackId)
    requires order != []
    ensures Chosen(order, t) <==> order[0].id == t || Chosen(order[1..], t)
  {
    if Chosen(order, t) {
      var i :| 0 <= i < |order| && order[i].id == t;
      if i > 0 { assert order[1..][i - 1].id == t; }
    }
    if Chosen(order[1..], t) {
      var i :| 0 <= i < |order| - 1 && order[1..][i].id == t;
      assert order[i + 1].id == t;
    }
  }

  lemma {:induction false} AttachAllAttaches(p: Peer, order: seq<Choice>, pub: set<TrackId>, t: TrackId)
    requires Inv(p) && Feasible(p, order) && forall i :: 0 <= i < |order| ==> order[i].id in pub
    ensures Inv(AttachAll(p, order))
    ensures t in AttachAll(p, order).tracks <==> t in p.tracks || Chosen(order, t)
    ensures Sends(AttachAll(p, order).conn, t) <==> Sends(p.conn, t) || (Chosen(order, t) && t !in p.tracks)
    ensures Stale(AttachAll(p, order).conn, pub) == Stale(p.conn, pub)
    decreases |order|
  {
    hide Inv, Stale, Sends, Chosen;
    if order == [] {
      assert !Chosen(order, t) by { ChosenNone(t); }
    } else {
      var id, pick := order[0].id, order[0].pick;
      var q := Attach(p, id, pick);
      InvPool(p);
      AttachKeepsInv(p, id, pick);
      AttachSends(p, id, pick, t);
      AttachStale(p, id, pick, pub);
      ChosenCons(order, t);
      AttachAllAttaches(q, order[1..], pub, t);
    }
  }

  lemma ChosenNone(t: TrackId)
    ensures !Chosen([], t)
  {}

  lemma InvPool(p: Peer)
    requires Inv(p)
    ensures PoolIsIdle(p)
  {}

  // ---------------------------------------------------------------------------------------------
  // One call
  // ---------------------------------------------------------------------------------------------

  lemma PrunedStale(p: Peer, pub: set<TrackId>)
    requires Inv(p)
    ensures Stale(Pruned(p, pub).conn, pub) == if Stale(p.conn, pub) == 0 then 0 else Stale(p.conn, pub) - 1
  {
    hide Inv, Prune, Sound, IsStale, Stale;
    var c, d := p.conn, Pruned(p, pub).conn;
    var senders := Publishing(p, pub);
    assert senders.Keys == pub;
    InvIsSound(p, pub);
    PruneTakesFirstStale(c, 0, senders);
    StaleZeroIff(c, pub);
    if Stale(c, pub) == 0 {
      StaleZeroIff(d, pub);
    } else {
      var k := FindFirstStale(c, pub);
      StaleOneLess(c, d, k, pub);
    }
  }

  lemma {:induction false} FindFirstStale(conn: seq<Transceiver>, pub: set<TrackId>) returns (k: nat)
    requires exists m :: 0 <= m < |conn| && IsStale(conn[m], pub)
    ensures FirstStale(conn, 0, k, pub)
  {
    k := 0;
    while !IsStale(conn[k], pub)
      invariant k < |conn| && forall i :: 0 <= i < k ==> !IsStale(conn[i], pub)
      decreases |conn| - k
    {
      k := k + 1;
    }
  }

  lemma PrunedSends(p: Peer, pub: set<TrackId>, t: TrackId)
    requires Inv(p)
    ensures Sends(Pruned(p, pub).conn, t) ==> Sends(p.conn, t)
    ensures t in pub && Sends(p.conn, t) ==> Sends(Pruned(p, pub).conn, t)
  {
    hide Inv, Prune, Sound;
    var senders := Publishing(p, pub);
    PruneSilences(p.conn, 0, senders);
    if t in pub && Sends(p.conn, t) {
      InvIsSound(p, pub);
      var k :| 0 <= k < |p.conn| && TrackOf(p.conn[k]) == Some(t);
      var k' := PruneKeepsPublished(p.conn, 0, senders, t, k);
    }
  }

  /**
   One call keeps the peer's invariant, registers every published track, lowers the number of stale senders by
   exactly one until there is none, and starts sending exactly the published tracks it did not know.
   */
  lemma OneCall(p: Peer, pub: set<TrackId>, order: seq<Choice>, t: TrackId)
    requires Inv(p) && Covers(p, pub, order)
    ensures var q := Sanitized(p, pub, order);
      && Inv(q)
      && (t in q.tracks <==> t in p.tracks || t in pub)
      && Stale(q.conn, pub) == (if Stale(p.conn, pub) == 0 then 0 else Stale(p.conn, pub) - 1)
      && (t in pub ==> (Sends(q.conn, t) <==> Sends(p.conn, t) || t !in p.tracks))
  {
    hide Inv, Prune, Stale, Sends, Feasible, AttachAll;
    PruneKeepsInv(p, 0, Publishing(p, pub));
    PrunedStale(p, pub);
    PrunedSends(p, pub, t);
    AttachAllAttaches(Pruned(p, pub), order, pub, t);
  }

  // ---------------------------------------------------------------------------------------------
  // Runs of calls
  // ---------------------------------------------------------------------------------------------

  /** The states a peer goes through under repeated calls while the published set stays as it is. */
  ghost predicate IsRepair(states: seq<Peer>, orders: seq<seq<Choice>>, pub: set<TrackId>) {
    && |states| == |orders| + 1
    && Inv(states[0])
    && forall i :: 0 <= i < |orders| ==>
         Covers(states[i], pub, orders[i]) && states[i + 1] == Sanitized(states[i], pub, orders[i])
  }

  /** Every published track the subscriber knows is still sent by some sender. */
  ghost predicate Live(p: Peer, pub: set<TrackId>) {
    forall t :: t in pub && t in p.tracks ==> Sends(p.conn, t)
  }

  ghost predicate SendsExactly(p: Peer, pub: set<TrackId>) { forall t :: Sends(p.conn, t) <==> t in pub }

  lemma {:induction false} AfterCalls(states: seq<Peer>, orders: seq<seq<Choice>>, pub: set<TrackId>, n: nat, t: TrackId)
    requires IsRepair(states, orders, pub) && n <= |orders|
    ensures Inv(states[n])
    ensures Stale(states[n].conn, pub) == (if Stale(states[0].conn, pub) <= n then 0 else Stale(states[0].conn, pub) - n)
    ensures t in pub && n > 0 ==> t in states[n].tracks
    ensures t in pub && n > 0 ==> (Sends(states[n].conn, t) <==> Sends(states[0].conn, t) || t !in states[0].tracks)
  {
    hide Inv, Stale, Sends, Sanitized, Feasible, Chosen;
    if n > 0 {
      AfterCalls(states, orders, pub, n - 1, t);
      assert states[n - 1 + 1] == Sanitized(states[n - 1], pub, orders[n - 1]);
      OneCall(states[n - 1], pub, orders[n - 1], t);
    }
  }

  lemma StaleIsUnpublished(conn: seq<Transceiver>, pub: set<TrackId>)
    ensures Stale(conn, pub) == 0 <==> forall t :: Sends(conn, t) ==> t in pub
  {
    hide Stale;
    StaleZeroIff(conn, pub);
    if !forall m :: 0 <= m < |conn| ==> !IsStale(conn[m], pub) {
      var m :| 0 <= m < |conn| && IsStale(conn[m], pub);
      assert Sends(conn, TrackOf(conn[m]).value);
    }
  }

  /**
   After as many calls as there are stale senders, and at least one, the tracks sent are those published,
   exactly if every published track the subscriber knew at the start was being sent then.
   */
  lemma RepairConvergesIff(states: seq<Peer>, orders: seq<seq<Choice>>, pub: set<TrackId>)
    requires IsRepair(states, orders, pub)
    requires |orders| >= 1 && |orders| >= Stale(states[0].conn, pub)
    ensures SendsExactly(Last(states), pub) <==> Live(states[0], pub)
  {
    hide Inv, Stale, Sends, IsRepair;
    var n := |orders|;
    assert |states| == n + 1 by { RepairSize(states, orders, pub); }
    AfterCalls(states, orders, pub, n, "");
    StaleIsUnpublished(states[n].conn, pub);
    forall t | t in pub ensures Sends(states[n].conn, t) <==> Sends(states[0].conn, t) || t !in states[0].tracks {
      AfterCalls(states, orders, pub, n, t);
    }
  }

  /** A subscriber that sends every track it knows meets the condition, whatever is published. */
  lemma SendingIsLive(p: Peer, pub: set<TrackId>)
    requires AllSending(p)
    ensures Live(p, pub)
  {
    forall t | t in pub && t in p.tracks ensures Sends(p.conn, t) {
      assert TrackOf(p.conn[p.tracks[t].mid]) == Some(t);
    }
  }

  /**
   How a subscriber comes to miss the condition: a track is attached, unpublished, taken off by one repair, and
   published again under its id. It stays registered, and silent.
   */
  lemma PublishedAgainStaysSilent(t: TrackId)
    ensures var start := Peer([], 0, map[], {}, {}, 0);
      var attached := Attach(start, t, 0);
      var repaired := TakeOff(attached, 0);
      && IsRun([start, attached, repaired], [AttachTrack(t, 0), RemoveSender(0)])
      && Covers(attached, {}, []) && repaired == Sanitized(attached, {}, [])
      && !Live(repaired, {t})
  {
    var start := Peer([], 0, map[], {}, {}, 0);
    var attached := Attach(start, t, 0);
    var repaired := TakeOff(attached, 0);
    assert attached.conn == [Transceiver(SendOnly, Some(Sender(0, Some(t))))];
    assert repaired.conn == [Transceiver(Inactive, None)];
    assert Prune(attached.conn, 0, Publishing(attached, {})) == repaired.conn;
    assert Covers(attached, {}, []) by { assert forall u :: !Chosen([], u); }
    assert !Sends(repaired.conn, t);
  }

  lemma RepairSize(states: seq<Peer>, orders: seq<seq<Choice>>, pub: set<TrackId>)
    requires IsRepair(states, orders, pub)
    ensures |states| == |orders| + 1
  {}

  /** Before that many calls something unpublished is still sent. */
  lemma RepairTakesAllCalls(states: seq<Peer>, orders: seq<seq<Choice>>, pub: set<TrackId>)
    requires IsRepair(states, orders, pub)
    requires |orders| < Stale(states[0].conn, pub)
    ensures !SendsExactly(Last(states), pub)
  {
    hide Inv, Stale, Sends, IsRepair;
    RepairSize(states, orders, pub);
    AfterCalls(states, orders, pub, |orders|, "");
    StaleIsUnpublished(Last(states).conn, pub);
  }
}
