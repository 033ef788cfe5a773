/**
 What one peer sends: its connection, its subscriber's tracks, and the pool of transceivers waiting to be
 used again. The WebRTC library is reduced to a list of transceivers with a direction and an optional
 sender; a transceiver's mid is its place in the list. Library calls succeed.
 */
module Fanout {
  import opened Options

  type TrackId = string
  type Mid = nat

  datatype Direction = SendRecv | SendOnly | RecvOnly | Inactive

  /** `id` tells senders apart; a sender may have no track. */
  datatype Sender = Sender(id: nat, track: Option<TrackId>)

  datatype Transceiver = Transceiver(direction: Direction, sender: Option<Sender>)

  /** `ActiveTrackContext`: the transceiver and the sender a track was attached with. */
  datatype Active = Active(mid: Mid, sender: nat)

  /**
   `mine` and `peak` are history: the transceivers the subscriber created, and the most tracks it ever
   had attached at once.
   */
  datatype Peer = Peer(
    conn: seq<Transceiver>,
    nextSender: nat,
    tracks: map<TrackId, Active>,
    free: set<Mid>,
    mine: set<Mid>,
    peak: nat)

  // ---------------------------------------------------------------------------------------------
  // The connection
  // ---------------------------------------------------------------------------------------------

  predicate Carries(t: Transceiver, sender: nat) { t.sender.Some? && t.sender.value.id == sender }

  /** Direction once a track is sent, and once none is. */
  function Sending(d: Direction): Direction {
    match d case Inactive => SendOnly case RecvOnly => SendRecv case _ => d
  }

  function NotSending(d: Direction): Direction {
    match d case SendOnly => Inactive case SendRecv => RecvOnly case _ => d
  }

  predicate Receives(d: Direction) { d == SendRecv || d == RecvOnly }

  /** Sending is switched on and off without touching what a transceiver receives. */
  lemma SendingIsIndependent(d: Direction)
    ensures (Sending(d) == SendRecv || Sending(d) == SendOnly) && Receives(Sending(d)) == Receives(d)
    ensures (NotSending(d) == RecvOnly || NotSending(d) == Inactive) && Receives(NotSending(d)) == Receives(d)
  {}

  function SetSender(conn: seq<Transceiver>, mid: Mid, sender: Sender): seq<Transceiver>
    requires mid < |conn|
  {
    conn[mid := Transceiver(Sending(conn[mid].direction), Some(sender))]
  }

  function WithoutSender(t: Transceiver): Transceiver { Transceiver(NotSending(t.direction), None) }

  /** Takes a sender off the connection; one that is not there changes nothing. */
  function RemoveTrack(conn: seq<Transceiver>, sender: nat): (after: seq<Transceiver>)
    ensures |after| == |conn|
    ensures forall m :: 0 <= m < |conn| ==> after[m] == if Carries(conn[m], sender) then WithoutSender(conn[m]) else conn[m]
  {
    seq(|conn|, m requires 0 <= m < |conn| => if Carries(conn[m], sender) then WithoutSender(conn[m]) else conn[m])
  }

  function Stop(conn: seq<Transceiver>, mid: Mid): seq<Transceiver>
    requires mid < |conn|
  {
    conn[mid := conn[mid].(direction := Inactive)]
  }

  // ---------------------------------------------------------------------------------------------
  // Requests
  // ---------------------------------------------------------------------------------------------

  function Max(a: nat, b: nat): nat { if a < b then b else a }

  /** `pick` is the pooled transceiver that `Get` happens to return. */
  predicate CanPick(p: Peer, pick: Mid) { p.free != {} ==> pick in p.free && pick < |p.conn| }

  function Attach(p: Peer, id: TrackId, pick: Mid): Peer
    requires CanPick(p, pick)
  {
    if id in p.tracks then p
    else
      var mid := if p.free == {} then |p.conn| else pick;
      var conn := if p.free == {} then p.conn + [Transceiver(SendOnly, None)] else p.conn;
      Peer(SetSender(conn, mid, Sender(p.nextSender, Some(id))), p.nextSender + 1,
           p.tracks[id := Active(mid, p.nextSender)], p.free - {mid},
           p.mine + {mid}, Max(p.peak, |p.tracks.Keys| + 1))
  }

  /** Off the connection, then stopped and back into the pool. */
  function Detach(p: Peer, id: TrackId): Peer
    requires id in p.tracks && p.tracks[id].mid < |p.conn|
  {
    var a := p.tracks[id];
    p.(conn := Stop(RemoveTrack(p.conn, a.sender), a.mid), tracks := p.tracks - {id}, free := p.free + {a.mid})
  }

  /** Stopped and back into the pool, then off the connection; an absent track changes nothing. */
  function Delete(p: Peer, id: TrackId): Peer
    requires id in p.tracks ==> p.tracks[id].mid < |p.conn|
  {
    if id !in p.tracks then p
    else
      var a := p.tracks[id];
      p.(tracks := p.tracks - {id}, free := p.free + {a.mid}, conn := RemoveTrack(Stop(p.conn, a.mid), a.sender))
  }

  /** A sender taken off directly, as sanitizing does. */
  function TakeOff(p: Peer, sender: nat): Peer { p.(conn := RemoveTrack(p.conn, sender)) }

  lemma DeleteIsDetach(p: Peer, id: TrackId)
    requires id in p.tracks && p.tracks[id].mid < |p.conn|
    ensures Delete(p, id) == Detach(p, id)
  {
    assert Delete(p, id).conn == Detach(p, id).conn;
  }

  // ---------------------------------------------------------------------------------------------
  // Ownership
  // ---------------------------------------------------------------------------------------------

  /** A track's transceiver sends it, or has been silenced by sanitizing. */
  predicate Holds(p: Peer, id: TrackId)
    requires id in p.tracks
  {
    var a := p.tracks[id];
    && a.mid < |p.conn| && a.mid !in p.free && a.mid in p.mine && a.sender < p.nextSender
    && (p.conn[a.mid] == Transceiver(SendOnly, Some(Sender(a.sender, Some(id)))) || p.conn[a.mid] == Transceiver(Inactive, None))
  }

  /** Pooled transceivers are inactive and silent. */
  ghost predicate PoolIsIdle(p: Peer) {
    forall m :: m in p.free ==> m < |p.conn| && p.conn[m] == Transceiver(Inactive, None)
  }

  ghost predicate SendersUnique(p: Peer) {
    && (forall m :: 0 <= m < |p.conn| && p.conn[m].sender.Some? ==> p.conn[m].sender.value.id < p.nextSender)
    && (forall m, n :: 0 <= m < n < |p.conn| && p.conn[m].sender.Some? && p.conn[n].sender.Some? ==>
          p.conn[m].sender.value.id != p.conn[n].sender.value.id)
  }

  /** A registered sender is found on its own transceiver or nowhere. */
  ghost predicate SendersAtHome(p: Peer) {
    forall id, m :: id in p.tracks && 0 <= m < |p.conn| && Carries(p.conn[m], p.tracks[id].sender) ==> m == p.tracks[id].mid
  }

  /** Each transceiver the subscriber created belongs to exactly one track or to the pool. */
  ghost predicate Shared(p: Peer) {
    && (forall id :: id in p.tracks ==> Holds(p, id))
    && (forall a, b :: a in p.tracks && b in p.tracks && a != b ==> p.tracks[a].mid != p.tracks[b].mid)
    && (forall m :: m in p.mine ==> m < |p.conn| && (m in p.free || exists id :: id in p.tracks && p.tracks[id].mid == m))
    && p.free <= p.mine
  }

  ghost predicate Economical(p: Peer) {
    |p.mine| == |p.free| + |p.tracks.Keys| && |p.mine| == p.peak
  }

  ghost predicate Inv(p: Peer) {
    PoolIsIdle(p) && SendersUnique(p) && SendersAtHome(p) && Shared(p) && Economical(p)
  }

  /** A peer before its first request, on a connection that may already have transceivers of its own. */
  ghost predicate Fresh(p: Peer) {
    p.tracks == map[] && p.free == {} && p.mine == {} && p.peak == 0 && SendersUnique(p)
  }

  // ---------------------------------------------------------------------------------------------
  // Every request keeps the invariant
  // ---------------------------------------------------------------------------------------------

  lemma AttachKeepsSenders(p: Peer, id: TrackId, pick: Mid)
    requires Inv(p) && CanPick(p, pick) && id !in p.tracks
    ensures SendersUnique(Attach(p, id, pick)) && SendersAtHome(Attach(p, id, pick))
  {
    hide PoolIsIdle, Economical;
    var q := Attach(p, id, pick);
    var mid := q.tracks[id].mid;
    assert forall m :: 0 <= m < |q.conn| && m != mid ==> m < |p.conn| && q.conn[m] == p.conn[m];
    forall other, m | other in q.tracks && 0 <= m < |q.conn| && Carries(q.conn[m], q.tracks[other].sender)
      ensures m == q.tracks[other].mid
    {
      if other != id { assert Holds(p, other); }
    }
  }

  /** What an attachment leaves of the connection, and where it puts the new sender. */
  lemma AttachTouchesOne(p: Peer, id: TrackId, pick: Mid)
    requires CanPick(p, pick) && id !in p.tracks
    ensures var q, mid := Attach(p, id, pick), if p.free == {} then |p.conn| else pick;
      && q.tracks[id] == Active(mid, p.nextSender) && mid < |q.conn| && |p.conn| <= |q.conn| <= |p.conn| + 1
      && (|q.conn| > |p.conn| ==> mid == |p.conn|)
      && (forall m :: 0 <= m < |p.conn| && m != mid ==> q.conn[m] == p.conn[m])
  {}

  lemma AttachSendsOnIdle(p: Peer, id: TrackId, pick: Mid)
    requires PoolIsIdle(p) && CanPick(p, pick) && id !in p.tracks
    ensures var q := Attach(p, id, pick);
      q.conn[q.tracks[id].mid] == Transceiver(SendOnly, Some(Sender(p.nextSender, Some(id))))
  {}

  lemma AttachKeepsPool(p: Peer, id: TrackId, pick: Mid)
    requires PoolIsIdle(p) && CanPick(p, pick) && id !in p.tracks
    ensures PoolIsIdle(Attach(p, id, pick))
  {
    hide SetSender;
    AttachTouchesOne(p, id, pick);
  }

  lemma AttachKeepsHolds(p: Peer, id: TrackId, pick: Mid, other: TrackId)
    requires PoolIsIdle(p) && Shared(p) && CanPick(p, pick) && id !in p.tracks && (other in p.tracks || other == id)
    ensures var q := Attach(p, id, pick);
      other in q.tracks && Holds(q, other) && (other != id ==> q.tracks[other].mid != q.tracks[id].mid)
  {
    hide SetSender, Shared, PoolIsIdle;
    AttachTouchesOne(p, id, pick);
    if other == id {
      AttachSendsOnIdle(p, id, pick);
    } else {
      SharesHold(p, other);
    }
  }

  lemma SharesHold(p: Peer, id: TrackId)
    requires Shared(p) && id in p.tracks
    ensures Holds(p, id)
  {}

  lemma AttachKeepsShared(p: Peer, id: TrackId, pick: Mid)
    requires PoolIsIdle(p) && Shared(p) && CanPick(p, pick) && id !in p.tracks
    ensures Shared(Attach(p, id, pick))
  {
    hide PoolIsIdle, SetSender, Holds;
    var q := Attach(p, id, pick);
    var mid := q.tracks[id].mid;
    AttachTouchesOne(p, id, pick);
    forall other | other in q.tracks ensures Holds(q, other) && (other != id ==> q.tracks[other].mid != mid) {
      AttachKeepsHolds(p, id, pick, other);
    }
    forall m | m in q.mine ensures m < |q.conn| && (m in q.free || exists t :: t in q.tracks && q.tracks[t].mid == m) {
      if m == mid { assert q.tracks[id].mid == m; }
      else if m !in p.free {
        var t :| t in p.tracks && p.tracks[t].mid == m;
        assert q.tracks[t].mid == m;
      }
    }
  }

  /** Either the pool was empty and one transceiver is new, or one leaves the pool. */
  lemma AttachKeepsEconomy(p: Peer, id: TrackId, pick: Mid)
    requires Inv(p) && CanPick(p, pick) && id !in p.tracks
    ensures Economical(Attach(p, id, pick))
  {
    hide PoolIsIdle, SendersUnique, SendersAtHome, Shared, Holds, SetSender;
    var q := Attach(p, id, pick);
    assert q.tracks.Keys == p.tracks.Keys + {id};
    assert |q.tracks.Keys| == |p.tracks.Keys| + 1;
    MineIsOnConnection(p, pick);
    if p.free == {} {
      assert |q.mine| == |p.mine| + 1 && |q.free| == 0;
    } else {
      assert q.free == p.free - {pick} && q.mine == p.mine;
    }
  }

  lemma MineIsOnConnection(p: Peer, pick: Mid)
    requires Shared(p)
    ensures |p.conn| !in p.mine && (pick in p.free ==> pick in p.mine)
  {}

  lemma AttachKeepsInv(p: Peer, id: TrackId, pick: Mid)
    requires Inv(p) && CanPick(p, pick)
    ensures Inv(Attach(p, id, pick))
  {
    if id !in p.tracks {
      AttachKeepsSenders(p, id, pick);
      AttachKeepsPool(p, id, pick);
      AttachKeepsShared(p, id, pick);
      AttachKeepsEconomy(p, id, pick);
    }
  }

  lemma TakeOffKeepsShares(p: Peer, sender: nat)
    requires PoolIsIdle(p) && Shared(p)
    ensures PoolIsIdle(TakeOff(p, sender)) && Shared(TakeOff(p, sender))
  {
    var q := TakeOff(p, sender);
    forall id | id in q.tracks ensures Holds(q, id) { assert Holds(p, id); }
  }

  lemma TakeOffKeepsSenders(p: Peer, sender: nat)
    requires SendersUnique(p) && SendersAtHome(p)
    ensures SendersUnique(TakeOff(p, sender)) && SendersAtHome(TakeOff(p, sender))
  {
    var q := TakeOff(p, sender);
    assert forall m :: 0 <= m < |q.conn| && q.conn[m].sender.Some? ==> q.conn[m] == p.conn[m];
  }

  lemma TakeOffKeepsInv(p: Peer, sender: nat)
    requires Inv(p)
    ensures Inv(TakeOff(p, sender))
  {
    hide PoolIsIdle, SendersUnique, SendersAtHome, Shared;
    TakeOffKeepsShares(p, sender);
    TakeOffKeepsSenders(p, sender);
  }

  /** Detaching idles the track's own transceiver and touches no other. */
  lemma DetachTouchesOne(p: Peer, id: TrackId)
    requires SendersAtHome(p) && id in p.tracks && Holds(p, id)
    ensures var q, mid := Detach(p, id), p.tracks[id].mid;
      && |q.conn| == |p.conn| && q.conn[mid] == Transceiver(Inactive, None)
      && forall m :: 0 <= m < |p.conn| && m != mid ==> q.conn[m] == p.conn[m]
  {}

  lemma DetachKeepsPool(p: Peer, id: TrackId)
    requires SendersAtHome(p) && PoolIsIdle(p) && id in p.tracks && Holds(p, id)
    ensures PoolIsIdle(Detach(p, id))
  {
    hide SendersAtHome, RemoveTrack, Stop;
    DetachTouchesOne(p, id);
  }

  lemma DetachKeepsShared(p: Peer, id: TrackId)
    requires SendersAtHome(p) && Shared(p) && id in p.tracks && Holds(p, id)
    ensures Shared(Detach(p, id))
  {
    hide SendersAtHome, RemoveTrack, Stop;
    DetachTouchesOne(p, id);
    var q, mid := Detach(p, id), p.tracks[id].mid;
    forall other | other in q.tracks ensures Holds(q, other) { assert Holds(p, other); }
    forall m | m in q.mine ensures m < |q.conn| && (m in q.free || exists t :: t in q.tracks && q.tracks[t].mid == m) {
      if m != mid && m !in p.free {
        var t :| t in p.tracks && p.tracks[t].mid == m;
        assert t in q.tracks && q.tracks[t].mid == m;
      }
    }
  }

  lemma DetachKeepsSenders(p: Peer, id: TrackId)
    requires Inv(p) && id in p.tracks && p.tracks[id].mid < |p.conn|
    ensures SendersUnique(Detach(p, id)) && SendersAtHome(Detach(p, id))
  {
    hide PoolIsIdle, Shared, Economical;
    var q := Detach(p, id);
    assert forall m :: 0 <= m < |q.conn| && q.conn[m].sender.Some? ==> q.conn[m].sender == p.conn[m].sender;
  }

  lemma DetachKeepsEconomy(p: Peer, id: TrackId)
    requires Inv(p) && id in p.tracks && p.tracks[id].mid < |p.conn| && p.tracks[id].mid !in p.free
    ensures Economical(Detach(p, id))
  {
    hide PoolIsIdle, Shared, SendersUnique, SendersAtHome;
    var q := Detach(p, id);
    assert q.tracks.Keys == p.tracks.Keys - {id};
    assert q.free == p.free + {p.tracks[id].mid};
  }

  lemma DetachKeepsInv(p: Peer, id: TrackId)
    requires Inv(p) && id in p.tracks
    ensures p.tracks[id].mid < |p.conn|
    ensures Inv(Detach(p, id))
  {
    hide PoolIsIdle, Shared, SendersUnique, SendersAtHome, Economical, Detach;
    SharesHold(p, id);
    DetachKeepsPool(p, id);
    DetachKeepsShared(p, id);
    DetachKeepsSenders(p, id);
    DetachKeepsEconomy(p, id);
  }

  // ---------------------------------------------------------------------------------------------
  // Runs of requests
  // ---------------------------------------------------------------------------------------------

  datatype Request =
    | AttachTrack(id: TrackId, pick: Mid)
    | DetachTrack(id: TrackId)
    | DeleteTrack(id: TrackId)
    | RemoveSender(sender: nat)

  predicate Enabled(p: Peer, r: Request) {
    match r
    case AttachTrack(_, pick) => CanPick(p, pick)
    case DetachTrack(id) => id in p.tracks ==> p.tracks[id].mid < |p.conn|
    case DeleteTrack(id) => id in p.tracks ==> p.tracks[id].mid < |p.conn|
    case RemoveSender(_) => true
  }

  function Handle(p: Peer, r: Request): Peer
    requires Enabled(p, r)
  {
    match r
    case AttachTrack(id, pick) => Attach(p, id, pick)
    case DetachTrack(id) => if id in p.tracks then Detach(p, id) else p
    case DeleteTrack(id) => Delete(p, id)
    case RemoveSender(sender) => TakeOff(p, sender)
  }

  /** The states a peer goes through from its start as it handles `requests`. */
  ghost predicate IsRun(states: seq<Peer>, requests: seq<Request>) {
    && |states| == |requests| + 1
    && Fresh(states[0])
    && forall i :: 0 <= i < |requests| ==>
         Enabled(states[i], requests[i]) && states[i + 1] == Handle(states[i], requests[i])
  }

  /** The transceivers the subscriber created are those added to a connection that began with `base`. */
  ghost predicate Since(p: Peer, base: nat) {
    base <= |p.conn| && forall m :: m in p.mine <==> base <= m < |p.conn|
  }

  /** Every track is really being sent on its transceiver. */
  ghost predicate AllSending(p: Peer) {
    forall id :: id in p.tracks ==>
      var a := p.tracks[id];
      a.mid < |p.conn| && p.conn[a.mid] == Transceiver(SendOnly, Some(Sender(a.sender, Some(id))))
  }

  /** Each transceiver from `base` on is in the pool or serves one track, never both. */
  ghost predicate OwnedOnce(p: Peer, base: nat) {
    && (forall m :: base <= m < |p.conn| ==> (m in p.free <==> !exists id :: id in p.tracks && p.tracks[id].mid == m))
    && (forall a, b :: a in p.tracks && b in p.tracks && p.tracks[a].mid == p.tracks[b].mid ==> a == b)
    && (forall id :: id in p.tracks ==> base <= p.tracks[id].mid < |p.conn|)
    && (forall m :: m in p.free ==> base <= m < |p.conn|)
  }

  lemma HandleKeepsInv(p: Peer, r: Request)
    requires Inv(p) && Enabled(p, r)
    ensures Inv(Handle(p, r))
  {
    hide Inv, Attach, Detach, TakeOff;
    match r
    case AttachTrack(id, pick) => AttachKeepsInv(p, id, pick);
    case DetachTrack(id) => if id in p.tracks { DetachKeepsInv(p, id); }
    case DeleteTrack(id) => if id in p.tracks { DetachKeepsInv(p, id); DeleteIsDetach(p, id); }
    case RemoveSender(sender) => TakeOffKeepsInv(p, sender);
  }

  lemma AttachCounts(p: Peer, id: TrackId, pick: Mid, base: nat)
    requires Shared(p) && CanPick(p, pick) && Since(p, base)
    ensures var q := Attach(p, id, pick);
      && Since(q, base) && p.mine <= q.mine && |q.conn| >= |p.conn| && q.peak >= p.peak
      && (q.peak == p.peak || q.peak == |q.tracks.Keys|)
  {
    hide Shared, Holds, SetSender;
    MineIsOnConnection(p, pick);
    if id !in p.tracks {
      AttachTouchesOne(p, id, pick);
      assert Attach(p, id, pick).tracks.Keys == p.tracks.Keys + {id};
    }
  }

  lemma HandleCounts(p: Peer, r: Request, base: nat)
    requires Shared(p) && Enabled(p, r) && Since(p, base)
    ensures Since(Handle(p, r), base)
    ensures p.mine <= Handle(p, r).mine && |Handle(p, r).conn| >= |p.conn|
    ensures Handle(p, r).peak == p.peak || Handle(p, r).peak == |Handle(p, r).tracks.Keys|
    ensures Handle(p, r).peak >= p.peak
  {
    hide Shared, Holds, Attach;
    match r
    case AttachTrack(id, pick) => AttachCounts(p, id, pick, base);
    case DetachTrack(id) => if id in p.tracks { assert |Detach(p, id).conn| == |p.conn|; }
    case DeleteTrack(id) => assert |Delete(p, id).conn| == |p.conn|;
    case RemoveSender(sender) => assert |TakeOff(p, sender).conn| == |p.conn|;
  }

  lemma {:induction false} RunKeepsInv(states: seq<Peer>, requests: seq<Request>, i: nat)
    requires IsRun(states, requests) && i <= |requests|
    ensures Inv(states[i]) && Since(states[i], |states[0].conn|)
    ensures exists j :: 0 <= j <= i && |states[j].tracks.Keys| == states[i].peak
    ensures forall j :: 0 <= j <= i ==> states[j].peak <= states[i].peak
  {
    if i == 0 {
      assert |states[0].tracks.Keys| == 0;
    } else {
      RunKeepsInv(states, requests, i - 1);
      var p, r := states[i - 1], requests[i - 1];
      assert states[i - 1 + 1] == Handle(p, r);
      HandleKeepsInv(p, r);
      HandleCounts(p, r, |states[0].conn|);
    }
  }

  lemma InvOwnsOnce(p: Peer, base: nat)
    requires Inv(p) && Since(p, base)
    ensures OwnedOnce(p, base)
    ensures forall m :: m in p.free ==> p.conn[m].direction == Inactive
  {
    hide SendersUnique, SendersAtHome, Economical;
    assert forall id :: id in p.tracks ==> Holds(p, id);
  }

  /**
   Over any run each transceiver the subscriber created serves exactly one track or waits in the pool, a
   waiting one is inactive, so that taking one out never panics, and the number created is the largest number
   of tracks attached at one time.
   */
  lemma RunsOwnAndReuse(states: seq<Peer>, requests: seq<Request>)
    requires IsRun(states, requests)
    ensures var p, base := Last(states), |states[0].conn|;
      && OwnedOnce(p, base)
      && (forall m :: m in p.free ==> p.conn[m].direction == Inactive)
      && (forall i :: 0 <= i < |states| ==> |states[i].tracks.Keys| <= |p.conn| - base)
      && (exists i :: 0 <= i < |states| && |states[i].tracks.Keys| == |p.conn| - base)
  {
    hide Inv, Handle, OwnedOnce, Since;
    var n, base := |requests|, |states[0].conn|;
    RunKeepsInv(states, requests, n);
    InvOwnsOnce(states[n], base);
    CreatedIsPeak(states[n], base);
    forall i | 0 <= i < |states| ensures |states[i].tracks.Keys| <= |Last(states).conn| - base {
      RunKeepsInv(states, requests, i);
      CreatedIsPeak(states[i], base);
    }
  }

  lemma CreatedIsPeak(p: Peer, base: nat)
    requires Inv(p) && Since(p, base)
    ensures p.peak == |p.conn| - base && |p.tracks.Keys| <= p.peak
  {
    hide PoolIsIdle, SendersUnique, SendersAtHome, Shared;
    RangeSize(p.mine, base, |p.conn|);
  }

  /** A set that holds exactly the numbers from `lo` to below `hi` has `hi - lo` members. */
  lemma {:induction false} RangeSize(range: set<nat>, lo: nat, hi: nat)
    requires lo <= hi && forall m :: m in range <==> lo <= m < hi
    ensures |range| == hi - lo
    decreases hi
  {
    if lo == hi {
      assert range == {};
    } else {
      RangeSize(range - {hi - 1}, lo, hi - 1);
    }
  }

  lemma AttachKeepsSending(p: Peer, id: TrackId, pick: Mid)
    requires Inv(p) && CanPick(p, pick) && AllSending(p)
    ensures AllSending(Attach(p, id, pick))
  {
    hide SendersUnique, SendersAtHome, Economical, Shared;
    var q := Attach(p, id, pick);
    forall other | other in p.tracks && id !in p.tracks
      ensures q.tracks[other] == p.tracks[other] && q.tracks[other].mid != q.tracks[id].mid
      ensures q.conn[q.tracks[other].mid] == p.conn[q.tracks[other].mid]
    {
      assert Holds(p, other) by { SharesHold(p, other); }
    }
  }

  lemma DetachKeepsSending(p: Peer, id: TrackId)
    requires Inv(p) && id in p.tracks && p.tracks[id].mid < |p.conn| && AllSending(p)
    ensures AllSending(Detach(p, id))
  {
    hide SendersUnique, PoolIsIdle, Economical;
    var q := Detach(p, id);
    forall other | other in q.tracks
      ensures q.tracks[other] == p.tracks[other] && q.tracks[other].mid < |p.conn|
      ensures q.conn[q.tracks[other].mid] == p.conn[q.tracks[other].mid]
    {
      assert Holds(p, other);
    }
  }

  lemma StartSendsNothing(p: Peer)
    requires Fresh(p)
    ensures AllSending(p)
  {}

  /** As long as no sender is taken off directly, every attached track is being sent on its own transceiver. */
  lemma {:induction false} RunsKeepSending(states: seq<Peer>, requests: seq<Request>, i: nat)
    requires IsRun(states, requests) && i <= |requests|
    requires forall k :: 0 <= k < i ==> !requests[k].RemoveSender?
    ensures AllSending(states[i])
  {
    hide Inv, Attach, Detach, AllSending;
    if i == 0 {
      StartSendsNothing(states[0]);
    } else {
      RunsKeepSending(states, requests, i - 1);
      RunKeepsInv(states, requests, i - 1);
      var p, r := states[i - 1], requests[i - 1];
      assert states[i - 1 + 1] == Handle(p, r);
      match r
      case AttachTrack(id, pick) => AttachKeepsSending(p, id, pick);
      case DetachTrack(id) => if id in p.tracks { DetachKeepsSending(p, id); }
      case DeleteTrack(id) => if id in p.tracks { DetachKeepsSending(p, id); DeleteIsDetach(p, id); }
      case RemoveSender(_) => assert false;
    }
  }
}
