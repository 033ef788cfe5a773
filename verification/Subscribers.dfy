/**
 The objects behind `Fanout` and `Sanitize`: a subscriber with its connection and its pool of transceivers,
 and the pool of peers that repairs what a subscriber sends. Each request is one method, proved against the
 function that describes it.
 */
module Subscribers {
  import opened Options
  import opened Fanout
  import opened Sanitize

  // ---------------------------------------------------------------------------------------------
  // The connection and the pool of transceivers
  // ---------------------------------------------------------------------------------------------

  /** The track of a sender wherever it is on the connection, and none once it was taken off. */
  function TrackNow(conn: seq<Transceiver>, sender: nat): Option<TrackId> {
    if conn == [] then None
    else if Carries(Last(conn), sender) then Last(conn).sender.value.track
    else TrackNow(conn[..|conn| - 1], sender)
  }

  lemma {:induction false} TrackNowAt(conn: seq<Transceiver>, sender: nat, m: nat)
    requires m < |conn|
    requires forall n :: 0 <= n < |conn| && n != m ==> !Carries(conn[n], sender)
    ensures TrackNow(conn, sender) == if Carries(conn[m], sender) then TrackOf(conn[m]) else None
  {
    if m == |conn| - 1 {
      if !Carries(conn[m], sender) { TrackNowNowhere(conn, sender); }
    } else {
      TrackNowAt(conn[..|conn| - 1], sender, m);
    }
  }

  lemma {:induction false} TrackNowNowhere(conn: seq<Transceiver>, sender: nat)
    requires forall n :: 0 <= n < |conn| ==> !Carries(conn[n], sender)
    ensures TrackNow(conn, sender) == None
  {
    if conn != [] { TrackNowNowhere(conn[..|conn| - 1], sender); }
  }

  lemma PoolIsInactive(p: Peer)
    requires Inv(p)
    ensures forall m :: m in p.free ==> m < |p.conn| && p.conn[m].direction == Inactive
  {
    hide SendersUnique, SendersAtHome, Shared, Economical;
  }

  class PeerConnection {
    var transceivers: seq<Transceiver>
    var nextSender: nat

    constructor ()
      ensures transceivers == [] && nextSender == 0
    {
      transceivers, nextSender := [], 0;
    }
  }

  /** Transceivers by mid that were stopped and can be used again. */
  class TransceiverPool {
    const connection: PeerConnection
    var free: set<Mid>

    constructor (connection: PeerConnection)
      ensures this.connection == connection && free == {}
    {
      this.connection, free := connection, {};
    }

    /** The walk over the pool panics at a transceiver that is not inactive; it never meets one. */
    method Get() returns (got: Option<Mid>)
      requires forall m :: m in free ==> m < |connection.transceivers| && connection.transceivers[m].direction == Inactive
      modifies this`free
      ensures got.None? <==> old(free) == {}
      ensures got.Some? ==> got.value in old(free) && free == old(free) - {got.value}
      ensures got.None? ==> free == old(free)
    {
      if free == {} { return None; }
      var rest := free;
      var t :| t in free;
      while rest != {}
        invariant rest <= free && t in free
        decreases |rest|
      {
        t :| t in rest;
        if connection.transceivers[t].direction != Inactive { assert false; }
        rest := rest - {t};
      }
      free := free - {t};
      got := Some(t);
    }

    method Release(mid: Mid)
      requires mid < |connection.transceivers|
      modifies this`free, connection`transceivers
      ensures connection.transceivers == Stop(old(connection.transceivers), mid)
      ensures free == old(free) + {mid}
    {
      connection.transceivers := Stop(connection.transceivers, mid);
      free := free + {mid};
    }
  }

  // ---------------------------------------------------------------------------------------------
  // The subscriber
  // ---------------------------------------------------------------------------------------------

  /** `detaching` tells whether the one worker that serves detach requests is still there. */
  class Subscriber {
    const peerConnection: PeerConnection
    const transceiverPool: TransceiverPool
    var tracks: map<TrackId, Active>
    var detaching: bool
    ghost var mine: set<Mid>
    ghost var peak: nat

    ghost function Snapshot(): Peer
      reads this, peerConnection, transceiverPool
    {
      Peer(peerConnection.transceivers, peerConnection.nextSender, tracks, transceiverPool.free, mine, peak)
    }

    ghost predicate Valid()
      reads this, peerConnection, transceiverPool
    {
      transceiverPool.connection == peerConnection && Inv(Snapshot())
    }

    constructor ()
      ensures Valid() && Fresh(Snapshot())
      ensures fresh(peerConnection) && fresh(transceiverPool) && detaching
    {
      var connection := new PeerConnection();
      var pool := new TransceiverPool(connection);
      peerConnection, transceiverPool := connection, pool;
      tracks, detaching, mine, peak := map[], true, {}, 0;
    }

    method HasTrack(id: TrackId) returns (track: Option<Active>)
      ensures track == if id in tracks then Some(tracks[id]) else None
    {
      if id !in tracks { return None; }
      track := Some(tracks[id]);
    }

    method HandleTrackAttach(id: TrackId) returns (ghost pick: Mid)
      requires Valid()
      modifies this, peerConnection, transceiverPool
      ensures Valid()
      ensures CanPick(old(Snapshot()), pick) && Snapshot() == Attach(old(Snapshot()), id, pick)
      ensures detaching == old(detaching)
    {
      hide Inv, PoolIsIdle, SetSender;
      ghost var before := Snapshot();
      PoolIsInactive(before);
      pick := 0;
      var track := HasTrack(id);
      if track.None? {
        var mid: Mid;
        mid, pick := TakeTransceiver();
        var sender := Sender(peerConnection.nextSender, Some(id));
        peerConnection.nextSender := peerConnection.nextSender + 1;
        peerConnection.transceivers := SetSender(peerConnection.transceivers, mid, sender);
        tracks := tracks[id := Active(mid, sender.id)];
        mine, peak := mine + {mid}, Max(peak, |before.tracks.Keys| + 1);
      } else if transceiverPool.free != {} {
        pick :| pick in transceiverPool.free;
      }
      AttachKeepsInv(before, id, pick);
    }

    /** One from the pool, or a new one on the connection if the pool is empty. */
    method TakeTransceiver() returns (mid: Mid, ghost pick: Mid)
      requires transceiverPool.connection == peerConnection
      requires forall m :: m in transceiverPool.free ==> m < |peerConnection.transceivers| && peerConnection.transceivers[m].direction == Inactive
      modifies transceiverPool`free, peerConnection`transceivers
      ensures CanPick(old(Snapshot()), pick)
      ensures mid == if old(transceiverPool.free) == {} then |old(peerConnection.transceivers)| else pick
      ensures transceiverPool.free == old(transceiverPool.free) - {mid}
      ensures peerConnection.transceivers ==
        if old(transceiverPool.free) == {} then old(peerConnection.transceivers) + [Transceiver(SendOnly, None)]
        else old(peerConnection.transceivers)
      ensures mid < |peerConnection.transceivers|
    {
      pick := 0;
      var got := transceiverPool.Get();
      match got {
        case None =>
          mid := |peerConnection.transceivers|;
          peerConnection.transceivers := peerConnection.transceivers + [Transceiver(SendOnly, None)];
        case Some(pooled) =>
          mid, pick := pooled, pooled;
      }
    }

    /** A track that is not attached is answered with an error and changes nothing, but the worker is gone. */
    method HandleTrackDetach(id: TrackId) returns (found: bool)
      requires Valid() && detaching
      modifies this`tracks, this`detaching, peerConnection`transceivers, transceiverPool`free
      ensures Valid()
      ensures found <==> id in old(tracks)
      ensures old(Enabled(Snapshot(), DetachTrack(id)))
      ensures Snapshot() == old(Handle(Snapshot(), DetachTrack(id)))
      ensures detaching <==> found
    {
      hide Inv;
      var track := HasTrack(id);
      if track.None? {
        detaching := false;
        return false;
      }
      DetachKeepsInv(Snapshot(), id);
      var active := track.value;
      tracks := tracks - {id};
      peerConnection.transceivers := RemoveTrack(peerConnection.transceivers, active.sender);
      transceiverPool.Release(active.mid);
      found := true;
    }

    method DeleteTrack(id: TrackId) returns (found: bool)
      requires Valid()
      modifies this`tracks, peerConnection`transceivers, transceiverPool`free
      ensures Valid()
      ensures found <==> id in old(tracks)
      ensures old(Enabled(Snapshot(), Request.DeleteTrack(id)))
      ensures Snapshot() == old(Handle(Snapshot(), Request.DeleteTrack(id)))
    {
      hide Inv;
      var track := HasTrack(id);
      if track.None? { return false; }
      DetachKeepsInv(Snapshot(), id);
      DeleteIsDetach(Snapshot(), id);
      var active := track.value;
      tracks := tracks - {id};
      transceiverPool.Release(active.mid);
      peerConnection.transceivers := RemoveTrack(peerConnection.transceivers, active.sender);
      found := true;
    }
  }

  // ---------------------------------------------------------------------------------------------
  // The pool of peers
  // ---------------------------------------------------------------------------------------------

  type PeerId = string

  /** The tracks each peer publishes. */
  type Room = map<PeerId, set<TrackId>>

  ghost function PublishedBy(room: Room, peers: set<PeerId>): set<TrackId> {
    set peer, t | peer in room && peer in peers && t in room[peer] :: t
  }

  ghost function Published(room: Room): set<TrackId> { PublishedBy(room, room.Keys) }

  lemma PublishedByOneMore(room: Room, done: set<PeerId>, peer: PeerId)
    requires peer in room
    ensures PublishedBy(room, done + {peer}) == PublishedBy(room, done) + room[peer]
  {
    var more := PublishedBy(room, done + {peer});
    forall t | t in room[peer] ensures t in more {}
    forall t | t in PublishedBy(room, done) ensures t in more {
      var other :| other in room && other in done && t in room[other];
      assert other in done + {peer};
    }
  }

  lemma NothingPublished(p: Peer, room: Room)
    ensures Publishing(p, {}) == map[] && PublishedBy(room, {}) == {}
  {}

  lemma PublishingOneMore(p: Peer, pub: set<TrackId>, t: TrackId)
    ensures Publishing(p, pub + {t}) == Publishing(p, pub)[t := if t in p.tracks then Some(p.tracks[t].sender) else None]
  {}

  lemma {:induction false} AttachAllSnoc(p: Peer, order: seq<Choice>, c: Choice)
    requires Feasible(p, order) && CanPick(AttachAll(p, order), c.pick)
    ensures Feasible(p, order + [c])
    ensures AttachAll(p, order + [c]) == Attach(AttachAll(p, order), c.id, c.pick)
    decreases |order|
  {
    hide Attach, CanPick;
    if order == [] {
      assert order + [c] == [c];
      assert [c][1..] == [];
    } else {
      assert (order + [c])[1..] == order[1..] + [c];
      AttachAllSnoc(Attach(p, order[0].id, order[0].pick), order[1..], c);
    }
  }

  class PeerContextPool {
    var room: Room

    constructor ()
      ensures room == map[]
    {
      room := map[];
    }

    method PeerPublishingSenders(target: Subscriber) returns (senders: PubSenders)
      ensures senders == Publishing(target.Snapshot(), Published(room))
    {
      hide Publishing, PublishedBy;
      ghost var p := target.Snapshot();
      senders := map[];
      var peers := room.Keys;
      ghost var done, seen: set<TrackId> := {}, {};
      assert senders == Publishing(p, {}) && PublishedBy(room, {}) == {} by { NothingPublished(p, room); }
      while peers != {}
        invariant peers <= room.Keys && done == room.Keys - peers
        invariant seen == PublishedBy(room, done) && senders == Publishing(p, seen)
        decreases |peers|
      {
        var peer :| peer in peers;
        senders := PublishingOf(target, room[peer], senders, seen);
        seen := seen + room[peer];
        PublishedByOneMore(room, done, peer);
        done := done + {peer};
        peers := peers - {peer};
      }
      assert done == room.Keys;
    }

    /** The inner loop, over the tracks of one peer. */
    method PublishingOf(target: Subscriber, published: set<TrackId>, before: PubSenders, ghost seen: set<TrackId>)
      returns (senders: PubSenders)
      requires before == Publishing(target.Snapshot(), seen)
      ensures senders == Publishing(target.Snapshot(), seen + published)
    {
      hide Publishing;
      ghost var p := target.Snapshot();
      senders := before;
      var tracks := published;
      assert seen + (published - tracks) == seen;
      while tracks != {}
        invariant tracks <= published && senders == Publishing(p, seen + (published - tracks))
        decreases |tracks|
      {
        var id :| id in tracks;
        var track := target.HasTrack(id);
        PublishingOneMore(p, seen + (published - tracks), id);
        senders := senders[id := if track.Some? then Some(track.value.sender) else None];
        assert seen + (published - tracks) + {id} == seen + (published - (tracks - {id}));
        tracks := tracks - {id};
      }
      assert published - tracks == published;
    }

    /** Ends with the first sender of an unpublished track. */
    method RemoveUnpublishSenders(target: Subscriber, senders: PubSenders)
      requires Sound(target.peerConnection.transceivers, senders)
      modifies target.peerConnection`transceivers
      ensures target.peerConnection.transceivers == Prune(old(target.peerConnection.transceivers), 0, senders)
    {
      hide Sound;
      var conn := target.peerConnection;
      var existing := conn.transceivers;
      ghost var result := Prune(existing, 0, senders);
      var m := 0;
      while m < |existing|
        invariant m <= |existing|
        invariant OnlySilences(existing, conn.transceivers) && Sound(conn.transceivers, senders)
        invariant Prune(conn.transceivers, m, senders) == result
      {
        var sender := existing[m].sender;
        if sender.Some? {
          var track := TrackNow(conn.transceivers, sender.value.id);
          TrackIsCurrent(existing, conn.transceivers, m, senders);
          if track.Some? {
            if track.value !in senders {
              conn.transceivers := RemoveTrack(conn.transceivers, sender.value.id);
              return;
            }
            match senders[track.value] {
              case Some(attached) =>
                if attached != sender.value.id {
                  RemovingSpares(conn.transceivers, track.value, attached, senders);
                  conn.transceivers := RemoveTrack(conn.transceivers, attached);
                }
              case None =>
            }
          }
        }
        m := m + 1;
      }
    }

    /** Attaches in whatever order the map of senders is walked. */
    method SanitizePeerSenders(target: Subscriber) returns (ghost order: seq<Choice>)
      requires target.Valid()
      modifies target, target.peerConnection, target.transceiverPool
      ensures target.Valid()
      ensures Covers(old(target.Snapshot()), Published(room), order)
      ensures target.Snapshot() == Sanitized(old(target.Snapshot()), Published(room), order)
    {
      hide Inv, Prune, Sound, Attach, CanPick;
      ghost var before, pub := target.Snapshot(), Published(room);
      var senders := PeerPublishingSenders(target);
      InvIsSound(before, pub);
      RemoveUnpublishSenders(target, senders);
      PruneKeepsInv(before, 0, senders);
      ghost var pruned := Pruned(before, pub);
      var rest := senders.Keys;
      order := [];
      while rest != {}
        invariant rest <= senders.Keys == pub
        invariant target.Valid()
        invariant Feasible(pruned, order) && target.Snapshot() == AttachAll(pruned, order)
        invariant forall t :: t in pub - rest && t !in before.tracks <==> Chosen(order, t)
        decreases |rest|
      {
        var id :| id in rest;
        rest := rest - {id};
        if senders[id].None? {
          ghost var pick := target.HandleTrackAttach(id);
          ghost var c := Choice(id, pick);
          AttachAllSnoc(pruned, order, c);
          forall t ensures Chosen(order + [c], t) <==> Chosen(order, t) || t == id { ChosenSnoc(order, c, t); }
          order := order + [c];
        }
      }
    }
  }

  /** What a sender of the snapshot carries now is what its transceiver sends now. */
  lemma TrackIsCurrent(existing: seq<Transceiver>, conn: seq<Transceiver>, m: nat, senders: PubSenders)
    requires Sound(existing, senders) && OnlySilences(existing, conn)
    requires m < |conn| && existing[m].sender.Some?
    ensures TrackNow(conn, existing[m].sender.value.id) == TrackOf(conn[m])
    ensures TrackOf(conn[m]).Some? ==> conn[m] == existing[m]
  {
    assert forall n :: 0 <= n < |conn| && conn[n].sender.Some? ==> conn[n] == existing[n];
    TrackNowAt(conn, existing[m].sender.value.id, m);
  }

  lemma ChosenSnoc(order: seq<Choice>, c: Choice, t: TrackId)
    ensures Chosen(order + [c], t) <==> Chosen(order, t) || t == c.id
  {
    var after := order + [c];
    assert after[|order|] == c;
    assert forall i :: 0 <= i < |order| ==> after[i] == order[i];
  }
}
