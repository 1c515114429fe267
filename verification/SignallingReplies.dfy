/** What every event of the signalling server says, to whom, and where it leaves everybody. */
module SignallingReplies {
  import opened Basics
  import opened Rooms
  import opened Signalling
  import opened SignallingProofs

  /** The connection of `q` receives exactly `ms` between the two states. */
  ghost predicate Receives(s: Server, s': Server, q: PeerId, ms: seq<ServerMessage>) {
    && q in s.peerSockets && s.peerSockets[q] in s.inbox && s.peerSockets[q] in s'.inbox
    && s'.inbox[s.peerSockets[q]] == s.inbox[s.peerSockets[q]] + ms
  }

  /** `q` alone hears `m`, and nothing else changes. */
  ghost predicate HeardOnlyBy(s: Server, s': Server, q: PeerId, m: ServerMessage) {
    && q in s.peerSockets && s.peerSockets[q] in s.inbox
    && s' == s.(inbox := s.inbox[s.peerSockets[q] := s.inbox[s.peerSockets[q]] + [m]])
  }

  ghost function Sends(k: SocketId, m: ClientMessage): Event {
    Received(k, false, Some(m))
  }

  // ----- Messages that move nobody -------------------------------------------------------------

  lemma SendIsHeard(s: Server, k: SocketId, q: PeerId, m: ServerMessage)
    requires Inv(s) && q in s.peerSockets
    ensures HeardOnlyBy(s, DeliverAll(s, k, [Send(q, m)]), q, m)
  {
    DeliverAllOne(s, k, Send(q, m));
    var s', j := Deliver(s, k, Send(q, m)), s.peerSockets[q];
    forall i | i in s.inbox ensures s'.inbox[i] == if i == j then s.inbox[j] + [m] else s.inbox[i] {
      assert s.inbox[i] + [] == s.inbox[i];
    }
    assert s'.inbox == s.inbox[j := s.inbox[j] + [m]];
  }

  lemma Unmoved(s: Server, k: SocketId, m: ClientMessage, q: PeerId, reply: ServerMessage)
    requires Inv(s) && k in s.socketPeers && q in s.peerSockets
    requires HandleSpec(s.lobby, s.socketPeers[k], m) == (s.lobby, [Send(q, reply)])
    ensures HeardOnlyBy(s, Step(s, Sends(k, m)), q, reply)
  {
    PreparedUnmoved(s, k);
    SendIsHeard(s, k, q, reply);
  }

  /** An offer, answer or candidate to another peer of the sender's room reaches that peer, from the sender,
      and no one else. */
  lemma RelayReachesItsTarget(s: Server, k: SocketId, q: PeerId, body: string)
    requires Inv(s) && k in s.socketPeers && q != s.socketPeers[k]
    requires RoomOf(s.lobby, q).Some? && RoomOf(s.lobby, q) == RoomOf(s.lobby, s.socketPeers[k])
    ensures HeardOnlyBy(s, Step(s, Sends(k, Offer(q, body))), q, OfferFrom(s.socketPeers[k], body))
    ensures HeardOnlyBy(s, Step(s, Sends(k, Answer(q, body))), q, AnswerFrom(s.socketPeers[k], body))
    ensures HeardOnlyBy(s, Step(s, Sends(k, IceCandidate(q, body))), q, IceCandidateFrom(s.socketPeers[k], body))
  {
    Unmoved(s, k, Offer(q, body), q, OfferFrom(s.socketPeers[k], body));
    Unmoved(s, k, Answer(q, body), q, AnswerFrom(s.socketPeers[k], body));
    Unmoved(s, k, IceCandidate(q, body), q, IceCandidateFrom(s.socketPeers[k], body));
  }

  /** From outside any room, or to oneself or a peer of no or another room, the sender alone hears why not. */
  lemma RelayIsRefused(s: Server, k: SocketId, q: PeerId, body: string)
    requires Inv(s) && k in s.socketPeers
    requires RoomOf(s.lobby, s.socketPeers[k]) == None || q == s.socketPeers[k]
             || RoomOf(s.lobby, q) != RoomOf(s.lobby, s.socketPeers[k])
    ensures var p := s.socketPeers[k];
            var why := Error(if RoomOf(s.lobby, p) == None then NOT_IN_ROOM else PEER_NOT_FOUND);
            && HeardOnlyBy(s, Step(s, Sends(k, Offer(q, body))), p, why)
            && HeardOnlyBy(s, Step(s, Sends(k, Answer(q, body))), p, why)
            && HeardOnlyBy(s, Step(s, Sends(k, IceCandidate(q, body))), p, why)
  {
    var p := s.socketPeers[k];
    var why := Error(if RoomOf(s.lobby, p) == None then NOT_IN_ROOM else PEER_NOT_FOUND);
    Unmoved(s, k, Offer(q, body), p, why);
    Unmoved(s, k, Answer(q, body), p, why);
    Unmoved(s, k, IceCandidate(q, body), p, why);
  }

  /** A ping is answered, and a limited or unreadable message refused; the sender alone hears of it. */
  lemma SenderAloneHears(s: Server, k: SocketId, parsed: Option<ClientMessage>)
    requires Inv(s) && k in s.socketPeers
    ensures var p := s.socketPeers[k];
            && HeardOnlyBy(s, Step(s, Sends(k, Ping)), p, Pong)
            && HeardOnlyBy(s, Step(s, Received(k, true, parsed)), p, Error(RATE_LIMITED))
            && HeardOnlyBy(s, Step(s, Received(k, false, None)), p, Error(INVALID_MESSAGE))
  {
    Unmoved(s, k, Ping, s.socketPeers[k], Pong);
  }

  /** So are a leave from no room, a join of the own room, and a join of a full room from none. */
  lemma RefusalIsHeard(s: Server, k: SocketId, r: RoomId, name: Option<string>)
    requires Inv(s) && k in s.socketPeers
    ensures var p := s.socketPeers[k];
            && (RoomOf(s.lobby, p) == None ==> HeardOnlyBy(s, Step(s, Sends(k, LeaveRoom)), p, Error(NOT_IN_ROOM)))
            && (RoomOf(s.lobby, p) == Some(r) ==>
                  HeardOnlyBy(s, Step(s, Sends(k, JoinRoom(r, name))), p, Error(ALREADY_IN_ROOM)))
            && (RoomOf(s.lobby, p) == None && |Members(s.lobby, r)| >= 10 ==>
                  HeardOnlyBy(s, Step(s, Sends(k, JoinRoom(r, name))), p, Error(ROOM_FULL)))
  {
    var p := s.socketPeers[k];
    if RoomOf(s.lobby, p) == None { Unmoved(s, k, LeaveRoom, p, Error(NOT_IN_ROOM)); }
    JoinOutcome(s.lobby, p, r, if name.Some? then name.value else "");
    if RoomOf(s.lobby, p) == Some(r) {
      Unmoved(s, k, JoinRoom(r, name), p, Error(ALREADY_IN_ROOM));
    } else if RoomOf(s.lobby, p) == None && |Members(s.lobby, r)| >= 10 {
      Unmoved(s, k, JoinRoom(r, name), p, Error(ROOM_FULL));
    }
  }

  // ----- Messages that move the sender ----------------------------------------------------------

  /** After the step `p` is in `room`, or in none, and everybody else is where it was. */
  ghost predicate MovesTo(s: Server, s': Server, p: PeerId, room: Option<RoomId>) {
    && RoomOf(s'.lobby, p) == room && (forall q :: q != p ==> RoomOf(s'.lobby, q) == RoomOf(s.lobby, q))
    && s'.peerSockets == s.peerSockets && s'.socketPeers == s.socketPeers
  }

  /** What a message that moves its sender does, and what `q` hears of it. */
  lemma Moved(s: Server, k: SocketId, m: ClientMessage, l': Lobby, acts: seq<Action>, q: PeerId)
    requires Inv(s) && k in s.socketPeers && q in s.peerSockets && MovesOnly(s, k, l')
    requires HandleSpec(s.lobby, s.socketPeers[k], m) == (l', acts)
    ensures Inv(Prepared(s, k, l')) && Prepared(s, k, l').lobby == l' && Prepared(s, k, l').peerSockets == s.peerSockets
    ensures var s' := Step(s, Sends(k, m));
            && s'.lobby == l' && MovesTo(s, s', s.socketPeers[k], RoomOf(l', s.socketPeers[k]))
            && Receives(s, s', q, HeardAll(Prepared(s, k, l'), k, s.peerSockets[q], acts))
  {
    PreparedKeepsInv(s, k, l');
    DeliverAllAppends(Prepared(s, k, l'), k, acts);
  }

  lemma HearsOneSend(t: Server, k: SocketId, p: PeerId, m: ServerMessage, q: PeerId)
    requires Inv(t) && p in t.peerSockets && q in t.peerSockets
    ensures HeardAll(t, k, t.peerSockets[q], [Send(p, m)]) == if q == p then [m] else []
  {
    HearsSend(t, k, p, q, m);
    HeardTwo(t, k, t.peerSockets[q], Send(p, m), Send(p, m));
  }

  lemma HearsOnePublish(t: Server, k: SocketId, r: RoomId, m: ServerMessage, q: PeerId)
    requires Inv(t) && q in t.peerSockets
    ensures HeardAll(t, k, t.peerSockets[q], [Publish(r, m)]) ==
            if t.peerSockets[q] != k && RoomOf(t.lobby, q) == Some(r) then [m] else []
  {
    HearsPublish(t, k, q, r, m);
    HeardTwo(t, k, t.peerSockets[q], Publish(r, m), Publish(r, m));
  }

  /** A join of a room with space, seen from the lobby: where it leads and what it announces. */
  lemma JoinWithSpace(l: Lobby, p: PeerId, r: RoomId, name: string)
    requires Agree(l) && RoomOf(l, p) != Some(r) && |Members(l, r)| < 10
    ensures var (l', result) := JoinSpec(l, p, r, name);
            && Agree(l') && RoomOf(l', p) == Some(r) && (forall q :: q != p ==> RoomOf(l', q) == RoomOf(l, q))
            && Members(l', r) == Members(l, r)[p := name]
            && JoinActions(p, r, result) ==
               (if RoomOf(l, p).Some? then [Publish(RoomOf(l, p).value, PeerLeft(p))] else [])
               + [Send(p, RoomJoined(r, Members(l, r))), Publish(r, PeerJoined(p, name))]
  {
    JoinOutcome(l, p, r, name);
    JoinAgrees(l, p, r, name);
    JoinMembers(l, p, r, name, r);
    MembersOfOthers(l, p, r);
    assert Members(l, r)[p := name] - {p} == Members(l, r);
  }

  /** A join of a room with space: the joiner hears who is in it, its members hear of the joiner, the room the
      joiner left hears that, and nobody else hears anything. */
  lemma JoinIsHeard(s: Server, k: SocketId, r: RoomId, displayName: Option<string>, q: PeerId)
    requires Inv(s) && k in s.socketPeers && q in s.peerSockets
    requires RoomOf(s.lobby, s.socketPeers[k]) != Some(r) && |Members(s.lobby, r)| < 10
    ensures var p, name := s.socketPeers[k], if displayName.Some? then displayName.value else "";
            var s', was := Step(s, Sends(k, JoinRoom(r, displayName))), RoomOf(s.lobby, p);
            && MovesTo(s, s', p, Some(r)) && Members(s'.lobby, r) == Members(s.lobby, r)[p := name]
            && Receives(s, s', q, if q == p then [RoomJoined(r, Members(s.lobby, r))]
                                  else if RoomOf(s.lobby, q) == Some(r) then [PeerJoined(p, name)]
                                  else if was.Some? && RoomOf(s.lobby, q) == was then [PeerLeft(p)] else [])
  {
    var p, name := s.socketPeers[k], if displayName.Some? then displayName.value else "";
    var l', result := JoinSpec(s.lobby, p, r, name).0, JoinSpec(s.lobby, p, r, name).1;
    JoinWithSpace(s.lobby, p, r, name);
    Moved(s, k, JoinRoom(r, displayName), l', JoinActions(p, r, result), q);
    JoinHeard(Prepared(s, k, l'), k, q, p, r, RoomOf(s.lobby, p), Members(s.lobby, r), name);
  }

  /** A join of a full room from another one: the sender is out of its room and hears that the other is full;
      nobody else hears anything. */
  lemma RefusedSwitchIsHeard(s: Server, k: SocketId, r: RoomId, displayName: Option<string>, q: PeerId)
    requires Inv(s) && k in s.socketPeers && q in s.peerSockets && RoomOf(s.lobby, s.socketPeers[k]).Some?
    requires RoomOf(s.lobby, s.socketPeers[k]) != Some(r) && |Members(s.lobby, r)| >= 10
    ensures var p, s' := s.socketPeers[k], Step(s, Sends(k, JoinRoom(r, displayName)));
            && MovesTo(s, s', p, None)
            && Receives(s, s', q, if q == p then [Error(ROOM_FULL)] else [])
  {
    var p, name := s.socketPeers[k], if displayName.Some? then displayName.value else "";
    var l' := LeaveSpec(s.lobby, p).0;
    JoinOutcome(s.lobby, p, r, name);
    LeaveAgrees(s.lobby, p);
    Moved(s, k, JoinRoom(r, displayName), l', [Send(p, Error(ROOM_FULL))], q);
    HearsOneSend(Prepared(s, k, l'), k, p, Error(ROOM_FULL), q);
  }

  lemma LeaveAnnounces(l: Lobby, p: PeerId, r: RoomId)
    requires RoomOf(l, p) == Some(r)
    ensures HandleSpec(l, p, LeaveRoom) == (LeaveSpec(l, p).0, [Publish(r, PeerLeft(p))])
  {
  }

  /** A leave: the sender is in no room, the others of its room hear of it, and nobody else hears anything. */
  lemma LeaveIsHeard(s: Server, k: SocketId, r: RoomId, q: PeerId)
    requires Inv(s) && k in s.socketPeers && q in s.peerSockets && RoomOf(s.lobby, s.socketPeers[k]) == Some(r)
    ensures var p, s' := s.socketPeers[k], Step(s, Sends(k, LeaveRoom));
            && MovesTo(s, s', p, None) && Members(s'.lobby, r) == Members(s.lobby, r) - {p}
            && Receives(s, s', q, if q != p && RoomOf(s.lobby, q) == Some(r) then [PeerLeft(p)] else [])
  {
    var p := s.socketPeers[k];
    var l' := LeaveSpec(s.lobby, p).0;
    LeaveAgrees(s.lobby, p);
    LeaveMembers(s.lobby, p, r);
    LeaveAnnounces(s.lobby, p, r);
    Moved(s, k, LeaveRoom, l', [Publish(r, PeerLeft(p))], q);
    HearsOnePublish(Prepared(s, k, l'), k, r, PeerLeft(p), q);
    assert s.peerSockets[q] == k <==> q == p;
  }

  // ----- Connections ---------------------------------------------------------------------------

  /** A new connection hears its id and is in no room; nobody else hears anything. */
  lemma OpenIsHeard(s: Server, k: SocketId, p: PeerId, q: PeerId)
    requires Inv(s) && Possible(s, Opened(k, p))
    ensures var s' := Step(s, Opened(k, p));
            && s'.lobby == s.lobby && p in s'.peerSockets && s'.peerSockets[p] == k && RoomOf(s'.lobby, p) == None
            && k in s'.inbox && s'.inbox[k] == [Welcome(p)]
            && (q in s.peerSockets ==> Receives(s, s', q, []) && q in s'.peerSockets)
  {
    if q in s.peerSockets { assert s.inbox[s.peerSockets[q]] + [] == s.inbox[s.peerSockets[q]]; }
  }

  /** A closed connection is gone, its peer is in no room, the others of that room hear of it, and nobody else
      hears anything. */
  lemma CloseIsHeard(s: Server, k: SocketId, q: PeerId)
    requires Inv(s) && k in s.socketPeers && q in s.peerSockets && q != s.socketPeers[k]
    ensures var p, s' := s.socketPeers[k], Step(s, Closed(k));
            && p !in s'.peerSockets && k !in s'.socketPeers && k !in s'.inbox && RoomOf(s'.lobby, p) == None
            && RoomOf(s'.lobby, q) == RoomOf(s.lobby, q) && q in s'.peerSockets
            && Receives(s, s', q, if RoomOf(s.lobby, p).Some? && RoomOf(s.lobby, q) == RoomOf(s.lobby, p)
                                  then [PeerLeft(p)] else [])
  {
    var p, j := s.socketPeers[k], s.peerSockets[q];
    LeaveAgrees(s.lobby, p);
    assert j != k && s.inbox[j] + [] == s.inbox[j];
    if RoomOf(s.lobby, p).Some? { HearsPublish(s, k, q, RoomOf(s.lobby, p).value, PeerLeft(p)); }
  }
}
