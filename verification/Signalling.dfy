/** The signalling protocol: message handling, subscriptions and delivery
    (`src/signaling/handlers.ts`, `src/ws/setup.ts`). */
module Signalling {
  import opened Basics
  import opened Rooms
  import RateLimit

  type SocketId = string

  datatype ErrorCode = ROOM_FULL | ALREADY_IN_ROOM | NOT_IN_ROOM | PEER_NOT_FOUND | INVALID_MESSAGE | RATE_LIMITED

  datatype ClientMessage =
    | JoinRoom(roomId: RoomId, displayName: Option<string>)
    | LeaveRoom
    | Offer(targetPeerId: PeerId, sdp: string)
    | Answer(targetPeerId: PeerId, sdp: string)
    | IceCandidate(targetPeerId: PeerId, candidate: string)
    | Ping

  datatype ServerMessage =
    | Welcome(peerId: PeerId)
    | RoomJoined(roomId: RoomId, peers: map<PeerId, string>)
    | PeerJoined(peerId: PeerId, displayName: string)
    | PeerLeft(peerId: PeerId)
    | OfferFrom(from: PeerId, sdp: string)
    | AnswerFrom(from: PeerId, sdp: string)
    | IceCandidateFrom(from: PeerId, candidate: string)
    | Error(code: ErrorCode)
    | Pong

  datatype Action = Send(target: PeerId, message: ServerMessage) | Publish(topic: RoomId, message: ServerMessage)

  /** Everything the server holds, and every message each open socket has received. */
  datatype Server = Server(
    lobby: Lobby,
    peerSockets: map<PeerId, SocketId>,
    socketPeers: map<SocketId, PeerId>,
    subs: map<SocketId, set<RoomId>>,
    inbox: map<SocketId, seq<ServerMessage>>)

  datatype Event =
    | Opened(socket: SocketId, peer: PeerId)
    | Received(socket: SocketId, limited: bool, parsed: Option<ClientMessage>)
    | Closed(socket: SocketId)

  const EMPTY := Server(Lobby(map[], map[]), map[], map[], map[], map[])

  // ----- Specification ---------------------------------------------------------------------

  function HandleSpec(l: Lobby, p: PeerId, m: ClientMessage): (r: (Lobby, seq<Action>)) {
    match m
    case JoinRoom(roomId, displayName) =>
      var (l', result) := JoinSpec(l, p, roomId, if displayName.Some? then displayName.value else "");
      (l', JoinActions(p, roomId, result))
    case LeaveRoom =>
      var (l', result) := LeaveSpec(l, p);
      (l', if result.NotInRoom? then [Send(p, Error(NOT_IN_ROOM))] else [Publish(result.roomId, PeerLeft(p))])
    case Offer(target, sdp) => (l, RelaySpec(l, p, target, OfferFrom(p, sdp)))
    case Answer(target, sdp) => (l, RelaySpec(l, p, target, AnswerFrom(p, sdp)))
    case IceCandidate(target, candidate) => (l, RelaySpec(l, p, target, IceCandidateFrom(p, candidate)))
    case Ping => (l, [Send(p, Pong)])
  }

  function JoinActions(p: PeerId, roomId: RoomId, result: JoinResult): (acts: seq<Action>) {
    match result
    case AlreadyInRoom => [Send(p, Error(ALREADY_IN_ROOM))]
    case RoomFull => [Send(p, Error(ROOM_FULL))]
    case Joined(members, _, previous, _) =>
      (if previous.Some? then [Publish(previous.value, PeerLeft(p))] else [])
      + [Send(p, RoomJoined(roomId, members - {p})),
         Publish(roomId, PeerJoined(p, if p in members then members[p] else ""))]
  }

  function RelaySpec(l: Lobby, p: PeerId, target: PeerId, m: ServerMessage): (acts: seq<Action>) {
    if RoomOf(l, p) == None then [Send(p, Error(NOT_IN_ROOM))]
    else if target == p || RoomOf(l, target) != RoomOf(l, p) then [Send(p, Error(PEER_NOT_FOUND))]
    else [Send(target, m)]
  }

  predicate Hears(s: Server, sender: SocketId, k: SocketId, a: Action) {
    match a
    case Send(target, _) => target in s.peerSockets && s.peerSockets[target] == k
    case Publish(topic, _) => k != sender && k in s.subs && topic in s.subs[k]
  }

  /** One action carried out: each socket that hears it gets the message appended. */
  function Deliver(s: Server, sender: SocketId, a: Action): (s': Server) {
    s.(inbox := map k | k in s.inbox :: s.inbox[k] + if Hears(s, sender, k, a) then [a.message] else [])
  }

  function DeliverAll(s: Server, sender: SocketId, acts: seq<Action>): (s': Server)
    decreases acts
  {
    if acts == [] then s else DeliverAll(Deliver(s, sender, acts[0]), sender, acts[1..])
  }

  function Resubscribed(s: Server, k: SocketId, was: Option<RoomId>, now: Option<RoomId>): (s': Server) {
    if was == now || k !in s.subs then s
    else
      var kept := if was.Some? then s.subs[k] - {was.value} else s.subs[k];
      s.(subs := s.subs[k := if now.Some? then kept + {now.value} else kept])
  }

  function Push(s: Server, k: SocketId, m: ServerMessage): (s': Server) {
    if k in s.inbox then s.(inbox := s.inbox[k := s.inbox[k] + [m]]) else s
  }

  function MessageSpec(s: Server, k: SocketId, limited: bool, parsed: Option<ClientMessage>): (s': Server) {
    if k !in s.socketPeers then s
    else if limited then Push(s, k, Error(RATE_LIMITED))
    else if parsed.None? then Push(s, k, Error(INVALID_MESSAGE))
    else
      var p := s.socketPeers[k];
      var (l', acts) := HandleSpec(s.lobby, p, parsed.value);
      DeliverAll(Resubscribed(s.(lobby := l'), k, RoomOf(s.lobby, p), RoomOf(l', p)), k, acts)
  }

  function OpenSpec(s: Server, k: SocketId, p: PeerId): (s': Server) {
    s.(peerSockets := s.peerSockets[p := k], socketPeers := s.socketPeers[k := p],
       subs := s.subs[k := {}], inbox := s.inbox[k := [Welcome(p)]])
  }

  function CloseSpec(s: Server, k: SocketId): (s': Server) {
    if k !in s.socketPeers then s
    else
      var p := s.socketPeers[k];
      var room := RoomOf(s.lobby, p);
      var left := s.(lobby := LeaveSpec(s.lobby, p).0);
      var told := if room.Some? then Deliver(left, k, Publish(room.value, PeerLeft(p))) else left;
      told.(peerSockets := told.peerSockets - {p}, socketPeers := told.socketPeers - {k},
            subs := told.subs - {k}, inbox := told.inbox - {k})
  }

  function Step(s: Server, e: Event): (s': Server) {
    match e
    case Opened(k, p) => OpenSpec(s, k, p)
    case Received(k, limited, parsed) => MessageSpec(s, k, limited, parsed)
    case Closed(k) => CloseSpec(s, k)
  }

  // ----- The server ------------------------------------------------------------------------

  method HandleMessage(p: PeerId, m: ClientMessage, manager: RoomManager) returns (actions: seq<Action>)
    requires manager.Valid()
    modifies manager, manager.repr
    ensures manager.Valid() && fresh(manager.repr - old(manager.repr))
    ensures manager.lobby == HandleSpec(old(manager.lobby), p, m).0
    ensures actions == HandleSpec(old(manager.lobby), p, m).1
  {
    match m
    case JoinRoom(roomId, displayName) =>
      var name := if displayName.Some? then displayName.value else "";
      var result := manager.JoinRoom(p, roomId, name);
      match result {
        case AlreadyInRoom =>
          return [Send(p, Error(ALREADY_IN_ROOM))];
        case RoomFull =>
          return [Send(p, Error(ROOM_FULL))];
        case Joined(members, _, previous, _) =>
          actions := [];
          if previous.Some? {
            actions := actions + [Publish(previous.value, PeerLeft(p))];
          }
          var shown := if p in members then members[p] else "";
          actions := actions + [Send(p, RoomJoined(roomId, members - {p})), Publish(roomId, PeerJoined(p, shown))];
      }
    case LeaveRoom =>
      var result := manager.LeaveRoom(p);
      if result.NotInRoom? {
        return [Send(p, Error(NOT_IN_ROOM))];
      }
      return [Publish(result.roomId, PeerLeft(p))];
    case Offer(target, sdp) =>
      actions := Relay(p, target, OfferFrom(p, sdp), manager);
    case Answer(target, sdp) =>
      actions := Relay(p, target, AnswerFrom(p, sdp), manager);
    case IceCandidate(target, candidate) =>
      actions := Relay(p, target, IceCandidateFrom(p, candidate), manager);
    case Ping =>
      return [Send(p, Pong)];
  }

  method Relay(p: PeerId, target: PeerId, m: ServerMessage, manager: RoomManager) returns (actions: seq<Action>)
    requires manager.Valid()
    ensures actions == RelaySpec(manager.lobby, p, target, m)
  {
    var room := manager.GetPeerRoom(p);
    if room == None {
      return [Send(p, Error(NOT_IN_ROOM))];
    }
    if target == p || !manager.ArePeersInSameRoom(p, target) {
      return [Send(p, Error(PEER_NOT_FOUND))];
    }
    return [Send(target, m)];
  }

  class SignalingServer {
    const manager: RoomManager
    const limiter: RateLimit.RateLimiter
    var peerSockets: map<PeerId, SocketId>
    var socketIdToPeer: map<SocketId, PeerId>
    var subscriptions: map<SocketId, set<RoomId>>
    var inboxes: map<SocketId, seq<ServerMessage>>

    constructor (limit: nat)
      ensures fresh(manager) && fresh(manager.repr) && fresh(limiter)
      ensures manager.Valid() && State() == EMPTY && limiter.limit == limit && limiter.buckets == map[]
    {
      manager := new RoomManager();
      limiter := new RateLimit.RateLimiter(limit);
      peerSockets, socketIdToPeer, subscriptions, inboxes := map[], map[], map[], map[];
    }

    ghost function State(): Server
      reads this, manager
    {
      Server(manager.lobby, peerSockets, socketIdToPeer, subscriptions, inboxes)
    }

    method SendTo(k: SocketId, m: ServerMessage)
      modifies this`inboxes
      ensures State() == Push(old(State()), k, m)
    {
      if k in inboxes {
        inboxes := inboxes[k := inboxes[k] + [m]];
      }
    }

    /** `ws.publish`: every other subscriber of the topic hears it. */
    method PublishFrom(sender: SocketId, topic: RoomId, m: ServerMessage)
      modifies this`inboxes
      ensures State() == Deliver(old(State()), sender, Publish(topic, m))
    {
      inboxes := map k | k in inboxes ::
        inboxes[k] + if k != sender && k in subscriptions && topic in subscriptions[k] then [m] else [];
    }

    method ExecuteAction(a: Action, sender: SocketId)
      modifies this`inboxes
      ensures State() == Deliver(old(State()), sender, a)
    {
      match a
      case Send(target, m) =>
        ghost var before := State();
        assert forall k :: k in inboxes ==> inboxes[k] + [] == inboxes[k];
        if target in peerSockets {
          SendTo(peerSockets[target], m);
        }
        assert inboxes == Deliver(before, sender, a).inbox;
      case Publish(topic, m) =>
        PublishFrom(sender, topic, m);
    }

    method ExecuteActions(actions: seq<Action>, sender: SocketId)
      modifies this`inboxes
      ensures State() == DeliverAll(old(State()), sender, actions)
    {
      var i := 0;
      while i < |actions|
        invariant 0 <= i <= |actions|
        invariant DeliverAll(State(), sender, actions[i..]) == DeliverAll(old(State()), sender, actions)
      {
        assert actions[i..][0] == actions[i] && actions[i..][1..] == actions[i + 1..];
        ExecuteAction(actions[i], sender);
        i := i + 1;
      }
    }

    method Open(k: SocketId, p: PeerId)
      modifies this
      ensures State() == Step(old(State()), Opened(k, p))
    {
      peerSockets := peerSockets[p := k];
      socketIdToPeer := socketIdToPeer[k := p];
      subscriptions := subscriptions[k := {}];
      inboxes := inboxes[k := [Welcome(p)]];
    }

    /** A message read at clock value `now`; `limited` reports the limiter's verdict. */
    method Message(k: SocketId, now: int, parsed: Option<ClientMessage>) returns (limited: bool)
      requires manager.Valid()
      modifies this, manager, manager.repr, limiter
      ensures manager.Valid() && fresh(manager.repr - old(manager.repr))
      ensures State() == Step(old(State()), Received(k, limited, parsed))
      ensures k !in old(socketIdToPeer) ==> !limited && limiter.buckets == old(limiter.buckets)
      ensures k in old(socketIdToPeer) ==>
                var bucket := if k in old(limiter.buckets) then old(limiter.buckets)[k] else [];
                && limited == !RateLimit.Admits(bucket, now, limiter.limit)
                && limiter.buckets == old(limiter.buckets)[k := RateLimit.Step(bucket, now, limiter.limit)]
    {
      limited := false;
      if k !in socketIdToPeer {
        return;
      }
      var p := socketIdToPeer[k];
      limited := limiter.IsRateLimited(k, now);
      if limited {
        SendTo(k, Error(RATE_LIMITED));
        return;
      }
      if parsed.None? {
        SendTo(k, Error(INVALID_MESSAGE));
        return;
      }
      var oldRoomId := manager.GetPeerRoom(p);
      var actions := HandleMessage(p, parsed.value, manager);
      var newRoomId := manager.GetPeerRoom(p);
      Resubscribe(k, oldRoomId, newRoomId);
      ExecuteActions(actions, k);
    }

    method Resubscribe(k: SocketId, was: Option<RoomId>, now: Option<RoomId>)
      modifies this`subscriptions
      ensures State() == Resubscribed(old(State()), k, was, now)
    {
      if was != now && k in subscriptions {
        if was.Some? {
          subscriptions := subscriptions[k := subscriptions[k] - {was.value}];
        }
        if now.Some? {
          subscriptions := subscriptions[k := subscriptions[k] + {now.value}];
        }
        assert subscriptions == Resubscribed(old(State()), k, was, now).subs;
      }
    }

    method Close(k: SocketId)
      requires manager.Valid()
      modifies this, manager, manager.repr, limiter
      ensures manager.Valid() && manager.repr == old(manager.repr)
      ensures State() == Step(old(State()), Closed(k))
      ensures limiter.buckets == if k in old(socketIdToPeer) then old(limiter.buckets) - {k} else old(limiter.buckets)
    {
      if k !in socketIdToPeer {
        return;
      }
      var p := socketIdToPeer[k];
      var roomId := manager.GetPeerRoom(p);
      var left := manager.LeaveRoom(p);
      if roomId.Some? {
        PublishFrom(k, roomId.value, PeerLeft(p));
      }
      peerSockets := peerSockets - {p};
      socketIdToPeer := socketIdToPeer - {k};
      limiter.Forget(k);
      // Closing the socket ends its subscriptions and its inbox.
      subscriptions := subscriptions - {k};
      inboxes := inboxes - {k};
    }
  }
}
