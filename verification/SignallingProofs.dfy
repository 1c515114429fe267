/** What every step of the signalling server keeps: agreement of the indexes, and exact client views. */
module SignallingProofs {
  import opened Basics
  import opened Rooms
  import opened Signalling

  // ----- Rooms and the reverse index -------------------------------------------------------

  ghost predicate InRoom(l: Lobby, p: PeerId, r: RoomId) {
    r in l.rooms && p in l.rooms[r]
  }

  /** A peer is in a room's map exactly when the reverse index says so. */
  ghost predicate IndexAgrees(l: Lobby) {
    && (forall p, r {:trigger InRoom(l, p, r)} :: InRoom(l, p, r) ==> RoomOf(l, p) == Some(r))
    && (forall p {:trigger RoomOf(l, p)} :: RoomOf(l, p).Some? ==> InRoom(l, p, RoomOf(l, p).value))
  }

  /** No room is empty and none is over capacity. */
  ghost predicate SizesInBounds(l: Lobby) {
    forall r :: r in l.rooms ==> 1 <= |l.rooms[r]| <= 10
  }

  ghost predicate Agree(l: Lobby) {
    IndexAgrees(l) && SizesInBounds(l)
  }

  lemma RemovalShrinks(m: map<PeerId, string>, p: PeerId)
    ensures |m - {p}| <= |m|
    ensures p in m ==> |m - {p}| == |m| - 1
    ensures p !in m ==> m - {p} == m
  {
    assert (m - {p}).Keys == m.Keys - {p};
    if p !in m { assert m - {p} == m; }
  }

  lemma AdditionGrows(m: map<PeerId, string>, p: PeerId, name: string)
    requires p !in m
    ensures |m[p := name]| == |m| + 1 && m[p := name].Keys == m.Keys + {p}
  {
    assert m[p := name].Keys == m.Keys + {p};
  }

  lemma RemovalsCommute(m: map<PeerId, string>, p: PeerId, q: PeerId)
    ensures (m - {p}) - {q} == (m - {q}) - {p}
  {
  }

  lemma AdditionCommutes(m: map<PeerId, string>, p: PeerId, q: PeerId, name: string)
    requires p != q
    ensures m[p := name] - {q} == (m - {q})[p := name]
  {
  }

  lemma MembersOfOthers(l: Lobby, p: PeerId, r: RoomId)
    requires IndexAgrees(l) && RoomOf(l, p) != Some(r)
    ensures p !in Members(l, r) && Members(l, r) - {p} == Members(l, r)
  {
    assert !InRoom(l, p, r);
    RemovalShrinks(Members(l, r), p);
  }

  /** Leaving takes the peer out of every room. */
  lemma LeaveMembers(l: Lobby, p: PeerId, r: RoomId)
    requires IndexAgrees(l)
    ensures Members(LeaveSpec(l, p).0, r) == Members(l, r) - {p}
  {
    if RoomOf(l, p) != Some(r) {
      MembersOfOthers(l, p, r);
    } else if |Members(l, r) - {p}| == 0 {
      assert Members(l, r) - {p} == map[];
    }
  }

  lemma WithoutIndex(l: Lobby, p: PeerId, r: RoomId)
    requires IndexAgrees(l) && RoomOf(l, p) == Some(r)
    ensures IndexAgrees(Without(l, p, r))
  {
    var l', rest := Without(l, p, r), Members(l, r) - {p};
    forall q, o | InRoom(l', q, o) ensures RoomOf(l', q) == Some(o) {
      assert InRoom(l, q, o);
    }
    forall q | RoomOf(l', q).Some? ensures InRoom(l', q, RoomOf(l', q).value) {
      assert RoomOf(l, q) == RoomOf(l', q);
      assert InRoom(l, q, RoomOf(l, q).value);
      if RoomOf(l, q) == Some(r) { assert q in rest; }
    }
  }

  lemma JoinedSizes(l: Lobby, r: RoomId, members: map<PeerId, string>, index: map<PeerId, RoomId>)
    requires SizesInBounds(l) && 1 <= |members| <= 10
    ensures SizesInBounds(Lobby(l.rooms[r := members], index))
  {
  }

  lemma WithoutSizes(l: Lobby, p: PeerId, r: RoomId)
    requires SizesInBounds(l)
    ensures SizesInBounds(Without(l, p, r))
  {
    var rest := Members(l, r) - {p};
    if r in l.rooms && |rest| != 0 {
      RemovalShrinks(l.rooms[r], p);
      JoinedSizes(l, r, rest, l.peerRooms - {p});
    }
  }

  /** Leaving keeps the two maps in agreement and moves no one else. */
  lemma LeaveAgrees(l: Lobby, p: PeerId)
    requires Agree(l)
    ensures Agree(LeaveSpec(l, p).0)
    ensures RoomOf(LeaveSpec(l, p).0, p) == None
    ensures forall q :: q != p ==> RoomOf(LeaveSpec(l, p).0, q) == RoomOf(l, q)
  {
    if RoomOf(l, p).Some? {
      WithoutIndex(l, p, RoomOf(l, p).value);
      WithoutSizes(l, p, RoomOf(l, p).value);
    }
  }

  lemma JoinedIndex(l: Lobby, p: PeerId, r: RoomId, members: map<PeerId, string>)
    requires IndexAgrees(l) && p !in l.peerRooms
    requires members.Keys == Members(l, r).Keys + {p}
    ensures IndexAgrees(Lobby(l.rooms[r := members], l.peerRooms[p := r]))
  {
    var l' := Lobby(l.rooms[r := members], l.peerRooms[p := r]);
    forall q, o | InRoom(l', q, o) ensures RoomOf(l', q) == Some(o) {
      if q != p { assert InRoom(l, q, o); }
      if q == p && o != r { assert InRoom(l, p, o); }
    }
    forall q | RoomOf(l', q).Some? ensures InRoom(l', q, RoomOf(l', q).value) {
      if q != p { assert RoomOf(l, q) == RoomOf(l', q); }
    }
  }

  lemma JoinedAgrees(l: Lobby, p: PeerId, r: RoomId, name: string)
    requires Agree(l) && p !in l.peerRooms && |Members(l, r)| < 10
    ensures Agree(Lobby(l.rooms[r := Members(l, r)[p := name]], l.peerRooms[p := r]))
  {
    var members := Members(l, r)[p := name];
    assert p !in Members(l, r) by { MembersOfOthers(l, p, r); }
    AdditionGrows(Members(l, r), p, name);
    JoinedIndex(l, p, r, members);
    JoinedSizes(l, r, members, l.peerRooms[p := r]);
  }

  lemma ElsewhereMembers(l: Lobby, p: PeerId, r: RoomId)
    requires IndexAgrees(l) && RoomOf(l, p) != Some(r)
    ensures Members(LeaveSpec(l, p).0, r) == Members(l, r)
  {
    LeaveMembers(l, p, r);
    MembersOfOthers(l, p, r);
  }

  /** Looking up a full room does not create it. */
  lemma FullRoomIsThere(l: Lobby, p: PeerId, r: RoomId)
    requires IndexAgrees(l) && RoomOf(l, p) != Some(r) && |Members(l, r)| >= 10
    ensures var left := LeaveSpec(l, p).0; left.(rooms := left.rooms[r := Members(left, r)]) == left
  {
    ElsewhereMembers(l, p, r);
    var left := LeaveSpec(l, p).0;
    assert r in left.rooms;
    assert left.rooms[r := Members(left, r)] == left.rooms;
  }

  /** How a join ends, read off the lobby before it. */
  lemma JoinOutcome(l: Lobby, p: PeerId, r: RoomId, name: string)
    requires Agree(l)
    ensures var (l', result) := JoinSpec(l, p, r, name);
            && (result.AlreadyInRoom? <==> RoomOf(l, p) == Some(r))
            && (result.AlreadyInRoom? ==> l' == l)
            && (result.RoomFull? <==> RoomOf(l, p) != Some(r) && |Members(l, r)| >= 10)
            && (result.RoomFull? ==> l' == LeaveSpec(l, p).0)
            && (result.Joined? ==> result.previous == RoomOf(l, p) && result.members == Members(l', r))
  {
    if RoomOf(l, p) != Some(r) {
      ElsewhereMembers(l, p, r);
      if |Members(l, r)| >= 10 {
        FullRoomIsThere(l, p, r);
      }
    }
  }

  /** What a join and a leave report of rooms: one is new exactly when nobody was in it, and one is deleted
      exactly when the peer was alone in it. */
  lemma RoomsAreReported(l: Lobby, p: PeerId, r: RoomId, name: string)
    requires Agree(l)
    ensures var result := JoinSpec(l, p, r, name).1;
            result.Joined? ==> && (result.isNew <==> Members(l, r) == map[])
                               && (result.previousDeleted <==>
                                     RoomOf(l, p).Some? && Members(l, RoomOf(l, p).value).Keys == {p})
    ensures var result := LeaveSpec(l, p).1;
            && (result.NotInRoom? <==> RoomOf(l, p) == None)
            && (result.Left? ==> && RoomOf(l, p) == Some(result.roomId)
                                 && (result.roomDeleted <==> Members(l, result.roomId).Keys == {p}))
  {
    if RoomOf(l, p).Some? { AloneIsDeleted(l, p, RoomOf(l, p).value); }
    if RoomOf(l, p) != Some(r) {
      ElsewhereMembers(l, p, r);
      LeaveAgrees(l, p);
      var left := LeaveSpec(l, p).0;
      assert r in left.rooms ==> |left.rooms[r]| >= 1;
    }
  }

  lemma AloneIsDeleted(l: Lobby, p: PeerId, r: RoomId)
    requires Agree(l) && RoomOf(l, p) == Some(r)
    ensures r in l.rooms && (|l.rooms[r] - {p}| == 0 <==> Members(l, r).Keys == {p})
  {
    assert InRoom(l, p, r);
    var rest := l.rooms[r] - {p};
    assert rest.Keys == l.rooms[r].Keys - {p};
    assert |rest| == |rest.Keys|;
  }

  lemma JoinAgrees(l: Lobby, p: PeerId, r: RoomId, name: string)
    requires Agree(l)
    ensures Agree(JoinSpec(l, p, r, name).0)
    ensures JoinSpec(l, p, r, name).1.Joined? ==> RoomOf(JoinSpec(l, p, r, name).0, p) == Some(r)
    ensures forall q :: q != p ==> RoomOf(JoinSpec(l, p, r, name).0, q) == RoomOf(l, q)
  {
    JoinOutcome(l, p, r, name);
    LeaveAgrees(l, p);
    if JoinSpec(l, p, r, name).1.Joined? {
      JoinedAgrees(LeaveSpec(l, p).0, p, r, name);
    }
  }

  /** A successful join adds the peer to its new room and removes it from every other. */
  lemma JoinMembers(l: Lobby, p: PeerId, r: RoomId, name: string, o: RoomId)
    requires IndexAgrees(l) && JoinSpec(l, p, r, name).1.Joined?
    ensures o == r ==> Members(JoinSpec(l, p, r, name).0, o) == Members(l, o)[p := name]
    ensures o != r ==> Members(JoinSpec(l, p, r, name).0, o) == Members(l, o) - {p}
  {
    LeaveMembers(l, p, o);
    if o == r {
      assert RoomOf(l, p) != Some(r);
      MembersOfOthers(l, p, r);
    }
  }

  // ----- Sockets and subscriptions ---------------------------------------------------------

  /** Peers and open sockets are paired one to one, and only open sockets hold subscriptions. */
  ghost predicate Wired(s: Server) {
    && (forall p :: p in s.peerSockets ==> s.peerSockets[p] in s.socketPeers && s.socketPeers[s.peerSockets[p]] == p)
    && (forall k :: k in s.socketPeers ==> s.socketPeers[k] in s.peerSockets && s.peerSockets[s.socketPeers[k]] == k)
    && (forall k :: k in s.inbox <==> k in s.socketPeers)
    && (forall k :: k in s.subs <==> k in s.socketPeers)
  }

  ghost predicate OnlyOnline(s: Server) {
    forall p :: p in s.lobby.peerRooms ==> p in s.peerSockets
  }

  /** A socket is subscribed to a topic exactly when its peer is in that room. */
  ghost predicate SubscribedToRoom(s: Server) {
    forall k, r :: k in s.socketPeers && k in s.subs ==>
      (r in s.subs[k] <==> RoomOf(s.lobby, s.socketPeers[k]) == Some(r))
  }

  ghost predicate Inv(s: Server) {
    Agree(s.lobby) && Wired(s) && OnlyOnline(s) && SubscribedToRoom(s)
  }

  // ----- Client views ----------------------------------------------------------------------

  /** What a client computes from one message. */
  ghost function Replay1(view: map<PeerId, string>, m: ServerMessage): map<PeerId, string> {
    match m
    case RoomJoined(_, peers) => peers
    case PeerJoined(p, name) => view[p := name]
    case PeerLeft(p) => view - {p}
    case _ => view
  }

  ghost function Replay(view: map<PeerId, string>, ms: seq<ServerMessage>): map<PeerId, string>
    decreases ms
  {
    if ms == [] then view else Replay(Replay1(view, ms[0]), ms[1..])
  }

  /** The peers a client believes to share its room with, from everything it received. */
  ghost function View(ms: seq<ServerMessage>): map<PeerId, string> {
    Replay(map[], ms)
  }

  ghost function ViewOf(s: Server, p: PeerId): map<PeerId, string>
    requires Wired(s) && p in s.peerSockets
  {
    View(s.inbox[s.peerSockets[p]])
  }

  ghost predicate ViewExact(s: Server, p: PeerId)
    requires Wired(s) && OnlyOnline(s) && p in s.lobby.peerRooms
  {
    ViewOf(s, p) == Members(s.lobby, s.lobby.peerRooms[p]) - {p}
  }

  /** Every peer in a room believes exactly the truth: the other members and their display names. */
  ghost predicate ViewsExact(s: Server) {
    Wired(s) && OnlyOnline(s) && forall p :: p in s.lobby.peerRooms ==> ViewExact(s, p)
  }

  lemma {:induction false} ReplayConcat(view: map<PeerId, string>, a: seq<ServerMessage>, b: seq<ServerMessage>)
    ensures Replay(view, a + b) == Replay(Replay(view, a), b)
    decreases a
  {
    if a == [] {
      assert a + b == b;
    } else {
      ReplayConcat(Replay1(view, a[0]), a[1..], b);
      assert (a + b)[0] == a[0] && (a + b)[1..] == a[1..] + b;
    }
  }

  lemma ReplayOne(view: map<PeerId, string>, m: ServerMessage)
    ensures Replay(view, [m]) == Replay1(view, m)
  {
    assert [m][1..] == [];
  }

  /** The messages socket `k` hears from a list of actions. */
  ghost function HeardAll(s: Server, sender: SocketId, k: SocketId, acts: seq<Action>): seq<ServerMessage> {
    if acts == [] then []
    else (if Hears(s, sender, k, acts[0]) then [acts[0].message] else []) + HeardAll(s, sender, k, acts[1..])
  }

  lemma {:induction false} HeardAllIgnoresInbox(s: Server, t: Server, sender: SocketId, k: SocketId, acts: seq<Action>)
    requires s.peerSockets == t.peerSockets && s.subs == t.subs
    ensures HeardAll(s, sender, k, acts) == HeardAll(t, sender, k, acts)
  {
    if acts != [] { HeardAllIgnoresInbox(s, t, sender, k, acts[1..]); }
  }

  /** Carrying out actions only appends, to each socket, what it hears. */
  lemma {:induction false} DeliverAllAppends(s: Server, sender: SocketId, acts: seq<Action>)
    decreases acts
    ensures var s' := DeliverAll(s, sender, acts);
            && s'.(inbox := s.inbox) == s
            && (forall k :: k in s'.inbox <==> k in s.inbox)
            && (forall k :: k in s.inbox ==> s'.inbox[k] == s.inbox[k] + HeardAll(s, sender, k, acts))
  {
    if acts != [] {
      var t := Deliver(s, sender, acts[0]);
      DeliverAllAppends(t, sender, acts[1..]);
      forall k | k in s.inbox
        ensures DeliverAll(s, sender, acts).inbox[k] == s.inbox[k] + HeardAll(s, sender, k, acts)
      {
        HeardAllIgnoresInbox(s, t, sender, k, acts[1..]);
      }
    }
  }

  lemma HeardTwo(s: Server, sender: SocketId, k: SocketId, a: Action, b: Action)
    ensures HeardAll(s, sender, k, [a]) == if Hears(s, sender, k, a) then [a.message] else []
    ensures HeardAll(s, sender, k, [a, b]) == HeardAll(s, sender, k, [a]) + HeardAll(s, sender, k, [b])
  {
    assert [a][1..] == [] && [b][1..] == [] && [a, b][1..] == [b];
  }

  lemma HeardThree(s: Server, sender: SocketId, k: SocketId, a: Action, b: Action, c: Action)
    ensures HeardAll(s, sender, k, [a] + [b, c]) == HeardAll(s, sender, k, [a]) + HeardAll(s, sender, k, [b, c])
  {
    assert [a][1..] == [] && ([a] + [b, c])[1..] == [b, c];
  }

  // ----- Message steps ---------------------------------------------------------------------

  /** State after the handler ran and the subscriptions were updated, before the actions. */
  ghost function Prepared(s: Server, k: SocketId, l': Lobby): Server
    requires k in s.socketPeers
  {
    var p := s.socketPeers[k];
    Resubscribed(s.(lobby := l'), k, RoomOf(s.lobby, p), RoomOf(l', p))
  }

  /** `l'` differs from the lobby of `s` only in where the peer of socket `k` is. */
  ghost predicate MovesOnly(s: Server, k: SocketId, l': Lobby)
    requires k in s.socketPeers
  {
    Agree(l') && forall q :: q != s.socketPeers[k] ==> RoomOf(l', q) == RoomOf(s.lobby, q)
  }

  lemma PreparedIsOnline(s: Server, k: SocketId, l': Lobby)
    requires Inv(s) && k in s.socketPeers && MovesOnly(s, k, l')
    ensures OnlyOnline(Prepared(s, k, l'))
  {
    forall q | q in l'.peerRooms ensures q in s.peerSockets {
      if q != s.socketPeers[k] {
        assert RoomOf(s.lobby, q) == Some(l'.peerRooms[q]);
      }
    }
  }

  lemma PreparedIsSubscribed(s: Server, k: SocketId, l': Lobby, j: SocketId, r: RoomId)
    requires Wired(s) && SubscribedToRoom(s) && k in s.socketPeers && MovesOnly(s, k, l')
    requires j in s.socketPeers
    ensures r in Prepared(s, k, l').subs[j] <==> RoomOf(l', s.socketPeers[j]) == Some(r)
  {
    assert r in s.subs[j] <==> RoomOf(s.lobby, s.socketPeers[j]) == Some(r);
    if j != k {
      assert s.socketPeers[j] != s.socketPeers[k];
    }
  }

  lemma PreparedKeepsInv(s: Server, k: SocketId, l': Lobby)
    requires Inv(s) && k in s.socketPeers && MovesOnly(s, k, l')
    ensures Inv(Prepared(s, k, l'))
    ensures Prepared(s, k, l').lobby == l' && Prepared(s, k, l').inbox == s.inbox
    ensures Prepared(s, k, l').peerSockets == s.peerSockets
  {
    PreparedIsOnline(s, k, l');
    forall j, r | j in s.socketPeers
      ensures r in Prepared(s, k, l').subs[j] <==> RoomOf(l', s.socketPeers[j]) == Some(r)
    {
      PreparedIsSubscribed(s, k, l', j, r);
    }
  }

  lemma DeliveryKeepsInv(s: Server, sender: SocketId, acts: seq<Action>)
    requires Inv(s)
    ensures Inv(DeliverAll(s, sender, acts))
  {
    DeliverAllAppends(s, sender, acts);
  }

  /** Who hears a publish: the sockets of the peers in that room, except the sender's. */
  lemma HearsPublish(s: Server, sender: SocketId, q: PeerId, r: RoomId, m: ServerMessage)
    requires Inv(s) && q in s.peerSockets
    ensures Hears(s, sender, s.peerSockets[q], Publish(r, m)) <==>
            s.peerSockets[q] != sender && RoomOf(s.lobby, q) == Some(r)
  {
  }

  lemma HearsSend(s: Server, sender: SocketId, p: PeerId, q: PeerId, m: ServerMessage)
    requires Wired(s) && p in s.peerSockets && q in s.peerSockets
    ensures Hears(s, sender, s.peerSockets[q], Send(p, m)) <==> p == q
  {
  }

  /** The view of `q` once the actions have been carried out. */
  lemma ViewAfter(s: Server, sender: SocketId, acts: seq<Action>, q: PeerId)
    requires Wired(s) && q in s.peerSockets
    ensures Wired(DeliverAll(s, sender, acts))
    ensures DeliverAll(s, sender, acts).peerSockets == s.peerSockets
    ensures ViewOf(DeliverAll(s, sender, acts), q) ==
            Replay(ViewOf(s, q), HeardAll(s, sender, s.peerSockets[q], acts))
  {
    DeliverAllAppends(s, sender, acts);
    ReplayConcat(map[], s.inbox[s.peerSockets[q]], HeardAll(s, sender, s.peerSockets[q], acts));
  }

  /** A successful join tells the old room, the new room and the joiner exactly what changed. */
  lemma JoinHeard(t: Server, k: SocketId, q: PeerId, p: PeerId, r: RoomId, previous: Option<RoomId>,
                  others: map<PeerId, string>, name: string)
    requires Inv(t) && q in t.peerSockets && p in t.peerSockets && t.peerSockets[p] == k && previous != Some(r)
    requires RoomOf(t.lobby, p) == Some(r)
    ensures var pre := if previous.Some? then [Publish(previous.value, PeerLeft(p))] else [];
            var acts := pre + [Send(p, RoomJoined(r, others)), Publish(r, PeerJoined(p, name))];
            HeardAll(t, k, t.peerSockets[q], acts) ==
              if q == p then [RoomJoined(r, others)]
              else if RoomOf(t.lobby, q) == Some(r) then [PeerJoined(p, name)]
              else if previous.Some? && RoomOf(t.lobby, q) == previous then [PeerLeft(p)]
              else []
  {
    var j := t.peerSockets[q];
    var b, c := Send(p, RoomJoined(r, others)), Publish(r, PeerJoined(p, name));
    HearsSend(t, k, p, q, b.message);
    HearsPublish(t, k, q, r, c.message);
    HeardTwo(t, k, j, b, c);
    HeardTwo(t, k, j, c, b);
    if previous.Some? {
      var a := Publish(previous.value, PeerLeft(p));
      HearsPublish(t, k, q, previous.value, a.message);
      HeardTwo(t, k, j, a, b);
      HeardThree(t, k, j, a, b, c);
    } else {
      assert [] + [b, c] == [b, c];
    }
  }

  /** The joiner's view is the list it was sent. */
  lemma JoinerView(t: Server, k: SocketId, p: PeerId, r: RoomId, name: string, result: JoinResult)
    requires Inv(t) && p in t.peerSockets && t.peerSockets[p] == k && RoomOf(t.lobby, p) == Some(r)
    requires result.Joined? && result.previous != Some(r)
    requires p in result.members && result.members[p] == name && result.members == Members(t.lobby, r)
    ensures Wired(DeliverAll(t, k, JoinActions(p, r, result)))
    ensures p in DeliverAll(t, k, JoinActions(p, r, result)).peerSockets
    ensures ViewOf(DeliverAll(t, k, JoinActions(p, r, result)), p) == Members(t.lobby, r) - {p}
  {
    ViewAfter(t, k, JoinActions(p, r, result), p);
    JoinHeard(t, k, p, p, r, result.previous, result.members - {p}, name);
    ReplayOne(ViewOf(t, p), RoomJoined(r, result.members - {p}));
  }

  /** Everyone else's view is updated by exactly what the join changed. */
  lemma BystanderView(t: Server, k: SocketId, p: PeerId, q: PeerId, r: RoomId, name: string, result: JoinResult)
    requires Inv(t) && p in t.peerSockets && t.peerSockets[p] == k && RoomOf(t.lobby, p) == Some(r)
    requires q in t.peerSockets && q != p
    requires result.Joined? && result.previous != Some(r)
    requires p in result.members && result.members[p] == name
    ensures Wired(DeliverAll(t, k, JoinActions(p, r, result)))
    ensures q in DeliverAll(t, k, JoinActions(p, r, result)).peerSockets
    ensures ViewOf(DeliverAll(t, k, JoinActions(p, r, result)), q) ==
              if RoomOf(t.lobby, q) == Some(r) then ViewOf(t, q)[p := name]
              else if result.previous.Some? && RoomOf(t.lobby, q) == result.previous then ViewOf(t, q) - {p}
              else ViewOf(t, q)
  {
    ViewAfter(t, k, JoinActions(p, r, result), q);
    JoinHeard(t, k, q, p, r, result.previous, result.members - {p}, name);
    ReplayOne(ViewOf(t, q), PeerJoined(p, name));
    ReplayOne(ViewOf(t, q), PeerLeft(p));
  }

  lemma JoinKeepsOtherView(l: Lobby, l': Lobby, p: PeerId, q: PeerId, r: RoomId, name: string)
    requires Agree(l) && p != q && JoinSpec(l, p, r, name).1.Joined? && l' == JoinSpec(l, p, r, name).0
    requires q in l.peerRooms
    ensures var room := l.peerRooms[q];
            var view := Members(l, room) - {q};
            Members(l', room) - {q} == if room == r then view[p := name]
                                       else if RoomOf(l, p) == Some(room) then view - {p} else view
  {
    var room := l.peerRooms[q];
    JoinMembers(l, p, r, name, room);
    AdditionCommutes(Members(l, room), p, q, name);
    RemovalsCommute(Members(l, room), p, q);
    if RoomOf(l, p) != Some(room) { MembersOfOthers(l, p, room); }
  }

  /** Leaving, by request or by closing, tells the rest of the room. */
  lemma LeaveKeepsOtherView(l: Lobby, p: PeerId, q: PeerId)
    requires Agree(l) && p != q && p in l.peerRooms && q in l.peerRooms
    ensures var room := l.peerRooms[q];
            var view := Members(l, room) - {q};
            Members(LeaveSpec(l, p).0, room) - {q} == if l.peerRooms[p] == room then view - {p} else view
  {
    var room := l.peerRooms[q];
    LeaveMembers(l, p, room);
    RemovalsCommute(Members(l, room), p, q);
    if RoomOf(l, p) != Some(room) { MembersOfOthers(l, p, room); }
  }

  lemma ViewAfterLeft(inbox: seq<ServerMessage>, p: PeerId, heard: bool, view: map<PeerId, string>)
    requires View(inbox) == view
    ensures View(if heard then inbox + [PeerLeft(p)] else inbox) == if heard then view - {p} else view
  {
    ReplayConcat(map[], inbox, [PeerLeft(p)]);
    ReplayOne(view, PeerLeft(p));
  }

  lemma HearsLeft(s: Server, t: Server, k: SocketId, p: PeerId, q: PeerId, r: RoomId)
    requires Inv(s) && p in s.peerSockets && s.peerSockets[p] == k && RoomOf(s.lobby, p) == Some(r)
    requires q != p && q in s.lobby.peerRooms && q in s.peerSockets
    requires t.inbox == s.inbox
    requires s.peerSockets[q] in t.subs && t.subs[s.peerSockets[q]] == s.subs[s.peerSockets[q]]
    ensures var s', j := Deliver(t, k, Publish(r, PeerLeft(p))), s.peerSockets[q];
            && j in s.inbox && j in s'.inbox
            && s'.inbox[j] == if s.lobby.peerRooms[q] == r then s.inbox[j] + [PeerLeft(p)] else s.inbox[j]
  {
    var j := s.peerSockets[q];
    HearsPublish(s, k, q, r, PeerLeft(p));
    assert s.inbox[j] + [] == s.inbox[j];
  }

  lemma LeaveKeepsView(s: Server, t: Server, k: SocketId, p: PeerId, q: PeerId, r: RoomId)
    requires Inv(s) && p in s.peerSockets && s.peerSockets[p] == k && RoomOf(s.lobby, p) == Some(r)
    requires q != p && q in s.lobby.peerRooms && ViewExact(s, q)
    requires t.inbox == s.inbox
    requires s.peerSockets[q] in t.subs && t.subs[s.peerSockets[q]] == s.subs[s.peerSockets[q]]
    ensures var s' := Deliver(t, k, Publish(r, PeerLeft(p)));
            && s.peerSockets[q] in s'.inbox
            && View(s'.inbox[s.peerSockets[q]]) == Members(LeaveSpec(s.lobby, p).0, s.lobby.peerRooms[q]) - {q}
  {
    var j := s.peerSockets[q];
    var room := s.lobby.peerRooms[q];
    HearsLeft(s, t, k, p, q, r);
    LeaveKeepsOtherView(s.lobby, p, q);
    ViewAfterLeft(s.inbox[j], p, room == r, Members(s.lobby, room) - {q});
  }

  // ----- Every step keeps the indexes in agreement -----------------------------------------

  /** Fresh ids for a new connection; any message or close at any time. */
  ghost predicate Possible(s: Server, e: Event) {
    e.Opened? ==> e.socket !in s.socketPeers && e.peer !in s.peerSockets
  }

  lemma HandlerMovesOnly(s: Server, k: SocketId, m: ClientMessage)
    requires Inv(s) && k in s.socketPeers
    ensures MovesOnly(s, k, HandleSpec(s.lobby, s.socketPeers[k], m).0)
  {
    var p := s.socketPeers[k];
    match m
    case JoinRoom(r, displayName) =>
      JoinAgrees(s.lobby, p, r, if displayName.Some? then displayName.value else "");
    case LeaveRoom =>
      LeaveAgrees(s.lobby, p);
    case _ =>
  }

  lemma MessageKeepsInv(s: Server, k: SocketId, limited: bool, parsed: Option<ClientMessage>)
    requires Inv(s)
    ensures Inv(MessageSpec(s, k, limited, parsed))
  {
    if k in s.socketPeers && !limited && parsed.Some? {
      HandlerMovesOnly(s, k, parsed.value);
      var (l', acts) := HandleSpec(s.lobby, s.socketPeers[k], parsed.value);
      PreparedKeepsInv(s, k, l');
      DeliveryKeepsInv(Prepared(s, k, l'), k, acts);
    }
  }

  lemma OpenKeepsInv(s: Server, k: SocketId, p: PeerId)
    requires Inv(s) && k !in s.socketPeers && p !in s.peerSockets
    ensures Inv(OpenSpec(s, k, p))
  {
    assert p !in s.lobby.peerRooms;
  }

  /** The state after a close, with the departure announced to `told`'s inboxes. */
  ghost function Dropped(told: Server, k: SocketId, p: PeerId): Server {
    told.(peerSockets := told.peerSockets - {p}, socketPeers := told.socketPeers - {k},
          subs := told.subs - {k}, inbox := told.inbox - {k})
  }

  lemma DroppedKeepsInv(s: Server, told: Server, k: SocketId, p: PeerId)
    requires Inv(s) && k in s.socketPeers && s.socketPeers[k] == p
    requires told.lobby == LeaveSpec(s.lobby, p).0
    requires told.peerSockets == s.peerSockets && told.socketPeers == s.socketPeers && told.subs == s.subs
    requires forall j :: j in told.inbox <==> j in s.inbox
    ensures Inv(Dropped(told, k, p))
  {
    LeaveAgrees(s.lobby, p);
    var s' := Dropped(told, k, p);
    forall q | q in s'.lobby.peerRooms ensures q in s'.peerSockets {
      assert RoomOf(s'.lobby, q).Some?;
    }
    forall j, r | j in s'.socketPeers && j in s'.subs
      ensures r in s'.subs[j] <==> RoomOf(s'.lobby, s'.socketPeers[j]) == Some(r)
    {
      assert r in s.subs[j] <==> RoomOf(s.lobby, s.socketPeers[j]) == Some(r);
    }
  }

  lemma CloseKeepsInv(s: Server, k: SocketId)
    requires Inv(s)
    ensures Inv(CloseSpec(s, k))
  {
    if k in s.socketPeers {
      var p := s.socketPeers[k];
      var room := RoomOf(s.lobby, p);
      var left := s.(lobby := LeaveSpec(s.lobby, p).0);
      var told := if room.Some? then Deliver(left, k, Publish(room.value, PeerLeft(p))) else left;
      DroppedKeepsInv(s, told, k, p);
    }
  }

  lemma StepKeepsInv(s: Server, e: Event)
    requires Inv(s) && Possible(s, e)
    ensures Inv(Step(s, e))
  {
    match e
    case Opened(k, p) => OpenKeepsInv(s, k, p);
    case Received(k, limited, parsed) => MessageKeepsInv(s, k, limited, parsed);
    case Closed(k) => CloseKeepsInv(s, k);
  }

  // ----- Exactly which steps keep the views exact ------------------------------------------

  /** A peer that shares its room with someone asks for a different room that is full: it is taken out
      of the old room, refused by the new one, and nobody is told. */
  ghost predicate Stranding(s: Server, e: Event) {
    && e.Received? && e.socket in s.socketPeers && !e.limited
    && e.parsed.Some? && e.parsed.value.JoinRoom?
    && var p := s.socketPeers[e.socket];
       var room := RoomOf(s.lobby, p);
       && room.Some? && room.value != e.parsed.value.roomId
       && |Members(s.lobby, e.parsed.value.roomId)| >= 10
       && |Members(s.lobby, room.value)| >= 2
  }

  ghost predicate Quiet(m: ServerMessage) {
    !m.RoomJoined? && !m.PeerJoined? && !m.PeerLeft?
  }

  /** A reply or relay addressed to one peer changes no view. */
  lemma QuietSendKeepsView(s: Server, k: SocketId, target: PeerId, m: ServerMessage, q: PeerId)
    requires Wired(s) && q in s.peerSockets && Quiet(m)
    ensures Wired(DeliverAll(s, k, [Send(target, m)]))
    ensures DeliverAll(s, k, [Send(target, m)]).peerSockets == s.peerSockets
    ensures DeliverAll(s, k, [Send(target, m)]).lobby == s.lobby
    ensures ViewOf(DeliverAll(s, k, [Send(target, m)]), q) == ViewOf(s, q)
  {
    DeliverAllAppends(s, k, [Send(target, m)]);
    ViewAfter(s, k, [Send(target, m)], q);
    HeardTwo(s, k, s.peerSockets[q], Send(target, m), Send(target, m));
    ReplayOne(ViewOf(s, q), m);
  }

  lemma QuietStep(s: Server, k: SocketId, target: PeerId, m: ServerMessage)
    requires Inv(s) && ViewsExact(s) && Quiet(m)
    ensures ViewsExact(DeliverAll(s, k, [Send(target, m)]))
  {
    var s' := DeliverAll(s, k, [Send(target, m)]);
    DeliveryKeepsInv(s, k, [Send(target, m)]);
    DeliverAllAppends(s, k, [Send(target, m)]);
    forall q | q in s'.lobby.peerRooms ensures ViewExact(s', q) {
      QuietSendKeepsView(s, k, target, m, q);
      assert ViewExact(s, q);
    }
  }

  lemma PushKeepsViews(s: Server, k: SocketId, m: ServerMessage)
    requires Inv(s) && ViewsExact(s) && k in s.socketPeers && Quiet(m)
    ensures Inv(Push(s, k, m)) && ViewsExact(Push(s, k, m))
  {
    var s' := Push(s, k, m);
    forall q | q in s'.lobby.peerRooms ensures ViewExact(s', q) {
      assert ViewExact(s, q);
      ReplayConcat(map[], s.inbox[k], [m]);
      ReplayOne(View(s.inbox[k]), m);
    }
  }

  lemma JoinStep(s: Server, k: SocketId, r: RoomId, name: string)
    requires Inv(s) && ViewsExact(s) && k in s.socketPeers
    requires JoinSpec(s.lobby, s.socketPeers[k], r, name).1.Joined?
    ensures var p := s.socketPeers[k];
            var (l', result) := JoinSpec(s.lobby, p, r, name);
            ViewsExact(DeliverAll(Prepared(s, k, l'), k, JoinActions(p, r, result)))
  {
    var p := s.socketPeers[k];
    var (l', result) := JoinSpec(s.lobby, p, r, name);
    JoinOutcome(s.lobby, p, r, name);
    JoinAgrees(s.lobby, p, r, name);
    JoinMembers(s.lobby, p, r, name, r);
    PreparedKeepsInv(s, k, l');
    var t, acts := Prepared(s, k, l'), JoinActions(p, r, result);
    DeliveryKeepsInv(t, k, acts);
    DeliverAllAppends(t, k, acts);
    forall q | q in l'.peerRooms ensures ViewExact(DeliverAll(t, k, acts), q) {
      if q == p {
        JoinerView(t, k, p, r, name, result);
      } else {
        BystanderView(t, k, p, q, r, name, result);
        JoinKeepsOtherView(s.lobby, l', p, q, r, name);
        assert RoomOf(l', q) == RoomOf(s.lobby, q);
        assert ViewExact(s, q);
      }
    }
  }

  lemma DeliverAllOne(s: Server, k: SocketId, a: Action)
    ensures DeliverAll(s, k, [a]) == Deliver(s, k, a)
  {
    assert [a][1..] == [];
  }

  /** Who is still in a room after `k`'s peer left it heard with an unchanged subscription. */
  lemma LeavePrepared(s: Server, k: SocketId, q: PeerId)
    requires Inv(s) && k in s.socketPeers
    requires q in LeaveSpec(s.lobby, s.socketPeers[k]).0.peerRooms
    ensures q != s.socketPeers[k] && q in s.lobby.peerRooms && q in s.peerSockets && s.peerSockets[q] in s.subs
    ensures var t := Prepared(s, k, LeaveSpec(s.lobby, s.socketPeers[k]).0);
            && s.peerSockets[q] in t.subs && t.subs[s.peerSockets[q]] == s.subs[s.peerSockets[q]]
  {
    var p := s.socketPeers[k];
    LeaveAgrees(s.lobby, p);
    assert RoomOf(LeaveSpec(s.lobby, p).0, q) == RoomOf(s.lobby, q);
    assert s.peerSockets[q] != k;
  }

  lemma LeaveStepAt(s: Server, k: SocketId, r: RoomId, q: PeerId)
    requires Inv(s) && ViewsExact(s) && k in s.socketPeers && RoomOf(s.lobby, s.socketPeers[k]) == Some(r)
    requires q in LeaveSpec(s.lobby, s.socketPeers[k]).0.peerRooms
    ensures q in s.peerSockets
    ensures var p := s.socketPeers[k];
            var l' := LeaveSpec(s.lobby, p).0;
            var inbox := Deliver(Prepared(s, k, l'), k, Publish(r, PeerLeft(p))).inbox;
            && s.peerSockets[q] in inbox
            && View(inbox[s.peerSockets[q]]) == Members(l', l'.peerRooms[q]) - {q}
  {
    var p := s.socketPeers[k];
    var l' := LeaveSpec(s.lobby, p).0;
    LeavePrepared(s, k, q);
    assert ViewExact(s, q);
    LeaveKeepsView(s, Prepared(s, k, l'), k, p, q, r);
  }

  lemma LeaveStep(s: Server, k: SocketId, r: RoomId)
    requires Inv(s) && ViewsExact(s) && k in s.socketPeers && RoomOf(s.lobby, s.socketPeers[k]) == Some(r)
    ensures var p := s.socketPeers[k];
            ViewsExact(DeliverAll(Prepared(s, k, LeaveSpec(s.lobby, p).0), k, [Publish(r, PeerLeft(p))]))
  {
    var p := s.socketPeers[k];
    var l' := LeaveSpec(s.lobby, p).0;
    LeaveAgrees(s.lobby, p);
    PreparedKeepsInv(s, k, l');
    var t, a := Prepared(s, k, l'), Publish(r, PeerLeft(p));
    DeliveryKeepsInv(t, k, [a]);
    DeliverAllOne(t, k, a);
    forall q | q in l'.peerRooms ensures ViewExact(DeliverAll(t, k, [a]), q) {
      LeaveStepAt(s, k, r, q);
    }
  }

  lemma CloseStep(s: Server, k: SocketId)
    requires Inv(s) && ViewsExact(s) && k in s.socketPeers
    ensures ViewsExact(CloseSpec(s, k))
  {
    var p := s.socketPeers[k];
    var l' := LeaveSpec(s.lobby, p).0;
    LeaveAgrees(s.lobby, p);
    CloseKeepsInv(s, k);
    var s' := CloseSpec(s, k);
    forall q | q in s'.lobby.peerRooms ensures ViewExact(s', q) {
      assert RoomOf(l', q) == RoomOf(s.lobby, q);
      assert ViewExact(s, q);
      if p in s.lobby.peerRooms {
        LeaveKeepsView(s, s.(lobby := l'), k, p, q, s.lobby.peerRooms[p]);
      }
    }
  }

  lemma OpenStep(s: Server, k: SocketId, p: PeerId)
    requires Inv(s) && ViewsExact(s) && k !in s.socketPeers && p !in s.peerSockets
    ensures ViewsExact(OpenSpec(s, k, p))
  {
    OpenKeepsInv(s, k, p);
    var s' := OpenSpec(s, k, p);
    forall q | q in s'.lobby.peerRooms ensures ViewExact(s', q) {
      assert ViewExact(s, q);
    }
  }

  /** Two different members of one map. */
  lemma SecondMember(m: map<PeerId, string>, p: PeerId) returns (q: PeerId)
    requires p in m && |m| >= 2
    ensures q in m && q != p
  {
    RemovalShrinks(m, p);
    assert m - {p} != map[];
    q :| q in m - {p};
  }

  /** The refused switch: the views stay exact exactly when the peer was alone in its old room. */
  lemma RefusedSwitch(s: Server, k: SocketId, r: RoomId, target: PeerId, m: ServerMessage)
    requires Inv(s) && ViewsExact(s) && k in s.socketPeers && RoomOf(s.lobby, s.socketPeers[k]) == Some(r) && Quiet(m)
    ensures var p := s.socketPeers[k];
            var s' := DeliverAll(Prepared(s, k, LeaveSpec(s.lobby, p).0), k, [Send(target, m)]);
            ViewsExact(s') <==> |Members(s.lobby, r)| < 2
  {
    var p := s.socketPeers[k];
    var l' := LeaveSpec(s.lobby, p).0;
    LeaveAgrees(s.lobby, p);
    PreparedKeepsInv(s, k, l');
    var t := Prepared(s, k, l');
    var s' := DeliverAll(t, k, [Send(target, m)]);
    DeliveryKeepsInv(t, k, [Send(target, m)]);
    DeliverAllAppends(t, k, [Send(target, m)]);
    if |Members(s.lobby, r)| < 2 {
      forall q | q in l'.peerRooms ensures ViewExact(s', q) {
        RefusedSwitchView(s, t, k, p, q, target, m);
        if s.lobby.peerRooms[q] == r {
          TwoMembers(Members(s.lobby, r), p, q);
        }
      }
    } else {
      assert InRoom(s.lobby, p, r);
      var q := SecondMember(Members(s.lobby, r), p);
      assert InRoom(s.lobby, q, r);
      assert RoomOf(l', q) == RoomOf(s.lobby, q) == Some(r);
      RefusedSwitchView(s, t, k, p, q, target, m);
      assert p in Members(s.lobby, r) - {q};
      assert !ViewExact(s', q);
    }
  }

  lemma TwoMembers(m: map<PeerId, string>, p: PeerId, q: PeerId)
    requires p in m && q in m && p != q
    ensures |m| >= 2
  {
    RemovalShrinks(m, p);
    assert q in m - {p};
  }

  lemma RefusedSwitchView(s: Server, t: Server, k: SocketId, p: PeerId, q: PeerId, target: PeerId, m: ServerMessage)
    requires Inv(s) && ViewsExact(s) && k in s.socketPeers && p == s.socketPeers[k] && Quiet(m)
    requires p in s.lobby.peerRooms
    requires t == Prepared(s, k, LeaveSpec(s.lobby, p).0) && Inv(t)
    requires t.inbox == s.inbox && t.peerSockets == s.peerSockets
    requires q in LeaveSpec(s.lobby, p).0.peerRooms
    ensures q != p && q in s.lobby.peerRooms && s.lobby.peerRooms[q] == LeaveSpec(s.lobby, p).0.peerRooms[q]
    ensures InRoom(s.lobby, p, s.lobby.peerRooms[p]) && InRoom(s.lobby, q, s.lobby.peerRooms[q])
    ensures Wired(DeliverAll(t, k, [Send(target, m)]))
    ensures q in DeliverAll(t, k, [Send(target, m)]).peerSockets
    ensures var room := s.lobby.peerRooms[q];
            && ViewOf(DeliverAll(t, k, [Send(target, m)]), q) == Members(s.lobby, room) - {q}
            && Members(LeaveSpec(s.lobby, p).0, room) - {q} ==
               if s.lobby.peerRooms[p] == room then (Members(s.lobby, room) - {q}) - {p}
               else Members(s.lobby, room) - {q}
  {
    LeaveAgrees(s.lobby, p);
    assert RoomOf(LeaveSpec(s.lobby, p).0, q) == RoomOf(s.lobby, q);
    assert RoomOf(s.lobby, p).Some?;
    QuietSendKeepsView(t, k, target, m, q);
    assert ViewExact(s, q);
    LeaveKeepsOtherView(s.lobby, p, q);
  }

  lemma PreparedUnmoved(s: Server, k: SocketId)
    requires k in s.socketPeers
    ensures Prepared(s, k, s.lobby) == s
  {
  }

  /** A message that changes no lobby and is answered by one quiet reply. */
  lemma UnmovedStep(s: Server, k: SocketId, m: ClientMessage, target: PeerId, reply: ServerMessage)
    requires Inv(s) && ViewsExact(s) && k in s.socketPeers && Quiet(reply)
    requires HandleSpec(s.lobby, s.socketPeers[k], m) == (s.lobby, [Send(target, reply)])
    ensures ViewsExact(MessageSpec(s, k, false, Some(m)))
  {
    PreparedUnmoved(s, k);
    QuietStep(s, k, target, reply);
  }

  lemma JoinRequestExactIff(s: Server, k: SocketId, r: RoomId, displayName: Option<string>)
    requires Inv(s) && ViewsExact(s) && k in s.socketPeers
    ensures ViewsExact(MessageSpec(s, k, false, Some(JoinRoom(r, displayName)))) <==>
            !Stranding(s, Received(k, false, Some(JoinRoom(r, displayName))))
  {
    var p, name := s.socketPeers[k], if displayName.Some? then displayName.value else "";
    var (l', result) := JoinSpec(s.lobby, p, r, name);
    JoinOutcome(s.lobby, p, r, name);
    match result
    case AlreadyInRoom =>
      UnmovedStep(s, k, JoinRoom(r, displayName), p, Error(ALREADY_IN_ROOM));
    case RoomFull =>
      if RoomOf(s.lobby, p) == None {
        UnmovedStep(s, k, JoinRoom(r, displayName), p, Error(ROOM_FULL));
      } else {
        RefusedSwitch(s, k, RoomOf(s.lobby, p).value, p, Error(ROOM_FULL));
      }
    case Joined(_, _, _, _) =>
      JoinStep(s, k, r, name);
  }

  lemma RelayKeepsViews(s: Server, k: SocketId, m: ClientMessage, target: PeerId, relayed: ServerMessage)
    requires Inv(s) && ViewsExact(s) && k in s.socketPeers && Quiet(relayed)
    requires HandleSpec(s.lobby, s.socketPeers[k], m) ==
             (s.lobby, RelaySpec(s.lobby, s.socketPeers[k], target, relayed))
    ensures ViewsExact(MessageSpec(s, k, false, Some(m)))
  {
    var p := s.socketPeers[k];
    if RoomOf(s.lobby, p) == None {
      UnmovedStep(s, k, m, p, Error(NOT_IN_ROOM));
    } else if target == p || RoomOf(s.lobby, target) != RoomOf(s.lobby, p) {
      UnmovedStep(s, k, m, p, Error(PEER_NOT_FOUND));
    } else {
      UnmovedStep(s, k, m, target, relayed);
    }
  }

  lemma MessageExactIff(s: Server, k: SocketId, m: ClientMessage)
    requires Inv(s) && ViewsExact(s) && k in s.socketPeers
    ensures ViewsExact(MessageSpec(s, k, false, Some(m))) <==> !Stranding(s, Received(k, false, Some(m)))
  {
    var p := s.socketPeers[k];
    match m
    case JoinRoom(r, displayName) => JoinRequestExactIff(s, k, r, displayName);
    case LeaveRoom =>
      if RoomOf(s.lobby, p) == None {
        UnmovedStep(s, k, m, p, Error(NOT_IN_ROOM));
      } else {
        LeaveStep(s, k, RoomOf(s.lobby, p).value);
      }
    case Offer(target, sdp) => RelayKeepsViews(s, k, m, target, OfferFrom(p, sdp));
    case Answer(target, sdp) => RelayKeepsViews(s, k, m, target, AnswerFrom(p, sdp));
    case IceCandidate(target, candidate) => RelayKeepsViews(s, k, m, target, IceCandidateFrom(p, candidate));
    case Ping => UnmovedStep(s, k, m, p, Pong);
  }

  /** From exact views, a step keeps them exact if and only if it is not a stranding switch. */
  lemma StepExactIff(s: Server, e: Event)
    requires Inv(s) && ViewsExact(s) && Possible(s, e)
    ensures ViewsExact(Step(s, e)) <==> !Stranding(s, e)
  {
    match e
    case Opened(k, p) => OpenStep(s, k, p);
    case Closed(k) => if k in s.socketPeers { CloseStep(s, k); }
    case Received(k, limited, parsed) =>
      if k in s.socketPeers {
        if limited {
          PushKeepsViews(s, k, Error(RATE_LIMITED));
        } else if parsed.None? {
          PushKeepsViews(s, k, Error(INVALID_MESSAGE));
        } else {
          MessageExactIff(s, k, parsed.value);
        }
      }
  }

  // ----- Runs ------------------------------------------------------------------------------

  ghost function Run(es: seq<Event>): Server {
    if es == [] then EMPTY else Step(Run(es[..|es| - 1]), es[|es| - 1])
  }

  ghost predicate PossibleRun(es: seq<Event>) {
    es == [] || (PossibleRun(es[..|es| - 1]) && Possible(Run(es[..|es| - 1]), es[|es| - 1]))
  }

  ghost predicate NeverStrands(es: seq<Event>) {
    es == [] || (NeverStrands(es[..|es| - 1]) && !Stranding(Run(es[..|es| - 1]), es[|es| - 1]))
  }

  /** After every run, refused joins included: room maps, reverse index and subscriptions agree, no room
      is empty, and none is over capacity. */
  lemma {:induction false} IndexesAgreeOnEveryRun(es: seq<Event>)
    requires PossibleRun(es)
    ensures Inv(Run(es))
  {
    if es != [] {
      IndexesAgreeOnEveryRun(es[..|es| - 1]);
      StepKeepsInv(Run(es[..|es| - 1]), es[|es| - 1]);
    }
  }

  /** After every run without a stranding switch, each peer in a room computes, from the messages it
      received alone, exactly the other members and their display names. */
  lemma {:induction false} ClientViewsAreExact(es: seq<Event>)
    requires PossibleRun(es) && NeverStrands(es)
    ensures ViewsExact(Run(es))
  {
    if es != [] {
      var before := es[..|es| - 1];
      ClientViewsAreExact(before);
      IndexesAgreeOnEveryRun(before);
      StepExactIff(Run(before), es[|es| - 1]);
    }
  }
}
