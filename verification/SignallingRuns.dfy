/** Runs of the signalling server that do strand members: that they happen, and what every client then
    believes. */
module SignallingRuns {
  import opened Basics
  import opened Rooms
  import opened Signalling
  import opened SignallingProofs

  // ----- A stranding switch is reachable ---------------------------------------------------

  /** Distinct ids for any number of connections. */
  ghost function Nth(n: nat): (s: string)
    ensures |s| == n + 1
  {
    seq(n + 1, _ => 'x')
  }

  ghost function Connects(n: nat): Event {
    Opened(Nth(n), Nth(n))
  }

  ghost function Asks(n: nat, r: RoomId): Event {
    Received(Nth(n), false, Some(JoinRoom(r, None)))
  }

  /** A run without a stranding switch in which the connections from number `n` on are still to come. */
  ghost predicate Calm(es: seq<Event>, n: nat) {
    && PossibleRun(es) && NeverStrands(es)
    && forall i: nat :: i >= n ==> Nth(i) !in Run(es).peerSockets && Nth(i) !in Run(es).socketPeers
  }

  lemma ConnectsCalmly(es: seq<Event>, n: nat)
    requires Calm(es, n)
    ensures Calm(es + [Connects(n)], n + 1)
    ensures var s, t := Run(es), Run(es + [Connects(n)]);
            t.lobby == s.lobby && RoomOf(s.lobby, Nth(n)) == None
            && Nth(n) in t.socketPeers && t.socketPeers[Nth(n)] == Nth(n)
  {
    IndexesAgreeOnEveryRun(es);
    assert (es + [Connects(n)])[..|es|] == es;
    forall i: nat | i >= n + 1 ensures Nth(i) != Nth(n) {
      assert |Nth(i)| != |Nth(n)|;
    }
  }

  /** A peer in no room joins one that has space: one more member there, nothing else moves. */
  lemma JoinsLobby(l: Lobby, p: PeerId, r: RoomId)
    requires Agree(l) && RoomOf(l, p) == None && |Members(l, r)| < 10
    ensures var l' := JoinSpec(l, p, r, "").0;
            && |Members(l', r)| == |Members(l, r)| + 1 && RoomOf(l', p) == Some(r)
            && forall o :: o != r ==> Members(l', o) == Members(l, o)
  {
    MembersOfOthers(l, p, r);
    AdditionGrows(Members(l, r), p, "");
  }

  lemma JoinsCalmly(es: seq<Event>, n: nat, m: nat, r: RoomId)
    requires Calm(es, n) && Nth(m) in Run(es).socketPeers && Run(es).socketPeers[Nth(m)] == Nth(m)
    requires RoomOf(Run(es).lobby, Nth(m)) == None && |Members(Run(es).lobby, r)| < 10
    ensures Calm(es + [Asks(m, r)], n)
    ensures var s, t := Run(es), Run(es + [Asks(m, r)]);
            && t.lobby == JoinSpec(s.lobby, Nth(m), r, "").0 && t.socketPeers == s.socketPeers
  {
    IndexesAgreeOnEveryRun(es);
    assert (es + [Asks(m, r)])[..|es|] == es;
    var s, p := Run(es), Nth(m);
    var (l', acts) := HandleSpec(s.lobby, p, JoinRoom(r, None));
    DeliverAllAppends(Prepared(s, Nth(m), l'), Nth(m), acts);
  }

  /** Connection `n` opens and enters a room with space. */
  lemma Arrives(es: seq<Event>, n: nat, r: RoomId) returns (es': seq<Event>)
    requires Calm(es, n) && |Members(Run(es).lobby, r)| < 10
    ensures Calm(es', n + 1)
    ensures var s, t := Run(es), Run(es');
            && |Members(t.lobby, r)| == |Members(s.lobby, r)| + 1 && RoomOf(t.lobby, Nth(n)) == Some(r)
            && (forall o :: o != r ==> Members(t.lobby, o) == Members(s.lobby, o))
            && Nth(n) in t.socketPeers && t.socketPeers[Nth(n)] == Nth(n)
  {
    ConnectsCalmly(es, n);
    var mid := es + [Connects(n)];
    IndexesAgreeOnEveryRun(mid);
    JoinsLobby(Run(mid).lobby, Nth(n), r);
    JoinsCalmly(mid, n + 1, n, r);
    es' := mid + [Asks(n, r)];
  }

  lemma {:induction false} Fills(n: nat) returns (es: seq<Event>)
    requires n <= 10
    ensures Calm(es, n) && |Members(Run(es).lobby, "a")| == n && Members(Run(es).lobby, "b") == map[]
  {
    if n == 0 {
      es := [];
    } else {
      es := Fills(n - 1);
      es := Arrives(es, n - 1, "a");
    }
  }

  /** Ten peers in one room and two in another, one of whom asks for the full room: it is stranded, and
      the views are no longer exact. */
  lemma StrandingHappens() returns (es: seq<Event>, e: Event)
    ensures PossibleRun(es + [e]) && NeverStrands(es) && Stranding(Run(es), e)
    ensures ViewsExact(Run(es)) && !ViewsExact(Run(es + [e]))
  {
    es := Fills(10);
    es := Arrives(es, 10, "b");
    es := Arrives(es, 11, "b");
    e := Asks(11, "a");
    assert (es + [e])[..|es|] == es;
    IndexesAgreeOnEveryRun(es);
    ClientViewsAreExact(es);
    StepExactIff(Run(es), e);
  }

  // ----- What clients believe over every run -----------------------------------------------

  ghost function Others(s: Server, q: PeerId): map<PeerId, string>
    requires q in s.lobby.peerRooms
  {
    Members(s.lobby, s.lobby.peerRooms[q]) - {q}
  }

  /** If `q` is in a room, it believes in its other members and, besides them, in exactly `g`. */
  ghost predicate Believes(s: Server, q: PeerId, g: map<PeerId, string>) {
    q in s.lobby.peerRooms ==>
      && Wired(s) && q in s.peerSockets
      && ViewOf(s, q) == Others(s, q) + g
      && g.Keys !! Members(s.lobby, s.lobby.peerRooms[q]).Keys
  }

  /** What a join request does to the peers `q` wrongly believes in: none right after `q` joined; a peer that
      enters the room is no longer a wrong belief; a peer stranded from it becomes one. */
  ghost function JoinGhosts(l: Lobby, p: PeerId, r: RoomId, name: string, q: PeerId, g: map<PeerId, string>)
    : map<PeerId, string>
  {
    match JoinSpec(l, p, r, name).1
    case Joined(_, _, _, _) => if q == p then map[] else if RoomOf(l, q) == Some(r) then g - {p} else g
    case RoomFull =>
      if q != p && RoomOf(l, p).Some? && RoomOf(l, q) == RoomOf(l, p) && p in Members(l, RoomOf(l, p).value)
      then g[p := Members(l, RoomOf(l, p).value)[p]] else g
    case AlreadyInRoom => g
  }

  ghost function GhostStep(s: Server, e: Event, q: PeerId, g: map<PeerId, string>): map<PeerId, string> {
    if e.Received? && e.socket in s.socketPeers && !e.limited && e.parsed.Some? && e.parsed.value.JoinRoom? then
      var name := e.parsed.value.displayName;
      JoinGhosts(s.lobby, s.socketPeers[e.socket], e.parsed.value.roomId, if name.Some? then name.value else "", q, g)
    else g
  }

  /** The peers stranded from `q`'s room since `q` joined it that have not come back. */
  ghost function Ghosts(es: seq<Event>, q: PeerId): map<PeerId, string> {
    if es == [] then map[]
    else GhostStep(Run(es[..|es| - 1]), es[|es| - 1], q, Ghosts(es[..|es| - 1], q))
  }

  // ----- Who the ghosts are ------------------------------------------------------------------

  /** The step is a request of `p` to join `r` under `name` that the server acts on. */
  ghost predicate Requests(s: Server, e: Event, p: PeerId, r: RoomId, name: string) {
    && e.Received? && e.socket in s.socketPeers && !e.limited && e.parsed.Some? && e.parsed.value.JoinRoom?
    && s.socketPeers[e.socket] == p && e.parsed.value.roomId == r
    && name == if e.parsed.value.displayName.Some? then e.parsed.value.displayName.value else ""
  }

  /** The step takes `p`, known as `shown`, out of the room it shares with `q`, and into no other. */
  ghost predicate Strands(s: Server, e: Event, p: PeerId, shown: string, q: PeerId) {
    && p != q && RoomOf(s.lobby, p).Some? && RoomOf(s.lobby, q) == RoomOf(s.lobby, p)
    && p in Members(s.lobby, RoomOf(s.lobby, p).value) && Members(s.lobby, RoomOf(s.lobby, p).value)[p] == shown
    && exists r, name :: Requests(s, e, p, r, name) && JoinSpec(s.lobby, p, r, name).1.RoomFull?
  }

  /** The step brings `p` into the room `q` is in, or `q` into a room. */
  ghost predicate Clears(s: Server, e: Event, p: PeerId, q: PeerId) {
    exists x, r, name ::
      && Requests(s, e, x, r, name) && JoinSpec(s.lobby, x, r, name).1.Joined?
      && (x == q || (x == p && RoomOf(s.lobby, q) == Some(r)))
  }

  /** `p` was stranded from `q` at step `i`, and since then neither came back to the other. */
  ghost predicate GhostSince(es: seq<Event>, q: PeerId, p: PeerId, shown: string, i: nat) {
    && i < |es| && Strands(Run(es[..i]), es[i], p, shown, q)
    && forall j :: i < j < |es| ==>
         !Clears(Run(es[..j]), es[j], p, q) && forall again :: !Strands(Run(es[..j]), es[j], p, again, q)
  }

  /** One step: a ghost is one stranded by it, or one before it that it does not clear. */
  lemma GhostStepIs(s: Server, e: Event, q: PeerId, g: map<PeerId, string>, p: PeerId, shown: string)
    ensures var g' := GhostStep(s, e, q, g);
            p in g' && g'[p] == shown <==>
            || Strands(s, e, p, shown, q)
            || (&& p in g && g[p] == shown && !Clears(s, e, p, q) && forall again :: !Strands(s, e, p, again, q))
  {
    if e.Received? && e.socket in s.socketPeers && !e.limited && e.parsed.Some? && e.parsed.value.JoinRoom? {
      var displayName := e.parsed.value.displayName;
      var x, r, name :=
        s.socketPeers[e.socket], e.parsed.value.roomId, if displayName.Some? then displayName.value else "";
      RequestGhosts(s, e, x, r, name, q, g, p, shown);
    } else {
      assert forall x, r, name :: !Requests(s, e, x, r, name);
    }
  }

  lemma RequestGhosts(s: Server, e: Event, x: PeerId, r: RoomId, name: string, q: PeerId, g: map<PeerId, string>,
                      p: PeerId, shown: string)
    requires Requests(s, e, x, r, name)
    ensures var g' := JoinGhosts(s.lobby, x, r, name, q, g);
            p in g' && g'[p] == shown <==>
            || Strands(s, e, p, shown, q)
            || (&& p in g && g[p] == shown && !Clears(s, e, p, q) && forall again :: !Strands(s, e, p, again, q))
  {
    assert forall y, t, n :: Requests(s, e, y, t, n) ==> y == x && t == r && n == name;
    var result := JoinSpec(s.lobby, x, r, name).1;
    assert Clears(s, e, p, q) <==> result.Joined? && (x == q || (x == p && RoomOf(s.lobby, q) == Some(r)));
    forall again ensures Strands(s, e, p, again, q) <==>
                         && x == p && result.RoomFull?
                         && p != q && RoomOf(s.lobby, p).Some? && RoomOf(s.lobby, q) == RoomOf(s.lobby, p)
                         && p in Members(s.lobby, RoomOf(s.lobby, p).value)
                         && Members(s.lobby, RoomOf(s.lobby, p).value)[p] == again
    {
    }
    if x == p && result.RoomFull? && RoomOf(s.lobby, p).Some? && p in Members(s.lobby, RoomOf(s.lobby, p).value) {
      var was := Members(s.lobby, RoomOf(s.lobby, p).value)[p];
      assert p != q && RoomOf(s.lobby, q) == RoomOf(s.lobby, p) ==> Strands(s, e, p, was, q);
    }
  }

  lemma GhostSinceSnoc(es: seq<Event>, e: Event, q: PeerId, p: PeerId, shown: string, i: nat)
    requires i < |es|
    ensures GhostSince(es + [e], q, p, shown, i) <==>
            && GhostSince(es, q, p, shown, i)
            && !Clears(Run(es), e, p, q) && forall again :: !Strands(Run(es), e, p, again, q)
  {
    var all := es + [e];
    assert all[..|es|] == es && all[|es|] == e;
    forall j | 0 <= j < |es| ensures all[..j] == es[..j] && all[j] == es[j] {
    }
  }

  lemma GhostSinceLast(es: seq<Event>, e: Event, q: PeerId, p: PeerId, shown: string)
    ensures GhostSince(es + [e], q, p, shown, |es|) <==> Strands(Run(es), e, p, shown, q)
  {
    assert (es + [e])[..|es|] == es;
  }

  /** The ghosts of `q` are exactly the peers stranded from the room it is in since it joined that have not
      joined it since, under the names they then had. */
  lemma {:induction false} GhostsAreStranded(es: seq<Event>, q: PeerId, p: PeerId, shown: string)
    ensures p in Ghosts(es, q) && Ghosts(es, q)[p] == shown <==> exists i :: GhostSince(es, q, p, shown, i)
  {
    if es != [] {
      var init, e := es[..|es| - 1], es[|es| - 1];
      assert es == init + [e];
      GhostsAreStranded(init, q, p, shown);
      GhostStepIs(Run(init), e, q, Ghosts(init, q), p, shown);
      GhostSinceLast(init, e, q, p, shown);
      forall i: nat | i < |init|
        ensures GhostSince(es, q, p, shown, i) <==>
                && GhostSince(init, q, p, shown, i)
                && !Clears(Run(init), e, p, q) && forall again :: !Strands(Run(init), e, p, again, q)
      {
        GhostSinceSnoc(init, e, q, p, shown, i);
      }
    }
  }

  // ----- Keeping track of the beliefs ----------------------------------------------------------

  lemma ArrivalAlgebra(o: map<PeerId, string>, g: map<PeerId, string>, p: PeerId, name: string)
    ensures (o + g)[p := name] == o[p := name] + (g - {p})
  {
  }

  lemma DepartureAlgebra(o: map<PeerId, string>, g: map<PeerId, string>, p: PeerId)
    requires p !in g
    ensures (o + g) - {p} == (o - {p}) + g
  {
  }

  lemma StrandingAlgebra(o: map<PeerId, string>, g: map<PeerId, string>, p: PeerId)
    requires p in o && p !in g
    ensures o + g == (o - {p}) + g[p := o[p]]
  {
  }

  lemma QuietBelief(s: Server, k: SocketId, target: PeerId, m: ServerMessage, q: PeerId, g: map<PeerId, string>)
    requires Inv(s) && Quiet(m) && Believes(s, q, g)
    ensures Believes(DeliverAll(s, k, [Send(target, m)]), q, g)
  {
    DeliverAllAppends(s, k, [Send(target, m)]);
    if q in s.lobby.peerRooms { QuietSendKeepsView(s, k, target, m, q); }
  }

  lemma PushBelief(s: Server, k: SocketId, m: ServerMessage, q: PeerId, g: map<PeerId, string>)
    requires Inv(s) && k in s.socketPeers && Quiet(m) && Believes(s, q, g)
    ensures Believes(Push(s, k, m), q, g)
  {
    ReplayConcat(map[], s.inbox[k], [m]);
    ReplayOne(View(s.inbox[k]), m);
  }

  lemma ExactBelief(s: Server, q: PeerId)
    requires Wired(s) && q in s.peerSockets && q in s.lobby.peerRooms && ViewOf(s, q) == Others(s, q)
    ensures Believes(s, q, map[])
  {
    assert Others(s, q) + map[] == Others(s, q);
  }

  lemma JoinerChange(s: Server, k: SocketId, r: RoomId, name: string)
    requires Inv(s) && k in s.socketPeers && JoinSpec(s.lobby, s.socketPeers[k], r, name).1.Joined?
    ensures var p := s.socketPeers[k];
            var (l', result) := JoinSpec(s.lobby, p, r, name);
            var s' := DeliverAll(Prepared(s, k, l'), k, JoinActions(p, r, result));
            && Wired(s') && p in s'.peerSockets && s'.lobby == l' && RoomOf(l', p) == Some(r)
            && ViewOf(s', p) == Members(l', r) - {p}
  {
    var p := s.socketPeers[k];
    var (l', result) := JoinSpec(s.lobby, p, r, name);
    JoinOutcome(s.lobby, p, r, name);
    JoinAgrees(s.lobby, p, r, name);
    JoinMembers(s.lobby, p, r, name, r);
    PreparedKeepsInv(s, k, l');
    var t := Prepared(s, k, l');
    DeliverAllAppends(t, k, JoinActions(p, r, result));
    JoinerView(t, k, p, r, name, result);
  }

  /** The joiner starts from the truth. */
  lemma JoinerBelief(s: Server, k: SocketId, r: RoomId, name: string)
    requires Inv(s) && k in s.socketPeers && JoinSpec(s.lobby, s.socketPeers[k], r, name).1.Joined?
    ensures var p := s.socketPeers[k];
            var (l', result) := JoinSpec(s.lobby, p, r, name);
            Believes(DeliverAll(Prepared(s, k, l'), k, JoinActions(p, r, result)), p, map[])
  {
    var p := s.socketPeers[k];
    var (l', result) := JoinSpec(s.lobby, p, r, name);
    JoinerChange(s, k, r, name);
    ExactBelief(DeliverAll(Prepared(s, k, l'), k, JoinActions(p, r, result)), p);
  }

  lemma BystanderChange(s: Server, k: SocketId, r: RoomId, name: string, q: PeerId)
    requires Inv(s) && k in s.socketPeers && q in s.lobby.peerRooms && q != s.socketPeers[k]
    requires JoinSpec(s.lobby, s.socketPeers[k], r, name).1.Joined?
    ensures var p := s.socketPeers[k];
            var (l', result) := JoinSpec(s.lobby, p, r, name);
            var s', room := DeliverAll(Prepared(s, k, l'), k, JoinActions(p, r, result)), s.lobby.peerRooms[q];
            && Wired(s') && q in s'.peerSockets && s'.lobby == l' && RoomOf(l', q) == Some(room) && q in s.peerSockets
            && ViewOf(s', q) == (if room == r then ViewOf(s, q)[p := name]
                                 else if RoomOf(s.lobby, p) == Some(room) then ViewOf(s, q) - {p} else ViewOf(s, q))
            && Others(s', q) == (if room == r then Others(s, q)[p := name]
                                 else if RoomOf(s.lobby, p) == Some(room) then Others(s, q) - {p} else Others(s, q))
  {
    var p := s.socketPeers[k];
    var (l', result) := JoinSpec(s.lobby, p, r, name);
    JoinOutcome(s.lobby, p, r, name);
    JoinAgrees(s.lobby, p, r, name);
    JoinMembers(s.lobby, p, r, name, r);
    PreparedKeepsInv(s, k, l');
    var t := Prepared(s, k, l');
    DeliverAllAppends(t, k, JoinActions(p, r, result));
    BystanderView(t, k, p, q, r, name, result);
    JoinKeepsOtherView(s.lobby, l', p, q, r, name);
    assert RoomOf(l', q) == RoomOf(s.lobby, q);
  }

  lemma BystanderBelief(s: Server, k: SocketId, r: RoomId, name: string, q: PeerId, g: map<PeerId, string>)
    requires Inv(s) && k in s.socketPeers && q in s.lobby.peerRooms && q != s.socketPeers[k] && Believes(s, q, g)
    requires JoinSpec(s.lobby, s.socketPeers[k], r, name).1.Joined?
    ensures var p := s.socketPeers[k];
            var (l', result) := JoinSpec(s.lobby, p, r, name);
            Believes(DeliverAll(Prepared(s, k, l'), k, JoinActions(p, r, result)), q,
                     if RoomOf(s.lobby, q) == Some(r) then g - {p} else g)
  {
    var p, room := s.socketPeers[k], s.lobby.peerRooms[q];
    BystanderChange(s, k, r, name, q);
    JoinMembers(s.lobby, p, r, name, room);
    if room == r {
      ArrivalAlgebra(Others(s, q), g, p, name);
    } else if RoomOf(s.lobby, p) == Some(room) {
      assert InRoom(s.lobby, p, room);
      DepartureAlgebra(Others(s, q), g, p);
    }
  }

  /** What `q`'s view and the truth become when `p` leaves and its room is told, or is not. */
  lemma LeaverGone(l: Lobby, p: PeerId, q: PeerId)
    requires Agree(l) && p != q && p in l.peerRooms && q in l.peerRooms
    ensures var l', room := LeaveSpec(l, p).0, l.peerRooms[q];
            && RoomOf(l', q) == Some(room) && InRoom(l, p, l.peerRooms[p])
            && Members(l', room) == Members(l, room) - {p}
            && Members(l', room) - {q} == if l.peerRooms[p] == room then (Members(l, room) - {q}) - {p}
                                          else Members(l, room) - {q}
  {
    LeaveAgrees(l, p);
    assert RoomOf(LeaveSpec(l, p).0, q) == RoomOf(l, q);
    assert RoomOf(l, p).Some?;
    LeaveMembers(l, p, l.peerRooms[q]);
    LeaveKeepsOtherView(l, p, q);
  }

  /** The belief once the room has been told. */
  lemma ToldBelief(s: Server, t: Server, s': Server, k: SocketId, p: PeerId, q: PeerId, r: RoomId,
                   g: map<PeerId, string>)
    requires Inv(s) && p in s.peerSockets && s.peerSockets[p] == k && RoomOf(s.lobby, p) == Some(r)
    requires q != p && q in s.lobby.peerRooms && Believes(s, q, g)
    requires t.inbox == s.inbox
    requires s.peerSockets[q] in t.subs && t.subs[s.peerSockets[q]] == s.subs[s.peerSockets[q]]
    requires Wired(s') && q in s'.peerSockets && s'.peerSockets[q] == s.peerSockets[q]
    requires s'.lobby == LeaveSpec(s.lobby, p).0
    requires s.peerSockets[q] in s'.inbox && s.peerSockets[q] in Deliver(t, k, Publish(r, PeerLeft(p))).inbox
    requires s'.inbox[s.peerSockets[q]] == Deliver(t, k, Publish(r, PeerLeft(p))).inbox[s.peerSockets[q]]
    ensures Believes(s', q, g)
  {
    var room := s.lobby.peerRooms[q];
    HearsLeft(s, t, k, p, q, r);
    ViewAfterLeft(s.inbox[s.peerSockets[q]], p, room == r, ViewOf(s, q));
    LeaverGone(s.lobby, p, q);
    if room == r { DepartureAlgebra(Others(s, q), g, p); }
  }

  lemma LeaveBelief(s: Server, k: SocketId, q: PeerId, g: map<PeerId, string>)
    requires Inv(s) && k in s.socketPeers && RoomOf(s.lobby, s.socketPeers[k]).Some? && Believes(s, q, g)
    ensures var p := s.socketPeers[k];
            var r := RoomOf(s.lobby, p).value;
            Believes(DeliverAll(Prepared(s, k, LeaveSpec(s.lobby, p).0), k, [Publish(r, PeerLeft(p))]), q, g)
  {
    var p := s.socketPeers[k];
    var r, l' := RoomOf(s.lobby, p).value, LeaveSpec(s.lobby, p).0;
    LeaveAgrees(s.lobby, p);
    PreparedKeepsInv(s, k, l');
    var t, a := Prepared(s, k, l'), Publish(r, PeerLeft(p));
    DeliverAllOne(t, k, a);
    if q in l'.peerRooms {
      LeavePrepared(s, k, q);
      DeliveryKeepsInv(t, k, [a]);
      ToldBelief(s, t, Deliver(t, k, a), k, p, q, r, g);
    }
  }

  lemma CloseBelief(s: Server, k: SocketId, q: PeerId, g: map<PeerId, string>)
    requires Inv(s) && k in s.socketPeers && Believes(s, q, g)
    ensures Believes(CloseSpec(s, k), q, g)
  {
    var p := s.socketPeers[k];
    var l', s' := LeaveSpec(s.lobby, p).0, CloseSpec(s, k);
    LeaveAgrees(s.lobby, p);
    CloseKeepsInv(s, k);
    assert q == p || RoomOf(l', q) == RoomOf(s.lobby, q);
    if q in l'.peerRooms {
      assert s.peerSockets[q] != k;
      if p in s.lobby.peerRooms {
        ToldBelief(s, s.(lobby := l'), s', k, p, q, s.lobby.peerRooms[p], g);
      }
    }
  }

  /** A refused switch: whoever shared the old room now believes in the peer that left it. */
  lemma RefusedBelief(s: Server, k: SocketId, r: RoomId, name: string, q: PeerId, g: map<PeerId, string>)
    requires Inv(s) && k in s.socketPeers && RoomOf(s.lobby, s.socketPeers[k]).Some? && Believes(s, q, g)
    requires JoinSpec(s.lobby, s.socketPeers[k], r, name).1.RoomFull?
    ensures var p := s.socketPeers[k];
            Believes(DeliverAll(Prepared(s, k, LeaveSpec(s.lobby, p).0), k, [Send(p, Error(ROOM_FULL))]), q,
                     JoinGhosts(s.lobby, p, r, name, q, g))
  {
    var p := s.socketPeers[k];
    var l', g' := LeaveSpec(s.lobby, p).0, JoinGhosts(s.lobby, p, r, name, q, g);
    LeaveAgrees(s.lobby, p);
    PreparedKeepsInv(s, k, l');
    var t := Prepared(s, k, l');
    assert q == p || RoomOf(l', q) == RoomOf(s.lobby, q);
    if q in l'.peerRooms {
      LeaverGone(s.lobby, p, q);
      if RoomOf(s.lobby, q) == RoomOf(s.lobby, p) { StrandingAlgebra(Others(s, q), g, p); }
      assert Believes(t, q, g');
    }
    QuietBelief(t, k, p, Error(ROOM_FULL), q, g');
  }

  lemma JoinedBelief(s: Server, k: SocketId, r: RoomId, name: string, q: PeerId, g: map<PeerId, string>)
    requires Inv(s) && k in s.socketPeers && Believes(s, q, g)
    requires JoinSpec(s.lobby, s.socketPeers[k], r, name).1.Joined?
    ensures var p := s.socketPeers[k];
            var (l', result) := JoinSpec(s.lobby, p, r, name);
            Believes(DeliverAll(Prepared(s, k, l'), k, JoinActions(p, r, result)), q,
                     JoinGhosts(s.lobby, p, r, name, q, g))
  {
    var p := s.socketPeers[k];
    var (l', result) := JoinSpec(s.lobby, p, r, name);
    if q == p {
      JoinerBelief(s, k, r, name);
    } else if q in s.lobby.peerRooms {
      BystanderBelief(s, k, r, name, q, g);
    } else {
      JoinAgrees(s.lobby, p, r, name);
      assert RoomOf(l', q) == RoomOf(s.lobby, q);
      DeliverAllAppends(Prepared(s, k, l'), k, JoinActions(p, r, result));
    }
  }

  lemma JoinMessage(s: Server, k: SocketId, r: RoomId, displayName: Option<string>)
    requires k in s.socketPeers
    ensures var p, name := s.socketPeers[k], if displayName.Some? then displayName.value else "";
            var (l', result) := JoinSpec(s.lobby, p, r, name);
            MessageSpec(s, k, false, Some(JoinRoom(r, displayName)))
            == DeliverAll(Prepared(s, k, l'), k, JoinActions(p, r, result))
  {
  }

  lemma RequestBelief(s: Server, k: SocketId, r: RoomId, name: string, q: PeerId, g: map<PeerId, string>)
    requires Inv(s) && k in s.socketPeers && Believes(s, q, g)
    ensures var p := s.socketPeers[k];
            var (l', result) := JoinSpec(s.lobby, p, r, name);
            Believes(DeliverAll(Prepared(s, k, l'), k, JoinActions(p, r, result)), q,
                     JoinGhosts(s.lobby, p, r, name, q, g))
  {
    var p := s.socketPeers[k];
    var result := JoinSpec(s.lobby, p, r, name).1;
    if result.Joined? {
      JoinedBelief(s, k, r, name, q, g);
    } else {
      JoinOutcome(s.lobby, p, r, name);
      if result.RoomFull? && RoomOf(s.lobby, p).Some? {
        RefusedBelief(s, k, r, name, q, g);
      } else {
        StayingBelief(s, k, if result.RoomFull? then ROOM_FULL else ALREADY_IN_ROOM, q, g);
      }
    }
  }

  lemma JoinBelief(s: Server, k: SocketId, r: RoomId, displayName: Option<string>, q: PeerId, g: map<PeerId, string>)
    requires Inv(s) && k in s.socketPeers && Believes(s, q, g)
    ensures Believes(MessageSpec(s, k, false, Some(JoinRoom(r, displayName))), q,
                     GhostStep(s, Received(k, false, Some(JoinRoom(r, displayName))), q, g))
  {
    JoinMessage(s, k, r, displayName);
    RequestBelief(s, k, r, if displayName.Some? then displayName.value else "", q, g);
  }

  lemma StayingBelief(s: Server, k: SocketId, code: ErrorCode, q: PeerId, g: map<PeerId, string>)
    requires Inv(s) && k in s.socketPeers && Believes(s, q, g)
    ensures Believes(DeliverAll(Prepared(s, k, s.lobby), k, [Send(s.socketPeers[k], Error(code))]), q, g)
  {
    PreparedUnmoved(s, k);
    QuietBelief(s, k, s.socketPeers[k], Error(code), q, g);
  }

  lemma UnmovedBelief(s: Server, k: SocketId, m: ClientMessage, target: PeerId, reply: ServerMessage, q: PeerId,
                      g: map<PeerId, string>)
    requires Inv(s) && k in s.socketPeers && Quiet(reply) && Believes(s, q, g)
    requires HandleSpec(s.lobby, s.socketPeers[k], m) == (s.lobby, [Send(target, reply)])
    ensures Believes(MessageSpec(s, k, false, Some(m)), q, g)
  {
    PreparedUnmoved(s, k);
    QuietBelief(s, k, target, reply, q, g);
  }

  lemma RelayBelief(s: Server, k: SocketId, m: ClientMessage, target: PeerId, relayed: ServerMessage, q: PeerId,
                    g: map<PeerId, string>)
    requires Inv(s) && k in s.socketPeers && Quiet(relayed) && Believes(s, q, g)
    requires HandleSpec(s.lobby, s.socketPeers[k], m) ==
             (s.lobby, RelaySpec(s.lobby, s.socketPeers[k], target, relayed))
    ensures Believes(MessageSpec(s, k, false, Some(m)), q, g)
  {
    var p := s.socketPeers[k];
    if RoomOf(s.lobby, p) == None {
      UnmovedBelief(s, k, m, p, Error(NOT_IN_ROOM), q, g);
    } else if target == p || RoomOf(s.lobby, target) != RoomOf(s.lobby, p) {
      UnmovedBelief(s, k, m, p, Error(PEER_NOT_FOUND), q, g);
    } else {
      UnmovedBelief(s, k, m, target, relayed, q, g);
    }
  }

  lemma MessageBelief(s: Server, k: SocketId, m: ClientMessage, q: PeerId, g: map<PeerId, string>)
    requires Inv(s) && k in s.socketPeers && Believes(s, q, g)
    ensures Believes(MessageSpec(s, k, false, Some(m)), q, GhostStep(s, Received(k, false, Some(m)), q, g))
  {
    var p := s.socketPeers[k];
    match m
    case JoinRoom(r, displayName) => JoinBelief(s, k, r, displayName, q, g);
    case LeaveRoom =>
      if RoomOf(s.lobby, p) == None {
        UnmovedBelief(s, k, m, p, Error(NOT_IN_ROOM), q, g);
      } else {
        LeaveBelief(s, k, q, g);
      }
    case Offer(target, sdp) => RelayBelief(s, k, m, target, OfferFrom(p, sdp), q, g);
    case Answer(target, sdp) => RelayBelief(s, k, m, target, AnswerFrom(p, sdp), q, g);
    case IceCandidate(target, candidate) => RelayBelief(s, k, m, target, IceCandidateFrom(p, candidate), q, g);
    case Ping => UnmovedBelief(s, k, m, p, Pong, q, g);
  }

  lemma StepBelief(s: Server, e: Event, q: PeerId, g: map<PeerId, string>)
    requires Inv(s) && Possible(s, e) && Believes(s, q, g)
    ensures Believes(Step(s, e), q, GhostStep(s, e, q, g))
  {
    match e
    case Opened(k, p) => OpenKeepsInv(s, k, p);
    case Closed(k) => if k in s.socketPeers { CloseBelief(s, k, q, g); }
    case Received(k, limited, parsed) =>
      if k in s.socketPeers {
        if limited {
          PushBelief(s, k, Error(RATE_LIMITED), q, g);
        } else if parsed.None? {
          PushBelief(s, k, Error(INVALID_MESSAGE), q, g);
        } else {
          MessageBelief(s, k, parsed.value, q, g);
        }
      }
  }

  /** A view is exact exactly when nobody is wrongly believed in. */
  lemma ExactIffNoGhosts(es: seq<Event>, q: PeerId)
    requires PossibleRun(es) && q in Run(es).lobby.peerRooms
    ensures Wired(Run(es)) && OnlyOnline(Run(es))
    ensures ViewExact(Run(es), q) <==> Ghosts(es, q) == map[]
  {
    IndexesAgreeOnEveryRun(es);
    ViewsAreMembersAndGhosts(es, q);
    var s, g := Run(es), Ghosts(es, q);
    assert Others(s, q) + map[] == Others(s, q);
    forall p | p in g ensures p in ViewOf(s, q) && p !in Others(s, q) {
    }
    if g != map[] {
      assert g.Keys != {};
      var p :| p in g;
    }
  }

  /** After every run, stranding switches included, each peer in a room believes in its other members, with
      their names, and besides them in exactly the peers stranded from that room since it joined that have
      not come back. */
  lemma {:induction false} ViewsAreMembersAndGhosts(es: seq<Event>, q: PeerId)
    requires PossibleRun(es)
    ensures Believes(Run(es), q, Ghosts(es, q))
  {
    if es != [] {
      var init := es[..|es| - 1];
      ViewsAreMembersAndGhosts(init, q);
      IndexesAgreeOnEveryRun(init);
      StepBelief(Run(init), es[|es| - 1], q, Ghosts(init, q));
    }
  }
}
