/** Rooms and the room manager of the signalling server (`src/rooms/Room.ts`, `src/rooms/RoomManager.ts`). */
module Rooms {
  import opened Basics

  type PeerId = string
  type RoomId = string

  const MAX_PEERS: nat := 10

  /** Room members with their display names, and the reverse index from peers to rooms. */
  datatype Lobby = Lobby(rooms: map<RoomId, map<PeerId, string>>, peerRooms: map<PeerId, RoomId>)

  datatype JoinResult =
    | Joined(members: map<PeerId, string>, isNew: bool, previous: Option<RoomId>, previousDeleted: bool)
    | AlreadyInRoom
    | RoomFull

  datatype LeaveResult = NotInRoom | Left(roomId: RoomId, roomDeleted: bool)

  // ----- Specification ---------------------------------------------------------------------

  function RoomOf(l: Lobby, p: PeerId): (r: Option<RoomId>) {
    if p in l.peerRooms then Some(l.peerRooms[p]) else None
  }

  function Members(l: Lobby, r: RoomId): (m: map<PeerId, string>) {
    if r in l.rooms then l.rooms[r] else map[]
  }

  /** `p` is out of room `r` and of the index; a room left empty is gone. */
  function Without(l: Lobby, p: PeerId, r: RoomId): (l': Lobby) {
    var rest := Members(l, r) - {p};
    Lobby(
      if r !in l.rooms then l.rooms else if |rest| == 0 then l.rooms - {r} else l.rooms[r := rest],
      l.peerRooms - {p})
  }

  function LeaveSpec(l: Lobby, p: PeerId): (r: (Lobby, LeaveResult)) {
    match RoomOf(l, p)
    case None => (l, NotInRoom)
    case Some(r) => (Without(l, p, r), Left(r, r in l.rooms && |l.rooms[r] - {p}| == 0))
  }

  function JoinSpec(l: Lobby, p: PeerId, r: RoomId, name: string): (res: (Lobby, JoinResult)) {
    var current := RoomOf(l, p);
    if current == Some(r) then (l, AlreadyInRoom)
    else
      var left := LeaveSpec(l, p);
      var members := Members(left.0, r);
      if |members| >= MAX_PEERS then
        (left.0.(rooms := left.0.rooms[r := members]), RoomFull)
      else
        (Lobby(left.0.rooms[r := members[p := name]], left.0.peerRooms[p := r]),
         Joined(members[p := name], r !in left.0.rooms, current, left.1.Left? && left.1.roomDeleted))
  }

  lemma WithoutByCases(l: Lobby, p: PeerId, r: RoomId)
    requires r in l.rooms
    ensures var rest := l.rooms[r] - {p};
            && (|rest| == 0 ==> l.rooms[r := rest] - {r} == Without(l, p, r).rooms)
            && (|rest| != 0 ==> l.rooms[r := rest] == Without(l, p, r).rooms)
  {
    var rest := l.rooms[r] - {p};
    assert l.rooms[r := rest] - {r} == l.rooms - {r};
  }

  lemma JoinByCases(l: Lobby, p: PeerId, r: RoomId, name: string)
    ensures var grown := l.rooms[r := Members(l, r)];
            grown[r := grown[r][p := name]] == l.rooms[r := Members(l, r)[p := name]]
  {
  }

  // ----- The objects -----------------------------------------------------------------------

  class Room {
    const roomId: RoomId
    const maxPeers: nat
    var peers: map<PeerId, string>

    constructor (roomId: RoomId, maxPeers: nat := MAX_PEERS)
      ensures this.roomId == roomId && this.maxPeers == maxPeers && peers == map[]
    {
      this.roomId, this.maxPeers, this.peers := roomId, maxPeers, map[];
    }

    predicate IsFull()
      reads this
    {
      |peers| >= maxPeers
    }

    predicate IsEmpty()
      reads this
    {
      |peers| == 0
    }

    /** Adding to a full room throws; nothing is added then. */
    method AddPeer(p: PeerId, name: string) returns (added: bool)
      modifies this
      ensures added == !old(IsFull())
      ensures peers == if added then old(peers)[p := name] else old(peers)
    {
      if IsFull() {
        return false;
      }
      peers := peers[p := name];
      return true;
    }

    method RemovePeer(p: PeerId)
      modifies this
      ensures peers == old(peers) - {p}
    {
      peers := peers - {p};
    }
  }

  class RoomManager {
    var rooms: map<RoomId, Room>
    var peerRooms: map<PeerId, RoomId>
    ghost var lobby: Lobby
    ghost var repr: set<Room>

    /** The objects hold exactly `lobby`: one object per room, each with the default capacity. */
    ghost predicate Valid()
      reads this, repr
    {
      && (forall a :: a in rooms <==> a in lobby.rooms)
      && peerRooms == lobby.peerRooms
      && (forall a :: a in rooms ==>
            && rooms[a] in repr && rooms[a].roomId == a && rooms[a].maxPeers == MAX_PEERS
            && rooms[a].peers == lobby.rooms[a])
    }

    constructor ()
      ensures Valid() && lobby == Lobby(map[], map[]) && repr == {}
    {
      rooms, peerRooms, lobby, repr := map[], map[], Lobby(map[], map[]), {};
    }

    function GetPeerRoom(p: PeerId): (r: Option<RoomId>)
      reads this
    {
      if p in peerRooms then Some(peerRooms[p]) else None
    }

    predicate ArePeersInSameRoom(p: PeerId, q: PeerId)
      reads this
    {
      p in peerRooms && q in peerRooms && peerRooms[p] == peerRooms[q]
    }

    /** Take `p` out of a room object. */
    method TakeOut(p: PeerId, roomId: RoomId) returns (room: Room)
      requires Valid() && roomId in rooms
      modifies this`lobby, rooms[roomId]
      ensures Valid() && room == rooms[roomId]
      ensures lobby == old(lobby).(rooms := old(lobby).rooms[roomId := old(lobby).rooms[roomId] - {p}])
    {
      room := rooms[roomId];
      room.RemovePeer(p);
      lobby := lobby.(rooms := lobby.rooms[roomId := room.peers]);
    }

    method DropRoom(roomId: RoomId)
      requires Valid()
      modifies this
      ensures Valid() && repr == old(repr)
      ensures lobby == old(lobby).(rooms := old(lobby).rooms - {roomId})
    {
      rooms := rooms - {roomId};
      lobby := lobby.(rooms := lobby.rooms - {roomId});
    }

    /** Take `p` out of a room that exists, and drop the room once it is empty. */
    method RemoveFromRoom(p: PeerId, roomId: RoomId) returns (deleted: bool)
      requires Valid() && roomId in rooms
      modifies this, repr
      ensures Valid() && repr == old(repr)
      ensures deleted <==> |old(lobby).rooms[roomId] - {p}| == 0
      ensures lobby == old(lobby).(rooms := Without(old(lobby), p, roomId).rooms)
    {
      WithoutByCases(lobby, p, roomId);
      var room := TakeOut(p, roomId);
      deleted := room.IsEmpty();
      if deleted {
        DropRoom(roomId);
      }
    }

    /** Take `p` out of the reverse index. */
    method Unindex(p: PeerId)
      requires Valid()
      modifies this
      ensures Valid() && repr == old(repr)
      ensures lobby == old(lobby).(peerRooms := old(lobby).peerRooms - {p})
    {
      peerRooms := peerRooms - {p};
      lobby := lobby.(peerRooms := lobby.peerRooms - {p});
    }

    method LeaveRoom(p: PeerId) returns (result: LeaveResult)
      requires Valid()
      modifies this, repr
      ensures Valid() && repr == old(repr)
      ensures lobby == LeaveSpec(old(lobby), p).0 && result == LeaveSpec(old(lobby), p).1
    {
      if p !in peerRooms {
        return NotInRoom;
      }
      var roomId := peerRooms[p];
      var deleted := false;
      if roomId in rooms {
        deleted := RemoveFromRoom(p, roomId);
      }
      Unindex(p);
      return Left(roomId, deleted);
    }

    /** The room object for `roomId`, created on first use. */
    method OpenRoom(roomId: RoomId) returns (room: Room)
      requires Valid()
      modifies this
      ensures Valid() && roomId in rooms && rooms[roomId] == room
      ensures lobby == old(lobby).(rooms := old(lobby).rooms[roomId := Members(old(lobby), roomId)])
      ensures fresh(repr - old(repr))
    {
      if roomId in rooms {
        room := rooms[roomId];
        assert lobby.rooms == lobby.rooms[roomId := Members(lobby, roomId)];
      } else {
        room := new Room(roomId);
        rooms, repr := rooms[roomId := room], repr + {room};
        lobby := lobby.(rooms := lobby.rooms[roomId := map[]]);
      }
    }

    /** Add `p` to an open room and to the index, unless the room is full. */
    method Admit(p: PeerId, roomId: RoomId, name: string) returns (added: bool)
      requires Valid() && roomId in rooms
      modifies this, repr
      ensures Valid() && repr == old(repr)
      ensures added <==> |old(lobby).rooms[roomId]| < MAX_PEERS
      ensures lobby == if added
                       then Lobby(old(lobby).rooms[roomId := old(lobby).rooms[roomId][p := name]],
                                  old(lobby).peerRooms[p := roomId])
                       else old(lobby)
    {
      var room := rooms[roomId];
      added := room.AddPeer(p, name);
      if added {
        peerRooms := peerRooms[p := roomId];
        lobby := Lobby(lobby.rooms[roomId := lobby.rooms[roomId][p := name]], lobby.peerRooms[p := roomId]);
      }
    }

    method JoinRoom(p: PeerId, roomId: RoomId, name: string) returns (result: JoinResult)
      requires Valid()
      modifies this, repr
      ensures Valid() && fresh(repr - old(repr))
      ensures lobby == JoinSpec(old(lobby), p, roomId, name).0
      ensures result == JoinSpec(old(lobby), p, roomId, name).1
    {
      var current := GetPeerRoom(p);
      if current == Some(roomId) {
        return AlreadyInRoom;
      }
      var left := LeaveRoom(p);
      var isNew := roomId !in rooms;
      JoinByCases(lobby, p, roomId, name);
      var room := OpenRoom(roomId);
      var added := Admit(p, roomId, name);
      if !added {
        return RoomFull;
      }
      return Joined(rooms[roomId].peers, isNew, current, left.Left? && left.roomDeleted);
    }
  }
}
