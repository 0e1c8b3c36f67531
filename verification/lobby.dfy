/** The lobby bookkeeping of palace_server/src/lib.rs without its websockets:
    the lobby registry, the roster of each lobby with its slot map
    (`players_by_turn_num`), and the request handlers that create, join,
    fill, start, kick from and leave a lobby, or forward a turn to the
    engine. Random ids, the bot names, the shuffled deck, the shuffled turn
    numbers and the iteration order of the roster are parameters; sending
    events to clients is left out, so a handler is its effect on the
    registry and its reply. */
module LobbyServer {
  import opened Outcomes
  import opened Cards
  import Game
  import GameInvariant

  type PlayerId = nat
  type LobbyId = nat

  /** A player's connection without its socket or timestamp. */
  datatype Connection = Connected | Disconnected | Ai

  datatype Player = Player(name: string, connection: Connection, turnNumber: nat, kicked: bool)

  /** A lobby without its spectators and creation time. */
  datatype Lobby = Lobby(
    players: map<PlayerId, Player>,
    playersByTurnNum: map<nat, PlayerId>,
    maxPlayers: nat,
    password: string,
    game: Option<Game.GameState>,
    owner: PlayerId,
    name: string)

  /** Whom the connection that sends the requests stands for. */
  datatype ConnectedUser = PlayerUser(lobbyId: LobbyId, playerId: PlayerId) | Spectator(lobbyId: LobbyId)

  /** The shared lobby registry and the state of one connection. */
  datatype Server = Server(lobbies: map<LobbyId, Lobby>, connectedUser: Option<ConnectedUser>)

  /** What a handler leaves behind and what it answers. */
  datatype Reply<T, E> = Reply(server: Server, result: Result<T, E>)

  datatype NewLobbyResponse = NewLobbyResponse(playerId: PlayerId, lobbyId: LobbyId, maxPlayers: nat)

  datatype NewLobbyError = LessThanTwoMaxPlayers | EmptyLobbyName | EmptyPlayerName
  datatype JoinLobbyError = LobbyNotFound | LobbyFull | BadPassword | GameInProgress | EmptyPlayerName
  datatype StartGameError = LobbyNotFound | NotLobbyOwner | LessThanTwoPlayers | GameInProgress
  datatype TurnError = LobbyNotFound | GameNotStarted | PlayerNotFound | NotYourTurn | GameError(error: Game.GameError)
  datatype ReconnectError = LobbyNotFound | PlayerNotFound | PlayerKicked
  datatype RequestAiError = NotLobbyOwner | LessThanOneAiRequested | LobbyNotFound | LobbyTooSmall | GameInProgress
  datatype KickPlayerError =
    NotLobbyOwner | LobbyNotFound | TargetPlayerNotFound | CantKickLobbyOwner | CantKickAiDuringGame

  // ---------------------------------------------------------------------------
  // The lobby invariant

  /** The roster and the slot map describe the same seating: every player's
      slot leads back to that player, and every slot leads to a player sitting
      in it. */
  predicate SlotsAgree(l: Lobby) {
    Seating(l.players, l.playersByTurnNum)
  }

  predicate Seating(players: map<PlayerId, Player>, slots: map<nat, PlayerId>) {
    && (forall id :: id in players ==>
          players[id].turnNumber in slots && slots[players[id].turnNumber] == id)
    && (forall t :: t in slots ==> slots[t] in players && players[slots[t]].turnNumber == t)
  }

  /** During a game every turn number is a seat of the game. */
  predicate TurnsBelow(l: Lobby) {
    forall id :: id in l.players ==> l.players[id].turnNumber < |l.players|
  }

  /** The lobby's game, if any, satisfies the engine's invariant and has a
      seat for each player. */
  predicate GameFits(l: Lobby) {
    l.game.Some? ==> GameInvariant.Inv(l.game.value) && l.game.value.numPlayers == |l.players|
  }

  /** What every lobby keeps: the seating agrees, the roster fits the u8
      capacity, the owner is in the lobby (in slot 0 until the game starts),
      and a running game is a well-formed game for exactly the roster, whose
      turn numbers are its seats. */
  predicate Inv(l: Lobby) {
    && SlotsAgree(l)
    && |l.playersByTurnNum| == |l.players|
    && 2 <= l.maxPlayers < 256
    && |l.players| <= l.maxPlayers
    && l.owner in l.players
    && (l.game.None? ==> l.players[l.owner].turnNumber == 0)
    && (l.game.Some? ==> TurnsBelow(l))
    && GameFits(l)
  }

  predicate ServerInv(s: Server) {
    forall lid :: lid in s.lobbies ==> Inv(s.lobbies[lid])
  }

  /** Putting a lobby that keeps the invariant into a registry whose lobbies
      all keep it. */
  lemma ServerInvUpdate(s: Server, lobbyId: LobbyId, l: Lobby)
    requires ServerInv(s) && Inv(l)
    ensures ServerInv(s.(lobbies := s.lobbies[lobbyId := l]))
  {
  }

  // ---------------------------------------------------------------------------
  // Slots

  /** The loop of `next_public_id` from `k` on: the first slot at or after
      `k` that nobody holds. */
  function FreeSlotFrom(slots: map<nat, PlayerId>, k: nat): (id: nat)
    requires forall j: nat :: j < k ==> j in slots
    ensures id !in slots && k <= id
    ensures forall j: nat :: j < id ==> j in slots
    decreases set j | j in slots.Keys && j >= k
  {
    if k in slots then
      assert k in (set j | j in slots.Keys && j >= k) - (set j | j in slots.Keys && j >= k + 1);
      FreeSlotFrom(slots, k + 1)
    else k
  }

  /** `next_public_id`: the smallest slot nobody holds. */
  function NextPublicId(slots: map<nat, PlayerId>): (id: nat)
    ensures id !in slots
    ensures forall j: nat :: j < id ==> j in slots
  {
    FreeSlotFrom(slots, 0)
  }

  /** The numbers below `n`. */
  function Below(n: nat): (r: set<nat>)
    ensures forall j: nat :: j in r <==> j < n
  {
    if n == 0 then {} else Below(n - 1) + {n - 1}
  }

  lemma {:induction false} BelowSize(n: nat)
    ensures |Below(n)| == n
  {
    if n > 0 {
      BelowSize(n - 1);
    }
  }

  lemma SubsetSize(a: set<nat>, b: set<nat>)
    requires a <= b
    ensures |a| <= |b|
  {
    assert b == a + (b - a);
  }

  /** The free slot is at most the number of slots taken, so the u8 counter
      of `next_public_id` cannot wrap while fewer than 256 slots are taken. */
  lemma NextPublicIdBound(slots: map<nat, PlayerId>)
    ensures NextPublicId(slots) <= |slots|
  {
    var id := NextPublicId(slots);
    BelowSize(id);
    SubsetSize(Below(id), slots.Keys);
  }

  /** A slot freed while every lower slot stays taken is the next one handed
      out: a kicked player's seat goes to the next newcomer. */
  lemma FreedSlotReused(slots: map<nat, PlayerId>, t: nat)
    requires forall j: nat :: j < t ==> j in slots
    ensures NextPublicId(slots - {t}) == t
  {
    assert forall j: nat :: j < t ==> j in slots - {t};
  }

  // ---------------------------------------------------------------------------
  // Roster changes

  /** `add_player`: the slot map first, then the roster. */
  function AddPlayer(l: Lobby, p: Player, pid: PlayerId): (r: Lobby)
    ensures r.players == l.players[pid := p]
    ensures r.playersByTurnNum == l.playersByTurnNum[p.turnNumber := pid]
    ensures r.game == l.game && r.owner == l.owner && r.maxPlayers == l.maxPlayers
  {
    l.(playersByTurnNum := l.playersByTurnNum[p.turnNumber := pid], players := l.players[pid := p])
  }

  /** `remove_player`: a player who is there leaves the roster and gives up
      their slot; anyone else leaves the lobby as it is. */
  function RemovePlayer(l: Lobby, pid: PlayerId): (r: Lobby)
    ensures pid !in r.players && r.players == l.players - {pid}
    ensures pid !in l.players ==> r == l
    ensures pid in l.players ==> r.playersByTurnNum == l.playersByTurnNum - {l.players[pid].turnNumber}
    ensures r.game == l.game && r.owner == l.owner && r.maxPlayers == l.maxPlayers
  {
    if pid in l.players then
      l.(players := l.players - {pid},
         playersByTurnNum := l.playersByTurnNum - {l.players[pid].turnNumber})
    else
      assert l.players - {pid} == l.players;
      l
  }

  lemma MapAddSize<K, V>(m: map<K, V>, k: K, v: V)
    requires k !in m
    ensures |m[k := v]| == |m| + 1
  {
    assert m[k := v].Keys == m.Keys + {k};
  }

  lemma MapRemoveSize<K, V>(m: map<K, V>, k: K)
    requires k in m
    ensures |m - {k}| == |m| - 1
  {
    assert m.Keys == (m - {k}).Keys + {k};
  }

  /** Seating a newcomer in a free slot keeps the seating consistent. */
  lemma SeatingAdd(players: map<PlayerId, Player>, slots: map<nat, PlayerId>, pid: PlayerId, p: Player)
    requires Seating(players, slots) && pid !in players && p.turnNumber !in slots
    ensures Seating(players[pid := p], slots[p.turnNumber := pid])
  {
    var ps, ss := players[pid := p], slots[p.turnNumber := pid];
    forall id | id in ps
      ensures ps[id].turnNumber in ss && ss[ps[id].turnNumber] == id
    {
      if id != pid {
        assert players[id].turnNumber in slots;
      }
    }
    forall u | u in ss
      ensures ss[u] in ps && ps[ss[u]].turnNumber == u
    {
      if u != p.turnNumber {
        assert slots[u] in players;
      }
    }
  }

  /** A player leaving with their slot keeps the seating consistent. */
  lemma SeatingRemove(players: map<PlayerId, Player>, slots: map<nat, PlayerId>, pid: PlayerId)
    requires Seating(players, slots) && pid in players
    ensures Seating(players - {pid}, slots - {players[pid].turnNumber})
  {
    var ps, ss := players - {pid}, slots - {players[pid].turnNumber};
    forall id | id in ps
      ensures ps[id].turnNumber in ss && ss[ps[id].turnNumber] == id
    {
      assert slots[players[id].turnNumber] == id;
    }
    forall u | u in ss
      ensures ss[u] in ps && ps[ss[u]].turnNumber == u
    {
      assert players[slots[u]].turnNumber == u;
    }
  }

  /** A player changing anything but their turn number keeps the seating
      consistent. */
  lemma SeatingReplace(players: map<PlayerId, Player>, slots: map<nat, PlayerId>, pid: PlayerId, p: Player)
    requires Seating(players, slots) && pid in players && p.turnNumber == players[pid].turnNumber
    ensures Seating(players[pid := p], slots)
  {
    var ps := players[pid := p];
    forall u | u in slots
      ensures slots[u] in ps && ps[slots[u]].turnNumber == u
    {
      assert players[slots[u]].turnNumber == u;
    }
  }

  /** A newcomer with a fresh id, seated in the free slot of `next_public_id`,
      keeps the invariant of a lobby that has room and no game, and grows the
      roster by one. */
  lemma AddPlayerKeepsInv(l: Lobby, p: Player, pid: PlayerId)
    requires Inv(l) && l.game.None? && pid !in l.players && |l.players| < l.maxPlayers
    requires p.turnNumber == NextPublicId(l.playersByTurnNum)
    ensures Inv(AddPlayer(l, p, pid))
    ensures |AddPlayer(l, p, pid).players| == |l.players| + 1
    ensures AddPlayer(l, p, pid).playersByTurnNum[p.turnNumber] == pid
  {
    MapAddSize(l.players, pid, p);
    MapAddSize(l.playersByTurnNum, p.turnNumber, pid);
    SeatingAdd(l.players, l.playersByTurnNum, pid, p);
  }

  /** A player other than the owner leaving a lobby with no game keeps the
      invariant and shrinks the roster and the slot map by one each. */
  lemma RemovePlayerKeepsInv(l: Lobby, pid: PlayerId)
    requires Inv(l) && l.game.None? && pid in l.players && pid != l.owner
    ensures Inv(RemovePlayer(l, pid))
    ensures |RemovePlayer(l, pid).players| == |l.players| - 1
    ensures l.players[pid].turnNumber !in RemovePlayer(l, pid).playersByTurnNum
  {
    MapRemoveSize(l.players, pid);
    MapRemoveSize(l.playersByTurnNum, l.players[pid].turnNumber);
    SeatingRemove(l.players, l.playersByTurnNum, pid);
  }

  /** A player's connection and kicked flag can change without disturbing
      the seating. */
  lemma ReplacePlayerKeepsInv(l: Lobby, pid: PlayerId, p: Player)
    requires Inv(l) && pid in l.players && p.turnNumber == l.players[pid].turnNumber
    ensures Inv(l.(players := l.players[pid := p]))
  {
    var r := l.(players := l.players[pid := p]);
    assert r.players.Keys == l.players.Keys;
    SeatingReplace(l.players, l.playersByTurnNum, pid, p);
  }

  /** `remove_player` undoes `add_player` for a newcomer put in a free slot. */
  lemma AddThenRemove(l: Lobby, p: Player, pid: PlayerId)
    requires pid !in l.players && p.turnNumber !in l.playersByTurnNum
    ensures RemovePlayer(AddPlayer(l, p, pid), pid) == l
  {
    var r := RemovePlayer(AddPlayer(l, p, pid), pid);
    assert r.players == l.players;
    assert r.playersByTurnNum == l.playersByTurnNum;
  }

  /** `add_player` puts back a player whom `remove_player` took out of a
      lobby that keeps the invariant. */
  lemma RemoveThenAdd(l: Lobby, pid: PlayerId)
    requires Inv(l) && pid in l.players
    ensures AddPlayer(RemovePlayer(l, pid), l.players[pid], pid) == l
  {
    var t := l.players[pid].turnNumber;
    var r := AddPlayer(RemovePlayer(l, pid), l.players[pid], pid);
    assert r.players == l.players;
    assert r.playersByTurnNum == l.playersByTurnNum;
  }

  // ---------------------------------------------------------------------------
  // Leaving

  /** `disconnect_old_player`: before the game the owner leaving closes the
      lobby and anyone else leaving is removed from it; during the game the
      player is only marked disconnected. Spectators are not modelled, so a
      spectator leaving changes nothing here. */
  function DisconnectOldPlayer(lobbies: map<LobbyId, Lobby>, user: ConnectedUser): (r: map<LobbyId, Lobby>)
    ensures forall lid :: lid != user.lobbyId ==> (lid in r <==> lid in lobbies)
    ensures forall lid :: lid != user.lobbyId && lid in r ==> r[lid] == lobbies[lid]
  {
    match user
    case Spectator(_) => lobbies
    case PlayerUser(lid, pid) =>
      if lid !in lobbies then lobbies
      else
        var l := lobbies[lid];
        if l.game.None? then
          if l.owner == pid then lobbies - {lid}
          else lobbies[lid := RemovePlayer(l, pid)]
        else if pid in l.players then
          lobbies[lid := l.(players := l.players[pid := l.players[pid].(connection := Disconnected)])]
        else lobbies
  }

  /** `update_connected_player_info`: the previous identity of the
      connection leaves, then the connection takes on `user`. */
  function UpdateConnected(s: Server, user: ConnectedUser): (r: Server)
    ensures r.connectedUser == Some(user)
    ensures s.connectedUser.None? ==> r.lobbies == s.lobbies
  {
    match s.connectedUser
    case None => Server(s.lobbies, Some(user))
    case Some(prev) => Server(DisconnectOldPlayer(s.lobbies, prev), Some(user))
  }

  /** Taking on a new identity keeps every lobby's invariant, and a player
      identity the connection had in a lobby without a game is gone from that
      lobby afterwards (with the lobby itself, for its owner). */
  lemma UpdateConnectedEffect(s: Server, user: ConnectedUser)
    requires ServerInv(s)
    ensures ServerInv(UpdateConnected(s, user))
    ensures s.connectedUser.Some? && s.connectedUser.value.PlayerUser? ==>
      var lid, pid := s.connectedUser.value.lobbyId, s.connectedUser.value.playerId;
      var r := UpdateConnected(s, user);
      lid in s.lobbies && s.lobbies[lid].game.None? ==> lid !in r.lobbies || pid !in r.lobbies[lid].players
  {
    match s.connectedUser
    case None =>
    case Some(prev) =>
      DisconnectKeepsServerInv(s.lobbies, prev);
      if prev.PlayerUser? && prev.lobbyId in s.lobbies {
        DisconnectEffect(s.lobbies, prev.lobbyId, prev.playerId);
      }
  }

  /** What leaving does to the lobby left: an owner leaving before the game
      closes it, anyone else leaving before the game is removed alone with
      the invariant kept, and a player leaving during the game keeps their
      seat, marked disconnected. */
  lemma DisconnectEffect(lobbies: map<LobbyId, Lobby>, lid: LobbyId, pid: PlayerId)
    requires lid in lobbies && Inv(lobbies[lid])
    ensures var l := lobbies[lid];
      var r := DisconnectOldPlayer(lobbies, PlayerUser(lid, pid));
      && (l.game.None? && l.owner == pid ==> lid !in r)
      && (l.game.None? && l.owner != pid ==>
            lid in r && Inv(r[lid]) && r[lid].players == l.players - {pid})
      && (l.game.Some? && pid in l.players ==>
            lid in r && Inv(r[lid]) && r[lid].playersByTurnNum == l.playersByTurnNum
            && r[lid].players.Keys == l.players.Keys
            && r[lid].players[pid].connection == Disconnected
            && r[lid].players[pid].turnNumber == l.players[pid].turnNumber)
  {
    var l := lobbies[lid];
    if l.game.None? && l.owner != pid && pid in l.players {
      RemovePlayerKeepsInv(l, pid);
    }
    if l.game.Some? && pid in l.players {
      ReplacePlayerKeepsInv(l, pid, l.players[pid].(connection := Disconnected));
    }
  }

  /** Leaving keeps every lobby's invariant. */
  lemma DisconnectKeepsServerInv(lobbies: map<LobbyId, Lobby>, user: ConnectedUser)
    requires forall lid :: lid in lobbies ==> Inv(lobbies[lid])
    ensures var r := DisconnectOldPlayer(lobbies, user);
      forall lid :: lid in r ==> Inv(r[lid])
  {
    if user.PlayerUser? && user.lobbyId in lobbies {
      DisconnectEffect(lobbies, user.lobbyId, user.playerId);
    }
  }

  // ---------------------------------------------------------------------------
  // New lobby

  /** The lobby `do_new_lobby` creates: its owner alone, connected, in slot 0. */
  function OwnerOnly(maxPlayers: nat, lobbyName: string, playerName: string, password: string,
                     pid: PlayerId): (l: Lobby)
    ensures l.players.Keys == {pid} && l.owner == pid && l.game.None?
    ensures l.playersByTurnNum == map[0 := pid]
  {
    Lobby(map[pid := Player(playerName, Connected, 0, false)], map[0 := pid], maxPlayers, password,
          None, pid, lobbyName)
  }

  /** `do_new_lobby` with the random lobby and player ids given. */
  function DoNewLobby(s: Server, maxPlayers: nat, lobbyName: string, playerName: string, password: string,
                      lobbyId: LobbyId, playerId: PlayerId): (r: Reply<NewLobbyResponse, NewLobbyError>)
    requires maxPlayers < 256
    ensures r.result.Err? ==> r.server == s
    ensures r.result.Ok? ==> r.result.value == NewLobbyResponse(playerId, lobbyId, maxPlayers)
  {
    if maxPlayers < 2 then Reply(s, Err(LessThanTwoMaxPlayers))
    else if lobbyName == [] then Reply(s, Err(EmptyLobbyName))
    else if playerName == [] then Reply(s, Err(NewLobbyError.EmptyPlayerName))
    else
      var l := OwnerOnly(maxPlayers, lobbyName, playerName, password, playerId);
      var s1 := s.(lobbies := s.lobbies[lobbyId := l]);
      Reply(UpdateConnected(s1, PlayerUser(lobbyId, playerId)), Ok(NewLobbyResponse(playerId, lobbyId, maxPlayers)))
  }

  /** `do_new_lobby` rejects a capacity below two, then an empty lobby name,
      then an empty player name, and leaves the registry alone when it does. */
  lemma NewLobbyRejects(s: Server, maxPlayers: nat, lobbyName: string, playerName: string, password: string,
                        lobbyId: LobbyId, playerId: PlayerId)
    requires maxPlayers < 256
    ensures var r := DoNewLobby(s, maxPlayers, lobbyName, playerName, password, lobbyId, playerId);
      && (r.result == Err(LessThanTwoMaxPlayers) <==> maxPlayers < 2)
      && (r.result == Err(EmptyLobbyName) <==> maxPlayers >= 2 && lobbyName == [])
      && (r.result == Err(NewLobbyError.EmptyPlayerName) <==>
            maxPlayers >= 2 && lobbyName != [] && playerName == [])
      && (r.result.Ok? <==> maxPlayers >= 2 && lobbyName != [] && playerName != [])
  {
  }

  /** The lobby a connection creates keeps the invariant. */
  lemma OwnerOnlyInv(maxPlayers: nat, lobbyName: string, playerName: string, password: string, pid: PlayerId)
    requires 2 <= maxPlayers < 256
    ensures Inv(OwnerOnly(maxPlayers, lobbyName, playerName, password, pid))
  {
  }

  /** Otherwise the connection becomes the owner of a new lobby, which keeps
      the invariant, and every lobby keeps it, the one the connection left
      included. */
  lemma NewLobbyCreates(s: Server, maxPlayers: nat, lobbyName: string, playerName: string, password: string,
                        lobbyId: LobbyId, playerId: PlayerId)
    requires 2 <= maxPlayers < 256 && lobbyName != [] && playerName != [] && ServerInv(s)
    requires s.connectedUser.Some? ==> s.connectedUser.value.lobbyId != lobbyId
    ensures var r := DoNewLobby(s, maxPlayers, lobbyName, playerName, password, lobbyId, playerId);
      && r.server.connectedUser == Some(PlayerUser(lobbyId, playerId))
      && lobbyId in r.server.lobbies
      && r.server.lobbies[lobbyId] == OwnerOnly(maxPlayers, lobbyName, playerName, password, playerId)
      && ServerInv(r.server)
  {
    var l := OwnerOnly(maxPlayers, lobbyName, playerName, password, playerId);
    var lobbies1 := s.lobbies[lobbyId := l];
    OwnerOnlyInv(maxPlayers, lobbyName, playerName, password, playerId);
    ServerInvUpdate(s, lobbyId, l);
    if s.connectedUser.Some? {
      DisconnectKeepsServerInv(lobbies1, s.connectedUser.value);
    }
  }

  // ---------------------------------------------------------------------------
  // Join

  /** `do_join_lobby` with the random player id given. The capacity test
      compares `players.len() as u8`, the roster size modulo 256. */
  function DoJoinLobby(s: Server, lobbyId: LobbyId, playerName: string, password: string,
                       playerId: PlayerId): (r: Reply<PlayerId, JoinLobbyError>)
    ensures r.result.Err? ==> r.server == s
    ensures r.result.Ok? ==> r.result.value == playerId && r.server.connectedUser == Some(PlayerUser(lobbyId, playerId))
  {
    if playerName == [] then Reply(s, Err(JoinLobbyError.EmptyPlayerName))
    else if lobbyId !in s.lobbies then Reply(s, Err(JoinLobbyError.LobbyNotFound))
    else
      var l := s.lobbies[lobbyId];
      if l.game.Some? then Reply(s, Err(JoinLobbyError.GameInProgress))
      else if l.password != password then Reply(s, Err(BadPassword))
      else if |l.players| % 256 >= l.maxPlayers then Reply(s, Err(LobbyFull))
      else
        var p := Player(playerName, Connected, NextPublicId(l.playersByTurnNum), false);
        var s1 := s.(lobbies := s.lobbies[lobbyId := AddPlayer(l, p, playerId)]);
        Reply(UpdateConnected(s1, PlayerUser(lobbyId, playerId)), Ok(playerId))
  }

  /** The u8 cast in the capacity test never wraps: the roster of a lobby is
      below 256, so the lobby is full exactly when the roster has reached the
      capacity. */
  lemma FullAtCapacity(l: Lobby)
    requires Inv(l)
    ensures |l.players| % 256 >= l.maxPlayers <==> |l.players| == l.maxPlayers
  {
    assert |l.players| < 256;
  }

  /** `do_join_lobby` rejects, in order, an empty name, an unknown lobby, a
      game in progress, a wrong password and a full lobby. */
  lemma JoinLobbyRejects(s: Server, lobbyId: LobbyId, playerName: string, password: string, playerId: PlayerId)
    requires lobbyId in s.lobbies ==> Inv(s.lobbies[lobbyId])
    ensures var r := DoJoinLobby(s, lobbyId, playerName, password, playerId);
      && (r.result == Err(JoinLobbyError.EmptyPlayerName) <==> playerName == [])
      && (r.result == Err(JoinLobbyError.LobbyNotFound) <==> playerName != [] && lobbyId !in s.lobbies)
      && (lobbyId in s.lobbies && playerName != [] ==>
            var l := s.lobbies[lobbyId];
            && (r.result == Err(JoinLobbyError.GameInProgress) <==> l.game.Some?)
            && (r.result == Err(BadPassword) <==> l.game.None? && l.password != password)
            && (r.result == Err(LobbyFull) <==>
                  l.game.None? && l.password == password && |l.players| == l.maxPlayers))
  {
    if lobbyId in s.lobbies {
      FullAtCapacity(s.lobbies[lobbyId]);
    }
  }

  /** Otherwise the new player takes the lowest free slot, connected, and
      the roster grows by one without passing the capacity. */
  lemma JoinLobbyAdmits(s: Server, lobbyId: LobbyId, playerName: string, password: string, playerId: PlayerId)
    requires lobbyId in s.lobbies ==> Inv(s.lobbies[lobbyId]) && playerId !in s.lobbies[lobbyId].players
    requires s.connectedUser.Some? ==> s.connectedUser.value.lobbyId != lobbyId
    ensures var r := DoJoinLobby(s, lobbyId, playerName, password, playerId);
      r.result.Ok? ==>
        && lobbyId in s.lobbies && lobbyId in r.server.lobbies
        && var l := s.lobbies[lobbyId];
        && var l2 := r.server.lobbies[lobbyId];
        && |l2.players| == |l.players| + 1 <= l.maxPlayers
        && NextPublicId(l.playersByTurnNum) in l2.playersByTurnNum
        && l2.playersByTurnNum[NextPublicId(l.playersByTurnNum)] == playerId
        && playerId in l2.players && l2.players[playerId].connection == Connected
  {
    var r := DoJoinLobby(s, lobbyId, playerName, password, playerId);
    if r.result.Ok? {
      var l := s.lobbies[lobbyId];
      FullAtCapacity(l);
      var p := Player(playerName, Connected, NextPublicId(l.playersByTurnNum), false);
      var l2 := AddPlayer(l, p, playerId);
      MapAddSize(l.players, playerId, p);
      var s1 := s.(lobbies := s.lobbies[lobbyId := l2]);
      assert r.server == UpdateConnected(s1, PlayerUser(lobbyId, playerId));
      assert r.server.lobbies[lobbyId] == l2;
    }
  }

  /** Joining keeps every lobby's invariant. */
  lemma JoinLobbyKeepsInv(s: Server, lobbyId: LobbyId, playerName: string, password: string, playerId: PlayerId)
    requires ServerInv(s)
    requires lobbyId in s.lobbies ==> playerId !in s.lobbies[lobbyId].players
    ensures ServerInv(DoJoinLobby(s, lobbyId, playerName, password, playerId).server)
  {
    var r := DoJoinLobby(s, lobbyId, playerName, password, playerId);
    if playerName != [] && lobbyId in s.lobbies && s.lobbies[lobbyId].game.None?
       && s.lobbies[lobbyId].password == password
       && |s.lobbies[lobbyId].players| % 256 < s.lobbies[lobbyId].maxPlayers {
      var l := s.lobbies[lobbyId];
      FullAtCapacity(l);
      var p := Player(playerName, Connected, NextPublicId(l.playersByTurnNum), false);
      var l2 := AddPlayer(l, p, playerId);
      AddPlayerKeepsInv(l, p, playerId);
      var s1 := s.(lobbies := s.lobbies[lobbyId := l2]);
      ServerInvUpdate(s, lobbyId, l2);
      assert r.server == UpdateConnected(s1, PlayerUser(lobbyId, playerId));
      if s.connectedUser.Some? {
        DisconnectKeepsServerInv(s1.lobbies, s.connectedUser.value);
      }
    } else {
      assert r.server == s;
    }
  }

  // ---------------------------------------------------------------------------
  // Requesting AI players

  /** The loop of `do_request_ai`: each bot, given by its random id and
      name, joins as an AI player in the smallest free slot. */
  function AddAis(l: Lobby, bots: seq<(PlayerId, string)>): (r: Lobby)
    ensures r.game == l.game && r.owner == l.owner && r.maxPlayers == l.maxPlayers
    decreases |bots|
  {
    if |bots| == 0 then l
    else
      var p := Player(bots[0].1, Ai, NextPublicId(l.playersByTurnNum), false);
      AddAis(AddPlayer(l, p, bots[0].0), bots[1..])
  }

  /** The bots' ids are all different and none is already in the lobby. */
  predicate FreshBots(l: Lobby, bots: seq<(PlayerId, string)>) {
    && (forall i :: 0 <= i < |bots| ==> bots[i].0 !in l.players)
    && (forall i, j :: 0 <= i < j < |bots| ==> bots[i].0 != bots[j].0)
  }

  /** Adding bots with fresh ids to a lobby with room for them keeps the
      invariant; the roster grows by exactly the number of bots, each of
      them an AI player. */
  lemma {:induction false} AddAisKeepsInv(l: Lobby, bots: seq<(PlayerId, string)>)
    requires Inv(l) && l.game.None? && |l.players| + |bots| <= l.maxPlayers && FreshBots(l, bots)
    ensures Inv(AddAis(l, bots))
    ensures |AddAis(l, bots).players| == |l.players| + |bots|
    ensures forall i :: 0 <= i < |bots| ==>
      bots[i].0 in AddAis(l, bots).players && AddAis(l, bots).players[bots[i].0].connection == Ai
    decreases |bots|
  {
    if |bots| > 0 {
      var p := Player(bots[0].1, Ai, NextPublicId(l.playersByTurnNum), false);
      var l1 := AddPlayer(l, p, bots[0].0);
      AddPlayerKeepsInv(l, p, bots[0].0);
      var rest := bots[1..];
      assert FreshBots(l1, rest) by {
        forall i | 0 <= i < |rest|
          ensures rest[i].0 !in l1.players
        {
          assert rest[i] == bots[i + 1];
        }
      }
      AddAisKeepsInv(l1, rest);
      var r := AddAis(l1, rest);
      assert r == AddAis(l, bots);
      forall i | 0 <= i < |bots|
        ensures bots[i].0 in r.players && r.players[bots[i].0].connection == Ai
      {
        if i > 0 {
          assert bots[i] == rest[i - 1];
        } else {
          AddAisKeepsOthers(l1, rest, bots[0].0);
        }
      }
    }
  }

  /** Bots never displace a player whose id none of them has. */
  lemma {:induction false} AddAisKeepsOthers(l: Lobby, bots: seq<(PlayerId, string)>, id: PlayerId)
    requires id in l.players && forall i :: 0 <= i < |bots| ==> bots[i].0 != id
    ensures id in AddAis(l, bots).players && AddAis(l, bots).players[id] == l.players[id]
    decreases |bots|
  {
    if |bots| > 0 {
      var p := Player(bots[0].1, Ai, NextPublicId(l.playersByTurnNum), false);
      var rest := bots[1..];
      assert forall i :: 0 <= i < |rest| ==> rest[i].0 != id by {
        forall i | 0 <= i < |rest| ensures rest[i].0 != id {
          assert rest[i] == bots[i + 1];
        }
      }
      AddAisKeepsOthers(AddPlayer(l, p, bots[0].0), rest, id);
    }
  }

  /** `do_request_ai` with one random id and bot name per requested AI. */
  function DoRequestAi(s: Server, lobbyId: LobbyId, playerId: PlayerId, numAi: nat,
                       bots: seq<(PlayerId, string)>): (r: Reply<(), RequestAiError>)
    requires numAi < 256 && |bots| == numAi
    ensures r.result.Err? ==> r.server == s
    ensures r.server.connectedUser == s.connectedUser
  {
    if numAi == 0 then Reply(s, Err(LessThanOneAiRequested))
    else if lobbyId !in s.lobbies then Reply(s, Err(RequestAiError.LobbyNotFound))
    else
      var l := s.lobbies[lobbyId];
      if l.owner != playerId then Reply(s, Err(RequestAiError.NotLobbyOwner))
      else if |l.players| + numAi > l.maxPlayers then Reply(s, Err(LobbyTooSmall))
      else if l.game.Some? then Reply(s, Err(RequestAiError.GameInProgress))
      else Reply(s.(lobbies := s.lobbies[lobbyId := AddAis(l, bots)]), Ok(()))
  }

  /** `do_request_ai` rejects, in order, a request for no AI, an unknown
      lobby, a caller who is not the owner, a request that would overflow
      the capacity and a game in progress. */
  lemma RequestAiRejects(s: Server, lobbyId: LobbyId, playerId: PlayerId, numAi: nat, bots: seq<(PlayerId, string)>)
    requires numAi < 256 && |bots| == numAi
    ensures var r := DoRequestAi(s, lobbyId, playerId, numAi, bots);
      && (r.result == Err(LessThanOneAiRequested) <==> numAi == 0)
      && (r.result == Err(RequestAiError.LobbyNotFound) <==> numAi > 0 && lobbyId !in s.lobbies)
      && (numAi > 0 && lobbyId in s.lobbies ==>
            var l := s.lobbies[lobbyId];
            && (r.result == Err(RequestAiError.NotLobbyOwner) <==> l.owner != playerId)
            && (r.result == Err(LobbyTooSmall) <==> l.owner == playerId && |l.players| + numAi > l.maxPlayers)
            && (r.result == Err(RequestAiError.GameInProgress) <==>
                  l.owner == playerId && |l.players| + numAi <= l.maxPlayers && l.game.Some?))
  {
  }

  /** Otherwise exactly `numAi` AI players join, the capacity holds, and
      every lobby keeps the invariant. */
  lemma RequestAiAdds(s: Server, lobbyId: LobbyId, playerId: PlayerId, numAi: nat, bots: seq<(PlayerId, string)>)
    requires numAi < 256 && |bots| == numAi && ServerInv(s)
    requires lobbyId in s.lobbies ==> FreshBots(s.lobbies[lobbyId], bots)
    ensures var r := DoRequestAi(s, lobbyId, playerId, numAi, bots);
      && (r.result.Ok? ==>
            && lobbyId in s.lobbies && lobbyId in r.server.lobbies
            && |r.server.lobbies[lobbyId].players| == |s.lobbies[lobbyId].players| + numAi
            && |r.server.lobbies[lobbyId].players| <= r.server.lobbies[lobbyId].maxPlayers)
      && ServerInv(r.server)
  {
    var r := DoRequestAi(s, lobbyId, playerId, numAi, bots);
    if numAi > 0 && lobbyId in s.lobbies {
      var l := s.lobbies[lobbyId];
      if l.owner == playerId && |l.players| + numAi <= l.maxPlayers && l.game.None? {
        assert r.server == s.(lobbies := s.lobbies[lobbyId := AddAis(l, bots)]);
        AddAisKeepsInv(l, bots);
        ServerInvUpdate(s, lobbyId, AddAis(l, bots));
      } else {
        assert r.server == s;
      }
    } else {
      assert r.server == s;
    }
  }

  // ---------------------------------------------------------------------------
  // Starting the game

  /** The roster walked in `order`: every player once. */
  predicate IsListing(order: seq<PlayerId>, players: map<PlayerId, Player>) {
    && |order| == |players|
    && (forall i :: 0 <= i < |order| ==> order[i] in players)
    && (forall id :: id in players ==> id in order)
    && Distinct(order)
  }

  /** `turns` is the shuffled `0..n`, one per player in `order`. */
  predicate IsShuffle(turns: seq<nat>, n: nat) {
    && |turns| == n
    && (forall i :: 0 <= i < |turns| ==> turns[i] < n)
    && Distinct(turns)
  }

  /** The assignment loop of `do_start_game`: the `i`-th player of `order`
      takes turn number `turns[i]`, and the slot map records them there. */
  function AssignTurns(players: map<PlayerId, Player>, slots: map<nat, PlayerId>,
                       order: seq<PlayerId>, turns: seq<nat>): (r: (map<PlayerId, Player>, map<nat, PlayerId>))
    requires |turns| == |order| && forall i :: 0 <= i < |order| ==> order[i] in players
    ensures r.0.Keys == players.Keys
    decreases |order|
  {
    if |order| == 0 then (players, slots)
    else
      var id := order[0];
      var players1 := players[id := players[id].(turnNumber := turns[0])];
      assert forall i :: 0 <= i < |order[1..]| ==> order[1..][i] in players1;
      AssignTurns(players1, slots[turns[0] := id], order[1..], turns[1..])
  }

  /** Distinct positions of `s` hold distinct values. */
  predicate Distinct<T(==)>(s: seq<T>) {
    forall i, j :: 0 <= i < j < |s| ==> s[i] != s[j]
  }

  lemma DistinctTail<T>(s: seq<T>)
    requires |s| > 0 && Distinct(s)
    ensures Distinct(s[1..]) && s[0] !in s[1..]
  {
    forall i, j | 0 <= i < j < |s[1..]| ensures s[1..][i] != s[1..][j] {
      assert s[1..][i] == s[i + 1] && s[1..][j] == s[j + 1];
    }
    forall j | 0 <= j < |s[1..]| ensures s[1..][j] != s[0] {
      assert s[1..][j] == s[j + 1];
    }
  }

  /** The assignment seats each listed player at their turn number and
      leaves every other player as they were. */
  lemma {:induction false} AssignedPlayers(players: map<PlayerId, Player>, slots: map<nat, PlayerId>,
                                           order: seq<PlayerId>, turns: seq<nat>)
    requires |turns| == |order| && forall i :: 0 <= i < |order| ==> order[i] in players
    requires Distinct(order)
    ensures var r := AssignTurns(players, slots, order, turns).0;
      && (forall i :: 0 <= i < |order| ==> r[order[i]] == players[order[i]].(turnNumber := turns[i]))
      && (forall id :: id in players && id !in order ==> r[id] == players[id])
    decreases |order|
  {
    if |order| > 0 {
      var id := order[0];
      var players1 := players[id := players[id].(turnNumber := turns[0])];
      var o1, t1 := order[1..], turns[1..];
      DistinctTail(order);
      assert forall i :: 0 <= i < |o1| ==> o1[i] in players1;
      AssignedPlayers(players1, slots[turns[0] := id], o1, t1);
      var r := AssignTurns(players1, slots[turns[0] := id], o1, t1).0;
      forall i | 0 <= i < |order|
        ensures r[order[i]] == players[order[i]].(turnNumber := turns[i])
      {
        if i > 0 {
          assert o1[i - 1] == order[i] && t1[i - 1] == turns[i];
        }
      }
      forall x | x in players && x !in order
        ensures r[x] == players[x]
      {
        assert order == [id] + o1;
      }
    }
  }

  /** The assignment records each listed player in the slot of their turn
      number, on top of the slots already there. */
  lemma {:induction false} AssignedSlots(players: map<PlayerId, Player>, slots: map<nat, PlayerId>,
                                         order: seq<PlayerId>, turns: seq<nat>)
    requires |turns| == |order| && forall i :: 0 <= i < |order| ==> order[i] in players
    requires Distinct(turns)
    ensures var r := AssignTurns(players, slots, order, turns).1;
      && (forall t :: t in r <==> t in slots || t in turns)
      && (forall t :: t in slots && t !in turns ==> r[t] == slots[t])
      && (forall i :: 0 <= i < |turns| ==> turns[i] in r && r[turns[i]] == order[i])
      && ((forall i :: 0 <= i < |turns| ==> turns[i] !in slots) ==> |r| == |slots| + |order|)
    decreases |order|
  {
    if |order| > 0 {
      var id := order[0];
      var players1 := players[id := players[id].(turnNumber := turns[0])];
      var slots1 := slots[turns[0] := id];
      var o1, t1 := order[1..], turns[1..];
      DistinctTail(turns);
      assert forall i :: 0 <= i < |o1| ==> o1[i] in players1;
      AssignedSlots(players1, slots1, o1, t1);
      var r := AssignTurns(players1, slots1, o1, t1).1;
      assert turns == [turns[0]] + t1;
      forall i | 0 <= i < |turns|
        ensures turns[i] in r && r[turns[i]] == order[i]
      {
        if i > 0 {
          assert t1[i - 1] == turns[i] && o1[i - 1] == order[i];
        }
      }
      forall t | t in slots && t !in turns
        ensures r[t] == slots[t]
      {
        assert t != turns[0] && t !in t1;
      }
      if forall i :: 0 <= i < |turns| ==> turns[i] !in slots {
        assert turns[0] !in slots;
        forall i | 0 <= i < |t1| ensures t1[i] !in slots1 {
          assert t1[i] == turns[i + 1];
        }
      }
    }
  }

  /** A lobby in which a game has just started: the dealt game, the turn
      numbers assigned in `order`, and the slot map rebuilt from `slots`. */
  function Started(l: Lobby, slots: map<nat, PlayerId>, deck: seq<Card>,
                   order: seq<PlayerId>, turns: seq<nat>): (r: Lobby)
    requires multiset(deck) == multiset(NewDeck(|l.players|))
    requires IsListing(order, l.players) && IsShuffle(turns, |l.players|)
    ensures r.game == Some(Game.New(|l.players|, deck))
    ensures r.players.Keys == l.players.Keys && r.owner == l.owner && r.maxPlayers == l.maxPlayers
  {
    var a := AssignTurns(l.players, slots, order, turns);
    l.(game := Some(Game.New(|l.players|, deck)), players := a.0, playersByTurnNum := a.1)
  }

  /** What the shuffles stand for when lobby `lobbyId` exists: `deck` is a
      shuffled deck for its roster, `order` walks the roster and `turns`
      shuffles its turn numbers. */
  predicate StartArgs(s: Server, lobbyId: LobbyId, deck: seq<Card>, order: seq<PlayerId>, turns: seq<nat>) {
    lobbyId in s.lobbies ==>
      && multiset(deck) == multiset(NewDeck(|s.lobbies[lobbyId].players|))
      && IsListing(order, s.lobbies[lobbyId].players) && IsShuffle(turns, |s.lobbies[lobbyId].players|)
  }

  /** `do_start_game` with the shuffled deck, the roster's iteration order
      and the shuffled turn numbers given, and with the slot map rebuilt from
      scratch (see `LobbyFindings` for the map as the source leaves it). */
  function DoStartGame(s: Server, lobbyId: LobbyId, playerId: PlayerId, deck: seq<Card>,
                       order: seq<PlayerId>, turns: seq<nat>): (r: Reply<(), StartGameError>)
    requires StartArgs(s, lobbyId, deck, order, turns)
    ensures r.result.Err? ==> r.server == s
    ensures r.server.connectedUser == s.connectedUser
  {
    if lobbyId !in s.lobbies then Reply(s, Err(StartGameError.LobbyNotFound))
    else
      var l := s.lobbies[lobbyId];
      if l.game.Some? then Reply(s, Err(StartGameError.GameInProgress))
      else if playerId != l.owner then Reply(s, Err(StartGameError.NotLobbyOwner))
      else if |l.players| < 2 then Reply(s, Err(LessThanTwoPlayers))
      else Reply(s.(lobbies := s.lobbies[lobbyId := Started(l, map[], deck, order, turns)]), Ok(()))
  }

  /** Starting seats every player at their shuffled turn number, records
      each of them in exactly that slot, and deals a game for the roster;
      the started lobby keeps the invariant. */
  lemma StartedSeating(l: Lobby, deck: seq<Card>, order: seq<PlayerId>, turns: seq<nat>)
    requires Inv(l) && l.game.None? && |l.players| >= 2
    requires multiset(deck) == multiset(NewDeck(|l.players|))
    requires IsListing(order, l.players) && IsShuffle(turns, |l.players|)
    ensures var r := Started(l, map[], deck, order, turns);
      && Inv(r)
      && r.playersByTurnNum.Keys == Below(|l.players|)
      && Seating(r.players, r.playersByTurnNum) && TurnsBelow(r)
      && forall i :: 0 <= i < |order| ==>
           r.players[order[i]] == l.players[order[i]].(turnNumber := turns[i])
  {
    var n := |l.players|;
    var r := Started(l, map[], deck, order, turns);
    var a := AssignTurns(l.players, map[], order, turns);
    assert r.players == a.0 && r.playersByTurnNum == a.1;
    AssignedSeating(l.players, order, turns);
    AssignedPlayers(l.players, map[], order, turns);
    StartedGameFits(l, deck, order, turns);
  }

  /** The dealt game keeps the engine's invariant and seats the roster. */
  lemma StartedGameFits(l: Lobby, deck: seq<Card>, order: seq<PlayerId>, turns: seq<nat>)
    requires |l.players| >= 2
    requires multiset(deck) == multiset(NewDeck(|l.players|))
    requires IsListing(order, l.players) && IsShuffle(turns, |l.players|)
    ensures GameFits(Started(l, map[], deck, order, turns))
  {
    var r := Started(l, map[], deck, order, turns);
    GameInvariant.NewSatisfiesInv(|l.players|, deck);
    assert |r.players| == |l.players| by {
      assert r.players.Keys == l.players.Keys;
    }
  }

  /** The seating that the assignment builds from an empty slot map: it
      agrees with the roster, has one slot per player, and uses exactly the
      turn numbers below the roster size. */
  lemma AssignedSeating(players: map<PlayerId, Player>, order: seq<PlayerId>, turns: seq<nat>)
    requires IsListing(order, players) && IsShuffle(turns, |players|)
    ensures var a := AssignTurns(players, map[], order, turns);
      && Seating(a.0, a.1)
      && |a.1| == |a.0|
      && a.1.Keys == Below(|players|)
      && forall id :: id in a.0 ==> a.0[id].turnNumber < |players|
  {
    var a := AssignTurns(players, map[], order, turns);
    SeatedForward(players, order, turns);
    SeatedBackward(players, order, turns);
    AssignedSlotCount(players, order, turns);
    assert a.0.Keys == players.Keys;
  }

  /** The assignment fills exactly the slots below the roster size. */
  lemma AssignedSlotCount(players: map<PlayerId, Player>, order: seq<PlayerId>, turns: seq<nat>)
    requires IsListing(order, players) && IsShuffle(turns, |players|)
    ensures var a := AssignTurns(players, map[], order, turns);
      |a.1| == |players| && a.1.Keys == Below(|players|)
  {
    AssignedSlots(players, map[], order, turns);
    ShuffleCovers(turns, |players|);
  }

  /** Each player is recorded in the slot of the turn number they were
      given, which is below the roster size. */
  lemma SeatedForward(players: map<PlayerId, Player>, order: seq<PlayerId>, turns: seq<nat>)
    requires IsListing(order, players) && IsShuffle(turns, |players|)
    ensures var a := AssignTurns(players, map[], order, turns);
      forall id :: id in a.0 ==>
        a.0[id].turnNumber < |players| && a.0[id].turnNumber in a.1 && a.1[a.0[id].turnNumber] == id
  {
    var a := AssignTurns(players, map[], order, turns);
    forall id | id in a.0
      ensures a.0[id].turnNumber < |players| && a.0[id].turnNumber in a.1 && a.1[a.0[id].turnNumber] == id
    {
      assert id in players;
      var i :| 0 <= i < |order| && order[i] == id;
      SeatedAt(players, order, turns, i);
    }
  }

  /** Each recorded slot holds a player whose turn number it is. */
  lemma SeatedBackward(players: map<PlayerId, Player>, order: seq<PlayerId>, turns: seq<nat>)
    requires IsListing(order, players) && IsShuffle(turns, |players|)
    ensures var a := AssignTurns(players, map[], order, turns);
      forall t :: t in a.1 ==> a.1[t] in a.0 && a.0[a.1[t]].turnNumber == t
  {
    var a := AssignTurns(players, map[], order, turns);
    AssignedSlotKeys(players, order, turns);
    forall t | t in a.1
      ensures a.1[t] in a.0 && a.0[a.1[t]].turnNumber == t
    {
      var i :| 0 <= i < |turns| && turns[i] == t;
      SeatedAt(players, order, turns, i);
    }
  }

  /** The slots the assignment fills are the shuffled turn numbers. */
  lemma AssignedSlotKeys(players: map<PlayerId, Player>, order: seq<PlayerId>, turns: seq<nat>)
    requires IsListing(order, players) && IsShuffle(turns, |players|)
    ensures forall t :: t in AssignTurns(players, map[], order, turns).1 ==> t in turns
  {
    AssignedSlots(players, map[], order, turns);
  }

  /** The `i`-th listed player takes turn `turns[i]` and is recorded in
      that slot. */
  lemma SeatedAt(players: map<PlayerId, Player>, order: seq<PlayerId>, turns: seq<nat>, i: nat)
    requires IsListing(order, players) && IsShuffle(turns, |players|) && i < |order|
    ensures var a := AssignTurns(players, map[], order, turns);
      && order[i] in a.0 && a.0[order[i]].turnNumber == turns[i] && turns[i] < |players|
      && turns[i] in a.1 && a.1[turns[i]] == order[i]
  {
    AssignedPlayers(players, map[], order, turns);
    AssignedSlots(players, map[], order, turns);
  }

  /** Two sets of numbers, one inside the other, of the same size are equal. */
  lemma SubsetSameSize(a: set<nat>, b: set<nat>)
    requires a <= b && |a| == |b|
    ensures a == b
  {
    assert b == a + (b - a);
    assert |b - a| == 0;
  }

  /** A shuffle of `0..n` names every turn number below `n`. */
  lemma ShuffleCovers(turns: seq<nat>, n: nat)
    requires IsShuffle(turns, n)
    ensures forall t :: t in turns <==> t in Below(n)
  {
    var seen := set i | 0 <= i < |turns| :: turns[i];
    assert seen <= Below(n);
    DistinctImage(turns);
    BelowSize(n);
    SubsetSameSize(seen, Below(n));
    forall t ensures t in turns <==> t in Below(n) {
      if t in turns {
        var i :| 0 <= i < |turns| && turns[i] == t;
        assert t in seen;
      }
    }
  }

  /** A sequence of distinct numbers has as many elements as it has
      positions. */
  lemma {:induction false} DistinctImage(s: seq<nat>)
    requires Distinct(s)
    ensures |set i | 0 <= i < |s| :: s[i]| == |s|
    decreases |s|
  {
    if |s| > 0 {
      var front := s[..|s| - 1];
      assert Distinct(front) by {
        forall i, j | 0 <= i < j < |front| ensures front[i] != front[j] {
          assert front[i] == s[i] && front[j] == s[j];
        }
      }
      DistinctImage(front);
      var a := set i | 0 <= i < |front| :: front[i];
      var b := set i | 0 <= i < |s| :: s[i];
      assert b == a + {s[|s| - 1]} by {
        forall x | x in b ensures x in a + {s[|s| - 1]} {
          var i :| 0 <= i < |s| && s[i] == x;
          if i < |s| - 1 {
            assert front[i] == x;
          }
        }
        forall x | x in a ensures x in b {
          var i :| 0 <= i < |front| && front[i] == x;
          assert s[i] == x;
        }
      }
      assert s[|s| - 1] !in a;
    }
  }

  /** `do_start_game` rejects, in order, an unknown lobby, a game in
      progress, a caller who is not the owner and a roster below two. */
  lemma StartGameRejects(s: Server, lobbyId: LobbyId, playerId: PlayerId, deck: seq<Card>,
                         order: seq<PlayerId>, turns: seq<nat>)
    requires StartArgs(s, lobbyId, deck, order, turns)
    ensures var r := DoStartGame(s, lobbyId, playerId, deck, order, turns);
      && (r.result == Err(StartGameError.LobbyNotFound) <==> lobbyId !in s.lobbies)
      && (lobbyId in s.lobbies ==>
            var l := s.lobbies[lobbyId];
            && (r.result == Err(StartGameError.GameInProgress) <==> l.game.Some?)
            && (r.result == Err(StartGameError.NotLobbyOwner) <==> l.game.None? && playerId != l.owner)
            && (r.result == Err(LessThanTwoPlayers) <==>
                  l.game.None? && playerId == l.owner && |l.players| < 2))
  {
  }

  /** A game that starts is a fresh deal for the whole roster; the turn
      numbers are a permutation of `0..n`, each recorded in its slot and in
      no other. */
  lemma StartGameSeats(s: Server, lobbyId: LobbyId, playerId: PlayerId, deck: seq<Card>,
                       order: seq<PlayerId>, turns: seq<nat>)
    requires lobbyId in s.lobbies ==> Inv(s.lobbies[lobbyId])
    requires StartArgs(s, lobbyId, deck, order, turns)
    ensures var r := DoStartGame(s, lobbyId, playerId, deck, order, turns);
      r.result.Ok? ==>
        && lobbyId in s.lobbies && lobbyId in r.server.lobbies
        && var l := s.lobbies[lobbyId];
        && var l2 := r.server.lobbies[lobbyId];
        && l2.game == Some(Game.New(|l.players|, deck))
        && l2.playersByTurnNum.Keys == Below(|l.players|)
        && Seating(l2.players, l2.playersByTurnNum)
        && TurnsBelow(l2)
  {
    if lobbyId in s.lobbies {
      var l := s.lobbies[lobbyId];
      if l.game.None? && playerId == l.owner && |l.players| >= 2 {
        var l2 := Started(l, map[], deck, order, turns);
        assert DoStartGame(s, lobbyId, playerId, deck, order, turns).server.lobbies == s.lobbies[lobbyId := l2];
        StartedSeating(l, deck, order, turns);
      }
    }
  }

  /** Starting a game keeps every lobby's invariant. */
  lemma StartGameKeepsInv(s: Server, lobbyId: LobbyId, playerId: PlayerId, deck: seq<Card>,
                          order: seq<PlayerId>, turns: seq<nat>)
    requires ServerInv(s)
    requires StartArgs(s, lobbyId, deck, order, turns)
    ensures ServerInv(DoStartGame(s, lobbyId, playerId, deck, order, turns).server)
  {
    if lobbyId in s.lobbies {
      var l := s.lobbies[lobbyId];
      if l.game.None? && playerId == l.owner && |l.players| >= 2 {
        var l2 := Started(l, map[], deck, order, turns);
        assert DoStartGame(s, lobbyId, playerId, deck, order, turns).server.lobbies == s.lobbies[lobbyId := l2];
        StartedSeating(l, deck, order, turns);
        ServerInvUpdate(s, lobbyId, l2);
      }
    }
  }

  // ---------------------------------------------------------------------------
  // Turns

  /** The game of lobby `lobbyId`, if it has one, is well formed: what the
      engine's calls rely on. */
  predicate GameWf(s: Server, lobbyId: LobbyId) {
    lobbyId in s.lobbies && s.lobbies[lobbyId].game.Some? ==> Game.Wf(s.lobbies[lobbyId].game.value)
  }

  /** The checks `do_choose_faceup` and `do_make_play` share: the lobby, its
      game, the caller and the caller's turn. */
  function TurnCheck(s: Server, lobbyId: LobbyId, playerId: PlayerId): (r: Option<TurnError>)
    ensures r.None? <==>
      && lobbyId in s.lobbies && s.lobbies[lobbyId].game.Some?
      && playerId in s.lobbies[lobbyId].players
      && s.lobbies[lobbyId].players[playerId].turnNumber == s.lobbies[lobbyId].game.value.activePlayer
  {
    if lobbyId !in s.lobbies then Some(TurnError.LobbyNotFound)
    else
      var l := s.lobbies[lobbyId];
      if l.game.None? then Some(GameNotStarted)
      else if playerId !in l.players then Some(TurnError.PlayerNotFound)
      else if l.players[playerId].turnNumber != l.game.value.activePlayer then Some(NotYourTurn)
      else None
  }

  /** The lobby with its game replaced. */
  function WithGame(s: Server, lobbyId: LobbyId, g: Game.GameState): (r: Server)
    requires lobbyId in s.lobbies
    ensures s.lobbies[lobbyId].game == Some(g) ==> r == s
  {
    var l := s.lobbies[lobbyId];
    assert l.game == Some(g) ==> s.lobbies[lobbyId := l.(game := Some(g))] == s.lobbies;
    s.(lobbies := s.lobbies[lobbyId := l.(game := Some(g))])
  }

  /** `do_choose_faceup`: after the turn checks, the engine's
      `choose_three_faceup` on the lobby's game. */
  function DoChooseFaceup(s: Server, lobbyId: LobbyId, playerId: PlayerId, c1: Card, c2: Card, c3: Card)
    : (r: Reply<(), TurnError>)
    requires GameWf(s, lobbyId)
    ensures r.result.Err? ==> r.server == s
  {
    match TurnCheck(s, lobbyId, playerId)
    case Some(e) => Reply(s, Err(e))
    case None =>
      var st := Game.ChooseThreeFaceup(s.lobbies[lobbyId].game.value, c1, c2, c3);
      var s1 := WithGame(s, lobbyId, st.state);
      match st.result
      case Ok(_) => Reply(s1, Ok(()))
      case Err(e) => Reply(s1, Err(GameError(e)))
  }

  /** `do_make_play`: after the turn checks, the engine's `make_play` on the
      lobby's game; the engine's verdict on whether the game ended is not
      part of the reply. */
  function DoMakePlay(s: Server, lobbyId: LobbyId, playerId: PlayerId, cards: seq<Card>)
    : (r: Reply<(), TurnError>)
    requires GameWf(s, lobbyId)
    ensures r.result.Err? ==> r.server == s
  {
    match TurnCheck(s, lobbyId, playerId)
    case Some(e) => Reply(s, Err(e))
    case None =>
      var st := Game.MakePlay(s.lobbies[lobbyId].game.value, cards);
      var s1 := WithGame(s, lobbyId, st.state);
      match st.result
      case Ok(_) => Reply(s1, Ok(()))
      case Err(e) => Reply(s1, Err(GameError(e)))
  }

  /** Only the active player reaches the engine: a caller whose turn number
      is not the game's active player gets `NotYourTurn` and the game is not
      touched; a call that reaches the engine changes only that lobby's game,
      to the state the engine leaves. */
  lemma ChooseFaceupTurns(s: Server, lobbyId: LobbyId, playerId: PlayerId, c1: Card, c2: Card, c3: Card)
    requires GameWf(s, lobbyId)
    ensures var r := DoChooseFaceup(s, lobbyId, playerId, c1, c2, c3);
      && (r.result == Err(NotYourTurn) <==>
            && lobbyId in s.lobbies && s.lobbies[lobbyId].game.Some? && playerId in s.lobbies[lobbyId].players
            && s.lobbies[lobbyId].players[playerId].turnNumber != s.lobbies[lobbyId].game.value.activePlayer)
      && (r.result.Ok? ==>
            var l := s.lobbies[lobbyId];
            && l.players[playerId].turnNumber == l.game.value.activePlayer
            && var st := Game.ChooseThreeFaceup(l.game.value, c1, c2, c3);
            && st.result.Ok?
            && r.server == WithGame(s, lobbyId, st.state))
  {
  }

  /** The same for plays. */
  lemma MakePlayTurns(s: Server, lobbyId: LobbyId, playerId: PlayerId, cards: seq<Card>)
    requires GameWf(s, lobbyId)
    ensures var r := DoMakePlay(s, lobbyId, playerId, cards);
      && (r.result == Err(NotYourTurn) <==>
            && lobbyId in s.lobbies && s.lobbies[lobbyId].game.Some? && playerId in s.lobbies[lobbyId].players
            && s.lobbies[lobbyId].players[playerId].turnNumber != s.lobbies[lobbyId].game.value.activePlayer)
      && (r.result.Ok? ==>
            var l := s.lobbies[lobbyId];
            && l.players[playerId].turnNumber == l.game.value.activePlayer
            && var st := Game.MakePlay(l.game.value, cards);
            && st.result.Ok?
            && r.server == WithGame(s, lobbyId, st.state))
  {
  }

  /** Replacing a lobby's game by one that keeps the engine's invariant for
      as many players keeps the lobby's invariant, and every other lobby is
      untouched. */
  lemma WithGameKeepsInv(s: Server, lobbyId: LobbyId, g: Game.GameState)
    requires ServerInv(s) && lobbyId in s.lobbies && s.lobbies[lobbyId].game.Some?
    requires GameInvariant.Inv(g) && g.numPlayers == s.lobbies[lobbyId].game.value.numPlayers
    ensures ServerInv(WithGame(s, lobbyId, g))
  {
    var l := s.lobbies[lobbyId];
    var l1 := l.(game := Some(g));
    assert Inv(l1) by {
      assert SlotsAgree(l1) && TurnsBelow(l1) by {
        assert SlotsAgree(l) && TurnsBelow(l);
      }
    }
  }

  /** Choosing faceup cards keeps every lobby's invariant, in either phase. */
  lemma ChooseFaceupKeepsInv(s: Server, lobbyId: LobbyId, playerId: PlayerId, c1: Card, c2: Card, c3: Card)
    requires ServerInv(s)
    ensures GameWf(s, lobbyId)
    ensures ServerInv(DoChooseFaceup(s, lobbyId, playerId, c1, c2, c3).server)
  {
    if TurnCheck(s, lobbyId, playerId).None? {
      var g := s.lobbies[lobbyId].game.value;
      var st := Game.ChooseThreeFaceup(g, c1, c2, c3);
      GameInvariant.ChooseThreeFaceupPreservesInv(g, c1, c2, c3);
      WithGameKeepsInv(s, lobbyId, st.state);
    }
  }

  /** A play keeps every lobby's invariant when the game is in its Play
      phase. */
  lemma MakePlayKeepsInv(s: Server, lobbyId: LobbyId, playerId: PlayerId, cards: seq<Card>)
    requires ServerInv(s)
    requires lobbyId in s.lobbies && s.lobbies[lobbyId].game.Some? ==>
      s.lobbies[lobbyId].game.value.curPhase == Game.Play
    ensures GameWf(s, lobbyId)
    ensures ServerInv(DoMakePlay(s, lobbyId, playerId, cards).server)
  {
    if TurnCheck(s, lobbyId, playerId).None? {
      var g := s.lobbies[lobbyId].game.value;
      var st := Game.MakePlay(g, cards);
      GameInvariant.MakePlayPreservesInv(g, cards);
      WithGameKeepsInv(s, lobbyId, st.state);
    }
  }

  // ---------------------------------------------------------------------------
  // Reconnecting and kicking

  /** `do_reconnect`: a player of the lobby who was not kicked is connected
      again. */
  function DoReconnect(s: Server, lobbyId: LobbyId, playerId: PlayerId): (r: Reply<(), ReconnectError>)
    ensures r.result.Err? ==> r.server == s
    ensures r.result.Ok? <==>
      lobbyId in s.lobbies && playerId in s.lobbies[lobbyId].players && !s.lobbies[lobbyId].players[playerId].kicked
    ensures r.result.Ok? ==>
      && lobbyId in r.server.lobbies && playerId in r.server.lobbies[lobbyId].players
      && r.server.lobbies[lobbyId].players[playerId].connection == Connected
  {
    if lobbyId !in s.lobbies then Reply(s, Err(ReconnectError.LobbyNotFound))
    else
      var l := s.lobbies[lobbyId];
      if playerId !in l.players then Reply(s, Err(ReconnectError.PlayerNotFound))
      else if l.players[playerId].kicked then Reply(s, Err(PlayerKicked))
      else
        var p := l.players[playerId].(connection := Connected);
        Reply(s.(lobbies := s.lobbies[lobbyId := l.(players := l.players[playerId := p])]), Ok(()))
  }

  /** Reconnecting keeps every lobby's invariant. */
  lemma ReconnectKeepsInv(s: Server, lobbyId: LobbyId, playerId: PlayerId)
    requires ServerInv(s)
    ensures ServerInv(DoReconnect(s, lobbyId, playerId).server)
  {
    var r := DoReconnect(s, lobbyId, playerId);
    if r.result.Ok? {
      var l := s.lobbies[lobbyId];
      ReplacePlayerKeepsInv(l, playerId, l.players[playerId].(connection := Connected));
    }
  }

  /** Every slot of lobby `lobbyId` leads to one of its players: what the
      `unwrap` of the in-game kick relies on. */
  predicate SlotsLead(s: Server, lobbyId: LobbyId) {
    lobbyId in s.lobbies ==>
      forall t :: t in s.lobbies[lobbyId].playersByTurnNum ==>
        s.lobbies[lobbyId].playersByTurnNum[t] in s.lobbies[lobbyId].players
  }

  /** `do_kick_player`: before the game the player in `slot` is removed;
      during the game a human there is disconnected and flagged as kicked,
      and an AI cannot be kicked. */
  function DoKickPlayer(s: Server, lobbyId: LobbyId, playerId: PlayerId, slot: nat): (r: Reply<(), KickPlayerError>)
    requires SlotsLead(s, lobbyId)
    ensures r.result.Err? ==> r.server == s
    ensures r.server.connectedUser == s.connectedUser
    ensures r.server.lobbies.Keys == s.lobbies.Keys
    ensures forall lid :: lid in s.lobbies && lid != lobbyId ==> r.server.lobbies[lid] == s.lobbies[lid]
  {
    if slot == 0 then Reply(s, Err(CantKickLobbyOwner))
    else if lobbyId !in s.lobbies then Reply(s, Err(KickPlayerError.LobbyNotFound))
    else
      var l := s.lobbies[lobbyId];
      if l.owner != playerId then Reply(s, Err(KickPlayerError.NotLobbyOwner))
      else if slot !in l.playersByTurnNum then Reply(s, Err(TargetPlayerNotFound))
      else
        var target := l.playersByTurnNum[slot];
        match l.game
        case Some(_) =>
          var p := l.players[target];
          if p.connection == Ai then Reply(s, Err(CantKickAiDuringGame))
          else
            var p1 := p.(connection := Disconnected, kicked := true);
            Reply(s.(lobbies := s.lobbies[lobbyId := l.(players := l.players[target := p1])]), Ok(()))
        case None =>
          Reply(s.(lobbies := s.lobbies[lobbyId := RemovePlayer(l, target)]), Ok(()))
  }

  /** In a registry that keeps the invariant every slot leads to a player. */
  lemma InvLeads(s: Server, lobbyId: LobbyId)
    requires ServerInv(s)
    ensures SlotsLead(s, lobbyId)
  {
  }

  /** `do_kick_player` rejects, in order, slot 0, an unknown lobby, a caller
      who is not the owner and an empty slot, and during the game an AI. */
  lemma KickRejects(s: Server, lobbyId: LobbyId, playerId: PlayerId, slot: nat)
    requires SlotsLead(s, lobbyId)
    ensures var r := DoKickPlayer(s, lobbyId, playerId, slot);
      && (r.result == Err(CantKickLobbyOwner) <==> slot == 0)
      && (r.result == Err(KickPlayerError.LobbyNotFound) <==> slot != 0 && lobbyId !in s.lobbies)
      && (slot != 0 && lobbyId in s.lobbies ==>
            var l := s.lobbies[lobbyId];
            && (r.result == Err(KickPlayerError.NotLobbyOwner) <==> l.owner != playerId)
            && (r.result == Err(TargetPlayerNotFound) <==>
                  l.owner == playerId && slot !in l.playersByTurnNum)
            && (r.result == Err(CantKickAiDuringGame) <==>
                  && l.owner == playerId && slot in l.playersByTurnNum && l.game.Some?
                  && l.players[l.playersByTurnNum[slot]].connection == Ai))
  {
  }

  /** Before the game a kick removes the player in the slot, who is never
      the owner, from both maps and frees the slot. */
  lemma KickBeforeGame(s: Server, lobbyId: LobbyId, playerId: PlayerId, slot: nat)
    requires lobbyId in s.lobbies && Inv(s.lobbies[lobbyId]) && s.lobbies[lobbyId].game.None?
    ensures SlotsLead(s, lobbyId)
    ensures var r := DoKickPlayer(s, lobbyId, playerId, slot);
      var l := s.lobbies[lobbyId];
      r.result.Ok? ==>
        && slot in l.playersByTurnNum
        && var target := l.playersByTurnNum[slot];
        && target != l.owner
        && target !in r.server.lobbies[lobbyId].players
        && slot !in r.server.lobbies[lobbyId].playersByTurnNum
        && |r.server.lobbies[lobbyId].players| == |l.players| - 1
  {
    var l := s.lobbies[lobbyId];
    var r := DoKickPlayer(s, lobbyId, playerId, slot);
    if slot != 0 && l.owner == playerId && slot in l.playersByTurnNum {
      var target := l.playersByTurnNum[slot];
      assert l.players[target].turnNumber == slot;
      assert r.server == s.(lobbies := s.lobbies[lobbyId := RemovePlayer(l, target)]);
      RemovePlayerKeepsInv(l, target);
    }
  }

  /** A kick before the game keeps every lobby's invariant. */
  lemma KickBeforeGameKeepsInv(s: Server, lobbyId: LobbyId, playerId: PlayerId, slot: nat)
    requires ServerInv(s) && lobbyId in s.lobbies && s.lobbies[lobbyId].game.None?
    ensures SlotsLead(s, lobbyId)
    ensures ServerInv(DoKickPlayer(s, lobbyId, playerId, slot).server)
  {
    var l := s.lobbies[lobbyId];
    var r := DoKickPlayer(s, lobbyId, playerId, slot);
    if slot != 0 && l.owner == playerId && slot in l.playersByTurnNum {
      var target := l.playersByTurnNum[slot];
      assert l.players[target].turnNumber == slot;
      assert r.server == s.(lobbies := s.lobbies[lobbyId := RemovePlayer(l, target)]);
      RemovePlayerKeepsInv(l, target);
      ServerInvUpdate(s, lobbyId, RemovePlayer(l, target));
    } else {
      assert r.server == s;
    }
  }

  /** During the game a kick leaves the seating alone and flags the human in
      the slot, who can then no longer reconnect. */
  lemma KickDuringGame(s: Server, lobbyId: LobbyId, playerId: PlayerId, slot: nat)
    requires SlotsLead(s, lobbyId) && lobbyId in s.lobbies && s.lobbies[lobbyId].game.Some?
    ensures var r := DoKickPlayer(s, lobbyId, playerId, slot);
      var l := s.lobbies[lobbyId];
      r.result.Ok? ==>
        && slot in l.playersByTurnNum
        && var target := l.playersByTurnNum[slot];
        && r.server.lobbies[lobbyId].playersByTurnNum == l.playersByTurnNum
        && r.server.lobbies[lobbyId].players.Keys == l.players.Keys
        && DoReconnect(r.server, lobbyId, target).result == Err(PlayerKicked)
  {
    var r := DoKickPlayer(s, lobbyId, playerId, slot);
    var l := s.lobbies[lobbyId];
    if slot != 0 && l.owner == playerId && slot in l.playersByTurnNum
       && l.players[l.playersByTurnNum[slot]].connection != Ai {
      var target := l.playersByTurnNum[slot];
      var p1 := l.players[target].(connection := Disconnected, kicked := true);
      assert r.server == s.(lobbies := s.lobbies[lobbyId := l.(players := l.players[target := p1])]);
    }
  }

  /** A kick during the game keeps every lobby's invariant. */
  lemma KickDuringGameKeepsInv(s: Server, lobbyId: LobbyId, playerId: PlayerId, slot: nat)
    requires ServerInv(s) && lobbyId in s.lobbies && s.lobbies[lobbyId].game.Some?
    ensures SlotsLead(s, lobbyId)
    ensures ServerInv(DoKickPlayer(s, lobbyId, playerId, slot).server)
  {
    var r := DoKickPlayer(s, lobbyId, playerId, slot);
    var l := s.lobbies[lobbyId];
    if slot != 0 && l.owner == playerId && slot in l.playersByTurnNum
       && l.players[l.playersByTurnNum[slot]].connection != Ai {
      var target := l.playersByTurnNum[slot];
      var p1 := l.players[target].(connection := Disconnected, kicked := true);
      var l1 := l.(players := l.players[target := p1]);
      assert r.server == s.(lobbies := s.lobbies[lobbyId := l1]);
      ReplacePlayerKeepsInv(l, target, p1);
      ServerInvUpdate(s, lobbyId, l1);
    } else {
      assert r.server == s;
    }
  }

  /** A kick before the game frees the slot for the next AI: with every
      lower slot taken, the next bot requested sits in the kicked slot. */
  lemma KickedSlotGoesToNextAi(s: Server, lobbyId: LobbyId, playerId: PlayerId, slot: nat, bot: (PlayerId, string))
    requires lobbyId in s.lobbies && Inv(s.lobbies[lobbyId]) && s.lobbies[lobbyId].game.None?
    requires forall j: nat :: j < slot ==> j in s.lobbies[lobbyId].playersByTurnNum
    requires bot.0 !in s.lobbies[lobbyId].players
    ensures SlotsLead(s, lobbyId)
    ensures var k := DoKickPlayer(s, lobbyId, playerId, slot);
      k.result.Ok? ==>
        var r := DoRequestAi(k.server, lobbyId, playerId, 1, [bot]);
        && r.result.Ok?
        && slot in r.server.lobbies[lobbyId].playersByTurnNum
        && r.server.lobbies[lobbyId].playersByTurnNum[slot] == bot.0
        && bot.0 in r.server.lobbies[lobbyId].players
        && r.server.lobbies[lobbyId].players[bot.0].connection == Ai
  {
    var l := s.lobbies[lobbyId];
    var k := DoKickPlayer(s, lobbyId, playerId, slot);
    if slot != 0 && l.owner == playerId && slot in l.playersByTurnNum {
      var target := l.playersByTurnNum[slot];
      assert l.players[target].turnNumber == slot;
      var l1 := RemovePlayer(l, target);
      assert k.server == s.(lobbies := s.lobbies[lobbyId := l1]);
      RemovePlayerKeepsInv(l, target);
      assert l1.playersByTurnNum == l.playersByTurnNum - {slot};
      FreedSlotReused(l.playersByTurnNum, slot);
      var p := Player(bot.1, Ai, slot, false);
      assert AddAis(l1, [bot]) == AddAis(AddPlayer(l1, p, bot.0), []);
    }
  }

}
