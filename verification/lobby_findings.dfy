/** The slot map that `do_start_game` (palace_server/src/lib.rs) leaves
    behind, modelled as written next to the rebuilt map the rest of the
    model uses instead. */
module LobbyFindings {
  import opened Outcomes
  import opened Cards
  import opened LobbyServer

  /** Lines 489-498 as written: each player takes a shuffled turn number and
      is inserted into `players_by_turn_num`, whose entries from before the
      game are never cleared. */
  function StartedAsWritten(l: Lobby, deck: seq<Card>, order: seq<PlayerId>, turns: seq<nat>): (r: Lobby)
    requires multiset(deck) == multiset(NewDeck(|l.players|))
    requires IsListing(order, l.players) && IsShuffle(turns, |l.players|)
    ensures forall t :: t in l.playersByTurnNum && t !in turns ==>
      t in r.playersByTurnNum && r.playersByTurnNum[t] == l.playersByTurnNum[t]
    ensures forall i :: 0 <= i < |turns| ==> turns[i] in r.playersByTurnNum && r.playersByTurnNum[turns[i]] == order[i]
  {
    AssignedSlots(l.players, l.playersByTurnNum, order, turns);
    Started(l, l.playersByTurnNum, deck, order, turns)
  }

  /** When no slot at or above the roster size is taken, every pre-game
      slot is overwritten, and the start as written leaves the same lobby as
      the start with the slot map rebuilt. */
  lemma AsWrittenWithoutGap(l: Lobby, deck: seq<Card>, order: seq<PlayerId>, turns: seq<nat>)
    requires multiset(deck) == multiset(NewDeck(|l.players|))
    requires IsListing(order, l.players) && IsShuffle(turns, |l.players|)
    requires forall t :: t in l.playersByTurnNum ==> t < |l.players|
    ensures StartedAsWritten(l, deck, order, turns) == Started(l, map[], deck, order, turns)
  {
    var a := AssignTurns(l.players, l.playersByTurnNum, order, turns);
    var c := AssignTurns(l.players, map[], order, turns);
    SameRoster(l.players, l.playersByTurnNum, order, turns);
    SameSlots(l.players, l.playersByTurnNum, order, turns);
    assert a == c;
  }

  /** The roster the assignment leaves does not depend on the slot map it
      starts from. */
  lemma SameRoster(players: map<PlayerId, Player>, slots: map<nat, PlayerId>, order: seq<PlayerId>, turns: seq<nat>)
    requires IsListing(order, players) && IsShuffle(turns, |players|)
    ensures AssignTurns(players, slots, order, turns).0 == AssignTurns(players, map[], order, turns).0
  {
    var a := AssignTurns(players, slots, order, turns).0;
    var c := AssignTurns(players, map[], order, turns).0;
    AssignedPlayers(players, slots, order, turns);
    AssignedPlayers(players, map[], order, turns);
    forall id | id in a ensures id in c && a[id] == c[id] {
      var i :| 0 <= i < |order| && order[i] == id;
    }
  }

  /** Started from slots that all lie below the roster size, the assignment
      overwrites every one of them. */
  lemma SameSlots(players: map<PlayerId, Player>, slots: map<nat, PlayerId>, order: seq<PlayerId>, turns: seq<nat>)
    requires IsListing(order, players) && IsShuffle(turns, |players|)
    requires forall t :: t in slots ==> t < |players|
    ensures AssignTurns(players, slots, order, turns).1 == AssignTurns(players, map[], order, turns).1
  {
    SameSlotKeys(players, slots, order, turns);
    SameSlotValues(players, slots, order, turns);
    MapsEqual(AssignTurns(players, slots, order, turns).1, AssignTurns(players, map[], order, turns).1);
  }

  /** From slots below the roster size, the assignment fills exactly the
      slots it fills from an empty map. */
  lemma SameSlotKeys(players: map<PlayerId, Player>, slots: map<nat, PlayerId>, order: seq<PlayerId>, turns: seq<nat>)
    requires IsListing(order, players) && IsShuffle(turns, |players|)
    requires forall t :: t in slots ==> t < |players|
    ensures AssignTurns(players, slots, order, turns).1.Keys == AssignTurns(players, map[], order, turns).1.Keys
  {
    AssignedSlots(players, slots, order, turns);
    AssignedSlots(players, map[], order, turns);
    ShuffleCovers(turns, |players|);
  }

  /** Where both assignments fill a slot, they fill it with the same player. */
  lemma SameSlotValues(players: map<PlayerId, Player>, slots: map<nat, PlayerId>, order: seq<PlayerId>, turns: seq<nat>)
    requires IsListing(order, players) && IsShuffle(turns, |players|)
    ensures var a := AssignTurns(players, slots, order, turns).1;
      var c := AssignTurns(players, map[], order, turns).1;
      forall t | t in a && t in c :: a[t] == c[t]
  {
    var a := AssignTurns(players, slots, order, turns).1;
    var c := AssignTurns(players, map[], order, turns).1;
    AssignedSlots(players, slots, order, turns);
    AssignedSlots(players, map[], order, turns);
    forall t | t in a && t in c ensures a[t] == c[t] {
      var i :| 0 <= i < |turns| && turns[i] == t;
    }
  }

  /** Maps with the same keys and the same values are equal. */
  lemma MapsEqual<K, V>(a: map<K, V>, c: map<K, V>)
    requires a.Keys == c.Keys && forall k | k in a :: a[k] == c[k]
    ensures a == c
  {
  }

  /** A slot at or above the roster size that was taken before the game
      survives the start as written and names a player whose turn number is
      now below the roster size, so slots and seats disagree. */
  lemma AsWrittenWithGap(l: Lobby, deck: seq<Card>, order: seq<PlayerId>, turns: seq<nat>, t: nat)
    requires SlotsAgree(l)
    requires multiset(deck) == multiset(NewDeck(|l.players|))
    requires IsListing(order, l.players) && IsShuffle(turns, |l.players|)
    requires t in l.playersByTurnNum && t >= |l.players|
    ensures !SlotsAgree(StartedAsWritten(l, deck, order, turns))
  {
    var r := StartedAsWritten(l, deck, order, turns);
    ShuffleCovers(turns, |l.players|);
    var id := l.playersByTurnNum[t];
    assert t !in turns;
    assert r.playersByTurnNum[t] == id;
    AssignedPlayers(l.players, l.playersByTurnNum, order, turns);
    var i :| 0 <= i < |order| && order[i] == id;
    assert r.players[id].turnNumber == turns[i] < |l.players|;
  }

  /** The start as written keeps slots and seats in agreement exactly when
      no slot at or above the roster size was taken before the game. */
  lemma AsWrittenAgreesIff(l: Lobby, deck: seq<Card>, order: seq<PlayerId>, turns: seq<nat>)
    requires Inv(l) && l.game.None? && |l.players| >= 2
    requires multiset(deck) == multiset(NewDeck(|l.players|))
    requires IsListing(order, l.players) && IsShuffle(turns, |l.players|)
    ensures SlotsAgree(StartedAsWritten(l, deck, order, turns)) <==>
      forall t :: t in l.playersByTurnNum ==> t < |l.players|
  {
    if forall t :: t in l.playersByTurnNum ==> t < |l.players| {
      AsWrittenWithoutGap(l, deck, order, turns);
      StartedSeating(l, deck, order, turns);
    } else {
      var t :| t in l.playersByTurnNum && t >= |l.players|;
      AsWrittenWithGap(l, deck, order, turns, t);
    }
  }

  // ---------------------------------------------------------------------------
  // A lobby with a gap in its slots

  /** Lobby 7 as its owner (player 10) creates it, for up to four players. */
  function Created(): (l: Lobby)
    ensures |l.players| == 1 && l.playersByTurnNum == map[0 := 10]
  {
    OwnerOnly(4, "l", "o", "", 10)
  }

  /** After player 11 joins into slot 1. */
  function FriendJoined(): (l: Lobby)
    ensures |l.players| == 2 && l.playersByTurnNum == map[0 := 10, 1 := 11]
    ensures l.players.Keys == {10, 11} && l.game.None? && l.password == "" && l.maxPlayers == 4
  {
    MapAddSize(Created().players, 11, Player("f", Connected, 1, false));
    AddPlayer(Created(), Player("f", Connected, 1, false), 11)
  }

  /** After player 12 joins into slot 2. */
  function GuestJoined(): (l: Lobby)
    ensures |l.players| == 3 && l.playersByTurnNum == map[0 := 10, 1 := 11, 2 := 12]
    ensures l.players.Keys == {10, 11, 12} && l.game.None? && l.owner == 10
  {
    MapAddSize(FriendJoined().players, 12, Player("g", Connected, 2, false));
    AddPlayer(FriendJoined(), Player("g", Connected, 2, false), 12)
  }

  /** After the owner kicks slot 1: slots 0 and 2 are taken, slot 1 is free. */
  function TwoSeatLobby(): (l: Lobby)
    ensures l.players.Keys == {10, 12} && l.playersByTurnNum == map[0 := 10, 2 := 12]
    ensures l.game.None? && |l.players| == 2
  {
    var players := map[10 := Player("o", Connected, 0, false), 12 := Player("g", Connected, 2, false)];
    assert players.Keys == {10, 12};
    Lobby(players, map[0 := 10, 2 := 12], 4, "", None, 10, "l")
  }

  /** That lobby keeps the lobby invariant. */
  lemma TwoSeatLobbyInv()
    ensures Inv(TwoSeatLobby())
  {
    assert TwoSeatLobby().playersByTurnNum.Keys == {0, 2};
  }

  /** The owner creates the lobby. */
  lemma CreateStep()
    ensures DoNewLobby(Server(map[], None), 4, "l", "o", "", 7, 10).server == Server(map[7 := Created()], Some(PlayerUser(7, 10)))
  {
  }

  /** Joining an open lobby over a fresh connection takes the lowest free slot. */
  lemma JoinStep(l: Lobby, name: string, pid: PlayerId)
    requires l.game.None? && l.password == "" && |l.players| < l.maxPlayers < 256 && name != []
    ensures DoJoinLobby(Server(map[7 := l], None), 7, name, "", pid).server.lobbies ==
      map[7 := AddPlayer(l, Player(name, Connected, NextPublicId(l.playersByTurnNum), false), pid)]
  {
  }

  /** The lowest free slots after the owner alone, and after one join. */
  lemma FreeSlots()
    ensures NextPublicId(map[0 := 10]) == 1
    ensures NextPublicId(map[0 := 10, 1 := 11]) == 2
  {
    var a := NextPublicId(map[0 := 10]);
    assert a != 0 && !(a > 1 && 1 !in map[0 := 10]);
    var b := NextPublicId(map[0 := 10, 1 := 11]);
    assert b != 0 && b != 1 && !(b > 2 && 2 !in map[0 := 10, 1 := 11]);
  }

  /** The owner kicks the player in slot 1 before the game. */
  lemma KickStep()
    ensures SlotsLead(Server(map[7 := GuestJoined()], None), 7)
    ensures var r := DoKickPlayer(Server(map[7 := GuestJoined()], None), 7, 10, 1);
      r.result.Ok? && r.server.lobbies == map[7 := TwoSeatLobby()]
  {
    KickFriend();
    FriendRemoved();
  }

  /** The kick of slot 1 removes player 11. */
  lemma KickFriend()
    ensures SlotsLead(Server(map[7 := GuestJoined()], None), 7)
    ensures DoKickPlayer(Server(map[7 := GuestJoined()], None), 7, 10, 1) ==
      Reply(Server(map[7 := RemovePlayer(GuestJoined(), 11)], None), Ok(()))
  {
    var l := GuestJoined();
    var s := Server(map[7 := l], None);
    assert s.lobbies[7] == l && 1 in l.playersByTurnNum && l.playersByTurnNum[1] == 11;
    assert s.lobbies[7 := RemovePlayer(l, 11)] == map[7 := RemovePlayer(l, 11)];
  }

  /** Without player 11 the lobby is `TwoSeatLobby`. */
  lemma FriendRemoved()
    ensures RemovePlayer(GuestJoined(), 11) == TwoSeatLobby()
  {
    var l := GuestJoined();
    assert l.players[11].turnNumber == 1;
    var k := RemovePlayer(l, 11);
    assert k.players == TwoSeatLobby().players;
    assert k.playersByTurnNum == TwoSeatLobby().playersByTurnNum;
  }

  /** `TwoSeatLobby` is what the handlers produce: the owner creates it, two
      players join over their own connections, and the owner kicks slot 1. */
  lemma TwoSeatLobbyReached()
    ensures var r1 := DoNewLobby(Server(map[], None), 4, "l", "o", "", 7, 10);
      var r2 := DoJoinLobby(r1.server.(connectedUser := None), 7, "f", "", 11);
      var r3 := DoJoinLobby(r2.server.(connectedUser := None), 7, "g", "", 12);
      && r3.server.lobbies == map[7 := GuestJoined()]
      && r3.server.(connectedUser := None) == Server(map[7 := GuestJoined()], None)
      && var r4 := DoKickPlayer(Server(map[7 := GuestJoined()], None), 7, 10, 1);
      && r4.result.Ok?
      && r4.server.lobbies[7] == TwoSeatLobby()
  {
    CreateStep();
    FreeSlots();
    JoinStep(Created(), "f", 11);
    JoinStep(FriendJoined(), "g", 12);
    KickStep();
  }

  // ---------------------------------------------------------------------------
  // Starting the game in it

  /** The roster after the start: the owner in seat 1, the guest in seat 0. */
  function ReSeated(): (players: map<PlayerId, Player>)
    ensures players.Keys == {10, 12}
    ensures players[10].turnNumber == 1 && players[12].turnNumber == 0
  {
    map[10 := Player("o", Connected, 1, false), 12 := Player("g", Connected, 0, false)]
  }

  /** The two-player assignment, owner first, unfolded. */
  lemma AssignTwo(players: map<PlayerId, Player>, slots: map<nat, PlayerId>)
    requires players == TwoSeatLobby().players
    ensures AssignTurns(players, slots, [10, 12], [1, 0]) == (ReSeated(), slots[1 := 10][0 := 12])
  {
    var p1 := players[10 := players[10].(turnNumber := 1)];
    var p2 := p1[12 := p1[12].(turnNumber := 0)];
    assert [10, 12][1..] == [12] && [1, 0][1..] == [0];
    assert [12][1..] == [] && [0][1..] == [];
    assert AssignTurns(players, slots, [10, 12], [1, 0]) == AssignTurns(p1, slots[1 := 10], [12], [0]);
    assert AssignTurns(p1, slots[1 := 10], [12], [0]) == AssignTurns(p2, slots[1 := 10][0 := 12], [], []);
    assert p2 == ReSeated();
  }

  /** The roster order and the turns used below are a valid listing and
      shuffle for `TwoSeatLobby`. */
  predicate TwoSeatArgsHold() {
    IsListing([10, 12], TwoSeatLobby().players) && IsShuffle([1, 0], 2)
  }

  lemma TwoSeatArgs()
    ensures TwoSeatArgsHold()
  {
  }

  /** As written, with the owner given turn 1 and the guest turn 0, slot 2
      keeps pointing at the guest. */
  lemma StartedAsWrittenFromTwoSeats(deck: seq<Card>)
    requires multiset(deck) == multiset(NewDeck(2))
    ensures TwoSeatArgsHold()
    ensures var a := StartedAsWritten(TwoSeatLobby(), deck, [10, 12], [1, 0]);
      && a.players == ReSeated() && a.playersByTurnNum == map[0 := 12, 1 := 10, 2 := 12]
      && a.game.Some? && a.owner == 10
  {
    TwoSeatArgs();
    AssignTwo(TwoSeatLobby().players, TwoSeatLobby().playersByTurnNum);
  }

  /** With the slot map rebuilt, only seats 0 and 1 are listed. */
  lemma StartedFromTwoSeats(deck: seq<Card>)
    requires multiset(deck) == multiset(NewDeck(2))
    ensures TwoSeatArgsHold()
    ensures var c := Started(TwoSeatLobby(), map[], deck, [10, 12], [1, 0]);
      && c.players == ReSeated() && c.playersByTurnNum == map[0 := 12, 1 := 10]
      && c.game.Some? && c.owner == 10
  {
    TwoSeatArgs();
    AssignTwo(TwoSeatLobby().players, map[]);
  }

  /** In a game lobby with that roster, the leftover slot 2 breaks the
      agreement of slots and seats, and kicking slot 2 kicks the guest, who
      sits in seat 0. */
  lemma KickStaleSlot(a: Lobby)
    requires a.players == ReSeated() && a.game.Some? && a.owner == 10
    requires a.playersByTurnNum == map[0 := 12, 1 := 10, 2 := 12]
    ensures !SlotsAgree(a) && SlotsLead(Server(map[7 := a], None), 7)
    ensures var r := DoKickPlayer(Server(map[7 := a], None), 7, 10, 2);
      && r.result.Ok? && 12 in r.server.lobbies[7].players && r.server.lobbies[7].players[12].kicked
  {
    assert a.playersByTurnNum.Keys == {0, 1, 2};
    assert a.players[12].connection == Connected;
    var s := Server(map[7 := a], None);
    assert s.lobbies[7] == a;
    var p := a.players[12].(connection := Disconnected, kicked := true);
    assert DoKickPlayer(s, 7, 10, 2) == Reply(s.(lobbies := s.lobbies[7 := a.(players := a.players[12 := p])]), Ok(()));
    assert p.kicked;
  }

  /** With the rebuilt slot map, slots and seats agree and the same kick
      finds nobody in slot 2. */
  lemma KickRebuiltSlot(c: Lobby)
    requires c.players == ReSeated() && c.game.Some? && c.owner == 10
    requires c.playersByTurnNum == map[0 := 12, 1 := 10]
    ensures SlotsAgree(c) && SlotsLead(Server(map[7 := c], None), 7)
    ensures DoKickPlayer(Server(map[7 := c], None), 7, 10, 2).result == Err(TargetPlayerNotFound)
  {
    assert c.playersByTurnNum.Keys == {0, 1};
  }

  /** Starting a game in `TwoSeatLobby` as written leaves slot 2 pointing at
      the guest, whose seat is now 0, so the slot map no longer agrees with
      the roster; kicking slot 2 then kicks the guest, although a two-player
      game has no seat 2. */
  lemma StaleSlotKicksWrongPlayer(deck: seq<Card>)
    requires multiset(deck) == multiset(NewDeck(2))
    ensures TwoSeatArgsHold()
    ensures var a := StartedAsWritten(TwoSeatLobby(), deck, [10, 12], [1, 0]);
      && !SlotsAgree(a)
      && SlotsLead(Server(map[7 := a], None), 7)
      && DoKickPlayer(Server(map[7 := a], None), 7, 10, 2).result.Ok?
      && var kicked := DoKickPlayer(Server(map[7 := a], None), 7, 10, 2).server.lobbies[7].players;
      && 12 in kicked && kicked[12].kicked
  {
    StartedAsWrittenFromTwoSeats(deck);
    KickStaleSlot(StartedAsWritten(TwoSeatLobby(), deck, [10, 12], [1, 0]));
  }

  /** The same start with the slot map rebuilt keeps slots and seats in
      agreement, and the kick of slot 2 finds nobody. */
  lemma RebuiltSlotsKickNobody(deck: seq<Card>)
    requires multiset(deck) == multiset(NewDeck(2))
    ensures TwoSeatArgsHold()
    ensures var c := Started(TwoSeatLobby(), map[], deck, [10, 12], [1, 0]);
      && SlotsAgree(c)
      && SlotsLead(Server(map[7 := c], None), 7)
      && DoKickPlayer(Server(map[7 := c], None), 7, 10, 2).result == Err(TargetPlayerNotFound)
  {
    StartedFromTwoSeats(deck);
    KickRebuiltSlot(Started(TwoSeatLobby(), map[], deck, [10, 12], [1, 0]));
  }
}
