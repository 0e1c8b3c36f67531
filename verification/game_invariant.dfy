/** The invariant the engine (palace_server/src/game.rs) keeps from the deal
    on: the zones the `binary_search` ownership test searches are sorted
    throughout Play, finished players are listed once and hold no cards, the
    turn never rests on a finished player while play goes on, and a finished
    game refuses every further turn. */
module GameInvariant {
  import opened Outcomes
  import opened Cards
  import opened Pile
  import opened Game
  import opened GameSpec

  predicate Distinct(s: seq<nat>) {
    forall i, j :: 0 <= i < j < |s| ==> s[i] != s[j]
  }

  /** The hand and faceup zone of player `p` are sorted. */
  predicate ZonesSorted(g: GameState, p: nat)
    requires Wf(g) && p < g.numPlayers
  {
    Sorted(g.hands[p]) && Sorted(g.faceUpThree[p])
  }

  /** Play goes on: at least two players are still in, the turn is with one
      of them, every finished player has played all their cards, and every
      player still in holds at least one card. */
  predicate Running(g: GameState)
    requires Wf(g)
  {
    && g.activePlayer !in g.outPlayers
    && |g.outPlayers| + 2 <= g.numPlayers
    && (forall i :: 0 <= i < |g.outPlayers| ==> ZonesEmpty(g, g.outPlayers[i]))
    && (forall p :: 0 <= p < g.numPlayers && p !in g.outPlayers ==> !ZonesEmpty(g, p))
  }

  /** The game is over: everyone is listed as out, and the turn stays with
      the player whose last cards ended it. */
  predicate Finished(g: GameState)
    requires Wf(g)
  {
    |g.outPlayers| == g.numPlayers && g.curPhase == Play && ZonesEmpty(g, g.activePlayer)
  }

  /** During Setup, the players who have chosen their faceup cards (those
      before the active one) hold sorted zones; the deal itself leaves hands
      unsorted. During Play every player's zones are sorted. */
  predicate Inv(g: GameState) {
    && Wf(g)
    && g.numPlayers >= 2
    && Distinct(g.outPlayers)
    && (g.curPhase == Setup ==>
          g.outPlayers == [] && forall p :: 0 <= p < g.activePlayer ==> ZonesSorted(g, p))
    && (g.curPhase == Play ==> forall p :: 0 <= p < g.numPlayers ==> ZonesSorted(g, p))
    && (Running(g) || Finished(g))
  }

  /** Removing cards one by one keeps a sorted zone sorted. */
  lemma {:induction false} RemoveAllSorted(zone: seq<Card>, cards: seq<Card>)
    requires Sorted(zone)
    ensures Sorted(RemoveAll(zone, cards))
    decreases |cards|
  {
    if |cards| > 0 {
      RemoveFirstSorted(zone, cards[0]);
      RemoveAllSorted(RemoveFirst(zone, cards[0]), cards[1..]);
    }
  }

  // ---------------------------------------------------------------------------
  // The deal

  /** A fresh game for two or more players satisfies the invariant. */
  lemma NewSatisfiesInv(n: nat, deck: seq<Card>)
    requires multiset(deck) == multiset(NewDeck(n)) && n >= 2
    ensures Inv(New(n, deck))
  {
  }

  // ---------------------------------------------------------------------------
  // The Setup step

  /** `choose_three_faceup` keeps the invariant, in either phase. */
  lemma ChooseThreeFaceupPreservesInv(g: GameState, c1: Card, c2: Card, c3: Card)
    requires Inv(g)
    ensures Inv(ChooseThreeFaceup(g, c1, c2, c3).state)
  {
    var s := ChooseThreeFaceup(g, c1, c2, c3);
    if s.result.Ok? {
      ChooseThreeFaceupMoves(g, c1, c2, c3);
      ChooseThreeNotFinished(g, c1, c2, c3);
      assert c1 in multiset(s.state.faceUpThree[g.activePlayer]);
      ChooseThreeRunning(g, s.state);
      ChooseThreeSorted(g, s.state);
    }
  }

  /** A player with no cards cannot choose three of them. */
  lemma ChooseThreeNotFinished(g: GameState, c1: Card, c2: Card, c3: Card)
    requires Wf(g) && ChooseThreeFaceup(g, c1, c2, c3).result.Ok?
    ensures !ZonesEmpty(g, g.activePlayer)
  {
    var a := g.activePlayer;
    ChooseThreeFaceupAccepts(g, c1, c2, c3);
    if ZonesEmpty(g, a) {
      assert c1 in multiset{c1, c2, c3};
      assert c1 in multiset(g.hands[a]) + multiset(g.faceUpThree[a]);
    }
  }

  /** The shape of a successful Setup step: only the active player's hand and
      faceup zone change, and the turn passes to the next player still in. */
  predicate SetupMove(g: GameState, h: GameState)
    requires Wf(g)
  {
    var a := g.activePlayer;
    && h == g.(hands := h.hands, faceUpThree := h.faceUpThree,
               activePlayer := h.activePlayer, curPhase := h.curPhase)
    && |h.hands| == |g.hands| && |h.faceUpThree| == |g.faceUpThree|
    && (forall p :: 0 <= p < g.numPlayers && p != a ==>
          h.hands[p] == g.hands[p] && h.faceUpThree[p] == g.faceUpThree[p])
    && h.activePlayer == NextPlayer(g)
    && h.curPhase == (if NextPlayer(g) == 0 then Play else g.curPhase)
  }

  lemma ChooseThreeRunning(g: GameState, h: GameState)
    requires Inv(g) && !ZonesEmpty(g, g.activePlayer) && SetupMove(g, h)
    requires h.faceUpThree[g.activePlayer] != []
    ensures Wf(h) && Running(h)
  {
    var a := g.activePlayer;
    assert Running(g);
    NextPlayerIsCyclicSuccessor(g.outPlayers, a, g.numPlayers);
    forall i | 0 <= i < |h.outPlayers|
      ensures ZonesEmpty(h, h.outPlayers[i])
    {
      assert ZonesEmpty(g, g.outPlayers[i]);
    }
    forall p | 0 <= p < h.numPlayers && p !in h.outPlayers
      ensures !ZonesEmpty(h, p)
    {
      if p != a {
        assert !ZonesEmpty(g, p);
      }
    }
  }

  lemma ChooseThreeSorted(g: GameState, h: GameState)
    requires Inv(g) && SetupMove(g, h) && Wf(h) && ZonesSorted(h, g.activePlayer)
    ensures h.curPhase == Setup ==> forall p :: 0 <= p < h.activePlayer ==> ZonesSorted(h, p)
    ensures h.curPhase == Play ==> forall p :: 0 <= p < h.numPlayers ==> ZonesSorted(h, p)
  {
    var a := g.activePlayer;
    if g.curPhase == Setup {
      NextPlayerWithoutFinished(a, g.numPlayers);
    }
    forall p | 0 <= p < h.numPlayers && p != a && (h.curPhase == Play || p < h.activePlayer)
      ensures ZonesSorted(h, p)
    {
      assert ZonesSorted(g, p);
    }
  }

  // ---------------------------------------------------------------------------
  // The Play step

  /** Player `p` holds the same cards in `g` and `h`, zone by zone. */
  predicate SameZones(g: GameState, h: GameState, p: nat)
    requires Wf(g) && Wf(h) && p < g.numPlayers && p < h.numPlayers
  {
    h.hands[p] == g.hands[p] && h.faceUpThree[p] == g.faceUpThree[p]
    && h.faceDownThree[p] == g.faceDownThree[p]
  }

  /** A finished game has no acceptable play: the active player holds no card. */
  lemma FinishedAcceptsNothing(g: GameState, cards: seq<Card>)
    requires Wf(g) && Finished(g)
    ensures !Acceptable(g, cards)
  {
  }

  /** Taking the played cards out of their zone keeps every zone sorted and
      touches no other player. */
  lemma TakenSorted(g: GameState, cards: seq<Card>)
    requires Wf(g) && Acceptable(g, cards)
    requires forall p :: 0 <= p < g.numPlayers ==> ZonesSorted(g, p)
    ensures var t := Taken(g, cards);
      && Wf(t) && t.numPlayers == g.numPlayers
      && (forall p :: 0 <= p < g.numPlayers ==> ZonesSorted(t, p))
      && (forall p :: 0 <= p < g.numPlayers && p != g.activePlayer ==> SameZones(g, t, p))
  {
    var t := Taken(g, cards);
    TakenSpec(g, cards);
    assert ZonesSorted(g, g.activePlayer);
    TakenActiveSorted(g, cards);
    OthersSorted(g, t);
  }

  /** Sortedness carries over to a state where only the active player's
      zones changed and those are sorted. */
  lemma OthersSorted(g: GameState, t: GameState)
    requires Wf(g) && Wf(t) && t.numPlayers == g.numPlayers
    requires forall p :: 0 <= p < g.numPlayers ==> ZonesSorted(g, p)
    requires forall p :: 0 <= p < g.numPlayers && p != g.activePlayer ==>
      t.hands[p] == g.hands[p] && t.faceUpThree[p] == g.faceUpThree[p]
      && t.faceDownThree[p] == g.faceDownThree[p]
    requires Sorted(t.hands[g.activePlayer]) && Sorted(t.faceUpThree[g.activePlayer])
    ensures forall p :: 0 <= p < g.numPlayers ==> ZonesSorted(t, p)
    ensures forall p :: 0 <= p < g.numPlayers && p != g.activePlayer ==> SameZones(g, t, p)
  {
    forall p | 0 <= p < g.numPlayers
      ensures ZonesSorted(t, p)
    {
      assert ZonesSorted(g, p);
    }
  }

  /** The zone the cards are taken from stays sorted. */
  lemma TakenActiveSorted(g: GameState, cards: seq<Card>)
    requires Wf(g) && Acceptable(g, cards)
    requires Sorted(g.hands[g.activePlayer]) && Sorted(g.faceUpThree[g.activePlayer])
    ensures var t := Taken(g, cards);
      && |t.hands| == |g.hands| && |t.faceUpThree| == |g.faceUpThree|
      && Sorted(t.hands[g.activePlayer]) && Sorted(t.faceUpThree[g.activePlayer])
  {
    var a := g.activePlayer;
    var t := Taken(g, cards);
    match PlayZone(g)
    case Hand =>
      assert t.hands[a] == RemoveAll(g.hands[a], cards) && t.faceUpThree == g.faceUpThree;
      RemoveAllSorted(g.hands[a], cards);
    case FaceUpThree =>
      assert t.faceUpThree[a] == RemoveAll(g.faceUpThree[a], cards) && t.hands == g.hands;
      RemoveAllSorted(g.faceUpThree[a], cards);
    case FaceDownThree =>
      assert t.hands == g.hands && t.faceUpThree == g.faceUpThree;
  }

  /** After an accepted play, every zone is sorted and only the active
      player's zones have changed. */
  lemma PlayKeepsZones(g: GameState, cards: seq<Card>)
    requires Inv(g) && g.curPhase == Play && Acceptable(g, cards)
    ensures var h := MakePlay(g, cards).state;
      && h.numPlayers == g.numPlayers && h.curPhase == Play
      && |h.hands| == |g.hands| && |h.faceUpThree| == |g.faceUpThree|
      && |h.faceDownThree| == |g.faceDownThree|
      && (forall p :: 0 <= p < g.numPlayers ==>
            Sorted(h.hands[p]) && Sorted(h.faceUpThree[p]))
      && (forall p :: 0 <= p < g.numPlayers && p != g.activePlayer ==>
            h.hands[p] == g.hands[p] && h.faceUpThree[p] == g.faceUpThree[p]
            && h.faceDownThree[p] == g.faceDownThree[p])
  {
    TakenSorted(g, cards);
    FinalZones(g, cards);
    PlayedZones(g, MakePlay(g, cards).state, Taken(g, cards));
  }

  /** The final state's zones are those of `Taken`, except for a hand that
      picked the pile up, which is sorted. */
  lemma FinalZones(g: GameState, cards: seq<Card>)
    requires Wf(g) && Acceptable(g, cards)
    ensures var h := MakePlay(g, cards).state; var t := Taken(g, cards); var a := g.activePlayer;
      && h.numPlayers == g.numPlayers && h.curPhase == g.curPhase
      && h.faceUpThree == t.faceUpThree && h.faceDownThree == t.faceDownThree
      && |h.hands| == |t.hands| && h.hands == t.hands[a := h.hands[a]]
      && (Sorted(h.hands[a]) || h.hands == t.hands)
  {
    var a := g.activePlayer;
    MakePlayZones(g, cards);
    MakePlayIsResolve(g, cards);
    if !IsPlayableWithoutPickup(PlayValue(g, cards), g.pileCards) {
      MakePlayPicksUp(g, cards);
    }
  }

  /** The zone facts of `PlayKeepsZones`, from the shape of the final state. */
  lemma PlayedZones(g: GameState, h: GameState, t: GameState)
    requires Wf(g) && Wf(t) && t.numPlayers == g.numPlayers
    requires forall p :: 0 <= p < g.numPlayers ==> ZonesSorted(t, p)
    requires forall p :: 0 <= p < g.numPlayers && p != g.activePlayer ==> SameZones(g, t, p)
    requires h.faceUpThree == t.faceUpThree && h.faceDownThree == t.faceDownThree
    requires |h.hands| == |t.hands|
    requires h.hands == t.hands[g.activePlayer := h.hands[g.activePlayer]]
    requires Sorted(h.hands[g.activePlayer]) || h.hands == t.hands
    ensures |h.hands| == |g.hands| && |h.faceUpThree| == |g.faceUpThree|
      && |h.faceDownThree| == |g.faceDownThree|
    ensures forall p :: 0 <= p < g.numPlayers ==> Sorted(h.hands[p]) && Sorted(h.faceUpThree[p])
    ensures forall p :: 0 <= p < g.numPlayers && p != g.activePlayer ==>
      h.hands[p] == g.hands[p] && h.faceUpThree[p] == g.faceUpThree[p]
      && h.faceDownThree[p] == g.faceDownThree[p]
  {
    assert ZonesSorted(t, g.activePlayer);
    forall p | 0 <= p < g.numPlayers
      ensures Sorted(h.hands[p]) && Sorted(h.faceUpThree[p])
    {
      assert ZonesSorted(t, p);
    }
    forall p | 0 <= p < g.numPlayers && p != g.activePlayer
      ensures h.hands[p] == g.hands[p] && h.faceUpThree[p] == g.faceUpThree[p]
              && h.faceDownThree[p] == g.faceDownThree[p]
    {
      assert SameZones(g, t, p);
    }
  }

  /** The sortedness half of the invariant after an accepted play. */
  lemma PlaySortedInv(g: GameState, h: GameState)
    requires Wf(h) && h.curPhase == Play
    requires forall p :: 0 <= p < h.numPlayers ==> Sorted(h.hands[p]) && Sorted(h.faceUpThree[p])
    ensures forall p :: 0 <= p < h.numPlayers ==> ZonesSorted(h, p)
  {
  }

  /** Players listed as out before the play still hold nothing after it. */
  lemma OutStayEmpty(g: GameState, h: GameState)
    requires Wf(g) && Wf(h) && Running(g) && h.numPlayers == g.numPlayers
    requires forall p :: 0 <= p < g.numPlayers && p != g.activePlayer ==>
      h.hands[p] == g.hands[p] && h.faceUpThree[p] == g.faceUpThree[p]
      && h.faceDownThree[p] == g.faceDownThree[p]
    ensures forall i :: 0 <= i < |g.outPlayers| ==> ZonesEmpty(h, g.outPlayers[i])
    ensures forall p :: 0 <= p < g.numPlayers && p != g.activePlayer && p !in g.outPlayers ==>
      !ZonesEmpty(h, p)
  {
    forall i | 0 <= i < |g.outPlayers|
      ensures ZonesEmpty(h, g.outPlayers[i])
    {
      assert ZonesEmpty(g, g.outPlayers[i]);
    }
    forall p | 0 <= p < g.numPlayers && p != g.activePlayer && p !in g.outPlayers
      ensures !ZonesEmpty(h, p)
    {
      assert !ZonesEmpty(g, p);
    }
  }

  /** An illegal play keeps the invariant. */
  lemma PickupPreservesInv(g: GameState, cards: seq<Card>)
    requires Inv(g) && g.curPhase == Play && Acceptable(g, cards) && Running(g)
    requires !IsPlayableWithoutPickup(PlayValue(g, cards), g.pileCards)
    ensures Inv(MakePlay(g, cards).state)
  {
    var h := MakePlay(g, cards).state;
    PlayKeepsZones(g, cards);
    MakePlayPicksUp(g, cards);
    NextPlayerIsCyclicSuccessor(g.outPlayers, g.activePlayer, g.numPlayers);
    assert Wf(h);
    OutStayEmpty(g, h);
    PlaySortedInv(g, h);
    PickupHolds(g, cards);
  }

  /** A player who picks the pile up holds at least the cards they played. */
  lemma PickupHolds(g: GameState, cards: seq<Card>)
    requires Wf(g) && Acceptable(g, cards)
    requires !IsPlayableWithoutPickup(PlayValue(g, cards), g.pileCards)
    ensures MakePlay(g, cards).state.hands[g.activePlayer] != []
  {
    var a := g.activePlayer;
    var t, z, P := Taken(g, cards), PlayZone(g), Played(g, cards);
    MakePlayIsResolve(g, cards);
    TakenKeeps(g, cards);
    var hand := Resolve(t, z, P).state.hands[a];
    assert multiset(hand) == multiset(t.hands[a]) + multiset(t.pileCards) + multiset(P) by {
      PickupSpec(t, z, P);
    }
    assert P[0] in multiset(hand);
  }

  /** A play that ends the game leaves it finished. */
  lemma EndPreservesInv(g: GameState, cards: seq<Card>)
    requires Inv(g) && g.curPhase == Play && Acceptable(g, cards) && Running(g)
    requires IsPlayableWithoutPickup(PlayValue(g, cards), g.pileCards)
    requires LastCards(g, cards) && |g.outPlayers| + 2 == g.numPlayers
    ensures Inv(MakePlay(g, cards).state) && Finished(MakePlay(g, cards).state)
  {
    var h := MakePlay(g, cards).state;
    PlayKeepsZones(g, cards);
    MakePlayEndsGame(g, cards);
    MakePlayZones(g, cards);
    LastCardsIffEmpty(g, cards);
    EndInv(g, h);
  }

  /** The invariant after the play that ends the game: the active player and
      the one player still in are both listed as out, and the turn stays. */
  lemma EndInv(g: GameState, h: GameState)
    requires Inv(g) && g.curPhase == Play && Running(g) && |g.outPlayers| + 2 == g.numPlayers
    requires h.numPlayers == g.numPlayers && h.curPhase == Play
    requires |h.hands| == |g.hands| && |h.faceUpThree| == |g.faceUpThree|
    requires |h.faceDownThree| == |g.faceDownThree|
    requires forall p :: 0 <= p < g.numPlayers ==> Sorted(h.hands[p]) && Sorted(h.faceUpThree[p])
    requires h.hands[g.activePlayer] == [] && h.faceUpThree[g.activePlayer] == []
      && h.faceDownThree[g.activePlayer] == []
    requires h.outPlayers == g.outPlayers
      + [g.activePlayer, NextPlayerOf(g.outPlayers + [g.activePlayer], g.activePlayer, g.numPlayers)]
    requires h.activePlayer == g.activePlayer
    ensures Inv(h) && Finished(h)
  {
    var a, n := g.activePlayer, g.numPlayers;
    SomeoneLeft(g.outPlayers + [a], n);
    NextPlayerIsCyclicSuccessor(g.outPlayers + [a], a, n);
    var b := NextPlayerOf(g.outPlayers + [a], a, n);
    assert Wf(h);
    PlaySortedInv(g, h);
    assert Distinct(h.outPlayers) by {
      forall i, j | 0 <= i < j < |h.outPlayers|
        ensures h.outPlayers[i] != h.outPlayers[j]
      {
        if j < |g.outPlayers| {
          assert h.outPlayers[i] == g.outPlayers[i] && h.outPlayers[j] == g.outPlayers[j];
        } else if j == |g.outPlayers| {
          assert h.outPlayers[i] == g.outPlayers[i];
        } else if i < |g.outPlayers| {
          assert h.outPlayers[i] == g.outPlayers[i];
          assert h.outPlayers[i] in g.outPlayers + [a];
        }
      }
    }
  }

  /** A legal play that does not end the game keeps the invariant. */
  lemma GoOnPreservesInv(g: GameState, cards: seq<Card>)
    requires Inv(g) && g.curPhase == Play && Acceptable(g, cards) && Running(g)
    requires IsPlayableWithoutPickup(PlayValue(g, cards), g.pileCards)
    requires !(LastCards(g, cards) && |g.outPlayers| + 2 == g.numPlayers)
    ensures Inv(MakePlay(g, cards).state)
  {
    var a := g.activePlayer;
    var h := MakePlay(g, cards).state;
    PlayKeepsZones(g, cards);
    LastCardsIffEmpty(g, cards);
    MakePlayZones(g, cards);
    if PlayValue(g, cards) == Ten || TopNCardsSame(g.pileCards + Played(g, cards), g.numPlayers) {
      MakePlayBurns(g, cards);
    } else {
      MakePlayPasses(g, cards);
    }
    GoOnInv(g, h, LastCards(g, cards));
  }

  /** The invariant after a play that leaves the game running: `out` tells
      whether the active player has just played their last cards. */
  lemma GoOnInv(g: GameState, h: GameState, out: bool)
    requires Inv(g) && g.curPhase == Play && Running(g)
    requires out ==> |g.outPlayers| + 2 < g.numPlayers
    requires h.numPlayers == g.numPlayers && h.curPhase == Play
    requires |h.hands| == |g.hands| && |h.faceUpThree| == |g.faceUpThree|
    requires |h.faceDownThree| == |g.faceDownThree|
    requires forall p :: 0 <= p < g.numPlayers ==> Sorted(h.hands[p]) && Sorted(h.faceUpThree[p])
    requires forall p :: 0 <= p < g.numPlayers && p != g.activePlayer ==>
      h.hands[p] == g.hands[p] && h.faceUpThree[p] == g.faceUpThree[p]
      && h.faceDownThree[p] == g.faceDownThree[p]
    requires out ==>
      h.hands[g.activePlayer] == [] && h.faceUpThree[g.activePlayer] == []
      && h.faceDownThree[g.activePlayer] == []
    requires h.outPlayers == if out then g.outPlayers + [g.activePlayer] else g.outPlayers
    requires h.activePlayer == g.activePlayer
      || h.activePlayer == NextPlayerOf(h.outPlayers, g.activePlayer, g.numPlayers)
    requires out ==> h.activePlayer != g.activePlayer
    requires !out ==>
      !(h.hands[g.activePlayer] == [] && h.faceUpThree[g.activePlayer] == []
        && h.faceDownThree[g.activePlayer] == [])
    ensures Inv(h)
  {
    var a, n := g.activePlayer, g.numPlayers;
    assert h.activePlayer < n && h.activePlayer !in h.outPlayers by {
      SomeoneLeft(h.outPlayers, n);
      NextPlayerIsCyclicSuccessor(h.outPlayers, a, n);
    }
    assert Wf(h);
    assert forall p :: 0 <= p < h.numPlayers ==> ZonesSorted(h, p) by {
      PlaySortedInv(g, h);
    }
    assert Distinct(h.outPlayers) by {
      if out {
        AppendDistinct(g.outPlayers, a);
      }
    }
    assert Running(h) by {
      OutStayEmpty(g, h);
      if out {
        AppendEmptyZones(h, g.outPlayers, a);
      }
    }
  }

  /** Listing a player who is not listed yet keeps the list free of repeats. */
  lemma AppendDistinct(s: seq<nat>, a: nat)
    requires Distinct(s) && a !in s
    ensures Distinct(s + [a])
  {
    var t := s + [a];
    forall i, j | 0 <= i < j < |t|
      ensures t[i] != t[j]
    {
      assert t[i] == s[i];
      if j < |s| {
        assert t[j] == s[j];
      }
    }
  }

  /** Listing a player whose zones are empty keeps every listed player's zones empty. */
  lemma AppendEmptyZones(h: GameState, s: seq<nat>, a: nat)
    requires Wf(h) && a < h.numPlayers && ZonesEmpty(h, a)
    requires forall i :: 0 <= i < |s| ==> s[i] < h.numPlayers && ZonesEmpty(h, s[i])
    ensures forall i :: 0 <= i < |s + [a]| ==> ZonesEmpty(h, (s + [a])[i])
  {
    forall i | 0 <= i < |s + [a]|
      ensures ZonesEmpty(h, (s + [a])[i])
    {
      if i < |s| {
        assert (s + [a])[i] == s[i];
      }
    }
  }

  /** `make_play` keeps the invariant during Play, whatever it is given. */
  lemma MakePlayPreservesInv(g: GameState, cards: seq<Card>)
    requires Inv(g) && g.curPhase == Play
    ensures Inv(MakePlay(g, cards).state)
  {
    MakePlayAcceptsExactly(g, cards);
    if Acceptable(g, cards) {
      if Finished(g) {
        FinishedAcceptsNothing(g, cards);
      } else if !IsPlayableWithoutPickup(PlayValue(g, cards), g.pileCards) {
        PickupPreservesInv(g, cards);
      } else if LastCards(g, cards) && |g.outPlayers| + 2 == g.numPlayers {
        EndPreservesInv(g, cards);
      } else {
        GoOnPreservesInv(g, cards);
      }
    }
  }

  // ---------------------------------------------------------------------------
  // Whole turns

  /** `take_turn` keeps the invariant, whatever it is given. */
  lemma TakeTurnPreservesInv(g: GameState, cards: seq<Card>)
    requires Inv(g)
    ensures Inv(TakeTurn(g, cards).state)
  {
    if g.curPhase == Setup {
      if |cards| == 3 {
        ChooseThreeFaceupPreservesInv(g, cards[0], cards[1], cards[2]);
      }
    } else {
      MakePlayPreservesInv(g, cards);
    }
  }

  /** In a running game a play that reports the end of the game leaves it
      finished. */
  lemma EndedGameIsFinished(g: GameState, cards: seq<Card>)
    requires Inv(g) && g.curPhase == Play && Running(g)
    ensures MakePlay(g, cards).result == Ok(true) ==>
      Wf(MakePlay(g, cards).state) && Finished(MakePlay(g, cards).state)
  {
    if MakePlay(g, cards).result == Ok(true) {
      MakePlayEndsGame(g, cards);
      EndPreservesInv(g, cards);
    }
  }

  /** Every other outcome leaves a player not listed as out, so the game is
      not finished. */
  lemma NotEndNotFinished(g: GameState, cards: seq<Card>)
    requires Wf(g) && |g.outPlayers| + 2 <= g.numPlayers
    ensures MakePlay(g, cards).result != Ok(true) ==>
      |MakePlay(g, cards).state.outPlayers| < g.numPlayers
  {
    var s := MakePlay(g, cards);
    match s.result
    case Err(_) =>
      assert s.state == g;
    case Ok(ended) =>
      if !ended {
        NotEndStillRunning(g, cards);
      }
  }

  /** A play that does not end the game lists at most one more player as out. */
  lemma NotEndStillRunning(g: GameState, cards: seq<Card>)
    requires Wf(g) && |g.outPlayers| + 2 <= g.numPlayers
    requires MakePlay(g, cards).result == Ok(false)
    ensures |MakePlay(g, cards).state.outPlayers| < g.numPlayers
  {
    MakePlayEndsGame(g, cards);
    MakePlayAcceptsExactly(g, cards);
    assert Acceptable(g, cards);
    if !IsPlayableWithoutPickup(PlayValue(g, cards), g.pileCards) {
      PickupOutCount(g, cards);
    } else {
      GoOnOutCount(g, cards);
    }
  }

  /** From a running game in its Play phase, every play but the one that
      ends the game leaves the game running: the turn is with a player still
      in, at least two players are left, and exactly the listed players hold
      nothing. */
  lemma NotEndKeepsRunning(g: GameState, cards: seq<Card>)
    requires Inv(g) && g.curPhase == Play && Running(g)
    ensures StaysRunning(MakePlay(g, cards))
  {
    var s := MakePlay(g, cards);
    MakePlayPreservesInv(g, cards);
    if s.result == Ok(false) {
      NotEndStillRunning(g, cards);
    }
    RunningUnlessEnded(s, g);
  }

  /** The step keeps the invariant, and the game runs unless it just ended. */
  predicate StaysRunning(s: Step<bool>) {
    Inv(s.state) && (s.result != Ok(true) ==> Running(s.state))
  }

  lemma RunningUnlessEnded(s: Step<bool>, g: GameState)
    requires Inv(s.state) && Wf(g) && Running(g)
    requires s.result.Err? ==> s.state == g
    requires s.result == Ok(false) ==> |s.state.outPlayers| < s.state.numPlayers
    ensures StaysRunning(s)
  {
    match s.result
    case Err(_) =>
    case Ok(ended) =>
      if !ended {
        assert !Finished(s.state);
      }
  }

  lemma PickupOutCount(g: GameState, cards: seq<Card>)
    requires Wf(g) && Acceptable(g, cards)
    requires !IsPlayableWithoutPickup(PlayValue(g, cards), g.pileCards)
    ensures |MakePlay(g, cards).state.outPlayers| == |g.outPlayers|
  {
    MakePlayPicksUp(g, cards);
  }

  lemma GoOnOutCount(g: GameState, cards: seq<Card>)
    requires Wf(g) && Acceptable(g, cards)
    requires IsPlayableWithoutPickup(PlayValue(g, cards), g.pileCards)
    requires !(LastCards(g, cards) && |g.outPlayers| + 2 == g.numPlayers)
    ensures |MakePlay(g, cards).state.outPlayers| == |g.outPlayers| + (if LastCards(g, cards) then 1 else 0)
  {
    if PlayValue(g, cards) == Ten || TopNCardsSame(g.pileCards + Played(g, cards), g.numPlayers) {
      MakePlayBurns(g, cards);
    } else {
      MakePlayPasses(g, cards);
    }
  }

  /** Once the game is finished every turn is refused and changes nothing:
      a play is refused for want of cards and a faceup choice for want of the
      chosen cards. */
  lemma FinishedRejectsEveryTurn(g: GameState, cards: seq<Card>, c1: Card, c2: Card, c3: Card)
    requires Inv(g) && Finished(g)
    ensures TakeTurn(g, cards) == Step(g, Err(if cards == [] then NoFaceDownCard else CardsWithFaceDown))
    ensures ChooseThreeFaceup(g, c1, c2, c3) == Step(g, Err(FaceupNotOwned))
  {
    if ChooseThreeFaceup(g, c1, c2, c3).result.Ok? {
      ChooseThreeNotFinished(g, c1, c2, c3);
    }
  }
}
