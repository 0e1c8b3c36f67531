/** Two inputs on which palace_server/src/game.rs panics, each modelled as
    written next to the behaviour the rest of the model uses instead. */
module Findings {
  import opened Outcomes
  import opened Cards
  import opened Game
  import opened GameSpec
  import opened GameInvariant

  // ---------------------------------------------------------------------------
  // A card named twice

  /** The removal loop of `make_play` (game.rs lines 272-288) as written: each
      named card is found with `binary_search(..).unwrap()` and removed.
      `None` stands for the panic of `unwrap` on a card no longer there. In a
      sorted zone equal cards sit side by side, so removing the first copy is
      removing the one `binary_search` finds. */
  function RemoveAllAsWritten(zone: seq<Card>, cards: seq<Card>): (r: Option<seq<Card>>)
    ensures r.Some? <==> multiset(cards) <= multiset(zone)
    ensures r.Some? ==> r.value == RemoveAll(zone, cards)
    decreases |cards|
  {
    if |cards| == 0 then Some(zone)
    else if cards[0] !in zone then
      assert cards[0] in multiset(cards);
      None
    else
      var rest := RemoveFirst(zone, cards[0]);
      assert cards == [cards[0]] + cards[1..];
      assert multiset(cards) == multiset{cards[0]} + multiset(cards[1..]);
      assert multiset(rest) + multiset{cards[0]} == multiset(zone) by {
        AddBack(multiset(zone), multiset{cards[0]});
      }
      RemoveAllAsWritten(rest, cards[1..])
  }

  /** The ownership check of game.rs lines 246-268 tests each card on its own,
      so a play naming one owned card twice passes it, passes the card-count
      check, and then panics in the removal loop. The model rejects it with
      `DuplicateCard` instead. */
  lemma DuplicatePlayPanics()
    ensures var zone := [Card(Three, Clubs), Card(Four, Clubs)];
      var cards := [Card(Three, Clubs), Card(Three, Clubs)];
      && Sorted(zone)
      && |cards| <= |zone|
      && CheckCards(cards, Three, Hand, zone) == None
      && RemoveAllAsWritten(zone, cards) == None
      && Validate(cards, Hand, zone) == Some(DuplicateCard)
  {
    var zone := [Card(Three, Clubs), Card(Four, Clubs)];
    var cards := [Card(Three, Clubs), Card(Three, Clubs)];
    assert multiset(cards)[Card(Three, Clubs)] == 2;
    assert multiset(zone)[Card(Three, Clubs)] == 1;
  }

  // ---------------------------------------------------------------------------
  // A play after the game has ended

  /** The zone choice at the head of `make_play` (game.rs lines 219-238) as
      written: `None` stands for the panic of `pop().unwrap()` when the
      player has no facedown card left. */
  function ZoneChoiceAsWritten(g: GameState, cards: seq<Card>): (r: Option<Result<CardZone, GameError>>)
    requires Wf(g)
    ensures r.None? <==> MakePlay(g, cards).result == Err(NoFaceDownCard)
    ensures r.Some? && r.value.Err? ==> MakePlay(g, cards) == Step(g, Err(r.value.error))
  {
    var a := g.activePlayer;
    var hand := g.hands[a];
    var up := g.faceUpThree[a];
    var down := g.faceDownThree[a];
    if |hand| > 0 then
      if |cards| > |hand| then Some(Err(TooManyCards)) else Some(Ok(Hand))
    else if |up| > 0 then
      if |cards| > |up| then Some(Err(TooManyCards)) else Some(Ok(FaceUpThree))
    else if |cards| != 0 then Some(Err(CardsWithFaceDown))
    else if |down| == 0 then None
    else Some(Ok(FaceDownThree))
  }

  /** While the game runs the panic cannot happen; once a play has ended the
      game, the turn stays with a player who holds nothing, and the empty
      play that player may still send reaches the panic. */
  lemma EmptyPlayPanicsOnlyAfterEnd(g: GameState, cards: seq<Card>)
    requires Inv(g)
    ensures ZoneChoiceAsWritten(g, cards).None? <==> Finished(g) && cards == []
  {
  }

  /** The play that ends the game leads to a state where the empty play
      panics as written; the model answers it with `NoFaceDownCard`. */
  lemma EndedGamePanics(g: GameState, cards: seq<Card>)
    requires Inv(g) && g.curPhase == Play && MakePlay(g, cards).result == Ok(true)
    ensures var h := MakePlay(g, cards).state;
      && Wf(h) && ZoneChoiceAsWritten(h, []).None?
      && MakePlay(h, []) == Step(h, Err(NoFaceDownCard))
  {
    MakePlayEndsGame(g, cards);
    MakePlayAcceptsExactly(g, cards);
    EndPreservesInv(g, cards);
  }
}
