/** The unchecked copy of the engine that the Monte Carlo player simulates
    with (palace_server/src/monte_game.rs). It keeps no cleared cards and no
    record of the last play, checks nothing, and panics where the engine
    would report an error; its callers only hand it moves the engine would
    accept. The main results say that on such moves it agrees with the
    engine. */
module MonteGame {
  import opened Cards
  import opened Pile
  import Game
  import GameSpec

  datatype GameState = GameState(
    activePlayer: nat,
    numPlayers: nat,
    hands: seq<seq<Card>>,
    faceUpThree: seq<seq<Card>>,
    faceDownThree: seq<seq<Card>>,
    pileCards: seq<Card>,
    curPhase: Game.Phase,
    outPlayers: seq<nat>)

  /** A step's result: the new state and whether the game has ended. */
  datatype Outcome = Outcome(state: GameState, ended: bool)

  predicate Wf(m: GameState) {
    && |m.hands| == m.numPlayers && |m.faceUpThree| == m.numPlayers
    && |m.faceDownThree| == m.numPlayers
    && m.activePlayer < m.numPlayers
    && forall i :: 0 <= i < |m.outPlayers| ==> m.outPlayers[i] < m.numPlayers
  }

  /** The engine's state as the simulator sees it. */
  function Project(g: Game.GameState): (m: GameState)
    ensures Game.Wf(g) <==> Wf(m)
  {
    GameState(g.activePlayer, g.numPlayers, g.hands, g.faceUpThree, g.faceDownThree,
              g.pileCards, g.curPhase, g.outPlayers)
  }

  // ---------------------------------------------------------------------------
  // The deal and the turn order

  /** `GameState::new`: the same deal as the engine's, from the shuffled deck
      `deck`. */
  function New(n: nat, deck: seq<Card>): (m: GameState)
    requires multiset(deck) == multiset(NewDeck(n))
    ensures Wf(m) <==> n >= 1
    ensures m.activePlayer == 0 && m.numPlayers == n && m.curPhase == Game.Setup
    ensures m.pileCards == [] && m.outPlayers == []
    ensures forall p :: 0 <= p < n ==>
      |m.faceUpThree[p]| == 3 && |m.faceDownThree[p]| == 3 && |m.hands[p]| == HAND_SIZE
  {
    assert |deck| == |NewDeck(n)| == 13 * n by {
      assert |multiset(deck)| == |multiset(NewDeck(n))|;
    }
    GameState(0, n, Game.HandDeal(deck, n), Game.FaceUpDeal(deck, n), Game.FaceDownDeal(deck, n),
              [], Game.Setup, [])
  }

  /** `next_player`, the same loops as the engine's. */
  function NextPlayer(m: GameState): nat
    requires Wf(m)
  {
    Game.NextPlayerOf(m.outPlayers, m.activePlayer, m.numPlayers)
  }

  function Rotate(m: GameState): (r: GameState)
    requires Wf(m)
    ensures r == m.(activePlayer := r.activePlayer)
  {
    m.(activePlayer := NextPlayer(m))
  }

  // ---------------------------------------------------------------------------
  // The Setup step

  /** `choose_three_faceup` without its check: the three cards become the
      faceup zone whether or not the player holds them, and whatever the scan
      does not cancel becomes the hand. */
  function ChooseThreeFaceup(m: GameState, c1: Card, c2: Card, c3: Card): (r: GameState)
    requires Wf(m)
    ensures |r.hands| == |m.hands| && |r.faceUpThree| == |m.faceUpThree| && r.numPlayers == m.numPlayers
    ensures var a := m.activePlayer;
      && Sorted(r.faceUpThree[a]) && multiset(r.faceUpThree[a]) == multiset{c1, c2, c3}
      && Sorted(r.hands[a])
      && r.activePlayer == NextPlayer(m)
      && r.faceDownThree == m.faceDownThree && r.pileCards == m.pileCards
      && r.outPlayers == m.outPlayers
  {
    var a := m.activePlayer;
    var st := Game.ScanAll(m.hands[a] + m.faceUpThree[a], c1, c2, c3);
    var up := Sort([c1, c2, c3]);
    var hand := Sort(st.kept);
    assert multiset([c1, c2, c3]) == multiset{c1, c2, c3};
    var m1 := m.(faceUpThree := m.faceUpThree[a := up], hands := m.hands[a := hand]);
    assert m1.faceUpThree[a] == up && m1.hands[a] == hand;
    assert NextPlayer(m1) == NextPlayer(m);
    var m2 := Rotate(m1);
    if m2.activePlayer == 0 then m2.(curPhase := Game.Play) else m2
  }

  // ---------------------------------------------------------------------------
  // The Play step

  /** What the unchecked `make_play` needs in order not to panic: `cards[0]`
      must exist and every card must still be found when it is removed, or,
      with hand and faceup cards gone, a facedown card must be left to pop.
      The cards named for a facedown play are ignored. */
  predicate CanPlay(m: GameState, cards: seq<Card>)
    requires Wf(m)
  {
    var a := m.activePlayer;
    if |m.hands[a]| > 0 then |cards| > 0 && multiset(cards) <= multiset(m.hands[a])
    else if |m.faceUpThree[a]| > 0 then |cards| > 0 && multiset(cards) <= multiset(m.faceUpThree[a])
    else |m.faceDownThree[a]| > 0
  }

  predicate ZonesEmpty(m: GameState, p: nat)
    requires Wf(m) && p < m.numPlayers
  {
    m.hands[p] == [] && m.faceUpThree[p] == [] && m.faceDownThree[p] == []
  }

  /** The burn test and rotation at the end of `make_play`; a burned pile is
      dropped, there being no cleared cards to keep. */
  function Finish(m: GameState, playable: bool, v: CardValue, playerOut: bool): (o: Outcome)
    requires Wf(m)
    ensures !o.ended
  {
    if (playable && v == Ten) || TopNCardsSame(m.pileCards, m.numPlayers) then
      var m1 := m.(pileCards := []);
      Outcome(if playerOut then Rotate(m1) else m1, false)
    else
      Outcome(Rotate(m), false)
  }

  /** `make_play` once the played cards have left their zone. */
  function Resolve(m: GameState, played: seq<Card>): (o: Outcome)
    requires Wf(m) && |played| > 0
  {
    var a := m.activePlayer;
    var v := played[0].value;
    var playable := IsPlayableWithoutPickup(v, m.pileCards);
    var m1 := m.(pileCards := m.pileCards + played);
    if !playable then
      var m2 := m1.(hands := m1.hands[a := Sort(m1.hands[a] + m1.pileCards)], pileCards := []);
      Finish(m2, false, v, false)
    else if ZonesEmpty(m1, a) then
      var m2 := m1.(outPlayers := m1.outPlayers + [a]);
      if |m2.outPlayers| + 1 == m2.numPlayers then
        Outcome(m2.(outPlayers := m2.outPlayers + [NextPlayer(m2)]), true)
      else
        Finish(m2, true, v, true)
    else
      Finish(m1, true, v, false)
  }

  /** The unchecked `make_play`: cards come from the hand while it holds any,
      then from the faceup cards, and otherwise the top facedown card is
      popped and played. */
  function MakePlay(m: GameState, cards: seq<Card>): (o: Outcome)
    requires Wf(m) && CanPlay(m, cards)
  {
    var a := m.activePlayer;
    var hand := m.hands[a];
    var up := m.faceUpThree[a];
    var down := m.faceDownThree[a];
    if |hand| > 0 then
      Resolve(m.(hands := m.hands[a := Game.RemoveAll(hand, cards)]), cards)
    else if |up| > 0 then
      Resolve(m.(faceUpThree := m.faceUpThree[a := Game.RemoveAll(up, cards)]), cards)
    else
      Resolve(m.(faceDownThree := m.faceDownThree[a := down[..|down| - 1]]), [down[|down| - 1]])
  }

  /** `take_turn`: Setup reads the first three cards, Play makes a play. */
  function TakeTurn(m: GameState, cards: seq<Card>): (o: Outcome)
    requires Wf(m)
    requires m.curPhase == Game.Setup ==> |cards| >= 3
    requires m.curPhase == Game.Play ==> CanPlay(m, cards)
  {
    match m.curPhase
    case Setup => Outcome(ChooseThreeFaceup(m, cards[0], cards[1], cards[2]), false)
    case Play => MakePlay(m, cards)
  }

  // ---------------------------------------------------------------------------
  // Agreement with the engine

  /** Both `new`s deal the same game. */
  lemma NewAgrees(n: nat, deck: seq<Card>)
    requires multiset(deck) == multiset(NewDeck(n))
    ensures New(n, deck) == Project(Game.New(n, deck))
  {
  }

  /** On a choice the engine accepts, the unchecked Setup step does what the
      engine does. */
  lemma ChooseThreeFaceupAgrees(g: Game.GameState, c1: Card, c2: Card, c3: Card)
    requires Game.Wf(g) && Game.ChooseThreeFaceup(g, c1, c2, c3).result.Ok?
    ensures ChooseThreeFaceup(Project(g), c1, c2, c3) == Project(Game.ChooseThreeFaceup(g, c1, c2, c3).state)
  {
  }

  /** Where the engine refuses a faceup choice, the unchecked step still puts
      the three named cards face up, so the simulated game no longer holds the
      cards it was dealt. */
  lemma ChooseThreeFaceupUnchecked(g: Game.GameState, c1: Card, c2: Card, c3: Card)
    requires Game.Wf(g) && Game.ChooseThreeFaceup(g, c1, c2, c3).result.Err?
    ensures var a := g.activePlayer;
      !(multiset(ChooseThreeFaceup(Project(g), c1, c2, c3).faceUpThree[a])
        <= multiset(g.hands[a]) + multiset(g.faceUpThree[a]))
  {
    GameSpec.ChooseThreeFaceupAccepts(g, c1, c2, c3);
  }

  /** Every play the engine accepts is one the simulator can make. */
  lemma AcceptedCanPlay(g: Game.GameState, cards: seq<Card>)
    requires Game.Wf(g) && GameSpec.Acceptable(g, cards)
    ensures CanPlay(Project(g), cards)
  {
  }

  /** The end of a play agrees once the played cards have left their zone. */
  lemma ResolveAgrees(t: Game.GameState, z: Game.CardZone, played: seq<Card>)
    requires Game.Wf(t) && |played| > 0
    ensures var s := Game.Resolve(t, z, played);
      Resolve(Project(t), played) == Outcome(Project(s.state), s.result.value)
  {
    var a := t.activePlayer;
    var v := played[0].value;
    if !IsPlayableWithoutPickup(v, t.pileCards) {
      GameSpec.ResolvePickup(t, z, played);
    } else if Game.ZonesEmpty(t, a) && |t.outPlayers| + 2 == t.numPlayers {
      GameSpec.ResolveEnd(t, z, played);
    } else {
      GameSpec.ResolveFinish(t, z, played);
    }
  }

  /** On a play the engine accepts, the unchecked `make_play` moves the same
      cards, passes the turn the same way and reports the end of the game
      alike; it only drops the burned cards instead of keeping them. */
  lemma MakePlayAgrees(g: Game.GameState, cards: seq<Card>)
    requires Game.Wf(g) && GameSpec.Acceptable(g, cards)
    ensures CanPlay(Project(g), cards)
    ensures var s := Game.MakePlay(g, cards);
      MakePlay(Project(g), cards) == Outcome(Project(s.state), s.result.value)
  {
    var t, z, P := GameSpec.Taken(g, cards), GameSpec.PlayZone(g), GameSpec.Played(g, cards);
    GameSpec.MakePlayIsResolve(g, cards);
    ResolveAgrees(t, z, P);
    TakenAgrees(g, cards);
  }

  /** Removing the played cards agrees. */
  lemma TakenAgrees(g: Game.GameState, cards: seq<Card>)
    requires Game.Wf(g) && GameSpec.Acceptable(g, cards)
    ensures CanPlay(Project(g), cards)
    ensures MakePlay(Project(g), cards)
      == Resolve(Project(GameSpec.Taken(g, cards)), GameSpec.Played(g, cards))
  {
  }

  /** A whole turn the engine accepts agrees. */
  lemma TakeTurnAgrees(g: Game.GameState, cards: seq<Card>)
    requires Game.Wf(g) && Game.TakeTurn(g, cards).result.Ok?
    ensures var m := Project(g);
      && (m.curPhase == Game.Setup ==> |cards| >= 3)
      && (m.curPhase == Game.Play ==> CanPlay(m, cards))
      && TakeTurn(m, cards)
         == Outcome(Project(Game.TakeTurn(g, cards).state), Game.TakeTurn(g, cards).result.value)
  {
    if g.curPhase == Game.Setup {
      ChooseThreeFaceupAgrees(g, cards[0], cards[1], cards[2]);
    } else {
      GameSpec.MakePlayAcceptsExactly(g, cards);
      MakePlayAgrees(g, cards);
    }
  }
}
