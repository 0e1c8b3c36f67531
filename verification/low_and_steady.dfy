/** The "Low and Steady" computer player
    (palace_server/src/ai/low_and_steady.rs): it plays the first card of its
    zone that goes on the pile without a pickup, together with the equal
    cards right after it, and keeps its own copy of its hand, its faceup
    cards and the pile from the updates the server sends. */
module LowAndSteady {
  import opened Outcomes
  import opened Cards
  import opened Pile
  import Game
  import GameSpec

  datatype LowAndSteadyAi = LowAndSteadyAi(
    hand: seq<Card>,
    faceupCards: seq<Card>,
    turnNumber: nat,
    curPile: seq<Card>)

  /** `new`: it knows nothing yet. */
  function New(): LowAndSteadyAi {
    LowAndSteadyAi([], [], 0, [])
  }

  // ---------------------------------------------------------------------------
  // loewst_playable_cards

  /** The card at `k` goes on the pile without a pickup. */
  predicate PlayableAt(zone: seq<Card>, pile: seq<Card>, k: nat)
    requires k < |zone|
  {
    IsPlayableWithoutPickup(zone[k].value, pile)
  }

  /** `zone[i..j]` is the lowest playable run: `i` is the first playable
      position and `j` ends the cards equal in value to `zone[i]` that follow
      it without a gap. */
  predicate LowestRun(zone: seq<Card>, pile: seq<Card>, i: nat, j: nat) {
    && i < j <= |zone|
    && PlayableAt(zone, pile, i)
    && (forall k :: 0 <= k < i ==> !PlayableAt(zone, pile, k))
    && (forall k :: i <= k < j ==> zone[k].value == zone[i].value)
    && (j == |zone| || zone[j].value != zone[i].value)
  }

  /** The first loop: the first playable position at or after `i`. */
  function FirstPlayable(zone: seq<Card>, pile: seq<Card>, i: nat): (r: Option<nat>)
    requires i <= |zone|
    ensures r.None? ==> forall k :: i <= k < |zone| ==> !PlayableAt(zone, pile, k)
    ensures r.Some? ==>
      && i <= r.value < |zone| && PlayableAt(zone, pile, r.value)
      && (forall k :: i <= k < r.value ==> !PlayableAt(zone, pile, k))
    decreases |zone| - i
  {
    if i == |zone| then None
    else if PlayableAt(zone, pile, i) then Some(i)
    else FirstPlayable(zone, pile, i + 1)
  }

  /** The inner loop: from `j` on, the first position whose value is not `v`. */
  function RunEnd(zone: seq<Card>, v: CardValue, j: nat): (e: nat)
    requires j <= |zone|
    ensures j <= e <= |zone|
    ensures forall k :: j <= k < e ==> zone[k].value == v
    ensures e == |zone| || zone[e].value != v
    decreases |zone| - j
  {
    if j == |zone| || zone[j].value != v then j else RunEnd(zone, v, j + 1)
  }

  /** `loewst_playable_cards`: the lowest playable run, or the first card of
      the zone when nothing is playable. An empty zone would make the source
      unwrap `None`. */
  function LowestPlayableCards(zone: seq<Card>, pile: seq<Card>): (play: seq<Card>)
    requires |zone| > 0
    ensures (exists k :: 0 <= k < |zone| && PlayableAt(zone, pile, k)) ==>
      exists i: nat, j: nat :: LowestRun(zone, pile, i, j) && play == zone[i..j]
    ensures (forall k :: 0 <= k < |zone| ==> !PlayableAt(zone, pile, k)) ==> play == [zone[0]]
  {
    match FirstPlayable(zone, pile, 0)
    case None => [zone[0]]
    case Some(i) =>
      var j := RunEnd(zone, zone[i].value, i + 1);
      assert LowestRun(zone, pile, i, j);
      zone[i..j]
  }

  /** The lowest playable run is unique, so the contract above pins the play
      down completely. */
  lemma LowestRunUnique(zone: seq<Card>, pile: seq<Card>, i: nat, j: nat, i': nat, j': nat)
    requires LowestRun(zone, pile, i, j) && LowestRun(zone, pile, i', j')
    ensures i == i' && j == j'
  {
  }

  /** The play is always a non-empty slice of the zone whose cards share one
      value, and it goes on the pile without a pickup exactly when some card
      of the zone would. */
  lemma LowestPlayableCardsShape(zone: seq<Card>, pile: seq<Card>)
    requires |zone| > 0
    ensures var play := LowestPlayableCards(zone, pile);
      && |play| > 0 && Game.SameValue(play)
      && (exists i: nat, j: nat :: i < j <= |zone| && play == zone[i..j])
      && (IsPlayableWithoutPickup(play[0].value, pile) <==>
            exists k :: 0 <= k < |zone| && PlayableAt(zone, pile, k))
  {
    var play := LowestPlayableCards(zone, pile);
    if exists k :: 0 <= k < |zone| && PlayableAt(zone, pile, k) {
      var i: nat, j: nat :| LowestRun(zone, pile, i, j) && play == zone[i..j];
      assert play[0] == zone[i];
      assert forall k :: 0 <= k < |play| ==> play[k] == zone[i + k];
    } else {
      assert play == zone[0..1];
      assert !PlayableAt(zone, pile, 0);
    }
  }

  /** A slice of a zone holds some of the zone's cards. */
  lemma SliceOwned(zone: seq<Card>, i: nat, j: nat)
    requires i <= j <= |zone|
    ensures multiset(zone[i..j]) <= multiset(zone)
  {
    assert zone == zone[..i] + zone[i..j] + zone[j..];
  }

  // ---------------------------------------------------------------------------
  // The PalaceAi callbacks

  /** `choose_three_faceup`: it keeps the faceup cards it was dealt. */
  function ChooseThreeFaceup(ai: LowAndSteadyAi): (choice: seq<Card>)
  {
    ai.faceupCards
  }

  /** When the player knows the faceup cards it was dealt, the engine accepts
      its Setup choice. */
  lemma ChooseThreeFaceupAccepted(ai: LowAndSteadyAi, g: Game.GameState)
    requires Game.Wf(g) && g.curPhase == Game.Setup
    requires ai.faceupCards == g.faceUpThree[g.activePlayer] && |ai.faceupCards| == 3
    ensures Game.TakeTurn(g, ChooseThreeFaceup(ai)).result.Ok?
  {
    var a := g.activePlayer;
    var c := ai.faceupCards;
    assert multiset{c[0], c[1], c[2]} == multiset(c) by {
      assert c == [c[0], c[1], c[2]];
    }
    GameSpec.ChooseThreeFaceupAccepts(g, c[0], c[1], c[2]);
  }

  /** `make_play`: the lowest playable run of the hand while it holds cards,
      else of the faceup cards after they have been rearranged.
      `sort_zone_low_to_high_specials_in_back` is not a consistent order (two
      Fours each compare greater than the other), so the rearrangement is the
      parameter `arranged`, any permutation of the faceup cards. With both
      zones empty the source would unwrap `None`; the server never asks it
      then. */
  function MakePlay(ai: LowAndSteadyAi, arranged: seq<Card>): (r: (LowAndSteadyAi, seq<Card>))
    requires |ai.hand| > 0 || |ai.faceupCards| > 0
    requires multiset(arranged) == multiset(ai.faceupCards)
    ensures |ai.hand| > 0 ==> r.0 == ai && r.1 == LowestPlayableCards(ai.hand, ai.curPile)
    ensures |ai.hand| == 0 ==>
      r.0 == ai.(faceupCards := arranged) && r.1 == LowestPlayableCards(arranged, ai.curPile)
  {
    if |ai.hand| > 0 then (ai, LowestPlayableCards(ai.hand, ai.curPile))
    else
      assert |arranged| == |multiset(ai.faceupCards)| == |ai.faceupCards|;
      (ai.(faceupCards := arranged), LowestPlayableCards(arranged, ai.curPile))
  }

  /** When the player's copies of its hand and faceup cards hold what the
      engine holds, the engine accepts its play: a non-empty run of one value
      from the zone the engine draws from. */
  lemma MakePlayAccepted(ai: LowAndSteadyAi, arranged: seq<Card>, g: Game.GameState)
    requires Game.Wf(g) && g.curPhase == Game.Play
    requires multiset(ai.hand) == multiset(g.hands[g.activePlayer])
    requires multiset(ai.faceupCards) == multiset(g.faceUpThree[g.activePlayer])
    requires |ai.hand| > 0 || |ai.faceupCards| > 0
    requires multiset(arranged) == multiset(ai.faceupCards)
    ensures Game.TakeTurn(g, MakePlay(ai, arranged).1).result.Ok?
  {
    var a := g.activePlayer;
    var zone := if |ai.hand| > 0 then ai.hand else arranged;
    assert |zone| > 0 by {
      assert |arranged| == |multiset(arranged)|;
    }
    assert |ai.hand| == |g.hands[a]| by {
      assert |multiset(ai.hand)| == |multiset(g.hands[a])|;
    }
    assert |ai.faceupCards| == |g.faceUpThree[a]| by {
      assert |multiset(ai.faceupCards)| == |multiset(g.faceUpThree[a])|;
    }
    var play := MakePlay(ai, arranged).1;
    assert play == LowestPlayableCards(zone, ai.curPile);
    LowestPlayableCardsShape(zone, ai.curPile);
    var i: nat, j: nat :| i < j <= |zone| && play == zone[i..j];
    SliceOwned(zone, i, j);
    GameSpec.MakePlayAcceptsExactly(g, play);
  }

  /** `on_game_state_update`: the faceup copy becomes the player's public
      faceup cards; the pile copy is dropped when the pile is empty and
      otherwise grows by the last play. The source indexes the faceup zones
      by the player's turn number. */
  function OnGameStateUpdate(ai: LowAndSteadyAi, ps: Game.PublicGameState): (r: LowAndSteadyAi)
    requires ai.turnNumber < |ps.faceUpThree|
    ensures r.hand == ai.hand && r.turnNumber == ai.turnNumber
    ensures r.faceupCards == ps.faceUpThree[ai.turnNumber]
    ensures ps.pileSize == 0 ==> r.curPile == []
    ensures ps.pileSize != 0 ==> r.curPile == ai.curPile + ps.lastCardsPlayed
  {
    ai.(faceupCards := ps.faceUpThree[ai.turnNumber],
        curPile := if ps.pileSize == 0 then [] else ai.curPile + ps.lastCardsPlayed)
  }

  /** `on_game_start`: the dealt hand is added to the hand copy and the turn
      number recorded. */
  function OnGameStart(ai: LowAndSteadyAi, hand: seq<Card>, turnNumber: nat): (r: LowAndSteadyAi)
    ensures r.hand == ai.hand + hand && r.turnNumber == turnNumber
    ensures r.faceupCards == ai.faceupCards && r.curPile == ai.curPile
  {
    ai.(hand := ai.hand + hand, turnNumber := turnNumber)
  }

  /** A new player that is told its dealt hand and seat, and then the
      public view of the fresh deal, holds copies of exactly its own hand,
      faceup cards and the pile; so when its seat moves first, the engine
      accepts its Setup choice. */
  lemma StartMatchesDeal(n: nat, deck: seq<Card>, t: nat)
    requires multiset(deck) == multiset(NewDeck(n)) && t < n
    ensures var g := Game.New(n, deck);
      var ai := OnGameStateUpdate(OnGameStart(New(), g.hands[t], t), Game.PublicState(g));
      && ai.hand == g.hands[t] && ai.turnNumber == t
      && ai.faceupCards == g.faceUpThree[t] && ai.curPile == g.pileCards
      && (t == 0 ==> Game.TakeTurn(g, ChooseThreeFaceup(ai)).result.Ok?)
  {
    var g := Game.New(n, deck);
    var ai := OnGameStateUpdate(OnGameStart(New(), g.hands[t], t), Game.PublicState(g));
    assert ai.faceupCards == g.faceUpThree[t];
    if t == 0 {
      ChooseThreeFaceupAccepted(ai, g);
    }
  }

  /** `on_hand_update`: the hand copy becomes the new hand, rearranged as
      `arranged` (see `MakePlay` for why the order is a parameter). */
  function OnHandUpdate(ai: LowAndSteadyAi, newHand: seq<Card>, arranged: seq<Card>): (r: LowAndSteadyAi)
    requires multiset(arranged) == multiset(newHand)
    ensures multiset(r.hand) == multiset(newHand) && |r.hand| == |newHand|
    ensures r.faceupCards == ai.faceupCards && r.turnNumber == ai.turnNumber && r.curPile == ai.curPile
  {
    assert |arranged| == |multiset(arranged)|;
    ai.(hand := arranged)
  }

  // ---------------------------------------------------------------------------
  // The pile copy follows the engine

  /** When the player's pile copy matches the engine's pile before an
      accepted play, the update the server sends afterwards keeps it
      matching: a pickup or a burn empties both, and any other play puts the
      played cards on both. */
  lemma PileTracked(g: Game.GameState, cards: seq<Card>, ai: LowAndSteadyAi)
    requires Game.Wf(g) && g.curPhase == Game.Play
    requires ai.curPile == g.pileCards && ai.turnNumber < g.numPlayers
    requires Game.MakePlay(g, cards).result.Ok?
    ensures var h := Game.MakePlay(g, cards).state;
      OnGameStateUpdate(ai, Game.PublicState(h)).curPile == h.pileCards
  {
    var s := Game.MakePlay(g, cards);
    var h := s.state;
    GameSpec.MakePlayAcceptsExactly(g, cards);
    GameSpec.MakePlayZones(g, cards);
    assert h.lastCardsPlayed == GameSpec.Played(g, cards);
    assert h.pileCards == [] || h.pileCards == g.pileCards + GameSpec.Played(g, cards) by {
      PileOutcome(g, cards);
    }
  }

  /** After an accepted play the pile is either empty or the old pile with
      the played cards on top. */
  lemma PileOutcome(g: Game.GameState, cards: seq<Card>)
    requires Game.Wf(g) && GameSpec.Acceptable(g, cards)
    ensures var h := Game.MakePlay(g, cards).state;
      h.pileCards == [] || h.pileCards == g.pileCards + GameSpec.Played(g, cards)
  {
    var v := GameSpec.PlayValue(g, cards);
    if !IsPlayableWithoutPickup(v, g.pileCards) {
      GameSpec.MakePlayPicksUp(g, cards);
    } else if GameSpec.LastCards(g, cards) && |g.outPlayers| + 2 == g.numPlayers {
      GameSpec.MakePlayEndsGame(g, cards);
    } else if v == Ten || TopNCardsSame(g.pileCards + GameSpec.Played(g, cards), g.numPlayers) {
      GameSpec.MakePlayBurns(g, cards);
    } else {
      GameSpec.MakePlayPasses(g, cards);
    }
  }
}
