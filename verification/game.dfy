/** The rules engine of palace_server/src/game.rs: the game record, the deal,
    the Setup step (`choose_three_faceup`), the Play step (`make_play`) and
    turn rotation. Every step returns the state it leaves behind together
    with its result, so that "a rejected step leaves the game untouched" is a
    statement about the model rather than a convention. */
module Game {
  import opened Outcomes
  import opened Cards
  import opened Pile

  datatype Phase = Setup | Play

  datatype CardZone = Hand | FaceUpThree | FaceDownThree

  /** The engine's error strings, one constructor each. `DuplicateCard` and
      `NoFaceDownCard` stand for two inputs on which the engine panics. */
  datatype GameError =
    | WrongCardCount   // "During setup, must choose exactly three cards"
    | FaceupNotOwned   // "Chosen three faceup cards are not in hand / already faceup cards"
    | TooManyCards     // "Can't play more cards than you have"
    | CardsWithFaceDown // "Can't choose any cards when playing from the face down three"
    | NoCardsChosen    // "Have to play at least one card"
    | MixedValues      // "Can only play multiple cards if each card has the same value"
    | CardNotOwned     // "can only play cards that you have"
    | DuplicateCard    // a card listed more often than the zone holds it
    | NoFaceDownCard   // the facedown zone is empty when it is drawn from

  /** `GameState` without the turn timer. Player-indexed zones are sequences of
      length `numPlayers`; the top of the pile is its last card. */
  datatype GameState = GameState(
    activePlayer: nat,
    numPlayers: nat,
    hands: seq<seq<Card>>,
    faceUpThree: seq<seq<Card>>,
    faceDownThree: seq<seq<Card>>,
    clearedCards: seq<Card>,
    pileCards: seq<Card>,
    curPhase: Phase,
    lastCardsPlayed: seq<Card>,
    outPlayers: seq<nat>,
    lastPlayedZone: Option<CardZone>)

  /** The shape every state has: one zone of each kind per player, the active
      player and every finished player are player indices. */
  predicate Wf(g: GameState) {
    && |g.hands| == g.numPlayers
    && |g.faceUpThree| == g.numPlayers
    && |g.faceDownThree| == g.numPlayers
    && g.activePlayer < g.numPlayers
    && forall i :: 0 <= i < |g.outPlayers| ==> g.outPlayers[i] < g.numPlayers
  }

  /** `h` has as many players and zones as `g`. */
  predicate SameShape(g: GameState, h: GameState) {
    && h.numPlayers == g.numPlayers
    && |h.hands| == |g.hands| && |h.faceUpThree| == |g.faceUpThree|
    && |h.faceDownThree| == |g.faceDownThree|
  }

  /** The state a step leaves behind and what it returns. */
  datatype Step<T> = Step(state: GameState, result: Result<T, GameError>)

  /** Every card in the game: all zones, the pile and the cleared cards. */
  ghost function Total(g: GameState): multiset<Card> {
    Flatten(g.hands) + Flatten(g.faceUpThree) + Flatten(g.faceDownThree)
      + multiset(g.pileCards) + multiset(g.clearedCards)
  }

  // ---------------------------------------------------------------------------
  // The deal

  function FaceUpDeal(deck: seq<Card>, n: nat): seq<seq<Card>>
    requires |deck| >= 12 * n
  {
    seq(n, p requires 0 <= p < n => deck[12 * p .. 12 * p + 3])
  }

  function FaceDownDeal(deck: seq<Card>, n: nat): seq<seq<Card>>
    requires |deck| >= 12 * n
  {
    seq(n, p requires 0 <= p < n => deck[12 * p + 3 .. 12 * p + 6])
  }

  function HandDeal(deck: seq<Card>, n: nat): seq<seq<Card>>
    requires |deck| >= 12 * n
  {
    seq(n, p requires 0 <= p < n => deck[12 * p + 6 .. 12 * p + 12])
  }

  /** `GameState::new(num_players)` dealing from `deck`, the shuffled
      `new_deck(num_players)`: each player in turn takes three faceup, three
      facedown and `HAND_SIZE` hand cards off the front. The shuffle itself is
      the caller's choice of `deck`. */
  function New(n: nat, deck: seq<Card>): (g: GameState)
    requires multiset(deck) == multiset(NewDeck(n))
    ensures Wf(g) <==> n >= 1
    ensures g.activePlayer == 0 && g.numPlayers == n && g.curPhase == Setup
    ensures g.pileCards == [] && g.clearedCards == [] && g.outPlayers == []
    ensures g.lastCardsPlayed == [] && g.lastPlayedZone == None
    ensures |g.hands| == |g.faceUpThree| == |g.faceDownThree| == n
    ensures forall p :: 0 <= p < n ==>
      |g.faceUpThree[p]| == 3 && |g.faceDownThree[p]| == 3 && |g.hands[p]| == HAND_SIZE
  {
    assert |deck| == |NewDeck(n)| == 13 * n by {
      assert |multiset(deck)| == |multiset(NewDeck(n))|;
    }
    GameState(0, n, HandDeal(deck, n), FaceUpDeal(deck, n), FaceDownDeal(deck, n),
              [], [], Setup, [], [], None)
  }

  // ---------------------------------------------------------------------------
  // Turn rotation

  /** The first loop of `next_player`: the least index at or after `j` that is
      not a finished player. */
  function SkipOut(out: seq<nat>, j: nat, n: nat): (k: nat)
    requires forall i :: 0 <= i < |out| ==> out[i] < n
    ensures j <= k && k !in out
    ensures forall m :: j <= m < k ==> m in out
    ensures j <= n ==> k <= n
    decreases n - j
  {
    if j in out then SkipOut(out, j + 1, n) else j
  }

  /** `next_player`: skip finished players upwards from the active player's
      successor, wrap to 0 on reaching `numPlayers`, and skip again. */
  function NextPlayerOf(out: seq<nat>, active: nat, n: nat): nat
    requires active < n
    requires forall i :: 0 <= i < |out| ==> out[i] < n
  {
    var j := SkipOut(out, active + 1, n);
    SkipOut(out, if j == n then 0 else j, n)
  }

  function NextPlayer(g: GameState): nat
    requires Wf(g)
  {
    NextPlayerOf(g.outPlayers, g.activePlayer, g.numPlayers)
  }

  /** `rotate_play` without the turn timer. */
  function Rotate(g: GameState): (r: GameState)
    requires Wf(g)
  {
    g.(activePlayer := NextPlayer(g))
  }

  /** How many seats after `a`, going round the table, seat `b` comes;
      `a` itself comes last. */
  function Dist(a: nat, b: nat, n: nat): nat
    requires a < n && b < n
  {
    if a < b then b - a - 1 else b + n - a - 1
  }

  // ---------------------------------------------------------------------------
  // The Setup step

  /** The flags and the new hand of the scan in `choose_three_faceup`. */
  datatype Scan = Scan(oneRemoved: bool, twoRemoved: bool, threeRemoved: bool, kept: seq<Card>)

  /** One iteration of the scan: `c` cancels the first chosen card it equals
      that is not yet cancelled, and is kept otherwise. */
  function ScanCard(st: Scan, c: Card, c1: Card, c2: Card, c3: Card): Scan {
    if c == c1 && !st.oneRemoved then st.(oneRemoved := true)
    else if c == c2 && !st.twoRemoved then st.(twoRemoved := true)
    else if c == c3 && !st.threeRemoved then st.(threeRemoved := true)
    else st.(kept := st.kept + [c])
  }

  function ScanAll(cards: seq<Card>, c1: Card, c2: Card, c3: Card): Scan {
    if |cards| == 0 then Scan(false, false, false, [])
    else ScanCard(ScanAll(cards[..|cards| - 1], c1, c2, c3), cards[|cards| - 1], c1, c2, c3)
  }

  /** The chosen cards the scan has not cancelled yet. */
  function Wanted(st: Scan, c1: Card, c2: Card, c3: Card): multiset<Card> {
    (if st.oneRemoved then multiset{} else multiset{c1})
      + (if st.twoRemoved then multiset{} else multiset{c2})
      + (if st.threeRemoved then multiset{} else multiset{c3})
  }

  /** A card cancels a wanted copy of itself when there is one and is kept
      otherwise. */
  lemma ScanCardAccounts(st: Scan, c: Card, c1: Card, c2: Card, c3: Card)
    ensures Wanted(ScanCard(st, c, c1, c2, c3), c1, c2, c3) == Wanted(st, c1, c2, c3) - multiset{c}
    ensures multiset(ScanCard(st, c, c1, c2, c3).kept)
      == multiset(st.kept) + (multiset{c} - Wanted(st, c1, c2, c3))
  {
    if c == c1 && !st.oneRemoved {
      ScanCancelsOne(st, c, c1, c2, c3);
    } else if c == c2 && !st.twoRemoved {
      ScanCancelsTwo(st, c, c1, c2, c3);
    } else if c == c3 && !st.threeRemoved {
      ScanCancelsThree(st, c, c1, c2, c3);
    } else {
      ScanKeeps(st, c, c1, c2, c3);
    }
  }

  lemma ScanCancelsOne(st: Scan, c: Card, c1: Card, c2: Card, c3: Card)
    requires c == c1 && !st.oneRemoved
    ensures ScanCard(st, c, c1, c2, c3) == st.(oneRemoved := true)
    ensures Wanted(st.(oneRemoved := true), c1, c2, c3) == Wanted(st, c1, c2, c3) - multiset{c}
    ensures multiset{c} - Wanted(st, c1, c2, c3) == multiset{}
  {
    var rest2 := if st.twoRemoved then multiset{} else multiset{c2};
    var rest3 := if st.threeRemoved then multiset{} else multiset{c3};
    var w, w' := Wanted(st, c1, c2, c3), Wanted(st.(oneRemoved := true), c1, c2, c3);
    forall x
      ensures w'[x] == (w - multiset{c})[x]
    {
    }
    assert w' == w - multiset{c};
    assert multiset{c} - w == multiset{} by { CoveredCard(c, w); }
  }

  lemma ScanCancelsTwo(st: Scan, c: Card, c1: Card, c2: Card, c3: Card)
    requires !(c == c1 && !st.oneRemoved) && c == c2 && !st.twoRemoved
    ensures ScanCard(st, c, c1, c2, c3) == st.(twoRemoved := true)
    ensures Wanted(st.(twoRemoved := true), c1, c2, c3) == Wanted(st, c1, c2, c3) - multiset{c}
    ensures multiset{c} - Wanted(st, c1, c2, c3) == multiset{}
  {
    var rest1 := if st.oneRemoved then multiset{} else multiset{c1};
    var rest3 := if st.threeRemoved then multiset{} else multiset{c3};
    var w, w' := Wanted(st, c1, c2, c3), Wanted(st.(twoRemoved := true), c1, c2, c3);
    forall x
      ensures w'[x] == (w - multiset{c})[x]
    {
    }
    assert w' == w - multiset{c};
    assert multiset{c} - w == multiset{} by { CoveredCard(c, w); }
  }

  lemma ScanCancelsThree(st: Scan, c: Card, c1: Card, c2: Card, c3: Card)
    requires !(c == c1 && !st.oneRemoved) && !(c == c2 && !st.twoRemoved)
    requires c == c3 && !st.threeRemoved
    ensures ScanCard(st, c, c1, c2, c3) == st.(threeRemoved := true)
    ensures Wanted(st.(threeRemoved := true), c1, c2, c3) == Wanted(st, c1, c2, c3) - multiset{c}
    ensures multiset{c} - Wanted(st, c1, c2, c3) == multiset{}
  {
    var rest1 := if st.oneRemoved then multiset{} else multiset{c1};
    var rest2 := if st.twoRemoved then multiset{} else multiset{c2};
    var w, w' := Wanted(st, c1, c2, c3), Wanted(st.(threeRemoved := true), c1, c2, c3);
    forall x
      ensures w'[x] == (w - multiset{c})[x]
    {
    }
    assert w' == w - multiset{c};
    assert multiset{c} - w == multiset{} by { CoveredCard(c, w); }
  }

  lemma ScanKeeps(st: Scan, c: Card, c1: Card, c2: Card, c3: Card)
    requires !(c == c1 && !st.oneRemoved) && !(c == c2 && !st.twoRemoved)
    requires !(c == c3 && !st.threeRemoved)
    ensures ScanCard(st, c, c1, c2, c3) == st.(kept := st.kept + [c])
    ensures Wanted(st.(kept := st.kept + [c]), c1, c2, c3) == Wanted(st, c1, c2, c3) - multiset{c}
    ensures multiset{c} - Wanted(st, c1, c2, c3) == multiset{c}
  {
    var rest1 := if st.oneRemoved then multiset{} else multiset{c1};
    var rest2 := if st.twoRemoved then multiset{} else multiset{c2};
    var rest3 := if st.threeRemoved then multiset{} else multiset{c3};
    assert Wanted(st, c1, c2, c3) == rest1 + rest2 + rest3;
    assert c !in rest1 && c !in rest2 && c !in rest3;
    UncoveredCard(c, Wanted(st, c1, c2, c3));
  }

  lemma CoveredCard(c: Card, w: multiset<Card>)
    requires c in w
    ensures multiset{c} - w == multiset{}
  {
  }

  lemma UncoveredCard(c: Card, w: multiset<Card>)
    requires c !in w
    ensures w - multiset{c} == w && multiset{c} - w == multiset{c}
  {
  }

  /** The scan cancels exactly the chosen cards that the scanned cards cover,
      counting multiplicity, and keeps exactly the rest. */
  lemma {:induction false} ScanAllAccounts(cards: seq<Card>, c1: Card, c2: Card, c3: Card)
    ensures Wanted(ScanAll(cards, c1, c2, c3), c1, c2, c3) == multiset{c1, c2, c3} - multiset(cards)
    ensures multiset(ScanAll(cards, c1, c2, c3).kept) == multiset(cards) - multiset{c1, c2, c3}
  {
    if |cards| > 0 {
      var front := cards[..|cards| - 1];
      var c := cards[|cards| - 1];
      assert cards == front + [c];
      ScanAllAccounts(front, c1, c2, c3);
      ScanCardAccounts(ScanAll(front, c1, c2, c3), c, c1, c2, c3);
      SubtractTwice(multiset{c1, c2, c3}, multiset(front), multiset{c});
      KeptGrows(multiset{c1, c2, c3}, multiset(front), c);
    }
  }

  lemma SubtractTwice(a: multiset<Card>, b: multiset<Card>, c: multiset<Card>)
    ensures (a - b) - c == a - (b + c)
  {
    forall y
      ensures ((a - b) - c)[y] == (a - (b + c))[y]
    {
    }
  }

  /** One more scanned card `c` is kept exactly when no wanted copy remains. */
  lemma KeptGrows(chosen: multiset<Card>, m: multiset<Card>, c: Card)
    ensures (m - chosen) + (multiset{c} - (chosen - m)) == (m + multiset{c}) - chosen
  {
    forall y
      ensures ((m - chosen) + (multiset{c} - (chosen - m)))[y] == ((m + multiset{c}) - chosen)[y]
    {
    }
  }

  /** The result of the scan over the active player's hand followed by their
      faceup cards. */
  function SetupScan(g: GameState, c1: Card, c2: Card, c3: Card): Scan
    requires Wf(g)
  {
    ScanAll(g.hands[g.activePlayer] + g.faceUpThree[g.activePlayer], c1, c2, c3)
  }

  /** `choose_three_faceup`: the three chosen cards must all be found among the
      active player's hand and faceup cards; then they become the sorted faceup
      zone, the rest becomes the sorted hand, the turn rotates, and the phase
      turns to Play once the turn is back at player 0. */
  function ChooseThreeFaceup(g: GameState, c1: Card, c2: Card, c3: Card): (s: Step<()>)
    requires Wf(g)
    ensures s.result.Err? ==> s.state == g && s.result.error == FaceupNotOwned
    ensures SameShape(g, s.state)
  {
    var a := g.activePlayer;
    var st := SetupScan(g, c1, c2, c3);
    if !(st.oneRemoved && st.twoRemoved && st.threeRemoved) then
      Step(g, Err(FaceupNotOwned))
    else
      var g1 := g.(faceUpThree := g.faceUpThree[a := Sort([c1, c2, c3])],
                   hands := g.hands[a := Sort(st.kept)]);
      var g2 := Rotate(g1);
      Step(if g2.activePlayer == 0 then g2.(curPhase := Play) else g2, Ok(()))
  }

  /** Rotation never leaves the table when some player is not finished. */
  lemma SkipOutBound(g: GameState)
    requires Wf(g)
    ensures NextPlayer(g) < g.numPlayers || forall p :: 0 <= p < g.numPlayers ==> p in g.outPlayers
  {
    var n := g.numPlayers;
    var j := SkipOut(g.outPlayers, g.activePlayer + 1, n);
    var j' := if j == n then 0 else j;
    var r := SkipOut(g.outPlayers, j', n);
    assert j <= n;
    if j < n {
      assert r == j;
    }
  }

  // ---------------------------------------------------------------------------
  // The Play step

  /** The ownership checks of `make_play`, in the order of the played list:
      the first card of another value, or (outside the facedown zone) the
      first card the zone lacks, decides the error. */
  function CheckCards(cards: seq<Card>, v: CardValue, zone: CardZone, owned: seq<Card>): (r: Option<GameError>)
    ensures r == None <==>
      forall i :: 0 <= i < |cards| ==> cards[i].value == v && (zone != FaceDownThree ==> cards[i] in owned)
    ensures r == None || r == Some(MixedValues) || r == Some(CardNotOwned)
    ensures r == Some(MixedValues) <==>
      exists i :: 0 <= i < |cards| && cards[i].value != v && PassUpTo(cards, i, v, zone, owned)
    ensures r == Some(CardNotOwned) <==>
      exists i :: 0 <= i < |cards| && cards[i].value == v && zone != FaceDownThree && cards[i] !in owned
        && PassUpTo(cards, i, v, zone, owned)
  {
    if |cards| == 0 then None
    else if cards[0].value != v then
      assert PassUpTo(cards, 0, v, zone, owned);
      Some(MixedValues)
    else if zone != FaceDownThree && cards[0] !in owned then
      assert PassUpTo(cards, 0, v, zone, owned);
      Some(CardNotOwned)
    else
      var r := CheckCards(cards[1..], v, zone, owned);
      assert forall i :: 1 <= i < |cards| ==> cards[i] == cards[1..][i - 1];
      PassUpToShift(cards, v, zone, owned);
      r
  }

  /** Every card before position `i` passes both per-card checks. */
  predicate PassUpTo(cards: seq<Card>, i: nat, v: CardValue, zone: CardZone, owned: seq<Card>)
    requires i <= |cards|
  {
    forall j :: 0 <= j < i ==> cards[j].value == v && (zone != FaceDownThree ==> cards[j] in owned)
  }

  /** When the first card passes, the cards before position `i + 1` pass
      exactly when those of the tail before `i` do. */
  lemma PassUpToShift(cards: seq<Card>, v: CardValue, zone: CardZone, owned: seq<Card>)
    requires |cards| > 0 && cards[0].value == v && (zone != FaceDownThree ==> cards[0] in owned)
    ensures forall i :: 0 <= i < |cards| ==>
      (PassUpTo(cards, i + 1, v, zone, owned) <==> PassUpTo(cards[1..], i, v, zone, owned))
  {
    forall i | 0 <= i < |cards|
      ensures PassUpTo(cards, i + 1, v, zone, owned) <==> PassUpTo(cards[1..], i, v, zone, owned)
    {
      assert forall j :: 0 <= j < i ==> cards[1..][j] == cards[j + 1];
    }
  }

  /** All cards of the list share one value. */
  predicate SameValue(cards: seq<Card>) {
    forall i :: 0 <= i < |cards| ==> cards[i].value == cards[0].value
  }

  /** Validation of a play drawn from `zone`, whose cards are `owned`: a
      non-empty list of one value whose cards the zone holds, counting
      multiplicity. The multiplicity test replaces the panic of the second
      `binary_search(..).unwrap()` (game.rs line 276) by an error. */
  function Validate(cards: seq<Card>, zone: CardZone, owned: seq<Card>): (r: Option<GameError>)
    ensures r == None <==>
      |cards| > 0 && SameValue(cards) && (zone != FaceDownThree ==> multiset(cards) <= multiset(owned))
  {
    SubMultisetMembers(cards, owned);
    if |cards| == 0 then Some(NoCardsChosen)
    else match CheckCards(cards, cards[0].value, zone, owned)
      case Some(e) => Some(e)
      case None =>
        if zone != FaceDownThree && !(multiset(cards) <= multiset(owned)) then Some(DuplicateCard)
        else None
  }

  /** Cards of a sub-multiset are members. */
  lemma SubMultisetMembers(cards: seq<Card>, owned: seq<Card>)
    ensures multiset(cards) <= multiset(owned) ==> forall i :: 0 <= i < |cards| ==> cards[i] in owned
  {
    if multiset(cards) <= multiset(owned) {
      forall i | 0 <= i < |cards|
        ensures cards[i] in owned
      {
        assert cards[i] in multiset(cards);
      }
    }
  }

  /** The removal loop of `make_play`: each played card in turn is taken out of
      the zone. The zones are sorted (see `GameInvariant`), so the copy that
      `binary_search` finds and `Vec::remove` deletes gives the same sequence
      as removing the first copy. */
  function RemoveAll(zone: seq<Card>, cards: seq<Card>): (r: seq<Card>)
    ensures multiset(cards) <= multiset(zone) ==>
      multiset(r) == multiset(zone) - multiset(cards) && |r| == |zone| - |cards|
    decreases |cards|
  {
    if |cards| == 0 then zone
    else
      var rest := RemoveFirst(zone, cards[0]);
      var r := RemoveAll(rest, cards[1..]);
      RemoveAllStep(zone, cards, rest, r);
      r
  }

  /** One step of `RemoveAll`: taking the first card out, then the others,
      takes all of them out. */
  lemma RemoveAllStep<T>(zone: seq<T>, cards: seq<T>, rest: seq<T>, r: seq<T>)
    requires |cards| > 0
    requires cards[0] in zone ==> multiset(rest) == multiset(zone) - multiset{cards[0]} && |rest| == |zone| - 1
    requires multiset(cards[1..]) <= multiset(rest) ==>
      multiset(r) == multiset(rest) - multiset(cards[1..]) && |r| == |rest| - |cards[1..]|
    ensures multiset(cards) <= multiset(zone) ==>
      multiset(r) == multiset(zone) - multiset(cards) && |r| == |zone| - |cards|
  {
    var c, tail, mz := multiset{cards[0]}, multiset(cards[1..]), multiset(zone);
    assert multiset(cards) == c + tail by {
      assert cards == [cards[0]] + cards[1..];
    }
    if c + tail <= mz {
      PeelSub(cards[0], tail, mz);
      PeelDiff(c, tail, mz, multiset(rest), multiset(r));
    }
  }

  /** The cards of `zone` for the active player. */
  function ZoneCards(g: GameState, zone: CardZone): seq<Card>
    requires Wf(g)
  {
    match zone
    case Hand => g.hands[g.activePlayer]
    case FaceUpThree => g.faceUpThree[g.activePlayer]
    case FaceDownThree => g.faceDownThree[g.activePlayer]
  }

  /** Removes the played cards from the active player's hand or faceup zone;
      a facedown card has already been popped. */
  function Take(g: GameState, zone: CardZone, cards: seq<Card>): (r: GameState)
    requires Wf(g)
    ensures Wf(r) && SameShape(g, r)
  {
    var a := g.activePlayer;
    match zone
    case Hand => g.(hands := g.hands[a := RemoveAll(g.hands[a], cards)])
    case FaceUpThree => g.(faceUpThree := g.faceUpThree[a := RemoveAll(g.faceUpThree[a], cards)])
    case FaceDownThree => g
  }

  /** The active player holds no card in any zone. */
  predicate ZonesEmpty(g: GameState, p: nat)
    requires p < |g.hands| && p < |g.faceUpThree| && p < |g.faceDownThree|
  {
    g.hands[p] == [] && g.faceUpThree[p] == [] && g.faceDownThree[p] == []
  }

  /** The end of `make_play` (lines 322-332): a playable Ten or a completed run
      burns the pile into the cleared cards, and then only a player who just
      went out passes the turn; otherwise the turn passes. */
  function Finish(g: GameState, playable: bool, v: CardValue, playerOut: bool): (s: Step<bool>)
    requires Wf(g)
    ensures s.result == Ok(false)
    ensures SameShape(g, s.state)
  {
    if (playable && v == Ten) || TopNCardsSame(g.pileCards, g.numPlayers) then
      var g1 := g.(clearedCards := g.clearedCards + g.pileCards, pileCards := []);
      Step(if playerOut then Rotate(g1) else g1, Ok(false))
    else
      Step(Rotate(g), Ok(false))
  }

  /** Lines 293-332 of `make_play`, once the played cards `played` of value
      `played[0].value` have left `zone`: legality is judged against the pile
      as it was, the cards go on the pile, an illegal play picks the whole pile
      up into the sorted hand, and a legal play that empties all three zones
      puts the player out, ending the game when one player is left. */
  function Resolve(g: GameState, zone: CardZone, played: seq<Card>): (s: Step<bool>)
    requires Wf(g) && |played| > 0
    ensures s.result.Ok?
    ensures SameShape(g, s.state)
  {
    var a := g.activePlayer;
    var v := played[0].value;
    var playable := IsPlayableWithoutPickup(v, g.pileCards);
    var g1 := g.(lastPlayedZone := Some(zone), pileCards := g.pileCards + played,
                 lastCardsPlayed := played);
    if !playable then
      var g2 := g1.(hands := g1.hands[a := Sort(g1.hands[a] + g1.pileCards)], pileCards := []);
      Finish(g2, playable, v, false)
    else if ZonesEmpty(g1, a) then
      var g2 := g1.(outPlayers := g1.outPlayers + [a]);
      if |g2.outPlayers| + 1 == g2.numPlayers then
        Step(g2.(outPlayers := g2.outPlayers + [NextPlayer(g2)]), Ok(true))
      else
        Finish(g2, playable, v, true)
    else
      Finish(g1, playable, v, false)
  }

  /** `make_play` (lines 216-333). The zone is the hand while it holds cards,
      then the faceup cards, then the facedown cards; a facedown play names no
      card and plays the top facedown card, popped before validation on a path
      that cannot fail. `Ok(true)` reports the end of the game. */
  function MakePlay(g: GameState, cards: seq<Card>): (s: Step<bool>)
    requires Wf(g)
    ensures s.result.Err? ==> s.state == g
    ensures SameShape(g, s.state)
  {
    var a := g.activePlayer;
    var hand := g.hands[a];
    var up := g.faceUpThree[a];
    var down := g.faceDownThree[a];
    if |hand| > 0 then
      if |cards| > |hand| then Step(g, Err(TooManyCards)) else PlayFrom(g, Hand, cards)
    else if |up| > 0 then
      if |cards| > |up| then Step(g, Err(TooManyCards)) else PlayFrom(g, FaceUpThree, cards)
    else if |cards| != 0 then Step(g, Err(CardsWithFaceDown))
    else if |down| == 0 then Step(g, Err(NoFaceDownCard))
    else
      var g1 := g.(faceDownThree := g.faceDownThree[a := down[..|down| - 1]]);
      var s := PlayFrom(g1, FaceDownThree, [down[|down| - 1]]);
      assert s.result.Ok?;
      s
  }

  /** Validation, removal and resolution of a play from `zone`. */
  function PlayFrom(g: GameState, zone: CardZone, cards: seq<Card>): (s: Step<bool>)
    requires Wf(g)
    ensures s.result.Err? ==> s.state == g
    ensures SameShape(g, s.state)
    ensures s.result.Ok? <==> Validate(cards, zone, ZoneCards(g, zone)) == None
    ensures zone == FaceDownThree && |cards| == 1 ==> s.result.Ok?
  {
    match Validate(cards, zone, ZoneCards(g, zone))
    case Some(e) => Step(g, Err(e))
    case None => Resolve(Take(g, zone, cards), zone, cards)
  }

  /** `take_turn`: Setup takes exactly three cards to put face up; Play makes a
      play. The result is `Ok(true)` exactly when the game has ended. */
  function TakeTurn(g: GameState, cards: seq<Card>): (s: Step<bool>)
    requires Wf(g)
    ensures s.result.Err? ==> s.state == g
    ensures SameShape(g, s.state)
  {
    match g.curPhase
    case Setup =>
      if |cards| != 3 then Step(g, Err(WrongCardCount))
      else
        var s := ChooseThreeFaceup(g, cards[0], cards[1], cards[2]);
        Step(s.state, if s.result.Ok? then Ok(false) else Err(s.result.error))
    case Play => MakePlay(g, cards)
  }

  // ---------------------------------------------------------------------------
  // The public view

  /** `PublicGameState`: what every client sees. Hands and facedown zones are
      reduced to their sizes; the faceup cards, the top card and the last play
      are shown. */
  datatype PublicGameState = PublicGameState(
    hands: seq<nat>,
    faceUpThree: seq<seq<Card>>,
    faceDownThree: seq<nat>,
    topCard: Option<Card>,
    pileSize: nat,
    clearedSize: nat,
    curPhase: Phase,
    activePlayer: nat,
    lastCardsPlayed: seq<Card>,
    lastPlayedZone: Option<CardZone>)

  function Sizes(zs: seq<seq<Card>>): (r: seq<nat>)
    ensures |r| == |zs| && forall p :: 0 <= p < |zs| ==> r[p] == |zs[p]|
  {
    seq(|zs|, p requires 0 <= p < |zs| => |zs[p]|)
  }

  /** `public_state` (counts only: the sizes are not truncated to `u16`/`u8`). */
  function PublicState(g: GameState): (r: PublicGameState)
    ensures r.topCard.Some? <==> |g.pileCards| > 0
    ensures r.topCard.Some? ==> r.topCard.value == g.pileCards[|g.pileCards| - 1]
  {
    PublicGameState(
      Sizes(g.hands), g.faceUpThree, Sizes(g.faceDownThree),
      if |g.pileCards| == 0 then None else Some(g.pileCards[|g.pileCards| - 1]),
      |g.pileCards|, |g.clearedCards|, g.curPhase, g.activePlayer,
      g.lastCardsPlayed, g.lastPlayedZone)
  }
  /** What the public view shows of a game: every faceup card, the size of
      every hand and facedown zone, the pile's size and top card, how many
      cards are cleared, the phase, the turn and the last play. */
  predicate SameView(g: GameState, h: GameState) {
    && g.faceUpThree == h.faceUpThree
    && |g.hands| == |h.hands| && (forall p :: 0 <= p < |g.hands| ==> |g.hands[p]| == |h.hands[p]|)
    && |g.faceDownThree| == |h.faceDownThree|
    && (forall p :: 0 <= p < |g.faceDownThree| ==> |g.faceDownThree[p]| == |h.faceDownThree[p]|)
    && |g.pileCards| == |h.pileCards|
    && (|g.pileCards| > 0 ==> g.pileCards[|g.pileCards| - 1] == h.pileCards[|h.pileCards| - 1])
    && |g.clearedCards| == |h.clearedCards|
    && g.curPhase == h.curPhase && g.activePlayer == h.activePlayer
    && g.lastCardsPlayed == h.lastCardsPlayed && g.lastPlayedZone == h.lastPlayedZone
  }

  /** Two games have the same public view exactly when they agree on what
      it shows: the cards in hands and facedown zones, those under the top of
      the pile and the cleared ones stay hidden, and only their counts are
      published. */
  lemma PublicStateShowsCounts(g: GameState, h: GameState)
    ensures PublicState(g) == PublicState(h) <==> SameView(g, h)
  {
    if SameView(g, h) {
      SizesAgree(g.hands, h.hands);
      SizesAgree(g.faceDownThree, h.faceDownThree);
    }
  }

  /** Zones of the same sizes have the same size list. */
  lemma SizesAgree(a: seq<seq<Card>>, b: seq<seq<Card>>)
    requires |a| == |b| && forall p :: 0 <= p < |a| ==> |a[p]| == |b[p]|
    ensures Sizes(a) == Sizes(b)
  {
  }
}
