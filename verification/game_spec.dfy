/** What the steps of the engine (palace_server/src/game.rs) promise: the
    deal, rotation as the cyclic successor, the Setup step, which plays are
    accepted, card conservation, and the four ways a play can end. */
module GameSpec {
  import opened Outcomes
  import opened Cards
  import opened Pile
  import opened Game

  // ---------------------------------------------------------------------------
  // The deal

  /** The deal hands out the first `12 * n` cards of the deck: what the players
      hold together with the `n` undealt cards is the whole deck. */
  lemma NewConservesDeck(n: nat, deck: seq<Card>)
    requires multiset(deck) == multiset(NewDeck(n))
    ensures |deck| == 13 * n
    ensures Total(New(n, deck)) + multiset(deck[12 * n..]) == multiset(NewDeck(n))
  {
    assert |multiset(deck)| == |multiset(NewDeck(n))|;
    var g := New(n, deck);
    DealPrefix(deck, n, n);
    assert g.hands[..n] == g.hands && g.faceUpThree[..n] == g.faceUpThree;
    assert g.faceDownThree[..n] == g.faceDownThree;
    assert Total(g) == multiset(deck[..12 * n]);
    assert deck == deck[..12 * n] + deck[12 * n..];
  }

  /** The zones of the first `k` players hold exactly the first `12 * k` cards. */
  lemma {:induction false} DealPrefix(deck: seq<Card>, n: nat, k: nat)
    requires |deck| >= 12 * n && k <= n
    ensures Flatten(HandDeal(deck, n)[..k]) + Flatten(FaceUpDeal(deck, n)[..k])
      + Flatten(FaceDownDeal(deck, n)[..k]) == multiset(deck[..12 * k])
  {
    var h, u, d := HandDeal(deck, n), FaceUpDeal(deck, n), FaceDownDeal(deck, n);
    if k == 0 {
      assert h[..0] == [] && u[..0] == [] && d[..0] == [];
    } else {
      var j := k - 1;
      var hs, us, ds := Flatten(h[..j]), Flatten(u[..j]), Flatten(d[..j]);
      var hj, uj, dj := multiset(h[j]), multiset(u[j]), multiset(d[j]);
      var hk, uk, dk := Flatten(h[..k]), Flatten(u[..k]), Flatten(d[..k]);
      var before, after := multiset(deck[..12 * j]), multiset(deck[..12 * k]);
      assert hs + us + ds == before by { DealPrefix(deck, n, j); }
      assert hk == hs + hj by { FlattenPrefixStep(h, k); }
      assert uk == us + uj by { FlattenPrefixStep(u, k); }
      assert dk == ds + dj by { FlattenPrefixStep(d, k); }
      assert after == before + uj + dj + hj by { DealBlock(deck, n, j, k); }
      assert hk + uk + dk == after by { RegroupStep(hs, us, ds, hj, uj, dj, hk, uk, dk, before, after); }
    }
  }

  /** Adding one player's three zones to three running unions adds them to their sum. */
  lemma RegroupStep(hs: multiset<Card>, us: multiset<Card>, ds: multiset<Card>,
                    h: multiset<Card>, u: multiset<Card>, d: multiset<Card>,
                    hk: multiset<Card>, uk: multiset<Card>, dk: multiset<Card>,
                    before: multiset<Card>, after: multiset<Card>)
    requires hs + us + ds == before && after == before + u + d + h
    requires hk == hs + h && uk == us + u && dk == ds + d
    ensures hk + uk + dk == after
  {
  }

  /** Player `j`'s three zones are the twelve cards after the first `12 * j`. */
  lemma DealBlock(deck: seq<Card>, n: nat, j: nat, k: nat)
    requires |deck| >= 12 * n && j < n && k == j + 1
    ensures multiset(deck[..12 * k]) == multiset(deck[..12 * j])
      + multiset(FaceUpDeal(deck, n)[j]) + multiset(FaceDownDeal(deck, n)[j])
      + multiset(HandDeal(deck, n)[j])
  {
    var h, u, d := HandDeal(deck, n), FaceUpDeal(deck, n), FaceDownDeal(deck, n);
    assert deck[..12 * k] == deck[..12 * j] + u[j] + d[j] + h[j];
  }

  // ---------------------------------------------------------------------------
  // Rotation

  /** `next_player` finds the first seat after the active one, going round the
      table, whose player is not finished, provided someone is not finished. */
  lemma NextPlayerIsCyclicSuccessor(out: seq<nat>, a: nat, n: nat)
    requires a < n
    requires forall i :: 0 <= i < |out| ==> out[i] < n
    requires exists p :: 0 <= p < n && p !in out
    ensures NextPlayerOf(out, a, n) < n && NextPlayerOf(out, a, n) !in out
    ensures forall m :: 0 <= m < n && Dist(a, m, n) < Dist(a, NextPlayerOf(out, a, n), n) ==> m in out
  {
    var j := SkipOut(out, a + 1, n);
    var p :| 0 <= p < n && p !in out;
    if j == n {
      var r := SkipOut(out, 0, n);
      assert p >= r;
    } else {
      assert SkipOut(out, j, n) == j;
    }
  }

  /** With nobody finished, the turn passes to the next seat and wraps to 0. */
  lemma NextPlayerWithoutFinished(a: nat, n: nat)
    requires a < n
    ensures NextPlayerOf([], a, n) == if a + 1 == n then 0 else a + 1
  {
  }

  /** Someone is left whenever fewer entries than seats are listed. */
  lemma {:induction false} SomeoneLeft(s: seq<nat>, n: nat)
    requires |s| < n
    ensures exists p :: 0 <= p < n && p !in s
    decreases n
  {
    if n - 1 in s {
      var s' := Without(s, n - 1);
      SomeoneLeft(s', n - 1);
      var p :| 0 <= p < n - 1 && p !in s';
      assert p !in s;
    } else {
      assert n - 1 !in s;
    }
  }

  /** `s` with every copy of `v` taken out. */
  function Without(s: seq<nat>, v: nat): (r: seq<nat>)
    ensures forall x :: x in s && x != v ==> x in r
    ensures v in s ==> |r| < |s|
    ensures |r| <= |s|
  {
    if |s| == 0 then []
    else if s[0] == v then Without(s[1..], v)
    else
      assert forall x :: x in s[1..] ==> x in s;
      [s[0]] + Without(s[1..], v)
  }

  // ---------------------------------------------------------------------------
  // The Setup step

  /** The scan cancels all three chosen cards exactly when the scanned cards
      contain them, counting multiplicity. */
  lemma ScanSucceedsIffContained(cards: seq<Card>, c1: Card, c2: Card, c3: Card)
    ensures var st := ScanAll(cards, c1, c2, c3);
      (st.oneRemoved && st.twoRemoved && st.threeRemoved) <==> multiset{c1, c2, c3} <= multiset(cards)
  {
    var st := ScanAll(cards, c1, c2, c3);
    var chosen := multiset{c1, c2, c3};
    ScanAllAccounts(cards, c1, c2, c3);
    var w := Wanted(st, c1, c2, c3);
    if st.oneRemoved && st.twoRemoved && st.threeRemoved {
      assert w == multiset{};
      forall y
        ensures chosen[y] <= multiset(cards)[y]
      {
        assert (chosen - multiset(cards))[y] == 0;
      }
    } else {
      var missing := if !st.oneRemoved then c1 else if !st.twoRemoved then c2 else c3;
      assert missing in w;
      assert (chosen - multiset(cards))[missing] > 0;
    }
  }

  /** `choose_three_faceup` succeeds exactly when the three cards are among the
      active player's hand and faceup cards, counting multiplicity. */
  lemma ChooseThreeFaceupAccepts(g: GameState, c1: Card, c2: Card, c3: Card)
    requires Wf(g)
    ensures ChooseThreeFaceup(g, c1, c2, c3).result.Ok? <==>
      multiset{c1, c2, c3} <= multiset(g.hands[g.activePlayer]) + multiset(g.faceUpThree[g.activePlayer])
  {
    var a := g.activePlayer;
    var all := g.hands[a] + g.faceUpThree[a];
    assert multiset(all) == multiset(g.hands[a]) + multiset(g.faceUpThree[a]);
    ScanSucceedsIffContained(all, c1, c2, c3);
  }

  /** After a successful `choose_three_faceup` the faceup zone is the three
      chosen cards sorted and the hand is sorted and holds the rest of the
      player's cards; nothing else of the cards moves, the turn rotates, and
      the phase becomes Play when the turn is back at player 0. */
  lemma ChooseThreeFaceupMoves(g: GameState, c1: Card, c2: Card, c3: Card)
    requires Wf(g)
    ensures var s := ChooseThreeFaceup(g, c1, c2, c3); var a := g.activePlayer;
      s.result.Ok? ==>
        && Sorted(s.state.faceUpThree[a]) && multiset(s.state.faceUpThree[a]) == multiset{c1, c2, c3}
        && Sorted(s.state.hands[a])
        && multiset(s.state.hands[a]) + multiset{c1, c2, c3}
           == multiset(g.hands[a]) + multiset(g.faceUpThree[a])
        && s.state == g.(hands := s.state.hands, faceUpThree := s.state.faceUpThree,
                         activePlayer := s.state.activePlayer, curPhase := s.state.curPhase)
        && |s.state.hands| == |g.hands| && |s.state.faceUpThree| == |g.faceUpThree|
        && (forall p :: 0 <= p < g.numPlayers && p != a ==>
              s.state.hands[p] == g.hands[p] && s.state.faceUpThree[p] == g.faceUpThree[p])
        && s.state.activePlayer == NextPlayer(g)
        && s.state.curPhase == (if NextPlayer(g) == 0 then Play else g.curPhase)
  {
    var a := g.activePlayer;
    var s := ChooseThreeFaceup(g, c1, c2, c3);
    if s.result.Ok? {
      var all := g.hands[a] + g.faceUpThree[a];
      var chosen := multiset{c1, c2, c3};
      var m := multiset(all);
      assert m == multiset(g.hands[a]) + multiset(g.faceUpThree[a]);
      ChooseThreeFaceupAccepts(g, c1, c2, c3);
      ScanAllAccounts(all, c1, c2, c3);
      var st := SetupScan(g, c1, c2, c3);
      var g1 := g.(faceUpThree := g.faceUpThree[a := Sort([c1, c2, c3])],
                   hands := g.hands[a := Sort(st.kept)]);
      assert s.state == if NextPlayer(g1) == 0 then Rotate(g1).(curPhase := Play) else Rotate(g1);
      assert NextPlayer(g1) == NextPlayer(g);
      assert multiset(s.state.hands[a]) == m - chosen;
      AddBack(m, chosen);
    }
  }


  // ---------------------------------------------------------------------------
  // The Play step: which plays are accepted

  /** The zone `make_play` draws from: the hand while it holds cards, then the
      faceup cards, then the facedown cards. */
  function PlayZone(g: GameState): CardZone
    requires Wf(g)
  {
    var a := g.activePlayer;
    if |g.hands[a]| > 0 then Hand
    else if |g.faceUpThree[a]| > 0 then FaceUpThree
    else FaceDownThree
  }

  /** The plays `make_play` accepts, stated without its order of checks: a
      facedown play names no card and needs a facedown card; any other play is
      a non-empty list of one value that the zone holds, counting
      multiplicity. */
  predicate Acceptable(g: GameState, cards: seq<Card>)
    requires Wf(g)
  {
    var z := PlayZone(g);
    if z == FaceDownThree then cards == [] && |g.faceDownThree[g.activePlayer]| > 0
    else |cards| > 0 && SameValue(cards) && multiset(cards) <= multiset(ZoneCards(g, z))
  }

  /** The cards that go on the pile: the named cards, or the top facedown card. */
  function Played(g: GameState, cards: seq<Card>): seq<Card>
    requires Wf(g)
  {
    var down := g.faceDownThree[g.activePlayer];
    if PlayZone(g) == FaceDownThree && |down| > 0 then [down[|down| - 1]] else cards
  }

  /** The state once the played cards have left their zone. */
  function Taken(g: GameState, cards: seq<Card>): GameState
    requires Wf(g)
  {
    var a := g.activePlayer;
    var down := g.faceDownThree[a];
    var z := PlayZone(g);
    if z != FaceDownThree then Take(g, z, cards)
    else if |down| > 0 then g.(faceDownThree := g.faceDownThree[a := down[..|down| - 1]])
    else g
  }

  /** Cards the player holds in all three zones. */
  function CardCount(g: GameState, p: nat): nat
    requires Wf(g) && p < g.numPlayers
  {
    |g.hands[p]| + |g.faceUpThree[p]| + |g.faceDownThree[p]|
  }

  /** `make_play` accepts exactly the acceptable plays. */
  lemma MakePlayAcceptsExactly(g: GameState, cards: seq<Card>)
    requires Wf(g)
    ensures MakePlay(g, cards).result.Ok? <==> Acceptable(g, cards)
  {
    var z := PlayZone(g);
    if z != FaceDownThree {
      var zc := ZoneCards(g, z);
      if multiset(cards) <= multiset(zc) {
        SubMultisetSize(multiset(cards), multiset(zc));
      }
      assert MakePlay(g, cards) == if |cards| > |zc| then Step(g, Err(TooManyCards)) else PlayFrom(g, z, cards);
    }
  }

  /** An accepted play is resolved on the state the played cards have left. */
  lemma MakePlayIsResolve(g: GameState, cards: seq<Card>)
    requires Wf(g) && Acceptable(g, cards)
    ensures Wf(Taken(g, cards)) && |Played(g, cards)| > 0
    ensures MakePlay(g, cards) == Resolve(Taken(g, cards), PlayZone(g), Played(g, cards))
  {
    var z := PlayZone(g);
    if z != FaceDownThree {
      SubMultisetSize(multiset(cards), multiset(ZoneCards(g, z)));
    }
  }

  /** The played cards leave exactly the zone they are drawn from: the cards
      of that zone lose them, counting multiplicity, and no other zone, pile
      or player changes. */
  lemma TakenSpec(g: GameState, cards: seq<Card>)
    requires Wf(g) && Acceptable(g, cards)
    ensures var t := Taken(g, cards); var a := g.activePlayer; var z := PlayZone(g);
      && Wf(t)
      && multiset(ZoneCards(t, z)) == multiset(ZoneCards(g, z)) - multiset(Played(g, cards))
      && |ZoneCards(t, z)| + |Played(g, cards)| == |ZoneCards(g, z)|
      && (z != Hand ==> t.hands == g.hands)
      && (z != FaceUpThree ==> t.faceUpThree == g.faceUpThree)
      && (z != FaceDownThree ==> t.faceDownThree == g.faceDownThree)
      && (forall p :: 0 <= p < g.numPlayers && p != a ==>
            t.hands[p] == g.hands[p] && t.faceUpThree[p] == g.faceUpThree[p]
            && t.faceDownThree[p] == g.faceDownThree[p])
      && t == g.(hands := t.hands, faceUpThree := t.faceUpThree, faceDownThree := t.faceDownThree)
  {
    TakenCards(g, cards);
    TakenOthers(g, cards);
  }

  /** The zone played from loses exactly the played cards. */
  lemma TakenCards(g: GameState, cards: seq<Card>)
    requires Wf(g) && Acceptable(g, cards)
    ensures var t := Taken(g, cards); var z := PlayZone(g);
      && Wf(t)
      && multiset(ZoneCards(t, z)) == multiset(ZoneCards(g, z)) - multiset(Played(g, cards))
      && |ZoneCards(t, z)| + |Played(g, cards)| == |ZoneCards(g, z)|
  {
    var a := g.activePlayer;
    var down := g.faceDownThree[a];
    if PlayZone(g) == FaceDownThree {
      assert down == down[..|down| - 1] + [down[|down| - 1]];
    }
  }

  /** Every other zone is left as it was. */
  lemma TakenOthers(g: GameState, cards: seq<Card>)
    requires Wf(g) && Acceptable(g, cards)
    ensures var t := Taken(g, cards); var a := g.activePlayer; var z := PlayZone(g);
      && (z != Hand ==> t.hands == g.hands)
      && (z != FaceUpThree ==> t.faceUpThree == g.faceUpThree)
      && (z != FaceDownThree ==> t.faceDownThree == g.faceDownThree)
      && (forall p :: 0 <= p < g.numPlayers && p != a ==>
            t.hands[p] == g.hands[p] && t.faceUpThree[p] == g.faceUpThree[p]
            && t.faceDownThree[p] == g.faceDownThree[p])
      && t == g.(hands := t.hands, faceUpThree := t.faceUpThree, faceDownThree := t.faceDownThree)
  {
  }

  /** Taking the played cards out of their zone keeps every card accounted for. */
  lemma TakenConserves(g: GameState, cards: seq<Card>)
    requires Wf(g) && Acceptable(g, cards)
    ensures Total(Taken(g, cards)) + multiset(Played(g, cards)) == Total(g)
  {
    var t := Taken(g, cards);
    var a := g.activePlayer;
    var p := multiset(Played(g, cards));
    match PlayZone(g)
    case Hand =>
      var h := g.hands[a];
      AddBack(multiset(h), p);
      FlattenShrink(g.hands, a, RemoveAll(h, cards), p);
      ZoneSwap(g, t, Hand, p);
    case FaceUpThree =>
      var u := g.faceUpThree[a];
      AddBack(multiset(u), p);
      FlattenShrink(g.faceUpThree, a, RemoveAll(u, cards), p);
      ZoneSwap(g, t, FaceUpThree, p);
    case FaceDownThree =>
      var down := g.faceDownThree[a];
      assert down == down[..|down| - 1] + [down[|down| - 1]];
      FlattenShrink(g.faceDownThree, a, down[..|down| - 1], p);
      ZoneSwap(g, t, FaceDownThree, p);
  }

  /** Replacing one kind of zone, whose union shrinks by `p`, shrinks the
      whole game by `p`. */
  lemma ZoneSwap(g: GameState, t: GameState, z: CardZone, p: multiset<Card>)
    requires t == g.(hands := t.hands, faceUpThree := t.faceUpThree, faceDownThree := t.faceDownThree)
    requires z != Hand ==> t.hands == g.hands
    requires z != FaceUpThree ==> t.faceUpThree == g.faceUpThree
    requires z != FaceDownThree ==> t.faceDownThree == g.faceDownThree
    requires z == Hand ==> Flatten(t.hands) + p == Flatten(g.hands)
    requires z == FaceUpThree ==> Flatten(t.faceUpThree) + p == Flatten(g.faceUpThree)
    requires z == FaceDownThree ==> Flatten(t.faceDownThree) + p == Flatten(g.faceDownThree)
    ensures Total(t) + p == Total(g)
  {
  }

  /** The value of an accepted play. */
  function PlayValue(g: GameState, cards: seq<Card>): CardValue
    requires Wf(g) && Acceptable(g, cards)
  {
    Played(g, cards)[0].value
  }

  /** The play uses up the last cards the active player holds. */
  predicate LastCards(g: GameState, cards: seq<Card>)
    requires Wf(g)
  {
    CardCount(g, g.activePlayer) == |Played(g, cards)|
  }

  lemma LastCardsIffEmpty(g: GameState, cards: seq<Card>)
    requires Wf(g) && Acceptable(g, cards)
    ensures LastCards(g, cards) <==> ZonesEmpty(Taken(g, cards), g.activePlayer)
  {
    TakenSpec(g, cards);
  }

  // ---------------------------------------------------------------------------
  // The Play step: conservation and outcomes

  /** The end of a play moves cards only between the pile and the cleared
      cards, and changes nothing but those and the turn. */
  lemma FinishSpec(g: GameState, playable: bool, v: CardValue, playerOut: bool)
    requires Wf(g)
    ensures var s := Finish(g, playable, v, playerOut).state;
      var burn := (playable && v == Ten) || TopNCardsSame(g.pileCards, g.numPlayers);
      && s == g.(pileCards := s.pileCards, clearedCards := s.clearedCards, activePlayer := s.activePlayer)
      && (burn ==> s.pileCards == [] && s.clearedCards == g.clearedCards + g.pileCards
                   && s.activePlayer == (if playerOut then NextPlayer(g) else g.activePlayer))
      && (!burn ==> s.pileCards == g.pileCards && s.clearedCards == g.clearedCards
                    && s.activePlayer == NextPlayer(g))
  {
  }

  /** The state after the played cards go on the pile and are recorded. */
  function Placed(g: GameState, z: CardZone, played: seq<Card>): GameState {
    g.(lastPlayedZone := Some(z), pileCards := g.pileCards + played, lastCardsPlayed := played)
  }

  lemma ResolvePickup(g: GameState, z: CardZone, played: seq<Card>)
    requires Wf(g) && |played| > 0
    requires !IsPlayableWithoutPickup(played[0].value, g.pileCards)
    ensures var g1 := Placed(g, z, played); var a := g.activePlayer;
      var g2 := g1.(hands := g1.hands[a := Sort(g1.hands[a] + g1.pileCards)], pileCards := []);
      Resolve(g, z, played) == Step(Rotate(g2), Ok(false))
  {
  }

  lemma ResolveEnd(g: GameState, z: CardZone, played: seq<Card>)
    requires Wf(g) && |played| > 0
    requires IsPlayableWithoutPickup(played[0].value, g.pileCards)
    requires ZonesEmpty(g, g.activePlayer) && |g.outPlayers| + 2 == g.numPlayers
    ensures var g1 := Placed(g, z, played); var a := g.activePlayer;
      var out := g.outPlayers + [a];
      Resolve(g, z, played) == Step(g1.(outPlayers := out + [NextPlayerOf(out, a, g.numPlayers)]), Ok(true))
  {
  }

  lemma ResolveFinish(g: GameState, z: CardZone, played: seq<Card>)
    requires Wf(g) && |played| > 0
    requires IsPlayableWithoutPickup(played[0].value, g.pileCards)
    requires !(ZonesEmpty(g, g.activePlayer) && |g.outPlayers| + 2 == g.numPlayers)
    ensures var g1 := Placed(g, z, played); var a := g.activePlayer;
      var out := if ZonesEmpty(g, a) then g.outPlayers + [a] else g.outPlayers;
      Resolve(g, z, played) == Finish(g1.(outPlayers := out), true, played[0].value, ZonesEmpty(g, a))
  {
  }

  /** Resolving a play adds exactly the played cards to the game. */
  lemma ResolveConserves(g: GameState, z: CardZone, played: seq<Card>)
    requires Wf(g) && |played| > 0
    ensures Total(Resolve(g, z, played).state) == Total(g) + multiset(played)
  {
    if !IsPlayableWithoutPickup(played[0].value, g.pileCards) {
      PickupConserves(g, z, played);
    } else if ZonesEmpty(g, g.activePlayer) && |g.outPlayers| + 2 == g.numPlayers {
      ResolveEnd(g, z, played);
    } else {
      FinishConserves(g, z, played);
    }
  }

  lemma PickupConserves(g: GameState, z: CardZone, played: seq<Card>)
    requires Wf(g) && |played| > 0
    requires !IsPlayableWithoutPickup(played[0].value, g.pileCards)
    ensures Total(Resolve(g, z, played).state) == Total(g) + multiset(played)
  {
    var a := g.activePlayer;
    var g1 := Placed(g, z, played);
    ResolvePickup(g, z, played);
    var g2 := g1.(hands := g1.hands[a := Sort(g1.hands[a] + g1.pileCards)], pileCards := []);
    FlattenGrow(g.hands, a, Sort(g.hands[a] + g1.pileCards), multiset(g1.pileCards));
    assert Total(g2) == Total(g1);
  }

  lemma FinishConserves(g: GameState, z: CardZone, played: seq<Card>)
    requires Wf(g) && |played| > 0
    requires IsPlayableWithoutPickup(played[0].value, g.pileCards)
    requires !(ZonesEmpty(g, g.activePlayer) && |g.outPlayers| + 2 == g.numPlayers)
    ensures Total(Resolve(g, z, played).state) == Total(g) + multiset(played)
  {
    var a := g.activePlayer;
    var g1 := Placed(g, z, played);
    ResolveFinish(g, z, played);
    var out := if ZonesEmpty(g, a) then g.outPlayers + [a] else g.outPlayers;
    FinishSpec(g1.(outPlayers := out), true, played[0].value, ZonesEmpty(g, a));
  }

  /** What a legal play that does not end the game leaves behind, in terms of
      the state the played cards have left. */
  lemma ResolveFinishSpec(g: GameState, z: CardZone, played: seq<Card>)
    requires Wf(g) && |played| > 0
    requires IsPlayableWithoutPickup(played[0].value, g.pileCards)
    requires !(ZonesEmpty(g, g.activePlayer) && |g.outPlayers| + 2 == g.numPlayers)
    ensures var s := Resolve(g, z, played); var a := g.activePlayer;
      var out := if ZonesEmpty(g, a) then g.outPlayers + [a] else g.outPlayers;
      var burn := played[0].value == Ten || TopNCardsSame(g.pileCards + played, g.numPlayers);
      && s.result == Ok(false)
      && s.state.outPlayers == out
      && s.state.hands == g.hands && s.state.faceUpThree == g.faceUpThree
      && s.state.faceDownThree == g.faceDownThree
      && s.state.numPlayers == g.numPlayers && s.state.curPhase == g.curPhase
      && s.state.lastCardsPlayed == played && s.state.lastPlayedZone == Some(z)
      && (burn ==> s.state.pileCards == [] && s.state.clearedCards == g.clearedCards + (g.pileCards + played)
                   && s.state.activePlayer == (if ZonesEmpty(g, a) then NextPlayerOf(out, a, g.numPlayers) else a))
      && (!burn ==> s.state.pileCards == g.pileCards + played && s.state.clearedCards == g.clearedCards
                    && s.state.activePlayer == NextPlayerOf(out, a, g.numPlayers))
  {
    var a := g.activePlayer;
    var g1 := Placed(g, z, played);
    ResolveFinish(g, z, played);
    var out := if ZonesEmpty(g, a) then g.outPlayers + [a] else g.outPlayers;
    FinishSpec(g1.(outPlayers := out), true, played[0].value, ZonesEmpty(g, a));
  }

  /** Taking the played cards changes no pile, cleared card, finished player
      or turn. */
  lemma TakenKeeps(g: GameState, cards: seq<Card>)
    requires Wf(g) && Acceptable(g, cards)
    ensures var t := Taken(g, cards);
      && t.pileCards == g.pileCards && t.clearedCards == g.clearedCards
      && t.outPlayers == g.outPlayers && t.activePlayer == g.activePlayer
      && t.numPlayers == g.numPlayers && t.curPhase == g.curPhase
  {
  }

  /** Every step of `make_play`, accepted or not, keeps the multiset of all
      cards in the zones, the pile and the cleared cards. */
  lemma MakePlayConserves(g: GameState, cards: seq<Card>)
    requires Wf(g)
    ensures Total(MakePlay(g, cards).state) == Total(g)
  {
    MakePlayAcceptsExactly(g, cards);
    if Acceptable(g, cards) {
      MakePlayIsResolve(g, cards);
      TakenConserves(g, cards);
      ResolveConserves(Taken(g, cards), PlayZone(g), Played(g, cards));
    }
  }

  /** An illegal play picks the whole pile, played cards included, up into the
      player's sorted hand, and the turn passes. */
  lemma MakePlayPicksUp(g: GameState, cards: seq<Card>)
    requires Wf(g) && Acceptable(g, cards)
    requires !IsPlayableWithoutPickup(PlayValue(g, cards), g.pileCards)
    ensures PickedUp(g, cards, MakePlay(g, cards))
  {
    MakePlayIsResolve(g, cards);
    ResolvePicksUp(g, cards);
  }

  /** The pickup, stated on the state the played cards have left. */
  lemma ResolvePicksUp(g: GameState, cards: seq<Card>)
    requires Wf(g) && Acceptable(g, cards)
    requires !IsPlayableWithoutPickup(PlayValue(g, cards), g.pileCards)
    ensures Wf(Taken(g, cards)) && |Played(g, cards)| > 0
    ensures PickedUp(g, cards, Resolve(Taken(g, cards), PlayZone(g), Played(g, cards)))
  {
    var t, z, P := Taken(g, cards), PlayZone(g), Played(g, cards);
    TakenCards(g, cards);
    TakenKeeps(g, cards);
    TakenOthers(g, cards);
    PickupSpec(t, z, P);
    PickedUpFrom(g, cards, t, Resolve(t, z, P));
  }

  /** A pickup resolved on a state `t` the played cards have left is a
      pickup of the whole play. */
  lemma PickedUpFrom(g: GameState, cards: seq<Card>, t: GameState, s: Step<bool>)
    requires Wf(g) && Acceptable(g, cards) && Wf(t)
    requires t.pileCards == g.pileCards && t.clearedCards == g.clearedCards
    requires t.outPlayers == g.outPlayers && t.activePlayer == g.activePlayer
    requires t.numPlayers == g.numPlayers
    requires multiset(ZoneCards(t, PlayZone(g))) == multiset(ZoneCards(g, PlayZone(g))) - multiset(Played(g, cards))
    requires PlayZone(g) != Hand ==> t.hands == g.hands
    requires var a := t.activePlayer;
      && s.result == Ok(false)
      && s.state.pileCards == [] && s.state.clearedCards == t.clearedCards
      && a < |s.state.hands|
      && Sorted(s.state.hands[a])
      && multiset(s.state.hands[a]) == multiset(t.hands[a]) + multiset(t.pileCards) + multiset(Played(g, cards))
      && s.state.outPlayers == t.outPlayers
      && s.state.activePlayer == NextPlayer(t)
    ensures PickedUp(g, cards, s)
  {
    var a, z, P := g.activePlayer, PlayZone(g), Played(g, cards);
    var extra := if z == Hand then multiset{} else multiset(P);
    assert multiset(t.hands[a]) + multiset(P) == multiset(g.hands[a]) + extra by {
      if z == Hand {
        AddBack(multiset(g.hands[a]), multiset(P));
      }
    }
    Regroup(multiset(s.state.hands[a]), multiset(t.hands[a]), multiset(g.pileCards), multiset(P),
            multiset(g.hands[a]), extra);
  }

  /** The outcome of a pickup: the pile, played cards included, joins the
      player's hand, which stays sorted, and the turn passes. */
  predicate PickedUp(g: GameState, cards: seq<Card>, s: Step<bool>)
    requires Wf(g)
  {
    var a := g.activePlayer;
    && s.result == Ok(false)
    && s.state.pileCards == [] && s.state.clearedCards == g.clearedCards
    && a < |s.state.hands|
    && Sorted(s.state.hands[a])
    && multiset(s.state.hands[a]) == multiset(g.hands[a]) + multiset(g.pileCards)
         + (if PlayZone(g) == Hand then multiset{} else multiset(Played(g, cards)))
    && s.state.outPlayers == g.outPlayers
    && s.state.activePlayer == NextPlayer(g)
  }

  /** `x = a + b + c` and `a + c = d + e` give `x = d + b + e`. */
  lemma Regroup(x: multiset<Card>, a: multiset<Card>, b: multiset<Card>, c: multiset<Card>,
                d: multiset<Card>, e: multiset<Card>)
    requires x == a + b + c && a + c == d + e
    ensures x == d + b + e
  {
    forall y ensures x[y] == (d + b + e)[y] {
      assert (a + c)[y] == (d + e)[y];
    }
  }

  /** Resolving an illegal play: the pile, played cards included, joins the
      player's hand in sorted order and the turn passes. */
  lemma PickupSpec(t: GameState, z: CardZone, P: seq<Card>)
    requires Wf(t) && |P| > 0
    requires !IsPlayableWithoutPickup(P[0].value, t.pileCards)
    ensures var s := Resolve(t, z, P); var a := t.activePlayer;
      && s.result == Ok(false)
      && s.state.pileCards == [] && s.state.clearedCards == t.clearedCards
      && Sorted(s.state.hands[a])
      && multiset(s.state.hands[a]) == multiset(t.hands[a]) + multiset(t.pileCards) + multiset(P)
      && s.state.outPlayers == t.outPlayers
      && s.state.activePlayer == NextPlayer(t)
  {
    var a := t.activePlayer;
    ResolvePickup(t, z, P);
    var g1 := Placed(t, z, P);
    var merged := t.hands[a] + (t.pileCards + P);
    assert g1.hands[a] + g1.pileCards == merged;
    assert multiset(merged) == multiset(t.hands[a]) + multiset(t.pileCards) + multiset(P);
  }

  /** The players listed as out once `cards` is played: the active player
      joins them when these were their last cards. */
  function OutAfter(g: GameState, cards: seq<Card>): (out: seq<nat>)
    requires Wf(g)
    ensures forall i :: 0 <= i < |out| ==> out[i] < g.numPlayers
  {
    if LastCards(g, cards) then g.outPlayers + [g.activePlayer] else g.outPlayers
  }

  /** The outcome of a burn: the pile, played cards included, is cleared, and
      the turn stays unless the player has just gone out. */
  predicate Burned(g: GameState, cards: seq<Card>, s: Step<bool>)
    requires Wf(g)
  {
    var a, out := g.activePlayer, OutAfter(g, cards);
    && s.result == Ok(false)
    && s.state.pileCards == []
    && s.state.clearedCards == g.clearedCards + g.pileCards + Played(g, cards)
    && s.state.outPlayers == out
    && s.state.activePlayer == (if LastCards(g, cards) then NextPlayerOf(out, a, g.numPlayers) else a)
  }

  /** The outcome of a legal play that does not burn: the played cards stay on
      the pile and the turn passes. */
  predicate Passed(g: GameState, cards: seq<Card>, s: Step<bool>)
    requires Wf(g)
  {
    var a, out := g.activePlayer, OutAfter(g, cards);
    && s.result == Ok(false)
    && s.state.pileCards == g.pileCards + Played(g, cards)
    && s.state.clearedCards == g.clearedCards
    && s.state.outPlayers == out
    && s.state.activePlayer == NextPlayerOf(out, a, g.numPlayers)
  }

  /** A legal Ten, or a legal play completing a run of `numPlayers` equal
      values, burns the pile, played cards included, into the cleared cards.
      The player then goes again, unless the play was their last card, in
      which case they are out and the turn passes. */
  lemma MakePlayBurns(g: GameState, cards: seq<Card>)
    requires Wf(g) && Acceptable(g, cards)
    requires IsPlayableWithoutPickup(PlayValue(g, cards), g.pileCards)
    requires PlayValue(g, cards) == Ten || TopNCardsSame(g.pileCards + Played(g, cards), g.numPlayers)
    requires !(LastCards(g, cards) && |g.outPlayers| + 2 == g.numPlayers)
    ensures Burned(g, cards, MakePlay(g, cards))
  {
    var t, z, P := Taken(g, cards), PlayZone(g), Played(g, cards);
    MakePlayIsResolve(g, cards);
    LastCardsIffEmpty(g, cards);
    TakenKeeps(g, cards);
    ResolveFinishSpec(t, z, P);
  }

  /** Any other legal play stays on the pile and the turn passes; a play of
      the player's last cards puts them out first. */
  lemma MakePlayPasses(g: GameState, cards: seq<Card>)
    requires Wf(g) && Acceptable(g, cards)
    requires IsPlayableWithoutPickup(PlayValue(g, cards), g.pileCards)
    requires !(PlayValue(g, cards) == Ten || TopNCardsSame(g.pileCards + Played(g, cards), g.numPlayers))
    requires !(LastCards(g, cards) && |g.outPlayers| + 2 == g.numPlayers)
    ensures Passed(g, cards, MakePlay(g, cards))
  {
    var t, z, P := Taken(g, cards), PlayZone(g), Played(g, cards);
    MakePlayIsResolve(g, cards);
    LastCardsIffEmpty(g, cards);
    TakenKeeps(g, cards);
    ResolveFinishSpec(t, z, P);
  }

  /** `make_play` reports the end of the game exactly when a legal play uses
      up the last cards of the second-to-last player still in. The remaining
      player is then listed as out too, the turn stays, and the pile is not
      burned. */
  lemma MakePlayEndsGame(g: GameState, cards: seq<Card>)
    requires Wf(g)
    ensures var s := MakePlay(g, cards);
      s.result == Ok(true) <==>
        && Acceptable(g, cards)
        && IsPlayableWithoutPickup(PlayValue(g, cards), g.pileCards)
        && LastCards(g, cards)
        && |g.outPlayers| + 2 == g.numPlayers
    ensures var s := MakePlay(g, cards); var a := g.activePlayer;
      s.result == Ok(true) ==>
        && s.state.outPlayers == g.outPlayers + [a, NextPlayerOf(g.outPlayers + [a], a, g.numPlayers)]
        && s.state.activePlayer == a
        && s.state.pileCards == g.pileCards + Played(g, cards)
        && s.state.clearedCards == g.clearedCards
  {
    MakePlayAcceptsExactly(g, cards);
    if Acceptable(g, cards) {
      var a := g.activePlayer;
      var t, z, P := Taken(g, cards), PlayZone(g), Played(g, cards);
      MakePlayIsResolve(g, cards);
      LastCardsIffEmpty(g, cards);
      TakenKeeps(g, cards);
      EndSpec(t, z, P);
    }
  }

  /** Resolving a play ends the game exactly when it is legal and empties the
      zones of the second-to-last player still in. */
  lemma EndSpec(t: GameState, z: CardZone, P: seq<Card>)
    requires Wf(t) && |P| > 0
    ensures var s := Resolve(t, z, P); var a := t.activePlayer;
      s.result == Ok(true) <==>
        IsPlayableWithoutPickup(P[0].value, t.pileCards) && ZonesEmpty(t, a)
        && |t.outPlayers| + 2 == t.numPlayers
    ensures var s := Resolve(t, z, P); var a := t.activePlayer;
      s.result == Ok(true) ==>
        && s.state.outPlayers == t.outPlayers + [a, NextPlayerOf(t.outPlayers + [a], a, t.numPlayers)]
        && s.state.activePlayer == a
        && s.state.pileCards == t.pileCards + P
        && s.state.clearedCards == t.clearedCards
  {
    var a := t.activePlayer;
    if !IsPlayableWithoutPickup(P[0].value, t.pileCards) {
      ResolvePickup(t, z, P);
    } else if ZonesEmpty(t, a) && |t.outPlayers| + 2 == t.numPlayers {
      ResolveEnd(t, z, P);
      assert t.outPlayers + [a] + [NextPlayerOf(t.outPlayers + [a], a, t.numPlayers)]
        == t.outPlayers + [a, NextPlayerOf(t.outPlayers + [a], a, t.numPlayers)];
    } else {
      ResolveFinishSpec(t, z, P);
    }
  }

  /** After an accepted play only the active player's zones have changed: the
      zone drawn from has lost the played cards, and only an illegal play
      touches the hand again. The play is recorded as the last one. */
  lemma MakePlayZones(g: GameState, cards: seq<Card>)
    requires Wf(g) && Acceptable(g, cards)
    ensures var s := MakePlay(g, cards); var t := Taken(g, cards); var a := g.activePlayer;
      && s.state.faceUpThree == t.faceUpThree && s.state.faceDownThree == t.faceDownThree
      && (IsPlayableWithoutPickup(PlayValue(g, cards), g.pileCards) ==> s.state.hands == t.hands)
      && s.state.hands == t.hands[a := s.state.hands[a]]
      && s.state.numPlayers == g.numPlayers && s.state.curPhase == g.curPhase
      && s.state.lastCardsPlayed == Played(g, cards)
      && s.state.lastPlayedZone == Some(PlayZone(g))
  {
    var t, z, P := Taken(g, cards), PlayZone(g), Played(g, cards);
    MakePlayIsResolve(g, cards);
    TakenKeeps(g, cards);
    ResolveZones(t, z, P);
  }

  /** Resolving a play touches no zone but, on a pickup, the player's hand. */
  lemma ResolveZones(t: GameState, z: CardZone, P: seq<Card>)
    requires Wf(t) && |P| > 0
    ensures var s := Resolve(t, z, P); var a := t.activePlayer;
      && s.state.faceUpThree == t.faceUpThree && s.state.faceDownThree == t.faceDownThree
      && (IsPlayableWithoutPickup(P[0].value, t.pileCards) ==> s.state.hands == t.hands)
      && s.state.hands == t.hands[a := s.state.hands[a]]
      && s.state.numPlayers == t.numPlayers && s.state.curPhase == t.curPhase
      && s.state.lastCardsPlayed == P
      && s.state.lastPlayedZone == Some(z)
  {
    var a := t.activePlayer;
    if !IsPlayableWithoutPickup(P[0].value, t.pileCards) {
      ResolvePickup(t, z, P);
    } else if ZonesEmpty(t, a) && |t.outPlayers| + 2 == t.numPlayers {
      ResolveEnd(t, z, P);
    } else {
      ResolveFinishSpec(t, z, P);
    }
  }
}