/** The pure helpers of the Monte Carlo player
    (palace_server/src/ai/monty/ai.rs): `remove_item`, the move lists that
    `all_moves_zone` and `all_moves` write into a `MultiVec`, and the shape
    of the game state that `InformationSet::determine` guesses from what the
    player has seen. The tree search itself is not part of this model. */
module MontyAi {
  import opened Outcomes
  import opened Cards
  import Game
  import GameSpec
  import GameInvariant
  import MonteGame
  import MultiVec

  // ---------------------------------------------------------------------------
  // remove_item

  /** `Iterator::position`: the index of the first element equal to `item`. */
  function Position<T(==)>(v: seq<T>, item: T): (r: Option<nat>)
    ensures r.Some? <==> item in v
    ensures r.Some? ==> r.value < |v| && v[r.value] == item && item !in v[..r.value]
  {
    if |v| == 0 then None
    else if v[0] == item then Some(0)
    else
      var r := Position(v[1..], item);
      assert item in v <==> item in v[1..] by {
        assert v == [v[0]] + v[1..];
      }
      if r.None? then None
      else
        assert v[..r.value + 1] == [v[0]] + v[1..][..r.value];
        Some(r.value + 1)
  }

  /** `remove_item`: takes out the first element equal to `item` and returns
      it, or returns `None` and leaves `v` alone. */
  function RemoveItem<T(==)>(v: seq<T>, item: T): (r: (Option<T>, seq<T>))
    ensures r.0.Some? <==> item in v
    ensures r.0.None? ==> r.1 == v
    ensures r.0.Some? ==> r.0.value == item && |r.1| + 1 == |v|
    ensures r.0.Some? ==> multiset(r.1) == multiset(v) - multiset{item}
  {
    match Position(v, item)
    case None => (None, v)
    case Some(i) =>
      assert v == v[..i] + [v[i]] + v[i + 1..];
      (Some(v[i]), v[..i] + v[i + 1..])
  }

  /** The element removed is the first one equal to `item`: putting it back
      in front of the rest of `v` restores `v`, and nothing before it equals
      `item`. */
  lemma RemoveItemFirst<T>(v: seq<T>, item: T)
    requires item in v
    ensures var rest := RemoveItem(v, item).1;
      exists i: nat :: i <= |rest| && item !in rest[..i] && v == rest[..i] + [item] + rest[i..]
  {
    var i := RemovedAt(v, item);
    var rest := RemoveItem(v, item).1;
    assert i <= |rest| && item !in rest[..i] && v == rest[..i] + [item] + rest[i..];
  }

  /** The position the element is removed from. */
  lemma RemovedAt<T>(v: seq<T>, item: T) returns (i: nat)
    requires item in v
    ensures var rest := RemoveItem(v, item).1;
      i <= |rest| && item !in rest[..i] && v == rest[..i] + [item] + rest[i..]
  {
    i := Position(v, item).value;
    assert RemoveItem(v, item).1 == v[..i] + v[i + 1..];
    SplitAround(v, i);
  }

  /** Cutting out position `i` and putting it back. */
  lemma SplitAround<T>(v: seq<T>, i: nat)
    requires i < |v|
    ensures var rest := v[..i] + v[i + 1..];
      i <= |rest| && rest[..i] == v[..i] && rest[i..] == v[i + 1..] && v == rest[..i] + [v[i]] + rest[i..]
  {
    var rest := v[..i] + v[i + 1..];
    assert rest[..i] == v[..i];
    assert rest[i..] == v[i + 1..];
    assert v == v[..i] + [v[i]] + v[i + 1..];
  }

  // ---------------------------------------------------------------------------
  // all_moves_zone

  /** The `k` cards of `zone` from position `j` on. */
  function Window(zone: seq<Card>, j: nat, k: nat): (w: seq<Card>)
    requires j + k <= |zone|
    ensures |w| == k
  {
    zone[j..j + k]
  }

  /** The windows of size `k` that start at `i` or later and hold one value,
      in order of their start: one round of the loop in `all_moves_zone`. */
  function Round(zone: seq<Card>, k: nat, i: nat): (ws: seq<seq<Card>>)
    requires k >= 1
    ensures forall m | m in ws ::
      |m| == k && Game.SameValue(m) && exists j: nat :: i <= j && j + k <= |zone| && m == Window(zone, j, k)
    ensures forall j: nat | i <= j && j + k <= |zone| && Game.SameValue(Window(zone, j, k)) ::
      Window(zone, j, k) in ws
    decreases |zone| - i
  {
    if i + k > |zone| then []
    else
      var w := Window(zone, i, k);
      var rest := Round(zone, k, i + 1);
      assert forall j: nat | i <= j && j + k <= |zone| && Game.SameValue(Window(zone, j, k)) && j != i ::
        Window(zone, j, k) in rest;
      if Game.SameValue(w) then [w] + rest else rest
  }

  /** The rounds from window size `k` on, stopping after the first round that
      finds nothing. */
  function RoundsFrom(zone: seq<Card>, k: nat): (ms: seq<seq<Card>>)
    requires k >= 1
    decreases |zone| + 1 - k
  {
    var ws := Round(zone, k, 0);
    if |ws| == 0 then []
    else
      assert ws[0] in ws;
      ws + RoundsFrom(zone, k + 1)
  }

  /** `all_moves_zone`: the moves written into the `MultiVec`, in order. */
  function AllMovesZone(zone: seq<Card>): (ms: seq<seq<Card>>)
  {
    RoundsFrom(zone, 1)
  }

  /** Every move of the rounds from size `k` on is a window of at least `k`
      cards of one value. */
  lemma {:induction false} RoundsFromSound(zone: seq<Card>, k: nat)
    requires k >= 1
    ensures forall m | m in RoundsFrom(zone, k) ::
      |m| >= k && Game.SameValue(m) && exists j: nat :: j + |m| <= |zone| && m == Window(zone, j, |m|)
    decreases |zone| + 1 - k
  {
    var ws := Round(zone, k, 0);
    if |ws| > 0 {
      assert ws[0] in ws;
      RoundsFromSound(zone, k + 1);
      forall m | m in RoundsFrom(zone, k)
        ensures |m| >= k && Game.SameValue(m) && exists j: nat :: j + |m| <= |zone| && m == Window(zone, j, |m|)
      {
        if m in ws {
          var j: nat :| 0 <= j && j + k <= |zone| && m == Window(zone, j, k);
        } else {
          assert m in RoundsFrom(zone, k + 1);
        }
      }
    }
  }

  /** A window of one value has windows of one value at every smaller size:
      its own prefixes. */
  lemma PrefixWindow(zone: seq<Card>, j: nat, k: nat, k': nat)
    requires 1 <= k' <= k && j + k <= |zone| && Game.SameValue(Window(zone, j, k))
    ensures Game.SameValue(Window(zone, j, k'))
  {
    var w, w' := Window(zone, j, k), Window(zone, j, k');
    forall i | 0 <= i < k'
      ensures w'[i].value == w'[0].value
    {
      assert w'[i] == w[i] && w'[0] == w[0];
    }
  }

  /** Once a round from size `k0` on is reached, every window of one value of
      size at least `k0` is emitted. */
  lemma {:induction false} RoundsFromComplete(zone: seq<Card>, k0: nat, j: nat, k: nat)
    requires 1 <= k0 <= k && j + k <= |zone| && Game.SameValue(Window(zone, j, k))
    ensures Window(zone, j, k) in RoundsFrom(zone, k0)
    decreases k - k0
  {
    PrefixWindow(zone, j, k, k0);
    var ws := Round(zone, k0, 0);
    assert Window(zone, j, k0) in ws;
    if k0 < k {
      RoundsFromComplete(zone, k0 + 1, j, k);
    }
  }

  /** Every move of `all_moves_zone` is a non-empty window of the zone whose
      cards share one value, and every such window is a move. */
  lemma AllMovesZoneWindows(zone: seq<Card>)
    ensures forall m | m in AllMovesZone(zone) ::
      |m| > 0 && Game.SameValue(m) && exists j: nat :: j + |m| <= |zone| && m == Window(zone, j, |m|)
    ensures forall j: nat, k: nat | 1 <= k && j + k <= |zone| && Game.SameValue(Window(zone, j, k)) ::
      Window(zone, j, k) in AllMovesZone(zone)
  {
    RoundsFromSound(zone, 1);
    forall j: nat, k: nat | 1 <= k && j + k <= |zone| && Game.SameValue(Window(zone, j, k))
      ensures Window(zone, j, k) in AllMovesZone(zone)
    {
      RoundsFromComplete(zone, 1, j, k);
    }
  }

  /** The loop stops at the first size with no window of one value: no move
      is that long or longer. Since no move is longer than the zone, at most
      `|zone| + 1` rounds run. */
  lemma AllMovesZoneStops(zone: seq<Card>, k: nat)
    requires k >= 1
    requires forall j: nat | j + k <= |zone| :: !Game.SameValue(Window(zone, j, k))
    ensures forall m | m in AllMovesZone(zone) :: |m| < k
  {
    AllMovesZoneWindows(zone);
    forall m | m in AllMovesZone(zone)
      ensures |m| < k
    {
      var j: nat :| j + |m| <= |zone| && m == Window(zone, j, |m|);
      if |m| >= k {
        PrefixWindow(zone, j, |m|, k);
      }
    }
  }

  /** A window holds some of the zone's cards. */
  lemma WindowOwned(zone: seq<Card>, j: nat, k: nat)
    requires j + k <= |zone|
    ensures multiset(Window(zone, j, k)) <= multiset(zone)
  {
    assert zone == zone[..j] + Window(zone, j, k) + zone[j + k..];
  }

  // ---------------------------------------------------------------------------
  // all_moves

  /** Puts `c` in front of each of `ms`. */
  function Prefixed(c: Card, ms: seq<seq<Card>>): (r: seq<seq<Card>>)
    ensures |r| == |ms|
    ensures forall i | 0 <= i < |ms| :: r[i] == [c] + ms[i]
  {
    seq(|ms|, i requires 0 <= i < |ms| => [c] + ms[i])
  }

  /** `tuple_combinations` into pairs: `[h[i], h[j]]` for `i < j`, in
      lexicographic order of the indices. */
  function Pairs(h: seq<Card>): (ps: seq<seq<Card>>)
  {
    if |h| == 0 then [] else Prefixed(h[0], seq(|h| - 1, i requires 0 <= i < |h| - 1 => [h[i + 1]])) + Pairs(h[1..])
  }

  /** `tuple_combinations` into triples: `[h[i], h[j], h[k]]` for
      `i < j < k`, in lexicographic order of the indices. */
  function Triples(h: seq<Card>): (ts: seq<seq<Card>>)
  {
    if |h| == 0 then [] else Prefixed(h[0], Pairs(h[1..])) + Triples(h[1..])
  }

  /** Every pair is the cards at two increasing positions. */
  lemma {:induction false} PairsSound(h: seq<Card>)
    ensures forall p | p in Pairs(h) ::
      exists i: nat, j: nat :: i < j < |h| && p == [h[i], h[j]]
  {
    if |h| > 0 {
      var t := h[1..];
      var singles := seq(|h| - 1, i requires 0 <= i < |h| - 1 => [h[i + 1]]);
      var front := Prefixed(h[0], singles);
      PairsSound(t);
      assert Pairs(h) == front + Pairs(t);
      forall p | p in Pairs(h)
        ensures exists i: nat, j: nat :: i < j < |h| && p == [h[i], h[j]]
      {
        if p in front {
          var k :| 0 <= k < |front| && front[k] == p;
          ConsOne(h[0], h[k + 1]);
          assert 0 < k + 1 < |h| && p == [h[0], h[k + 1]];
        } else {
          assert p in Pairs(t);
          var i: nat, j: nat :| i < j < |t| && p == [t[i], t[j]];
          assert t[i] == h[i + 1] && t[j] == h[j + 1];
          assert i + 1 < j + 1 < |h| && p == [h[i + 1], h[j + 1]];
        }
      }
    }
  }

  /** The cards at any two increasing positions form a pair. */
  lemma {:induction false} PairsComplete(h: seq<Card>)
    ensures forall i: nat, j: nat | i < j < |h| :: [h[i], h[j]] in Pairs(h)
  {
    if |h| > 0 {
      var t := h[1..];
      var singles := seq(|h| - 1, i requires 0 <= i < |h| - 1 => [h[i + 1]]);
      var front := Prefixed(h[0], singles);
      PairsComplete(t);
      assert Pairs(h) == front + Pairs(t);
      forall i: nat, j: nat | i < j < |h|
        ensures [h[i], h[j]] in Pairs(h)
      {
        if i == 0 {
          ConsOne(h[0], h[j]);
          assert Pairs(h)[j - 1] == [h[0], h[j]];
        } else {
          assert [t[i - 1], t[j - 1]] in Pairs(t);
          assert t[i - 1] == h[i] && t[j - 1] == h[j];
        }
      }
    }
  }

  lemma ConsOne(c: Card, x: Card)
    ensures [c] + [x] == [c, x]
  {
  }

  /** Every triple is the cards at three increasing positions. */
  lemma {:induction false} TriplesSound(h: seq<Card>)
    ensures forall p | p in Triples(h) ::
      exists i: nat, j: nat, k: nat :: i < j < k < |h| && p == [h[i], h[j], h[k]]
  {
    if |h| > 0 {
      var t := h[1..];
      var front := Prefixed(h[0], Pairs(t));
      TriplesSound(t);
      forall p | p in Triples(h)
        ensures exists i: nat, j: nat, k: nat :: i < j < k < |h| && p == [h[i], h[j], h[k]]
      {
        if p in front {
          var q :| 0 <= q < |front| && front[q] == p;
          var j: nat, k: nat := FrontPair(t, q);
          assert p == [h[0], h[j + 1], h[k + 1]];
        } else {
          assert p in Triples(t);
          var i: nat, j: nat, k: nat :| i < j < k < |t| && p == [t[i], t[j], t[k]];
          assert p == [h[i + 1], h[j + 1], h[k + 1]];
        }
      }
    }
  }

  /** The positions of the `q`-th pair. */
  lemma FrontPair(t: seq<Card>, q: nat) returns (j: nat, k: nat)
    requires q < |Pairs(t)|
    ensures j < k < |t| && Pairs(t)[q] == [t[j], t[k]]
  {
    PairsSound(t);
    assert Pairs(t)[q] in Pairs(t);
    j, k :| j < k < |t| && Pairs(t)[q] == [t[j], t[k]];
  }

  /** The cards at any three increasing positions form a triple. */
  lemma {:induction false} TriplesComplete(h: seq<Card>, i: nat, j: nat, k: nat)
    requires i < j < k < |h|
    ensures [h[i], h[j], h[k]] in Triples(h)
  {
    var t := h[1..];
    if i == 0 {
      TriplesFront(h, j, k);
    } else {
      TriplesComplete(t, i - 1, j - 1, k - 1);
      assert Triples(h) == Prefixed(h[0], Pairs(t)) + Triples(t);
      assert [t[i - 1], t[j - 1], t[k - 1]] == [h[i], h[j], h[k]];
    }
  }

  /** The triples that start with the first card. */
  lemma TriplesFront(h: seq<Card>, j: nat, k: nat)
    requires 0 < j < k < |h|
    ensures [h[0], h[j], h[k]] in Triples(h)
  {
    var t := h[1..];
    var q := PairIndex(t, j - 1, k - 1);
    TriplesHeadAt(h, q);
    ConsPair(h[0], Pairs(t)[q], t[j - 1], t[k - 1]);
    assert t[j - 1] == h[j] && t[k - 1] == h[k];
    InAt(Triples(h), q, [h[0], h[j], h[k]]);
  }

  /** The `q`-th triple of a non-empty hand is the first card before the
      `q`-th pair of the rest. */
  lemma TriplesHeadAt(h: seq<Card>, q: nat)
    requires |h| > 0 && q < |Pairs(h[1..])|
    ensures q < |Triples(h)| && Triples(h)[q] == [h[0]] + Pairs(h[1..])[q]
  {
    var front := Prefixed(h[0], Pairs(h[1..]));
    assert Triples(h) == front + Triples(h[1..]);
  }

  lemma InAt<T>(s: seq<T>, q: nat, x: T)
    requires q < |s| && s[q] == x
    ensures x in s
  {
  }

  lemma ConsPair(c: Card, p: seq<Card>, x: Card, y: Card)
    requires p == [x, y]
    ensures [c] + p == [c, x, y]
  {
  }

  /** Where the pair of positions `a < b` sits among the pairs. */
  lemma PairIndex(t: seq<Card>, a: nat, b: nat) returns (q: nat)
    requires a < b < |t|
    ensures q < |Pairs(t)| && Pairs(t)[q] == [t[a], t[b]]
  {
    PairsComplete(t);
    assert [t[a], t[b]] in Pairs(t);
    q :| q < |Pairs(t)| && Pairs(t)[q] == [t[a], t[b]];
  }

  /** `all_moves`: in Setup every choice of three hand cards; nothing once
      everyone is out; in Play the moves of the hand, else of the faceup
      cards, else the one empty move that plays a facedown card. */
  function AllMoves(m: MonteGame.GameState): (ms: seq<seq<Card>>)
    requires MonteGame.Wf(m)
  {
    var a := m.activePlayer;
    var hand := m.hands[a];
    var up := m.faceUpThree[a];
    if m.curPhase == Game.Setup then Triples(hand)
    else if |m.outPlayers| == m.numPlayers then []
    else if |hand| > 0 then AllMovesZone(hand)
    else if |up| > 0 then AllMovesZone(up)
    else [[]]
  }

  /** Three cards at distinct positions are among the cards. */
  lemma TripleOwned(h: seq<Card>, i: nat, j: nat, k: nat)
    requires i < j < k < |h|
    ensures multiset{h[i], h[j], h[k]} <= multiset(h)
  {
    assert h == h[..i] + [h[i]] + h[i + 1..j] + [h[j]] + h[j + 1..k] + [h[k]] + h[k + 1..];
  }

  /** Every move the simulator enumerates for a reachable state of the engine
      is a turn the engine accepts, and the game offers no move once it is
      over. */
  lemma MovesAccepted(g: Game.GameState)
    requires GameInvariant.Inv(g)
    ensures forall cards | cards in AllMoves(MonteGame.Project(g)) :: Game.TakeTurn(g, cards).result.Ok?
    ensures GameInvariant.Finished(g) ==> AllMoves(MonteGame.Project(g)) == []
  {
    var m := MonteGame.Project(g);
    var a := g.activePlayer;
    forall cards | cards in AllMoves(m)
      ensures Game.TakeTurn(g, cards).result.Ok?
    {
      if g.curPhase == Game.Setup {
        TriplesSound(g.hands[a]);
        var i: nat, j: nat, k: nat :| i < j < k < |g.hands[a]| && cards == [g.hands[a][i], g.hands[a][j], g.hands[a][k]];
        TripleOwned(g.hands[a], i, j, k);
        GameSpec.ChooseThreeFaceupAccepts(g, cards[0], cards[1], cards[2]);
      } else {
        PlayMoveAccepted(g, cards);
      }
    }
  }

  /** A Play move of the simulator is a play the engine accepts. */
  lemma PlayMoveAccepted(g: Game.GameState, cards: seq<Card>)
    requires GameInvariant.Inv(g) && g.curPhase == Game.Play
    requires cards in AllMoves(MonteGame.Project(g))
    ensures Game.TakeTurn(g, cards).result.Ok?
  {
    var a := g.activePlayer;
    var z := GameSpec.PlayZone(g);
    assert GameInvariant.Running(g);
    if z == Game.FaceDownThree {
      assert !Game.ZonesEmpty(g, a);
    } else {
      var zone := Game.ZoneCards(g, z);
      assert cards in AllMovesZone(zone);
      AllMovesZoneWindows(zone);
      var j: nat :| j + |cards| <= |zone| && cards == Window(zone, j, |cards|);
      WindowOwned(zone, j, |cards|);
    }
    GameSpec.MakePlayAcceptsExactly(g, cards);
  }

  /** While play runs the simulator always has a move. */
  lemma RunningHasMoves(g: Game.GameState)
    requires GameInvariant.Inv(g) && GameInvariant.Running(g) && g.curPhase == Game.Play
    ensures |AllMoves(MonteGame.Project(g))| > 0
  {
    var z := GameSpec.PlayZone(g);
    if z != Game.FaceDownThree {
      var zone := Game.ZoneCards(g, z);
      AllMovesZoneWindows(zone);
      assert Game.SameValue(Window(zone, 0, 1));
    }
  }

  // ---------------------------------------------------------------------------
  // determine

  /** A card of another player's hand as the Monte Carlo player knows it. */
  datatype MontyCard = Known(card: Card) | Unknown

  /** What the player has seen: every faceup zone, every hand with the cards
      it knows, the size of every facedown zone, the pile, whose turn it is
      and the phase. */
  datatype InformationSet = InformationSet(
    everyoneFaceupCards: seq<seq<Card>>,
    everyoneHands: seq<seq<MontyCard>>,
    everyoneFacedownCards: seq<nat>,
    curPile: seq<Card>,
    turnNumber: nat,
    curPhase: Game.Phase)

  /** The number of unknown cards in a hand. */
  function Unknowns(h: seq<MontyCard>): (n: nat)
    ensures n <= |h|
  {
    if |h| == 0 then 0 else (if h[0].Unknown? then 1 else 0) + Unknowns(h[1..])
  }

  /** The known cards of a hand. */
  function KnownCards(h: seq<MontyCard>): multiset<Card>
  {
    if |h| == 0 then multiset{} else (if h[0].Known? then multiset{h[0].card} else multiset{}) + KnownCards(h[1..])
  }

  /** A hand with each unknown card replaced, in order, by the next card of
      `unseen`. */
  function Fill(h: seq<MontyCard>, unseen: seq<Card>): (r: seq<Card>)
    requires Unknowns(h) <= |unseen|
    ensures |r| == |h|
    ensures multiset(r) == KnownCards(h) + multiset(unseen[..Unknowns(h)])
  {
    if |h| == 0 then []
    else if h[0].Known? then
      var rest := Fill(h[1..], unseen);
      FillKnownStep(h, unseen, rest);
      [h[0].card] + rest
    else
      var rest := Fill(h[1..], unseen[1..]);
      FillUnknownStep(h, unseen, rest);
      [unseen[0]] + rest
  }

  /** A known card keeps its place in the filled hand. */
  lemma FillKnownStep(h: seq<MontyCard>, unseen: seq<Card>, rest: seq<Card>)
    requires |h| > 0 && h[0].Known? && Unknowns(h) <= |unseen|
    requires multiset(rest) == KnownCards(h[1..]) + multiset(unseen[..Unknowns(h[1..])])
    ensures multiset([h[0].card] + rest) == KnownCards(h) + multiset(unseen[..Unknowns(h)])
  {
    assert Unknowns(h) == Unknowns(h[1..]);
    assert KnownCards(h) == multiset{h[0].card} + KnownCards(h[1..]);
    assert multiset([h[0].card] + rest) == multiset{h[0].card} + multiset(rest);
  }

  /** An unknown card takes the next unseen card. */
  lemma FillUnknownStep(h: seq<MontyCard>, unseen: seq<Card>, rest: seq<Card>)
    requires |h| > 0 && h[0].Unknown? && Unknowns(h) <= |unseen|
    requires multiset(rest) == KnownCards(h[1..]) + multiset(unseen[1..][..Unknowns(h[1..])])
    ensures multiset([unseen[0]] + rest) == KnownCards(h) + multiset(unseen[..Unknowns(h)])
  {
    var n := Unknowns(h[1..]);
    UnknownHead(h);
    SliceHead(unseen, n);
    assert multiset([unseen[0]] + rest) == multiset{unseen[0]} + multiset(rest);
  }

  lemma UnknownHead(h: seq<MontyCard>)
    requires |h| > 0 && h[0].Unknown?
    ensures KnownCards(h) == KnownCards(h[1..]) && Unknowns(h) == 1 + Unknowns(h[1..])
  {
  }

  /** The first `1 + n` cards are the first card and the `n` after it. */
  lemma SliceHead(u: seq<Card>, n: nat)
    requires 1 + n <= |u|
    ensures multiset(u[..1 + n]) == multiset{u[0]} + multiset(u[1..][..n])
  {
    SliceSplit(u, 1, n);
    assert u[..1] == [u[0]];
  }

  /** Taking `a + b` cards is taking `a` and then `b` more. */
  lemma SliceSplit<T>(u: seq<T>, a: nat, b: nat)
    requires a + b <= |u|
    ensures u[..a + b] == u[..a] + u[a..][..b]
  {
  }

  /** The cards of a prefix are those of its two consecutive parts. */
  lemma SliceCards(u: seq<Card>, a: nat, b: nat)
    requires a + b <= |u|
    ensures multiset(u[..a + b]) == multiset(u[..a]) + multiset(u[a..][..b])
  {
    SliceSplit(u, a, b);
  }

  /** Two parts whose pieces are known add up piece by piece. */
  lemma Regroup(x: multiset<Card>, y: multiset<Card>, a: multiset<Card>, b: multiset<Card>,
                c: multiset<Card>, m: multiset<Card>)
    requires x == a + b && y == c && m == b + c
    ensures x + y == a + m
  {
  }

  /** Interleaving two sums of two. */
  lemma SwapMiddle(a: multiset<Card>, b: multiset<Card>, c: multiset<Card>, d: multiset<Card>)
    ensures (a + b) + (c + d) == (a + c) + (b + d)
  {
  }

  /** The unknown cards of all hands together. */
  function HandsUnknowns(hs: seq<seq<MontyCard>>): nat
  {
    if |hs| == 0 then 0 else Unknowns(hs[0]) + HandsUnknowns(hs[1..])
  }

  /** The known cards of all hands together. */
  function AllKnown(hs: seq<seq<MontyCard>>): multiset<Card>
  {
    if |hs| == 0 then multiset{} else KnownCards(hs[0]) + AllKnown(hs[1..])
  }

  /** A guess for hand `h`: as many cards, sorted, holding its known cards. */
  predicate Guessed(h: seq<MontyCard>, r: seq<Card>) {
    |r| == |h| && Sorted(r) && KnownCards(h) <= multiset(r)
  }

  /** The hands of the guess: each hand filled from the unseen cards in turn
      and sorted. */
  function FillHands(hs: seq<seq<MontyCard>>, unseen: seq<Card>): (r: seq<seq<Card>>)
    requires HandsUnknowns(hs) <= |unseen|
    ensures |r| == |hs|
    ensures forall p | 0 <= p < |hs| :: Guessed(hs[p], r[p])
  {
    if |hs| == 0 then []
    else
      var u := Unknowns(hs[0]);
      var first := Sort(Fill(hs[0], unseen));
      var rest := FillHands(hs[1..], unseen[u..]);
      assert Guessed(hs[0], first) by {
        assert multiset(first) == KnownCards(hs[0]) + multiset(unseen[..u]);
      }
      GuessedCons(hs, first, rest);
      [first] + rest
  }

  /** A guessed first hand in front of guessed other hands. */
  lemma GuessedCons(hs: seq<seq<MontyCard>>, first: seq<Card>, rest: seq<seq<Card>>)
    requires |hs| > 0 && |rest| == |hs| - 1 && Guessed(hs[0], first)
    requires forall p | 0 <= p < |hs| - 1 :: Guessed(hs[1..][p], rest[p])
    ensures forall p | 0 <= p < |hs| :: Guessed(hs[p], ([first] + rest)[p])
  {
    forall p | 1 <= p < |hs|
      ensures Guessed(hs[p], ([first] + rest)[p])
    {
      assert ([first] + rest)[p] == rest[p - 1] && hs[1..][p - 1] == hs[p];
    }
  }

  /** The guessed hands hold the known cards and the first unseen cards,
      one for each unknown card. */
  lemma {:induction false} FillHandsCards(hs: seq<seq<MontyCard>>, unseen: seq<Card>)
    requires HandsUnknowns(hs) <= |unseen|
    ensures Flatten(FillHands(hs, unseen)) == AllKnown(hs) + multiset(unseen[..HandsUnknowns(hs)])
  {
    if |hs| > 0 {
      var u := Unknowns(hs[0]);
      var first := Sort(Fill(hs[0], unseen));
      var rest := FillHands(hs[1..], unseen[u..]);
      FillHandsCards(hs[1..], unseen[u..]);
      assert FillHands(hs, unseen) == [first] + rest;
      FlattenCons(first, rest);
      var h1 := HandsUnknowns(hs[1..]);
      SliceSplit(unseen, u, h1);
      var a, b, c, d := KnownCards(hs[0]), multiset(unseen[..u]), AllKnown(hs[1..]), multiset(unseen[u..][..h1]);
      assert multiset(first) == a + b;
      assert Flatten(rest) == c + d;
      assert HandsUnknowns(hs) == u + h1;
      assert AllKnown(hs) == a + c;
      assert multiset(unseen[..u + h1]) == b + d;
      SwapMiddle(a, b, c, d);
    }
  }

  function Sum(lens: seq<nat>): nat
  {
    if |lens| == 0 then 0 else lens[0] + Sum(lens[1..])
  }

  /** The facedown zones of the guess: each takes as many of the unseen cards
      as the player is known to hold face down. */
  function DealDown(lens: seq<nat>, unseen: seq<Card>): (r: seq<seq<Card>>)
    requires Sum(lens) <= |unseen|
    ensures |r| == |lens|
    ensures forall p | 0 <= p < |lens| :: |r[p]| == lens[p]
    ensures Flatten(r) == multiset(unseen[..Sum(lens)])
  {
    if |lens| == 0 then []
    else
      var first := unseen[..lens[0]];
      var rest := DealDown(lens[1..], unseen[lens[0]..]);
      var r := [first] + rest;
      assert Flatten(r) == multiset(unseen[..Sum(lens)]) by {
        FlattenCons(first, rest);
        SliceSplit(unseen, lens[0], Sum(lens[1..]));
      }
      assert forall p | 1 <= p < |lens| :: r[p] == rest[p - 1] && lens[1..][p - 1] == lens[p];
      r
  }

  /** How many unseen cards a guess uses: one per unknown hand card and one
      per facedown card. */
  function Needed(info: InformationSet): nat
  {
    HandsUnknowns(info.everyoneHands) + Sum(info.everyoneFacedownCards)
  }

  /** Hands first, facedown zones next: together they take the known cards
      and the first `Needed` unseen cards. */
  lemma DealtCards(hs: seq<seq<MontyCard>>, lens: seq<nat>, unseen: seq<Card>)
    requires HandsUnknowns(hs) + Sum(lens) <= |unseen|
    ensures Flatten(FillHands(hs, unseen)) + Flatten(DealDown(lens, unseen[HandsUnknowns(hs)..]))
      == AllKnown(hs) + multiset(unseen[..HandsUnknowns(hs) + Sum(lens)])
  {
    var u, n := HandsUnknowns(hs), Sum(lens);
    FillHandsCards(hs, unseen);
    SliceCards(unseen, u, n);
    Regroup(Flatten(FillHands(hs, unseen)), Flatten(DealDown(lens, unseen[u..])), AllKnown(hs),
            multiset(unseen[..u]), multiset(unseen[u..][..n]), multiset(unseen[..u + n]));
  }

  /** `InformationSet::determine` on the already shuffled `unseen` cards: the
      hands get the unseen cards first, then the facedown zones; faceup
      zones, pile, turn and phase are copied and nobody is out yet. Too few
      unseen cards would make the source index past the end. Which cards the
      guess holds is `DetermineCards`. */
  function Determine(info: InformationSet, unseen: seq<Card>): (m: MonteGame.GameState)
    requires Needed(info) <= |unseen|
    ensures m.activePlayer == info.turnNumber && m.numPlayers == |info.everyoneHands|
    ensures m.faceUpThree == info.everyoneFaceupCards && m.pileCards == info.curPile
    ensures m.curPhase == info.curPhase && m.outPlayers == []
    ensures |m.hands| == |info.everyoneHands|
    ensures forall p | 0 <= p < |m.hands| :: Guessed(info.everyoneHands[p], m.hands[p])
    ensures |m.faceDownThree| == |info.everyoneFacedownCards|
    ensures forall p | 0 <= p < |m.faceDownThree| :: |m.faceDownThree[p]| == info.everyoneFacedownCards[p]
  {
    var u := HandsUnknowns(info.everyoneHands);
    MonteGame.GameState(info.turnNumber, |info.everyoneHands|, FillHands(info.everyoneHands, unseen),
                        info.everyoneFaceupCards, DealDown(info.everyoneFacedownCards, unseen[u..]),
                        info.curPile, info.curPhase, [])
  }

  /** Rewrites the cards of a state through the zones it was built from. */
  lemma Dealt(m: MonteGame.GameState, hands: seq<seq<Card>>, down: seq<seq<Card>>, cards: multiset<Card>)
    requires m.hands == hands && m.faceDownThree == down
    requires Flatten(hands) + Flatten(down) == cards
    ensures Flatten(m.hands) + Flatten(m.faceDownThree) == cards
  {}

  /** The guess neither invents nor loses a card: its hands and facedown
      zones hold the known hand cards plus exactly the first `Needed`
      unseen cards. */
  lemma DetermineCards(info: InformationSet, unseen: seq<Card>)
    requires Needed(info) <= |unseen|
    ensures var m := Determine(info, unseen);
      Flatten(m.hands) + Flatten(m.faceDownThree)
      == AllKnown(info.everyoneHands) + multiset(unseen[..Needed(info)])
  {
    var hs, lens := info.everyoneHands, info.everyoneFacedownCards;
    var u := HandsUnknowns(hs);
    assert Needed(info) == u + Sum(lens);
    DealtCards(hs, lens, unseen);
    Dealt(Determine(info, unseen), FillHands(hs, unseen), DealDown(lens, unseen[u..]),
          AllKnown(hs) + multiset(unseen[..Needed(info)]));
  }
}
