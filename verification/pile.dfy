/** The pile-legality table and the burn test of the engine
    (palace_server/src/game.rs lines 335-352 and 378-396). The pile is a
    sequence whose last element is the top card. */
module Pile {
  import opened Cards

  /** `effective_top_card`: walking down from the top, Fours are skipped; the
      first other value decides, and an empty or all-Four pile counts as Two. */
  function EffectiveTopCard(pile: seq<Card>): (v: CardValue)
    ensures v != Four
    ensures (forall i :: 0 <= i < |pile| ==> pile[i].value == Four) ==> v == Two
    ensures (exists i :: 0 <= i < |pile| && pile[i].value != Four) ==>
      exists i :: 0 <= i < |pile| && pile[i].value == v && IsTopmostNonFour(pile, i)
  {
    if |pile| == 0 then Two
    else if pile[|pile| - 1].value == Four then
      var v := EffectiveTopCard(pile[..|pile| - 1]);
      assert forall i :: 0 <= i < |pile| - 1 ==> pile[..|pile| - 1][i] == pile[i];
      v
    else
      assert IsTopmostNonFour(pile, |pile| - 1);
      pile[|pile| - 1].value
  }

  /** Position `i` holds a non-Four card and only Fours lie above it. */
  ghost predicate IsTopmostNonFour(pile: seq<Card>, i: nat) {
    && i < |pile|
    && pile[i].value != Four
    && forall k :: i < k < |pile| ==> pile[k].value == Four
  }

  /** `is_playable_without_pickup`: Two and Four always play; Ten plays unless
      the effective top is a Seven; on a Seven only values up to Seven play;
      otherwise the value must be at least the effective top. */
  predicate IsPlayableWithoutPickup(v: CardValue, pile: seq<Card>) {
    var top := EffectiveTopCard(pile);
    match v
    case Two => true
    case Four => true
    case Ten => top != Seven
    case _ => if top == Seven then ValueLe(v, Seven) else ValueLe(top, v)
  }

  /** Number of cards of value `v` in `s`. */
  function CountValue(s: seq<Card>, v: CardValue): nat {
    if |s| == 0 then 0
    else CountValue(s[..|s| - 1], v) + (if s[|s| - 1].value == v then 1 else 0)
  }

  /** The loop of `top_n_cards_same`: walking down from the top, cards of value
      `v` are counted, Fours are passed over, and any other card stops it. */
  function RunCount(pile: seq<Card>, v: CardValue): nat {
    if |pile| == 0 then 0
    else
      var c := pile[|pile| - 1];
      if c.value == v then RunCount(pile[..|pile| - 1], v) + 1
      else if c.value == Four then RunCount(pile[..|pile| - 1], v)
      else 0
  }

  /** `top_n_cards_same`: the top card's value occurs `num_players` times in
      the run counted by `RunCount`. */
  predicate TopNCardsSame(pile: seq<Card>, numPlayers: nat) {
    |pile| > 0 && RunCount(pile, pile[|pile| - 1].value) == numPlayers
  }

  /** `k` is where the longest top segment made only of `v` and Four cards begins. */
  ghost predicate RunStart(pile: seq<Card>, v: CardValue, k: nat) {
    && k <= |pile|
    && (forall i :: k <= i < |pile| ==> pile[i].value == v || pile[i].value == Four)
    && (k > 0 ==> pile[k - 1].value != v && pile[k - 1].value != Four)
  }

  // ---------------------------------------------------------------------------
  // Properties of the legality table

  /** The test lines 435-442 and 497-504: an empty pile reads as Two, a Four
      played on a Three leaves a Three on top, and an Eight may not follow a
      Seven. */
  lemma {:induction false} TableExamples(s: CardSuit)
    ensures EffectiveTopCard([]) == Two
    ensures EffectiveTopCard([Card(Three, s), Card(Four, s)]) == Three
    ensures !IsPlayableWithoutPickup(Eight, [Card(Three, s), Card(Seven, s)])
    ensures IsPlayableWithoutPickup(Seven, [Card(Three, s)])
  {
    assert [Card(Three, s), Card(Four, s)][..1] == [Card(Three, s)];
  }

  /** A Four laid on the pile changes nothing about what may follow. */
  lemma FourIsTransparent(pile: seq<Card>, s: CardSuit, v: CardValue)
    ensures EffectiveTopCard(pile + [Card(Four, s)]) == EffectiveTopCard(pile)
    ensures IsPlayableWithoutPickup(v, pile + [Card(Four, s)]) == IsPlayableWithoutPickup(v, pile)
  {
    assert (pile + [Card(Four, s)])[..|pile|] == pile;
  }

  /** Every value may be played on an empty pile. */
  lemma EmptyPileAcceptsAll(v: CardValue)
    ensures IsPlayableWithoutPickup(v, [])
  {
  }

  /** A card may always be played onto a card of its own value, which is what
      lets a run of equal values build up towards a burn. */
  lemma SameValuePlays(pile: seq<Card>, c: Card)
    ensures IsPlayableWithoutPickup(c.value, pile + [c])
  {
    var p := pile + [c];
    assert p[..|p| - 1] == pile;
    if c.value != Four {
      assert EffectiveTopCard(p) == c.value;
    }
  }

  /** Away from a Seven the accepted plain values are closed upwards: whatever
      is at least as high as a playable non-special value plays too. */
  lemma PlayableUpwardClosed(pile: seq<Card>, v: CardValue, w: CardValue)
    requires EffectiveTopCard(pile) != Seven
    requires v != Two && v != Four && v != Ten
    requires IsPlayableWithoutPickup(v, pile) && ValueLe(v, w)
    ensures IsPlayableWithoutPickup(w, pile)
  {
  }

  /** On a Seven the accepted values are closed downwards, except that a Ten
      never plays there. */
  lemma PlayableOnSevenDownwardClosed(pile: seq<Card>, v: CardValue, w: CardValue)
    requires EffectiveTopCard(pile) == Seven
    requires IsPlayableWithoutPickup(v, pile) && ValueLe(w, v) && w != Ten
    ensures IsPlayableWithoutPickup(w, pile)
  {
  }

  /** A Ten plays exactly when the effective top is not a Seven. */
  lemma TenPlaysUnlessSeven(pile: seq<Card>)
    ensures IsPlayableWithoutPickup(Ten, pile) <==> EffectiveTopCard(pile) != Seven
  {
  }

  // ---------------------------------------------------------------------------
  // Properties of the burn test

  /** The run count is the number of `v` cards in the longest top segment made
      only of `v` and Fours. */
  lemma {:induction false} RunCountIsSegmentCount(pile: seq<Card>, v: CardValue, k: nat)
    requires RunStart(pile, v, k)
    ensures RunCount(pile, v) == CountValue(pile[k..], v)
  {
    if |pile| == k {
      assert pile[k..] == [];
    } else {
      var front := pile[..|pile| - 1];
      assert RunStart(front, v, k) by {
        forall i | k <= i < |front|
          ensures front[i].value == v || front[i].value == Four
        {
          assert front[i] == pile[i];
        }
        if k > 0 { assert front[k - 1] == pile[k - 1]; }
      }
      RunCountIsSegmentCount(front, v, k);
      var c := pile[|pile| - 1];
      var one := if c.value == v then 1 else 0;
      assert RunCount(pile, v) == RunCount(front, v) + one by {
        assert c.value == v || c.value == Four;
      }
      assert CountValue(pile[k..], v) == CountValue(front[k..], v) + one by {
        var top := pile[k..];
        assert top[..|top| - 1] == front[k..] && top[|top| - 1] == c;
      }
    }
  }
}
