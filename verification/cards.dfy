/** Cards, their derived ordering, sorting, and the deck that `new_deck` builds
    (palace_server/src/game.rs lines 6-55 and 86-96).

    Rust derives `Ord` for `CardValue` and `CardSuit` from declaration order and
    for `Card` lexicographically over its fields (`value`, then `suit`); the
    ranks below are those declaration positions. */
module Cards {

  const HAND_SIZE: nat := 6

  datatype CardSuit = Clubs | Diamonds | Hearts | Spades

  datatype CardValue =
    | Two | Three | Four | Five | Six | Seven | Eight
    | Nine | Ten | Jack | Queen | King | Ace

  datatype Card = Card(value: CardValue, suit: CardSuit)

  const SUITS: seq<CardSuit> := [Clubs, Diamonds, Hearts, Spades]

  const VALUES: seq<CardValue> :=
    [Two, Three, Four, Five, Six, Seven, Eight, Nine, Ten, Jack, Queen, King, Ace]

  /** Declaration position of a suit: the derived order compares these. */
  function SuitRank(s: CardSuit): (r: nat)
    ensures r < |SUITS| && SUITS[r] == s
  {
    match s
    case Clubs => 0
    case Diamonds => 1
    case Hearts => 2
    case Spades => 3
  }

  /** Declaration position of a value: the derived order compares these. */
  function ValueRank(v: CardValue): (r: nat)
    ensures r < |VALUES| && VALUES[r] == v
  {
    match v
    case Two => 0
    case Three => 1
    case Four => 2
    case Five => 3
    case Six => 4
    case Seven => 5
    case Eight => 6
    case Nine => 7
    case Ten => 8
    case Jack => 9
    case Queen => 10
    case King => 11
    case Ace => 12
  }

  /** `x <= y` on `CardValue`. */
  predicate ValueLe(a: CardValue, b: CardValue) {
    ValueRank(a) <= ValueRank(b)
  }

  /** Position of a card in the derived order: value first, then suit. */
  function Key(c: Card): nat {
    4 * ValueRank(c.value) + SuitRank(c.suit)
  }

  /** `x <= y` on `Card`, compared through `Key`. */
  predicate CardLe(a: Card, b: Card) {
    Key(a) <= Key(b)
  }

  /** `CardLe` is the lexicographic order that `#[derive(Ord)]` gives `Card`,
      and only equal cards share a key, so equivalent cards are equal. */
  lemma CardLeIsDerivedOrder(a: Card, b: Card)
    ensures CardLe(a, b) <==>
      || ValueRank(a.value) < ValueRank(b.value)
      || (a.value == b.value && SuitRank(a.suit) <= SuitRank(b.suit))
    ensures Key(a) == Key(b) ==> a == b
  {
    assert VALUES[ValueRank(a.value)] == a.value && VALUES[ValueRank(b.value)] == b.value;
    assert SUITS[SuitRank(a.suit)] == a.suit && SUITS[SuitRank(b.suit)] == b.suit;
  }

  predicate Sorted(s: seq<Card>) {
    forall i, j :: 0 <= i < j < |s| ==> Key(s[i]) <= Key(s[j])
  }

  /** A card no greater than anything in a sorted sequence may be put in front. */
  lemma SortedCons(c: Card, s: seq<Card>)
    requires Sorted(s)
    requires forall x | x in s :: CardLe(c, x)
    ensures Sorted([c] + s)
  {
    var r := [c] + s;
    forall i, j | 0 <= i < j < |r|
      ensures Key(r[i]) <= Key(r[j])
    {
      if i == 0 {
        assert r[j] == s[j - 1] && s[j - 1] in s;
      } else {
        assert r[i] == s[i - 1] && r[j] == s[j - 1];
      }
    }
  }

  /** The first card of a sorted sequence bounds the rest from below. */
  lemma SortedHead(s: seq<Card>)
    requires Sorted(s) && |s| > 0
    ensures Sorted(s[1..])
    ensures forall x | x in s[1..] :: CardLe(s[0], x)
  {
    forall x | x in s[1..]
      ensures CardLe(s[0], x)
    {
      var k :| 0 <= k < |s[1..]| && s[1..][k] == x;
      assert s[k + 1] == x;
    }
  }

  /** Inserts `c` into sorted `s` before the first element it does not exceed. */
  function Insert(c: Card, s: seq<Card>): (r: seq<Card>)
    requires Sorted(s)
    ensures Sorted(r)
    ensures multiset(r) == multiset(s) + multiset{c}
    ensures |r| == |s| + 1
    ensures forall x :: x in r <==> x == c || x in s
  {
    if |s| == 0 then [c]
    else if CardLe(c, s[0]) then
      SortedHead(s);
      SortedCons(c, s);
      [c] + s
    else
      SortedHead(s);
      var t := Insert(c, s[1..]);
      assert s == [s[0]] + s[1..];
      SortedCons(s[0], t);
      [s[0]] + t
  }

  /** `sort_unstable` on a card vector. Because the card order is total and
      only equal cards tie, every correct sort yields this same sequence
      (see `SortedUnique`), so the choice of algorithm is immaterial. */
  function Sort(s: seq<Card>): (r: seq<Card>)
    ensures Sorted(r)
    ensures multiset(r) == multiset(s)
    ensures |r| == |s|
  {
    if |s| == 0 then []
    else
      assert s == [s[0]] + s[1..];
      Insert(s[0], Sort(s[1..]))
  }

  /** The head of a sorted sequence is a least element. */
  lemma SortedHeadLeast(s: seq<Card>, x: Card)
    requires Sorted(s) && x in s
    ensures Key(s[0]) <= Key(x)
  {
    var k :| 0 <= k < |s| && s[k] == x;
    if k > 0 {
      assert Key(s[0]) <= Key(s[k]);
    }
  }

  lemma MultisetTail(s: seq<Card>)
    requires |s| > 0
    ensures multiset(s[1..]) == multiset(s) - multiset{s[0]}
  {
    assert s == [s[0]] + s[1..];
  }

  /** Two sorted arrangements of the same cards are the same sequence. */
  lemma {:induction false} SortedUnique(a: seq<Card>, b: seq<Card>)
    requires Sorted(a) && Sorted(b)
    requires multiset(a) == multiset(b)
    ensures a == b
  {
    if |a| == 0 {
      assert |b| == |multiset(b)| == 0;
    } else {
      assert |b| == |multiset(b)| == |multiset(a)| == |a|;
      assert a[0] in multiset(b) && b[0] in multiset(a);
      SortedHeadLeast(a, b[0]);
      SortedHeadLeast(b, a[0]);
      CardLeIsDerivedOrder(a[0], b[0]);
      assert a[0] == b[0];
      MultisetTail(a);
      MultisetTail(b);
      SortedHead(a);
      SortedHead(b);
      SortedUnique(a[1..], b[1..]);
    }
  }

  /** Sorting a sequence that is already sorted leaves it unchanged. */
  lemma SortSorted(s: seq<Card>)
    requires Sorted(s)
    ensures Sort(s) == s
  {
    SortedUnique(Sort(s), s);
  }

  /** `Vec::remove` at the position of the first copy of `c`; absent cards
      leave the sequence unchanged. */
  function RemoveFirst(s: seq<Card>, c: Card): (r: seq<Card>)
    ensures c in s ==> multiset(r) == multiset(s) - multiset{c} && |r| == |s| - 1
    ensures c !in s ==> r == s
    ensures forall x :: x in r ==> x in s
  {
    if |s| == 0 then s
    else if s[0] == c then
      assert s == [s[0]] + s[1..];
      s[1..]
    else
      var t := RemoveFirst(s[1..], c);
      assert s == [s[0]] + s[1..];
      if c in s then
        assert multiset{s[0]} + (multiset(s[1..]) - multiset{c})
          == (multiset{s[0]} + multiset(s[1..])) - multiset{c} by {
          RemoveUnder(s[0], c, multiset(s[1..]));
        }
        [s[0]] + t
      else
        [s[0]] + t
  }

  /** Removing a copy of `c` commutes with adding some other `x`. */
  lemma RemoveUnder<T>(x: T, c: T, m: multiset<T>)
    requires x != c
    ensures multiset{x} + (m - multiset{c}) == (multiset{x} + m) - multiset{c}
  {
    forall y ensures (multiset{x} + (m - multiset{c}))[y] == ((multiset{x} + m) - multiset{c})[y] {
    }
  }

  /** A multiset holding `x` and `tail` holds `x`, and `tail` without it. */
  lemma PeelSub<T>(x: T, tail: multiset<T>, m: multiset<T>)
    requires multiset{x} + tail <= m
    ensures x in m && tail <= m - multiset{x}
  {
    assert multiset{x}[x] <= m[x];
    forall y ensures tail[y] <= (m - multiset{x})[y] {
      assert (multiset{x} + tail)[y] <= m[y];
    }
  }

  /** Taking away `c` and then `tail` takes away their sum. */
  lemma PeelDiff<T>(c: multiset<T>, tail: multiset<T>, m: multiset<T>, rest: multiset<T>, r: multiset<T>)
    requires rest == m - c && r == rest - tail
    ensures r == m - (c + tail)
  {
    forall y ensures r[y] == (m - (c + tail))[y] {
    }
  }

  /** Taking a sub-multiset away and adding it back gives the original. */
  lemma AddBack(m: multiset<Card>, c: multiset<Card>)
    requires c <= m
    ensures (m - c) + c == m
  {
    forall y
      ensures ((m - c) + c)[y] == m[y]
    {
    }
  }

  lemma SubMultisetSize(c: multiset<Card>, m: multiset<Card>)
    requires c <= m
    ensures |c| <= |m|
  {
    AddBack(m, c);
  }

  /** Removing a card keeps a sorted sequence sorted. */
  lemma {:induction false} RemoveFirstSorted(s: seq<Card>, c: Card)
    requires Sorted(s)
    ensures Sorted(RemoveFirst(s, c))
  {
    if |s| > 0 && s[0] != c {
      SortedHead(s);
      RemoveFirstSorted(s[1..], c);
      SortedCons(s[0], RemoveFirst(s[1..], c));
    } else if |s| > 0 {
      SortedHead(s);
    }
  }

  /** The union of the cards of every player's zone of one kind. */
  function Flatten(zs: seq<seq<Card>>): multiset<Card> {
    if |zs| == 0 then multiset{} else Flatten(zs[..|zs| - 1]) + multiset(zs[|zs| - 1])
  }

  /** Extending a prefix of the zones by one zone adds that zone's cards. */
  lemma FlattenPrefixStep(zs: seq<seq<Card>>, k: nat)
    requires 0 < k <= |zs|
    ensures Flatten(zs[..k]) == Flatten(zs[..k - 1]) + multiset(zs[k - 1])
  {
    assert zs[..k][..k - 1] == zs[..k - 1];
  }

  /** Putting a zone in front adds that zone's cards. */
  lemma {:induction false} FlattenCons(z: seq<Card>, zs: seq<seq<Card>>)
    ensures Flatten([z] + zs) == multiset(z) + Flatten(zs)
    decreases |zs|
  {
    if |zs| > 0 {
      var front := zs[..|zs| - 1];
      assert ([z] + zs)[..|zs|] == [z] + front;
      FlattenCons(z, front);
    }
  }

  /** Replacing one player's zone changes the union by exactly that zone. */
  lemma {:induction false} FlattenUpdate(zs: seq<seq<Card>>, p: nat, z: seq<Card>)
    requires p < |zs|
    ensures Flatten(zs[p := z]) + multiset(zs[p]) == Flatten(zs) + multiset(z)
  {
    var n := |zs|;
    var zs' := zs[p := z];
    assert Flatten(zs') == Flatten(zs'[..n - 1]) + multiset(zs'[n - 1]);
    assert Flatten(zs) == Flatten(zs[..n - 1]) + multiset(zs[n - 1]);
    if p == n - 1 {
      assert zs'[..n - 1] == zs[..n - 1];
    } else {
      var front := zs[..n - 1];
      assert zs'[..n - 1] == front[p := z];
      assert front[p] == zs[p] && zs'[n - 1] == zs[n - 1];
      FlattenUpdate(front, p, z);
      assert Flatten(front[p := z]) + multiset(zs[p]) == Flatten(front) + multiset(z);
      assert Flatten(zs') == Flatten(front[p := z]) + multiset(zs[n - 1]);
      assert Flatten(zs) == Flatten(front) + multiset(zs[n - 1]);
      var lhs := Flatten(zs') + multiset(zs[p]);
      var rhs := Flatten(zs) + multiset(z);
      forall y
        ensures lhs[y] == rhs[y]
      {
        assert (Flatten(front[p := z]) + multiset(zs[p]))[y] == (Flatten(front) + multiset(z))[y];
      }
      assert lhs == rhs;
    }
  }

  /** Shrinking one zone by `c` shrinks the union by `c`. */
  lemma FlattenShrink(zs: seq<seq<Card>>, p: nat, z: seq<Card>, c: multiset<Card>)
    requires p < |zs| && multiset(z) + c == multiset(zs[p])
    ensures Flatten(zs[p := z]) + c == Flatten(zs)
  {
    FlattenUpdate(zs, p, z);
    var lhs := Flatten(zs[p := z]) + c;
    forall y
      ensures lhs[y] == Flatten(zs)[y]
    {
      assert (Flatten(zs[p := z]) + multiset(zs[p]))[y] == (Flatten(zs) + multiset(z))[y];
    }
    assert lhs == Flatten(zs);
  }

  /** Growing one zone by `c` grows the union by `c`. */
  lemma FlattenGrow(zs: seq<seq<Card>>, p: nat, z: seq<Card>, c: multiset<Card>)
    requires p < |zs| && multiset(z) == multiset(zs[p]) + c
    ensures Flatten(zs[p := z]) == Flatten(zs) + c
  {
    FlattenUpdate(zs, p, z);
    forall y
      ensures Flatten(zs[p := z])[y] == (Flatten(zs) + c)[y]
    {
      assert (Flatten(zs[p := z]) + multiset(zs[p]))[y] == (Flatten(zs) + multiset(z))[y];
    }
  }

  /** Number of cards held in the zones, counted per player. */
  function TotalLength(zs: seq<seq<Card>>): nat {
    if |zs| == 0 then 0 else TotalLength(zs[..|zs| - 1]) + |zs[|zs| - 1]|
  }

  lemma {:induction false} FlattenSize(zs: seq<seq<Card>>)
    ensures |Flatten(zs)| == TotalLength(zs)
  {
    if |zs| > 0 {
      FlattenSize(zs[..|zs| - 1]);
    }
  }

  // ---------------------------------------------------------------------------
  // The deck

  /** `SUITS.iter().take(num_players)`: the number of suits the deck cycles. */
  function SuitsUsed(n: nat): nat {
    if n < |SUITS| then n else |SUITS|
  }

  /** `new_deck(num_players)`: the value list cycled `num_players` times,
      zipped with the first `num_players` suits (at most four) cycled. */
  function NewDeck(n: nat): seq<Card> {
    seq(13 * n, i requires 0 <= i < 13 * n => Card(VALUES[i % 13], SUITS[i % SuitsUsed(n)]))
  }

  function ValuesOf(s: seq<Card>): seq<CardValue> {
    seq(|s|, i requires 0 <= i < |s| => s[i].value)
  }

  function RepeatValues(n: nat): seq<CardValue> {
    if n == 0 then [] else RepeatValues(n - 1) + VALUES
  }

  lemma {:induction false} RepeatValuesIndex(n: nat, i: nat)
    requires i < 13 * n
    ensures |RepeatValues(n)| == 13 * n
    ensures RepeatValues(n)[i] == VALUES[i % 13]
  {
    if i < 13 * (n - 1) {
      RepeatValuesIndex(n - 1, i);
    } else {
      if n > 1 { RepeatValuesIndex(n - 1, 0); }
      assert i % 13 == i - 13 * (n - 1);
    }
  }

  lemma {:induction false} RepeatValuesCount(n: nat, v: CardValue)
    ensures multiset(RepeatValues(n))[v] == n
  {
    if n > 0 {
      RepeatValuesCount(n - 1, v);
      assert multiset(RepeatValues(n)) == multiset(RepeatValues(n - 1)) + multiset(VALUES);
      ValuesOnce(v);
    }
  }

  /** Every value occurs once in the value list. */
  lemma ValuesOnce(v: CardValue)
    ensures multiset(VALUES)[v] == 1
  {
    var k := ValueRank(v);
    forall i | 0 <= i < |VALUES| && i != k
      ensures VALUES[i] != v
    {
      ValuesDistinct(i, k);
    }
    SingleCount(VALUES, k);
  }

  /** An element that occurs at position `k` only is counted once. */
  lemma {:induction false} SingleCount(s: seq<CardValue>, k: nat)
    requires k < |s| && forall i :: 0 <= i < |s| && i != k ==> s[i] != s[k]
    ensures multiset(s)[s[k]] == 1
  {
    var v := s[k];
    assert s == s[..k] + [v] + s[k + 1..];
    assert v !in s[..k];
    assert v !in s[k + 1..];
    assert multiset(s) == multiset(s[..k]) + multiset{v} + multiset(s[k + 1..]);
  }

  /** The value list names each value once. */
  lemma ValuesDistinct(i: nat, j: nat)
    requires i < |VALUES| && j < |VALUES| && i != j
    ensures VALUES[i] != VALUES[j]
  {
    assert ValueRank(VALUES[i]) == i && ValueRank(VALUES[j]) == j by {
      if i == 0 {} else if i == 1 {} else if i == 2 {} else if i == 3 {}
      else if i == 4 {} else if i == 5 {} else if i == 6 {} else if i == 7 {}
      else if i == 8 {} else if i == 9 {} else if i == 10 {} else if i == 11 {}
      if j == 0 {} else if j == 1 {} else if j == 2 {} else if j == 3 {}
      else if j == 4 {} else if j == 5 {} else if j == 6 {} else if j == 7 {}
      else if j == 8 {} else if j == 9 {} else if j == 10 {} else if j == 11 {}
    }
  }

  /** `new_deck(n)` has thirteen cards per player and every value exactly
      `n` times. */
  lemma NewDeckValues(n: nat, v: CardValue)
    ensures |NewDeck(n)| == 13 * n
    ensures multiset(ValuesOf(NewDeck(n)))[v] == n
  {
    if n > 0 { RepeatValuesIndex(n, 0); }
    forall i | 0 <= i < 13 * n
      ensures ValuesOf(NewDeck(n))[i] == RepeatValues(n)[i]
    {
      RepeatValuesIndex(n, i);
    }
    assert ValuesOf(NewDeck(n)) == RepeatValues(n);
    RepeatValuesCount(n, v);
  }

  /** Two positions of the deck differ modulo 13 or modulo `n <= 4`
      (13 is coprime to 1..4), so they carry different cards. */
  lemma {:induction false} DeckPositionsDiffer(i: nat, j: nat, n: nat)
    requires 1 <= n <= 4 && i < j < 13 * n
    ensures i % 13 != j % 13 || i % n != j % n
  {
    if n >= 2 && i % 13 == j % 13 {
      var k := j / 13 - i / 13;
      assert j - i == 13 * k;
      assert 1 <= k < n;
      if n == 2 {
        assert j == i + 13;
      } else if n == 3 {
        assert j == i + 13 || j == i + 26;
      } else {
        assert j == i + 13 || j == i + 26 || j == i + 39;
      }
    }
  }

  /** For one to four players the deck holds distinct cards drawn from
      exactly the first `n` suits; game.rs test lines 507-520 check the suit
      count. */
  lemma NewDeckDistinct(n: nat)
    requires 1 <= n <= 4
    ensures forall i :: 0 <= i < |NewDeck(n)| ==> SuitRank(NewDeck(n)[i].suit) < n
    ensures forall s: CardSuit :: SuitRank(s) < n ==>
      exists i :: 0 <= i < |NewDeck(n)| && NewDeck(n)[i].suit == s
    ensures forall i, j :: 0 <= i < j < |NewDeck(n)| ==> NewDeck(n)[i] != NewDeck(n)[j]
  {
    var d := NewDeck(n);
    RanksOfIndices();
    assert SuitsUsed(n) == n;
    forall i | 0 <= i < |d|
      ensures SuitRank(d[i].suit) < n
    {
      assert d[i].suit == SUITS[i % n];
    }
    forall s: CardSuit | SuitRank(s) < n
      ensures exists i :: 0 <= i < |d| && d[i].suit == s
    {
      var r := SuitRank(s);
      assert d[r].suit == SUITS[r % n] == s;
    }
    forall i, j | 0 <= i < j < |d|
      ensures d[i] != d[j]
    {
      DeckPositionsDiffer(i, j, n);
      assert ValueRank(d[i].value) == i % 13 && ValueRank(d[j].value) == j % 13;
      assert SuitRank(d[i].suit) == i % n && SuitRank(d[j].suit) == j % n;
    }
  }

  /** The ranks are exactly the positions in `VALUES` and `SUITS`. */
  lemma RanksOfIndices()
    ensures forall k :: 0 <= k < |VALUES| ==> ValueRank(VALUES[k]) == k
    ensures forall k :: 0 <= k < |SUITS| ==> SuitRank(SUITS[k]) == k
  {
    forall k | 0 <= k < |VALUES|
      ensures ValueRank(VALUES[k]) == k
    {
      assert k == 0 || k == 1 || k == 2 || k == 3 || k == 4 || k == 5 || k == 6
        || k == 7 || k == 8 || k == 9 || k == 10 || k == 11 || k == 12;
    }
    forall k | 0 <= k < |SUITS|
      ensures SuitRank(SUITS[k]) == k
    {
      assert k == 0 || k == 1 || k == 2 || k == 3;
    }
  }

  /** From five players on, `new_deck` repeats cards: positions 0 and 52 hold
      the same Two of Clubs. */
  lemma NewDeckRepeatsAboveFour(n: nat)
    requires n >= 5
    ensures NewDeck(n)[0] == NewDeck(n)[52] == Card(Two, Clubs)
  {
    assert SuitsUsed(n) == 4 && 52 % 4 == 0 && 52 % 13 == 0;
  }
}
