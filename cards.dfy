/**
 * The playing-card deck of the BlackJack program: card values, the
 * 52-card standard deck, and the deck options (sorting, shuffling with a
 * given permutation, adding jokers, filtering, duplicating) that `New`
 * applies one after the other. A Go panic is a `Failure` carrying its message.
 */
module CardsDeck {
  import opened Wrappers
  import opened Seqs
  import Text

  /** Go's `Suit` (a `uint8` enumerated from 0). */
  datatype Suit = Spade | Diamond | Club | Heart | Joker

  function SuitValue(s: Suit): (v: nat)
    ensures v <= 4
  {
    match s
    case Spade => 0
    case Diamond => 1
    case Club => 2
    case Heart => 3
    case Joker => 4
  }

  /** Go's `Rank` is a `uint8`: Ace is 1 and King is 13, and anything else is representable. */
  newtype Rank = x: int | 0 <= x < 256

  const Ace: Rank := 1
  const Two: Rank := 2
  const Three: Rank := 3
  const Nine: Rank := 9
  const King: Rank := 13
  const NumRanks := 13

  /** A card; `absRank` is the cached sort key. */
  datatype Card = Card(suit: Suit, rank: Rank, absRank: int)

  /** The zero value of Go's `Card`. */
  const ZeroCard := Card(Spade, 0, 0)

  /** The suits of a standard deck, in deck order. */
  const Suits: seq<Suit> := [Spade, Diamond, Club, Heart]

  // ---------------------------------------------------------------------
  // Names, equality and the comparison
  // ---------------------------------------------------------------------

  /** The name table of `Suit`, as the generated `String` method gives it. */
  function SuitName(s: Suit): string {
    match s
    case Spade => "Spade"
    case Diamond => "Diamond"
    case Club => "Club"
    case Heart => "Heart"
    case Joker => "Joker"
  }

  /** The name table of `Rank`; a value without a name prints as `Rank(<n>)`. */
  function RankName(r: Rank): string {
    if r == 1 then "Ace"
    else if r == 2 then "Two"
    else if r == 3 then "Three"
    else if r == 4 then "Four"
    else if r == 5 then "Five"
    else if r == 6 then "Six"
    else if r == 7 then "Seven"
    else if r == 8 then "Eight"
    else if r == 9 then "Nine"
    else if r == 10 then "Ten"
    else if r == 11 then "Jack"
    else if r == 12 then "Queen"
    else if r == 13 then "King"
    else "Rank(" + Text.NatToString(r as nat) + ")"
  }

  /** `Card.String`: `Joker` for a joker, `<Rank> of <Suit>s` for any other card. */
  function CardString(c: Card): string {
    if c.suit == Joker then SuitName(Joker)
    else RankName(c.rank) + " of " + SuitName(c.suit) + "s"
  }

  /** `Card.Equals`: two cards are equal when they agree on suit and rank. */
  predicate Equals(c: Card, other: Card) {
    c.suit == other.suit && c.rank == other.rank
  }

  /** The comparison `Less(cards)` returns, applied to the cards at the two positions. */
  predicate Less(c: Card, d: Card) {
    c.absRank < d.absRank
  }

  /** What `sort.Slice` needs of a comparison for its result to be sorted. */
  ghost predicate StrictWeakOrder(less: (Card, Card) -> bool) {
    && (forall c :: !less(c, c))
    && (forall c, d, e :: less(c, d) && less(d, e) ==> less(c, e))
    && (forall c, d, e :: !less(c, d) && !less(d, e) ==> !less(c, e))
  }

  /** No card is placed after a card it is less than. */
  ghost predicate SortedBy(s: seq<Card>, less: (Card, Card) -> bool) {
    forall p, q :: 0 <= p < q < |s| ==> !less(s[q], s[p])
  }

  /** `Equals` holds exactly when the two cards differ in nothing but `absRank`. */
  lemma EqualsIgnoresAbsRank(c: Card, d: Card)
    ensures Equals(c, d) <==> c.(absRank := d.absRank) == d
  {
  }

  /** Equal cards print the same. */
  lemma EqualsSameString(c: Card, d: Card)
    requires Equals(c, d)
    ensures CardString(c) == CardString(d)
  {
  }

  /** `Less` orders cards by `absRank`, so every sort by it ends non-decreasing in `absRank`. */
  lemma LessIsStrictWeakOrder()
    ensures StrictWeakOrder(Less)
    ensures forall s: seq<Card> :: SortedBy(s, Less) <==>
      forall p, q :: 0 <= p < q < |s| ==> s[p].absRank <= s[q].absRank
  {
  }

  /** The example printout of four cards. */
  lemma CardStringExamples()
    ensures CardString(Card(Heart, Ace, 0)) == "Ace of Hearts"
    ensures CardString(Card(Club, Two, 0)) == "Two of Clubs"
    ensures CardString(Card(Spade, Nine, 0)) == "Nine of Spades"
    ensures CardString(Card(Joker, 0, 0)) == "Joker"
  {
  }

  // ---------------------------------------------------------------------
  // The standard deck
  // ---------------------------------------------------------------------

  /** The card at position `i` of a fresh deck: suit `i / 13`, rank `i % 13 + 1`. */
  function StandardCard(i: nat): (c: Card)
    requires i < 52
  {
    var s := Suits[i / NumRanks];
    var r := i % NumRanks + 1;
    Card(s, r as Rank, SuitValue(s) * NumRanks + r)
  }

  function StandardDeck(): (d: seq<Card>)
    ensures |d| == 52
  {
    seq(52, i requires 0 <= i < 52 => StandardCard(i))
  }

  /** The standard deck runs through the suits in order, Ace to King in each, with `absRank` 1..52 ascending. */
  lemma StandardDeckOrder(i: nat)
    requires i < 52
    ensures StandardDeck()[i].suit == Suits[i / 13] && StandardDeck()[i].suit != Joker
    ensures StandardDeck()[i].rank as int == i % 13 + 1 && Ace <= StandardDeck()[i].rank <= King
    ensures StandardDeck()[i].absRank == i + 1
  {
    var s := Suits[i / NumRanks];
    assert SuitValue(s) == i / 13 by {
      assert 0 <= i / 13 < 4;
    }
  }

  /** Different positions of a fresh deck hold different cards. */
  lemma StandardDeckDistinct(i: nat, j: nat)
    requires i < j < 52
    ensures !Equals(StandardDeck()[i], StandardDeck()[j])
  {
    StandardDeckOrder(i);
    StandardDeckOrder(j);
    assert i == 13 * (i / 13) + i % 13;
    assert j == 13 * (j / 13) + j % 13;
    if Suits[i / 13] == Suits[j / 13] {
      assert i / 13 == j / 13;
    }
  }

  lemma StandardCardAt(s: nat, r: nat)
    requires s < 4 && 1 <= r <= 13
    ensures StandardCard(13 * s + r - 1) == Card(Suits[s], r as Rank, SuitValue(Suits[s]) * 13 + r)
  {
    var i := 13 * s + r - 1;
    assert i / 13 == s && i % 13 == r - 1;
  }

  /** Lays out the standard deck suit by suit, Ace..King within each suit. */
  method NewStandardDeck() returns (cards: seq<Card>)
    ensures cards == StandardDeck()
  {
    cards := [];
    for s := 0 to 4
      invariant |cards| == 13 * s
      invariant forall k :: 0 <= k < |cards| ==> cards[k] == StandardCard(k)
    {
      var suit := Suits[s];
      for rank := 1 to 14
        invariant |cards| == 13 * s + rank - 1
        invariant forall k :: 0 <= k < |cards| ==> cards[k] == StandardCard(k)
      {
        StandardCardAt(s, rank);
        cards := cards + [Card(suit, rank as Rank, SuitValue(suit) * NumRanks + rank)];
      }
    }
  }

  // ---------------------------------------------------------------------
  // Sorting
  // ---------------------------------------------------------------------

  /** The first `n` cards are sorted by `less`. */
  ghost predicate SortedPrefix(s: seq<Card>, less: (Card, Card) -> bool, n: int) {
    forall p, q :: 0 <= p < q < n && q < |s| ==> !less(s[q], s[p])
  }

  /**
   * Inserting the card that started at position `i`: it now sits at `j`,
   * the other cards up to `i` are sorted, and the inserted card is less
   * than every card after it.
   */
  ghost predicate Inserting(s: seq<Card>, less: (Card, Card) -> bool, i: int, j: int)
    requires 0 <= j <= i < |s|
  {
    && (forall p, q :: 0 <= p < q <= i && p != j && q != j ==> !less(s[q], s[p]))
    && (forall q :: j < q <= i ==> less(s[j], s[q]))
  }

  /** Exchanging two neighbours keeps every card. */
  lemma SwapKeepsCards(s: seq<Card>, j: int)
    requires 0 < j < |s|
    ensures multiset(s[j := s[j - 1]][j - 1 := s[j]]) == multiset(s)
  {
  }

  lemma InsertingSwap(s: seq<Card>, less: (Card, Card) -> bool, i: int, j: int)
    requires StrictWeakOrder(less)
    requires 0 < j <= i < |s| && Inserting(s, less, i, j) && less(s[j], s[j - 1])
    ensures Inserting(s[j := s[j - 1]][j - 1 := s[j]], less, i, j - 1)
  {
  }

  lemma InsertingDone(s: seq<Card>, less: (Card, Card) -> bool, i: int, j: int)
    requires StrictWeakOrder(less)
    requires 0 <= j <= i < |s| && Inserting(s, less, i, j) && (j == 0 || !less(s[j], s[j - 1]))
    ensures SortedPrefix(s, less, i + 1)
  {
    forall p, q | 0 <= p < q <= i
      ensures !less(s[q], s[p])
    {
      if q == j && p < j - 1 {
        assert !less(s[j - 1], s[p]);
      }
    }
  }

  /**
   * `sort.Slice(cards, less)`: an in-place sort that always permutes the
   * slice and, when `less` is a strict weak order, leaves it sorted. The
   * order of cards that compare equal is unspecified.
   */
  method Sort(a: array<Card>, less: (Card, Card) -> bool)
    modifies a
    ensures multiset(a[..]) == multiset(old(a[..]))
    ensures StrictWeakOrder(less) ==> SortedBy(a[..], less)
  {
    ghost var ok := StrictWeakOrder(less);
    var i := 0;
    while i < a.Length
      invariant 0 <= i <= a.Length
      invariant multiset(a[..]) == multiset(old(a[..]))
      invariant ok ==> SortedPrefix(a[..], less, i)
    {
      var j := i;
      while j > 0 && less(a[j], a[j - 1])
        invariant 0 <= j <= i
        invariant multiset(a[..]) == multiset(old(a[..]))
        invariant ok ==> Inserting(a[..], less, i, j)
      {
        ghost var s := a[..];
        a[j], a[j - 1] := a[j - 1], a[j];
        assert a[..] == s[j := s[j - 1]][j - 1 := s[j]];
        SwapKeepsCards(s, j);
        if ok {
          InsertingSwap(s, less, i, j);
        }
        j := j - 1;
      }
      if ok {
        InsertingDone(a[..], less, i, j);
      }
      i := i + 1;
    }
  }

  /** `DefaultSort`: sorts by `absRank`, so the cards end in non-decreasing `absRank` order. */
  method DefaultSort(a: array<Card>)
    modifies a
    ensures multiset(a[..]) == multiset(old(a[..]))
    ensures SortedBy(a[..], Less)
    ensures forall p, q :: 0 <= p < q < a.Length ==> a[p].absRank <= a[q].absRank
  {
    LessIsStrictWeakOrder();
    Sort(a, Less);
  }

  /** Sorting a deck with `less` as `sort.Slice` does: a copy of the cards is sorted in place. */
  method SortCards(cards: seq<Card>, less: (Card, Card) -> bool) returns (r: seq<Card>)
    ensures multiset(r) == multiset(cards)
    ensures StrictWeakOrder(less) ==> SortedBy(r, less)
  {
    var a := new Card[|cards|](i requires 0 <= i < |cards| => cards[i]);
    assert a[..] == cards;
    Sort(a, less);
    r := a[..];
  }

  /** A sorted rearrangement of the standard deck by `Less` starts with the Ace of Spades. */
  lemma SortedStandardDeckStartsWithAce(r: seq<Card>)
    requires multiset(r) == multiset(StandardDeck())
    requires SortedBy(r, Less)
    ensures |r| == 52 && r[0] == Card(Spade, Ace, 1)
  {
    assert |r| == |multiset(r)| == 52;
    var ace := StandardDeck()[0];
    StandardDeckOrder(0);
    assert ace in multiset(r);
    var m :| 0 <= m < |r| && r[m] == ace;
    assert r[0] in multiset(StandardDeck());
    var k :| 0 <= k < 52 && StandardDeck()[k] == r[0];
    StandardDeckOrder(k);
    if m != 0 {
      assert !Less(r[m], r[0]);
    }
  }

  // ---------------------------------------------------------------------
  // Shuffling with a given permutation
  // ---------------------------------------------------------------------

  /** The list `0, 1, ..., n - 1`. */
  function Range(n: nat): (r: seq<int>)
    ensures |r| == n && forall i :: 0 <= i < n ==> r[i] == i
  {
    seq(n, i requires 0 <= i < n => i)
  }

  /** `perm` is a permutation of `0..n-1`, as `rand.Perm(n)` returns. */
  predicate IsPermutation(perm: seq<int>, n: nat) {
    multiset(perm) == multiset(Range(n))
  }

  /** Every index of `perm` is usable: `ret[i]` and `cards[perm[i]]` both exist. */
  predicate IndicesInRange(cards: seq<Card>, perm: seq<int>) {
    |perm| <= |cards| && forall i :: 0 <= i < |perm| ==> 0 <= perm[i] < |cards|
  }

  /** The cards picked by the indices of `perm`, in the order of `perm`. */
  function Permuted(cards: seq<Card>, perm: seq<int>): (r: seq<Card>)
    requires forall i :: 0 <= i < |perm| ==> 0 <= perm[i] < |cards|
    ensures |r| == |perm| && forall i :: 0 <= i < |perm| ==> r[i] == cards[perm[i]]
  {
    seq(|perm|, i requires 0 <= i < |perm| => cards[perm[i]])
  }

  /**
   * What the `Shuffle` loop leaves for `perm`: a slice as long as `cards`
   * whose position `i` holds `cards[perm[i]]` and whose positions past
   * `perm` keep the zero card; an index out of range panics.
   */
  function Shuffled(cards: seq<Card>, perm: seq<int>): (r: Result<seq<Card>, string>)
  {
    if IndicesInRange(cards, perm) then
      Success(Permuted(cards, perm) + seq(|cards| - |perm|, _ => ZeroCard))
    else
      Failure("index out of range")
  }

  /** `Shuffle`, with the random permutation passed in: fills a fresh slice by index. */
  method Shuffle(cards: seq<Card>, perm: seq<int>) returns (r: Result<seq<Card>, string>)
    ensures r == Shuffled(cards, perm)
  {
    var ret := new Card[|cards|](_ => ZeroCard);
    for i := 0 to |perm|
      invariant IndicesInRange(cards, perm[..i])
      invariant forall k :: 0 <= k < i ==> ret[k] == cards[perm[k]]
      invariant forall k :: i <= k < ret.Length ==> ret[k] == ZeroCard
    {
      var j := perm[i];
      if i >= ret.Length || j < 0 || j >= |cards| {
        assert !IndicesInRange(cards, perm);
        return Failure("index out of range");
      }
      ret[i] := cards[j];
    }
    assert perm[..|perm|] == perm;
    r := Success(ret[..]);
    assert ret[..] == Permuted(cards, perm) + seq(|cards| - |perm|, _ => ZeroCard);
  }

  lemma PermutedAppend(cards: seq<Card>, p: seq<int>, q: seq<int>)
    requires forall i :: 0 <= i < |p| ==> 0 <= p[i] < |cards|
    requires forall i :: 0 <= i < |q| ==> 0 <= q[i] < |cards|
    ensures Permuted(cards, p + q) == Permuted(cards, p) + Permuted(cards, q)
  {
  }

  lemma PermutationInRange(perm: seq<int>, n: nat)
    requires IsPermutation(perm, n)
    ensures |perm| == n && forall i :: 0 <= i < |perm| ==> 0 <= perm[i] < n
  {
    assert |perm| == |multiset(perm)| == |multiset(Range(n))| == n;
    forall i | 0 <= i < |perm| ensures 0 <= perm[i] < n {
      assert perm[i] in multiset(Range(n));
    }
  }

  /** The largest index occurs once in a permutation; without it the rest is a permutation of the smaller ones. */
  lemma PermutationWithoutLast(perm: seq<int>, n: nat) returns (k: nat)
    requires IsPermutation(perm, n) && n > 0
    ensures k < |perm| && perm[k] == n - 1
    ensures IsPermutation(perm[..k] + perm[k + 1..], n - 1)
  {
    k := IndexOfLargest(perm, n);
    WithoutOne(perm, k);
    RangeSnoc(n);
    CancelOne(multiset(perm[..k] + perm[k + 1..]), multiset(Range(n - 1)), n - 1);
  }

  /** The largest index occurs in a permutation. */
  lemma IndexOfLargest(perm: seq<int>, n: nat) returns (k: nat)
    requires IsPermutation(perm, n) && n > 0
    ensures k < |perm| && perm[k] == n - 1
  {
    assert n - 1 in perm by {
      assert Range(n)[n - 1] == n - 1;
      assert n - 1 in multiset(Range(n));
    }
    k :| 0 <= k < |perm| && perm[k] == n - 1;
  }

  /** A sequence holds the elements of what is left without position `k`, and the element at `k`. */
  lemma WithoutOne(s: seq<int>, k: nat)
    requires k < |s|
    ensures multiset(s) == multiset(s[..k] + s[k + 1..]) + multiset{s[k]}
  {
    assert s == s[..k] + [s[k]] + s[k + 1..];
  }

  /** Taking one occurrence away from equal multisets leaves equal multisets. */
  lemma CancelOne(A: multiset<int>, B: multiset<int>, x: int)
    requires A + multiset{x} == B + multiset{x}
    ensures A == B
  {
    assert A == (A + multiset{x}) - multiset{x};
    assert B == (B + multiset{x}) - multiset{x};
  }

  /** The indices below `n` are those below `n - 1` and `n - 1`. */
  lemma RangeSnoc(n: nat)
    requires n > 0
    ensures multiset(Range(n)) == multiset(Range(n - 1)) + multiset{n - 1}
  {
    assert Range(n) == Range(n - 1) + [n - 1];
  }

  /** Picking with `before + [n - 1] + after` from `cards` is picking from all but the last card, with the last card in between. */
  lemma PermutedAroundLast(cards: seq<Card>, perm: seq<int>, before: seq<int>, after: seq<int>)
    requires |cards| > 0 && perm == before + [|cards| - 1] + after
    requires forall i :: 0 <= i < |perm| ==> 0 <= perm[i] < |cards|
    requires forall i :: 0 <= i < |before| ==> 0 <= before[i] < |cards| - 1
    requires forall i :: 0 <= i < |after| ==> 0 <= after[i] < |cards| - 1
    ensures Permuted(cards, perm)
      == Permuted(cards[..|cards| - 1], before) + [cards[|cards| - 1]] + Permuted(cards[..|cards| - 1], after)
  {
  }

  /** Both parts of a permutation hold only indices below its length. */
  lemma PartsInRange(before: seq<int>, after: seq<int>, m: nat)
    requires IsPermutation(before + after, m)
    ensures forall i :: 0 <= i < |before| ==> 0 <= before[i] < m
    ensures forall i :: 0 <= i < |after| ==> 0 <= after[i] < m
  {
    var rest := before + after;
    PermutationInRange(rest, m);
    assert forall i :: 0 <= i < |before| ==> before[i] == rest[i];
    assert forall i :: 0 <= i < |after| ==> after[i] == rest[|before| + i];
  }

  lemma MultisetAroundOne(x: seq<Card>, p1: seq<Card>, c: Card, p2: seq<Card>, init: seq<Card>)
    requires x == p1 + [c] + p2 && multiset(p1 + p2) == multiset(init)
    ensures multiset(x) == multiset(init + [c])
  {
  }

  /** Picking the cards in the order of a permutation rearranges them and loses none. */
  lemma {:induction false} PermutedMultiset(cards: seq<Card>, perm: seq<int>)
    requires IsPermutation(perm, |cards|)
    ensures forall i :: 0 <= i < |perm| ==> 0 <= perm[i] < |cards|
    ensures multiset(Permuted(cards, perm)) == multiset(cards)
    decreases |cards|
  {
    var n := |cards|;
    PermutationInRange(perm, n);
    if n > 0 {
      var k := PermutationWithoutLast(perm, n);
      var before, after := perm[..k], perm[k + 1..];
      assert perm == before + [n - 1] + after;
      var init := cards[..n - 1];
      assert cards == init + [cards[n - 1]];
      PartsInRange(before, after, n - 1);
      PermutedMultiset(init, before + after);
      PermutedAroundLast(cards, perm, before, after);
      PermutedAppend(init, before, after);
      MultisetAroundOne(Permuted(cards, perm), Permuted(init, before), cards[n - 1], Permuted(init, after), init);
    }
  }

  /** Shuffling with a permutation of the positions keeps every card and the deck's size. */
  lemma ShufflePermutes(cards: seq<Card>, perm: seq<int>)
    requires IsPermutation(perm, |cards|)
    ensures Shuffled(cards, perm).Success?
    ensures |Shuffled(cards, perm).value| == |cards|
    ensures multiset(Shuffled(cards, perm).value) == multiset(cards)
  {
    PermutationInRange(perm, |cards|);
    PermutedMultiset(cards, perm);
    assert seq(|cards| - |perm|, _ => ZeroCard) == [];
    assert Shuffled(cards, perm).value == Permuted(cards, perm) + [];
  }

  // ---------------------------------------------------------------------
  // Jokers, Filter, Deck
  // ---------------------------------------------------------------------

  /** The `i`-th joker added: rank `Rank(i)` (a `uint8`, so `i` modulo 256) and `absRank` -1. */
  function JokerCard(i: nat): Card {
    Card(Joker, (i % 256) as Rank, -1)
  }

  /** `Jokers(n)` applied to a deck: fails for a negative count, otherwise appends `n` jokers. */
  function WithJokers(cards: seq<Card>, n: int): (r: Result<seq<Card>, string>)
    ensures r.Success? <==> n >= 0
    ensures r.Failure? ==> r.error == "Jokers count cannot be negative"
    ensures r.Success? ==> |r.value| == |cards| + n && r.value[..|cards|] == cards
    ensures r.Success? ==> forall i :: 0 <= i < n ==> r.value[|cards| + i] == JokerCard(i)
  {
    if n < 0 then Failure("Jokers count cannot be negative")
    else Success(cards + JokerCards(n))
  }

  function JokerCards(n: nat): (r: seq<Card>)
    ensures |r| == n && forall i :: 0 <= i < n ==> r[i] == JokerCard(i)
  {
    seq(n, i requires 0 <= i < n => JokerCard(i))
  }

  method Jokers(cards: seq<Card>, n: int) returns (r: Result<seq<Card>, string>)
    ensures r == WithJokers(cards, n)
  {
    if n < 0 {
      return Failure("Jokers count cannot be negative");
    }
    var ret := cards;
    for i := 0 to n
      invariant |ret| == |cards| + i && ret[..|cards|] == cards
      invariant forall k :: 0 <= k < i ==> ret[|cards| + k] == JokerCard(k)
    {
      ret := ret + [JokerCard(i)];
    }
    assert forall k :: 0 <= k < |ret| ==> ret[k] == (cards + JokerCards(n))[k];
    assert ret == cards + JokerCards(n);
    r := Success(ret);
  }

  /** `Filter(f)` applied to a deck: the cards for which `f` is false, in order. */
  function WithoutMatching(cards: seq<Card>, f: Card -> bool): (r: seq<Card>)
    ensures forall i :: 0 <= i < |r| ==> !f(r[i])
    ensures forall i :: 0 <= i < |cards| && !f(cards[i]) ==> cards[i] in r
  {
    Keep(cards, c => !f(c))
  }

  method Filter(cards: seq<Card>, f: Card -> bool) returns (ret: seq<Card>)
    ensures ret == WithoutMatching(cards, f)
  {
    ret := [];
    for i := 0 to |cards|
      invariant ret == Keep(cards[..i], c => !f(c))
    {
      assert cards[..i + 1][..i] == cards[..i];
      if !f(cards[i]) {
        ret := ret + [cards[i]];
      }
    }
    assert cards[..|cards|] == cards;
  }

  /** The deck repeated `n` times. */
  function Repeat(s: seq<Card>, n: nat): (r: seq<Card>)
  {
    if n == 0 then [] else Repeat(s, n - 1) + s
  }

  /** `n` copies of the deck hold `n` times as many cards. */
  lemma {:induction false} RepeatLength(s: seq<Card>, n: nat)
    ensures |Repeat(s, n)| == n * |s|
  {
    if n > 0 {
      RepeatLength(s, n - 1);
    }
  }

  /** Copy `k` of the deck sits at positions `k * |s|` onwards, card for card. */
  lemma {:induction false} RepeatAt(s: seq<Card>, n: nat, k: nat, i: nat)
    requires k < n && i < |s|
    ensures k * |s| + i < |Repeat(s, n)| && Repeat(s, n)[k * |s| + i] == s[i]
  {
    RepeatLength(s, n - 1);
    assert (n - 1) * |s| + |s| == n * |s|;
    if k < n - 1 {
      RepeatAt(s, n - 1, k, i);
      assert k * |s| + i < (n - 1) * |s|;
    } else {
      assert k * |s| == (n - 1) * |s|;
    }
  }

  /** `n` copies of the deck hold `n` times as many of each card. */
  lemma {:induction false} RepeatCount(s: seq<Card>, n: nat, c: Card)
    ensures multiset(Repeat(s, n))[c] == n * multiset(s)[c]
  {
    if n > 0 {
      RepeatCount(s, n - 1, c);
      var m := multiset(s)[c];
      assert multiset(Repeat(s, n)) == multiset(Repeat(s, n - 1)) + multiset(s);
      assert multiset(Repeat(s, n))[c] == (n - 1) * m + m;
      assert (n - 1) * m + m == n * m;
    }
  }

  /** `Deck(n)` applied to a deck: fails for a count below 1. */
  function Duplicated(cards: seq<Card>, n: int): (r: Result<seq<Card>, string>)
    ensures r.Success? <==> n >= 1
    ensures r.Failure? ==> r.error == "Deck count must be at least 1"
  {
    if n < 1 then Failure("Deck count must be at least 1") else Success(Repeat(cards, n))
  }

  method Deck(cards: seq<Card>, n: int) returns (r: Result<seq<Card>, string>)
    ensures r == Duplicated(cards, n)
  {
    if n < 1 {
      return Failure("Deck count must be at least 1");
    }
    var ret := [];
    for i := 0 to n
      invariant ret == Repeat(cards, i)
    {
      ret := ret + cards;
    }
    r := Success(ret);
  }

  // ---------------------------------------------------------------------
  // New and its options
  // ---------------------------------------------------------------------

  /** The deck options `New` accepts. */
  datatype DeckOption =
    | DefaultSortOption
    | SortOption(less: (Card, Card) -> bool)
    | ShuffleOption
    | JokersOption(count: int)
    | FilterOption(f: Card -> bool)
    | DeckOption(copies: int)

  /**
   * `perms(n)` is the permutation of `0..n-1` the random source draws for a
   * deck of `n` cards, as `rand.Perm(n)` does.
   */
  ghost predicate PermSource(perms: nat -> seq<int>) {
    forall n: nat :: IsPermutation(perms(n), n)
  }

  /** The identity permutation is one such source, so `New` can be called. */
  lemma RangeIsPermSource()
    ensures PermSource((n: nat) => Range(n))
  {
  }

  /**
   * The outcomes option `o` may give for `before`. The sorts may give any
   * sorted rearrangement. The shuffle may give the deck rearranged by any
   * permutation of its own positions.
   */
  ghost predicate OptionStep(o: DeckOption, before: seq<Card>, after: Result<seq<Card>, string>) {
    match o
    case DefaultSortOption =>
      after.Success? && multiset(after.value) == multiset(before) && SortedBy(after.value, Less)
    case SortOption(less) =>
      after.Success? && multiset(after.value) == multiset(before)
      && (StrictWeakOrder(less) ==> SortedBy(after.value, less))
    case ShuffleOption => exists perm :: IsPermutation(perm, |before|) && after == Shuffled(before, perm)
    case JokersOption(n) => after == WithJokers(before, n)
    case FilterOption(f) => after == Success(WithoutMatching(before, f))
    case DeckOption(n) => after == Duplicated(before, n)
  }

  /**
   * The outcomes of applying `opts` left to right to `start`, each option
   * to the deck the previous one returned; the first panic ends it.
   */
  ghost predicate Applied(opts: seq<DeckOption>, start: seq<Card>, r: Result<seq<Card>, string>)
    decreases |opts|
  {
    if opts == [] then r == Success(start)
    else
      exists mid :: Applied(opts[..|opts| - 1], start, mid)
        && (mid.Failure? ==> r == mid)
        && (mid.Success? ==> OptionStep(opts[|opts| - 1], mid.value, r))
  }

  /** One option applied to `cards`; a shuffle draws its permutation from `perms` for the deck's size. */
  method ApplyOption(o: DeckOption, cards: seq<Card>, perms: nat -> seq<int>) returns (r: Result<seq<Card>, string>)
    requires PermSource(perms)
    ensures OptionStep(o, cards, r)
  {
    match o
    case DefaultSortOption =>
      var a := new Card[|cards|](i requires 0 <= i < |cards| => cards[i]);
      assert a[..] == cards;
      DefaultSort(a);
      r := Success(a[..]);
    case SortOption(less) =>
      var s := SortCards(cards, less);
      r := Success(s);
    case ShuffleOption =>
      var perm := perms(|cards|);
      r := Shuffle(cards, perm);
      assert IsPermutation(perm, |cards|) && r == Shuffled(cards, perm);
    case JokersOption(n) =>
      r := Jokers(cards, n);
    case FilterOption(f) =>
      var s := Filter(cards, f);
      r := Success(s);
    case DeckOption(n) =>
      r := Deck(cards, n);
  }

  /** Once an option panics, the options after it are not applied. */
  lemma {:induction false} AppliedAfterFailure(opts: seq<DeckOption>, start: seq<Card>, i: nat, e: string)
    requires i <= |opts| && Applied(opts[..i], start, Failure(e))
    ensures Applied(opts, start, Failure(e))
    decreases |opts| - i
  {
    if i < |opts| {
      assert opts[..i + 1][..i] == opts[..i];
      assert Applied(opts[..i + 1], start, Failure(e));
      AppliedAfterFailure(opts, start, i + 1, e);
    } else {
      assert opts[..i] == opts;
    }
  }

  /**
   * `New(opts...)`: lays out the standard deck, then applies the options
   * left to right; `perms` stands for the time-seeded random source.
   */
  method New(opts: seq<DeckOption>, perms: nat -> seq<int>) returns (r: Result<seq<Card>, string>)
    requires PermSource(perms)
    ensures Applied(opts, StandardDeck(), r)
  {
    var cards := NewStandardDeck();
    for i := 0 to |opts|
      invariant Applied(opts[..i], StandardDeck(), Success(cards))
    {
      var next := ApplyOption(opts[i], cards, perms);
      assert opts[..i + 1][..i] == opts[..i];
      assert Applied(opts[..i + 1], StandardDeck(), next);
      if next.Failure? {
        AppliedAfterFailure(opts, StandardDeck(), i + 1, next.error);
        return next;
      }
      cards := next.value;
    }
    assert opts[..|opts|] == opts;
    r := Success(cards);
  }

  /** With one option, `New` gives exactly what that option gives for the standard deck. */
  lemma AppliedOne(o: DeckOption, r: Result<seq<Card>, string>)
    ensures Applied([o], StandardDeck(), r) <==> OptionStep(o, StandardDeck(), r)
  {
    assert [o][..0] == [];
  }

  /** With no options, `New` gives the 52-card standard deck. */
  lemma NewWithoutOptions(r: Result<seq<Card>, string>)
    requires Applied([], StandardDeck(), r)
    ensures r.Success? && |r.value| == 52
  {
  }

  /** `New(DefaultSort)` and `New(Sort(Less))` start with the Ace of Spades. */
  lemma SortedNewStartsWithAce(r: Result<seq<Card>, string>)
    requires Applied([DefaultSortOption], StandardDeck(), r) || Applied([SortOption(Less)], StandardDeck(), r)
    ensures r.Success? && |r.value| == 52 && r.value[0] == Card(Spade, Ace, 1)
  {
    AppliedOne(DefaultSortOption, r);
    AppliedOne(SortOption(Less), r);
    LessIsStrictWeakOrder();
    SortedStandardDeckStartsWithAce(r.value);
  }

  predicate IsJoker(c: Card) {
    c.suit == Joker
  }

  /** `New(Jokers(3))` holds exactly three jokers, after the 52 standard cards. */
  lemma NewWithThreeJokers(r: Result<seq<Card>, string>)
    requires Applied([JokersOption(3)], StandardDeck(), r)
    ensures r.Success? && |r.value| == 55 && |Keep(r.value, IsJoker)| == 3
  {
    AppliedOne(JokersOption(3), r);
    var d := StandardDeck();
    var jokers := r.value[52..];
    assert r.value == d + jokers;
    forall i | 0 <= i < 52 ensures !IsJoker(d[i]) {
      StandardDeckOrder(i);
    }
    KeepNone(d, IsJoker);
    KeepAll(jokers, IsJoker);
    KeepAppend(d, jokers, IsJoker);
  }

  /** `New(Jokers(-1))` and `New(Deck(0))` panic. */
  lemma NewRejectsBadCounts(r1: Result<seq<Card>, string>, r2: Result<seq<Card>, string>)
    requires Applied([JokersOption(-1)], StandardDeck(), r1)
    requires Applied([DeckOption(0)], StandardDeck(), r2)
    ensures r1 == Failure("Jokers count cannot be negative")
    ensures r2 == Failure("Deck count must be at least 1")
  {
    AppliedOne(JokersOption(-1), r1);
    AppliedOne(DeckOption(0), r2);
  }

  /** `New(Deck(3))` holds 156 cards, three of each standard card. */
  lemma NewWithThreeDecks(r: Result<seq<Card>, string>)
    requires Applied([DeckOption(3)], StandardDeck(), r)
    ensures r.Success? && |r.value| == 156
    ensures forall c :: multiset(r.value)[c] == 3 * multiset(StandardDeck())[c]
  {
    AppliedOne(DeckOption(3), r);
    RepeatLength(StandardDeck(), 3);
    forall c ensures multiset(r.value)[c] == 3 * multiset(StandardDeck())[c] {
      RepeatCount(StandardDeck(), 3, c);
    }
  }

  predicate IsTwoOrThree(c: Card) {
    c.rank == Two || c.rank == Three
  }

  /** Filtering out twos and threes leaves none of them and keeps every other card. */
  lemma NewWithoutTwosAndThrees(r: Result<seq<Card>, string>)
    requires Applied([FilterOption(IsTwoOrThree)], StandardDeck(), r)
    ensures r.Success?
    ensures forall i :: 0 <= i < |r.value| ==> r.value[i].rank != Two && r.value[i].rank != Three
    ensures forall i :: 0 <= i < 52 && !IsTwoOrThree(StandardDeck()[i]) ==> StandardDeck()[i] in r.value
  {
    AppliedOne(FilterOption(IsTwoOrThree), r);
  }

  /** A shuffle step never fails and keeps the deck's size and its cards. */
  lemma ShuffleStepKeepsCards(before: seq<Card>, after: Result<seq<Card>, string>)
    requires OptionStep(ShuffleOption, before, after)
    ensures after.Success? && |after.value| == |before| && multiset(after.value) == multiset(before)
  {
    var perm :| IsPermutation(perm, |before|) && after == Shuffled(before, perm);
    ShufflePermutes(before, perm);
  }

  /** `New(Jokers(2), Shuffle)`, the documented example: 54 cards, the standard deck and two jokers in some order. */
  lemma NewJokersThenShuffle(r: Result<seq<Card>, string>)
    requires Applied([JokersOption(2), ShuffleOption], StandardDeck(), r)
    ensures r.Success? && |r.value| == 54
    ensures multiset(r.value) == multiset(StandardDeck() + JokerCards(2))
  {
    var mid := AppliedLast([JokersOption(2), ShuffleOption], StandardDeck(), r);
    AppliedOne(JokersOption(2), mid);
    ShuffleStepKeepsCards(mid.value, r);
  }

  /** The outcome of the options before the last one, from which the last one continued. */
  lemma AppliedLast(opts: seq<DeckOption>, start: seq<Card>, r: Result<seq<Card>, string>)
    returns (mid: Result<seq<Card>, string>)
    requires opts != [] && Applied(opts, start, r)
    ensures Applied(opts[..|opts| - 1], start, mid)
    ensures mid.Failure? ==> r == mid
    ensures mid.Success? ==> OptionStep(opts[|opts| - 1], mid.value, r)
  {
    mid :| Applied(opts[..|opts| - 1], start, mid)
      && (mid.Failure? ==> r == mid)
      && (mid.Success? ==> OptionStep(opts[|opts| - 1], mid.value, r));
  }
}
