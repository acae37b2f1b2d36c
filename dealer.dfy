/** Dealing: a shuffled deck is cut into 5-card hands for seats 1..n, in seat
    order, and the next 5 cards become the shared pool ("sobrantes"). Cuts
    follow Python's clamping slices, so with five players the pool is empty
    and from six players on the higher seats get short or empty hands. */
module Dealer {
  import opened Lists
  import opened Deck

  const HandSize: nat := 5
  const PoolSize: nat := 5

  /** At most four players can be dealt full hands and a full pool. */
  const MaxFullDeal: nat := 4

  /** Seat `i`'s hand: cards `(i - 1) * 5` up to `i * 5` of the deck. */
  function SeatCut(d: seq<Card>, i: nat): seq<Card>
    requires i >= 1
  {
    Slice(d, (i - 1) * HandSize, i * HandSize)
  }

  /** The hands of seats 1..n. */
  function DealtHands(d: seq<Card>, n: nat): (h: map<int, seq<Card>>)
  {
    map i | 1 <= i <= n :: SeatCut(d, i)
  }

  /** Dealing seat `i` after seats 1..i-1 gives the hands of seats 1..i. */
  lemma DealtHandsStep(d: seq<Card>, i: nat)
    requires i >= 1
    ensures DealtHands(d, i - 1)[i := SeatCut(d, i)] == DealtHands(d, i)
  {
    var a, b := DealtHands(d, i - 1)[i := SeatCut(d, i)], DealtHands(d, i);
    assert a.Keys == b.Keys;
    assert forall s :: s in a ==> a[s] == b[s];
  }

  /** The pool: the five cards after the last hand. */
  function DealtPool(d: seq<Card>, n: nat): (p: seq<Card>)
  {
    Slice(d, n * HandSize, n * HandSize + PoolSize)
  }

  /** The cards held by seats 1..n together (seats without a hand hold none). */
  ghost function HeldCards(hands: map<int, seq<Card>>, n: nat): multiset<Card>
  {
    if n == 0 then multiset{}
    else HeldCards(hands, n - 1) + (if n in hands then multiset(hands[n]) else multiset{})
  }

  /** Only seats 1..n count towards HeldCards. */
  lemma {:induction false} HeldCardsAgree(h: map<int, seq<Card>>, g: map<int, seq<Card>>, n: nat)
    requires forall i :: 1 <= i <= n ==> (i in h <==> i in g)
    requires forall i :: 1 <= i <= n && i in h ==> h[i] == g[i]
    ensures HeldCards(h, n) == HeldCards(g, n)
  {
    if n > 0 {
      HeldCardsAgree(h, g, n - 1);
    }
  }

  lemma AddToBoth(a: multiset<Card>, b: multiset<Card>, m: multiset<Card>, v: multiset<Card>, x: multiset<Card>)
    requires a + m == b + v
    ensures a + x + m == b + x + v
  {
    assert forall e :: (a + x + m)[e] == (a + m)[e] + x[e];
    assert forall e :: (b + x + v)[e] == (b + v)[e] + x[e];
  }

  /** Replacing seat `s`'s hand by `v` trades its cards for those of `v`. */
  lemma {:induction false} HeldCardsUpdate(h: map<int, seq<Card>>, n: nat, s: int, v: seq<Card>)
    requires 1 <= s <= n && s in h
    ensures HeldCards(h[s := v], n) + multiset(h[s]) == HeldCards(h, n) + multiset(v)
  {
    if s == n {
      HeldCardsAgree(h[s := v], h, n - 1);
    } else {
      HeldCardsUpdate(h, n - 1, s, v);
      var own := if n in h then multiset(h[n]) else multiset{};
      var a, b := HeldCards(h[s := v], n - 1), HeldCards(h, n - 1);
      assert a + multiset(h[s]) == b + multiset(v);
      assert HeldCards(h[s := v], n) == a + own;
      assert HeldCards(h, n) == b + own;
      AddToBoth(a, b, multiset(h[s]), multiset(v), own);
    }
  }

  /** The hands of seats 1..n laid end to end, in seat order. */
  function SeatOrder(hands: map<int, seq<Card>>, n: nat): seq<Card>
  {
    if n == 0 then []
    else SeatOrder(hands, n - 1) + (if n in hands then hands[n] else [])
  }

  /** HeldCards counts the cards of the hands laid end to end. */
  lemma {:induction false} HeldCardsInOrder(hands: map<int, seq<Card>>, n: nat)
    ensures HeldCards(hands, n) == multiset(SeatOrder(hands, n))
  {
    if n > 0 {
      HeldCardsInOrder(hands, n - 1);
    }
  }

  /** The dealt hands of seats 1..m, laid end to end, are the first `5 * m`
      cards of the deck. */
  lemma {:induction false} DealtInOrder(d: seq<Card>, n: nat, m: nat)
    requires m <= n
    ensures SeatOrder(DealtHands(d, n), m) == d[..Min(m * HandSize, |d|)]
  {
    if m > 0 {
      DealtInOrder(d, n, m - 1);
      var a, b := Min((m - 1) * HandSize, |d|), Min(m * HandSize, |d|);
      assert d[..b] == d[..a] + d[a..b];
    }
  }

  /** The hands of seats 1..m together are the first `5 * m` cards. */
  lemma DealtPrefix(d: seq<Card>, n: nat, m: nat)
    requires m <= n
    ensures HeldCards(DealtHands(d, n), m) == multiset(d[..Min(m * HandSize, |d|)])
  {
    HeldCardsInOrder(DealtHands(d, n), m);
    DealtInOrder(d, n, m);
  }

  /** Dealing places each of the first `5 * n + 5` cards (or all of them, if
      the deck is shorter) exactly once in a hand or the pool, and nothing
      else. */
  lemma DealAccounts(d: seq<Card>, n: nat)
    ensures HeldCards(DealtHands(d, n), n) + multiset(DealtPool(d, n))
            == multiset(d[..Min(n * HandSize + PoolSize, |d|)])
  {
    DealtPrefix(d, n, n);
    var a, b := Min(n * HandSize, |d|), Min(n * HandSize + PoolSize, |d|);
    assert d[..b] == d[..a] + d[a..b];
  }

  /** No more cards are dealt than the deck holds. */
  lemma DealWithinDeck(d: seq<Card>, n: nat)
    ensures HeldCards(DealtHands(d, n), n) + multiset(DealtPool(d, n)) <= multiset(d)
  {
    DealAccounts(d, n);
    var b := Min(n * HandSize + PoolSize, |d|);
    assert d == d[..b] + d[b..];
  }

  /** With at most four players and a 25-card deck, seat i holds exactly the
      cards `(i - 1) * 5 .. i * 5`, the pool the five after the last hand,
      every hand and the pool have five cards, and no other seat has a hand. */
  lemma DealWithinCapacity(d: seq<Card>, n: nat)
    requires |d| == DeckSize && n <= MaxFullDeal
    ensures forall i :: i in DealtHands(d, n) <==> 1 <= i <= n
    ensures forall i :: 1 <= i <= n ==>
      DealtHands(d, n)[i] == d[(i - 1) * HandSize..i * HandSize] && |DealtHands(d, n)[i]| == HandSize
    ensures DealtPool(d, n) == d[n * HandSize..n * HandSize + PoolSize]
    ensures |DealtPool(d, n)| == PoolSize
  {
  }

  /** Cards at disjoint runs of positions of a repetition-free deck differ. */
  lemma DisjointRuns(d: seq<Card>, a: nat, b: nat, c: nat, e: nat, x: Card)
    requires Distinct(d) && a <= b <= c <= e <= |d|
    requires x in d[a..b]
    ensures x !in d[c..e]
  {
    var k :| a <= k < b && d[k] == x;
  }

  /** Dealt from a shuffled deck, at most four hands and the pool are
      pairwise disjoint and none of them repeats a card. */
  lemma DealDisjoint(d: seq<Card>, n: nat)
    requires multiset(d) == multiset(FullDeck()) && n <= MaxFullDeal
    ensures Distinct(DealtPool(d, n))
    ensures forall i :: 1 <= i <= n ==> Distinct(DealtHands(d, n)[i])
    ensures forall i, j, x :: 1 <= i < j <= n && x in DealtHands(d, n)[i] ==> x !in DealtHands(d, n)[j]
    ensures forall i, x :: 1 <= i <= n && x in DealtHands(d, n)[i] ==> x !in DealtPool(d, n)
  {
    assert |d| == |multiset(d)| == DeckSize;
    WithinDeckDistinct(d);
    DealWithinCapacity(d, n);
    var h, p := DealtHands(d, n), DealtPool(d, n);
    forall i, j, x | 1 <= i < j <= n && x in h[i] ensures x !in h[j] {
      DisjointRuns(d, (i - 1) * HandSize, i * HandSize, (j - 1) * HandSize, j * HandSize, x);
    }
    forall i, x | 1 <= i <= n && x in h[i] ensures x !in p {
      DisjointRuns(d, (i - 1) * HandSize, i * HandSize, n * HandSize, n * HandSize + PoolSize, x);
    }
  }

  /** Python's slices clamp instead of failing: dealing for five or more
      players leaves the pool empty and every seat from the sixth on with no
      cards; seat five is the last to get any. */
  lemma DealOverCapacity(d: seq<Card>, n: nat)
    requires |d| == DeckSize && n > MaxFullDeal
    ensures DealtPool(d, n) == []
    ensures forall i :: MaxFullDeal + 2 <= i <= n ==> DealtHands(d, n)[i] == []
    ensures DealtHands(d, n)[MaxFullDeal + 1] == d[MaxFullDeal * HandSize..]
  {
  }
}
