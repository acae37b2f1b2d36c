/** The game state machine: the roster, the dealt hands keyed by seat number,
    the shared pool, the deck (which every start shuffles in place) and the
    turn cursor, an index into the roster. Each command handler is one atomic
    step; the messages it sends are left out. */
module Session {
  import opened Lists
  import opened Deck
  import opened Roster
  import opened Dealer
  import opened Callback

  /** Starting needs at least two registered players. */
  const MinPlayers: nat := 2

  datatype JoinOutcome = AlreadyRegistered | Joined(seat: nat)

  datatype StartOutcome = InsufficientPlayers | Started

  /** The options request either fails (no player at the cursor, which Python
      reports as IndexError; another player asking; no hand at the cursor's
      seat, a KeyError) or offers the `(index, card)` pairs of the hand. */
  datatype OptionsOutcome =
    | NoPlayerAtTurn
    | NotYourTurn
    | NoHandAtTurn
    | Choices(options: seq<(nat, Card)>)

  /** How an exchange ends. The first three fail before anything changes: the
      button data is not a number (ValueError), the cursor's seat has no hand
      (KeyError), the index is outside the hand (IndexError from `pop`).
      `PoolEmpty` fails AFTER the chosen card has been popped from the hand:
      choosing from an empty pool raises IndexError, so the card is lost and
      the turn does not move. */
  datatype ExchangeOutcome =
    | NotANumber
    | NoHandToExchange
    | IndexOutOfRange
    | PoolEmpty(position: nat, given: Card)
    | Exchanged(position: nat, given: Card, received: Card)

  /** The cursor after `k` exchanges since the start, for `n` players. */
  function CursorAfter(n: nat, k: nat): nat
    requires n > 0
  {
    if k == 0 then 0 else (CursorAfter(n, k - 1) + 1) % n
  }

  lemma DivModSplit(a: int, n: nat)
    requires n > 0
    ensures a == (a / n) * n + a % n
  {
  }

  lemma MulAtLeast(d: int, n: nat)
    requires d >= 1 && n > 0
    ensures d * n >= n
  {
  }

  lemma MulSub(q: int, q': int, n: int)
    ensures (q - q') * n == q * n - q' * n
  {
  }

  /** `a % n == r` for the `r` of any decomposition `a == q * n + r`. */
  lemma ModOf(a: int, n: nat, q: int, r: int)
    requires n > 0 && 0 <= r < n && a == q * n + r
    ensures a % n == r
  {
    var q' := a / n;
    DivModSplit(a, n);
    MulSub(q, q', n);
    if q' < q {
      MulAtLeast(q - q', n);
    } else if q < q' {
      MulAtLeast(q' - q, n);
      MulSub(q', q, n);
    }
  }

  /** Advancing the cursor of step `k - 1`, reduced mod `n`, gives step `k`
      reduced mod `n`. */
  lemma ModStep(c: nat, k: nat, n: nat)
    requires n > 0 && k > 0 && c == (k - 1) % n
    ensures (c + 1) % n == k % n
  {
    var q, r := (k - 1) / n, (k - 1) % n;
    DivModSplit(k - 1, n);
    if r + 1 < n {
      ModOf(k, n, q, r + 1);
      ModOf(r + 1, n, 0, r + 1);
    } else {
      ModOf(k, n, q + 1, 0);
      ModOf(r + 1, n, 1, 0);
    }
  }

  /** The turn cycles through the roster in join order: after `k` exchanges
      it is the turn of roster entry `k % n`. `Start` sets the cursor to
      `CursorAfter(n, 0)`, and an `Exchanged` outcome of `Exchange` sets it to
      `(turn + 1) % n`, the step of `CursorAfter`; so after `k` completed
      exchanges since the start, with no join in between, the cursor is
      `k % n`. A `PoolEmpty` failure keeps the cursor without counting as an
      exchange, and a join changes `n`, so either breaks the count. */
  lemma {:induction false} CursorCycles(n: nat, k: nat)
    requires n > 0
    ensures CursorAfter(n, k) == k % n
  {
    if k > 0 {
      CursorCycles(n, k - 1);
      ModStep(CursorAfter(n, k - 1), k, n);
    }
  }

  /** The cards of seats 1..n together with the pool. */
  ghost function TableCards(hands: map<int, seq<Card>>, n: nat, pool: seq<Card>): multiset<Card>
  {
    HeldCards(hands, n) + multiset(pool)
  }

  /** The session invariant: the deck is a permutation of the 25 cards, no
      id joined twice, hands belong to registered seats, the cursor points
      into the roster once anyone has joined, and no card is held twice or
      held without coming from the deck. */
  ghost predicate Consistent(deck: seq<Card>, roster: seq<Player>, hands: map<int, seq<Card>>, pool: seq<Card>, turn: nat)
  {
    && multiset(deck) == multiset(FullDeck())
    && UniqueIds(roster)
    && (forall s :: s in hands ==> 1 <= s <= |roster|)
    && (turn == 0 || turn < |roster|)
    && TableCards(hands, |roster|, pool) <= multiset(FullDeck())
  }

  class GameSession {
    /** The deck ("baraja"), shuffled in place by every start. */
    var deck: seq<Card>
    /** Joined players in join order ("registro_jugadores"). */
    var roster: seq<Player>
    /** Hands by seat number 1..n ("jugadores"). */
    var hands: map<int, seq<Card>>
    /** The shared pool ("sobrantes"). */
    var pool: seq<Card>
    /** The index into the roster of the player whose turn it is ("turno_actual"). */
    var turn: nat

    /** Every card in a hand of a registered seat or in the pool. */
    ghost function AllCards(): multiset<Card>
      reads this
    {
      TableCards(hands, |roster|, pool)
    }

    ghost predicate Valid()
      reads this
    {
      Consistent(deck, roster, hands, pool, turn)
    }

    /** A fresh process: the deck in its built order, nobody registered, no
        hands, an empty pool, the cursor at 0. */
    constructor ()
      ensures Valid()
      ensures deck == FullDeck() && roster == [] && hands == map[] && pool == [] && turn == 0
    {
      deck := FullDeck();
      roster := [];
      hands := map[];
      pool := [];
      turn := 0;
    }

    /** Joining: an id already in the roster is refused and nothing changes;
        a new id is appended, keeping the earlier entries in place, and its
        seat is the new roster length. No hand is dealt to it. */
    method Register(id: int, username: string) returns (r: JoinOutcome)
      requires Valid()
      modifies this
      ensures Valid()
      ensures r.AlreadyRegistered? <==> id in Ids(old(roster))
      ensures r.AlreadyRegistered? ==> roster == old(roster)
      ensures r.Joined? ==> roster == old(roster) + [Player(id, username)] && r.seat == |roster|
      ensures r.Joined? ==> forall k :: 0 <= k < |roster| && roster[k].id == id ==> k + 1 == r.seat
      ensures deck == old(deck) && hands == old(hands) && pool == old(pool) && turn == old(turn)
      ensures AllCards() == old(AllCards())
    {
      if id in Ids(roster) {
        return AlreadyRegistered;
      }
      AppendKeepsUnique(roster, Player(id, username));
      assert HeldCards(hands, |roster| + 1) == HeldCards(hands, |roster|);
      forall k | 0 <= k < |roster| + 1 && (roster + [Player(id, username)])[k].id == id
        ensures k == |roster|
      {
        JoinedSeatOnly(roster, Player(id, username), k);
      }
      roster := roster + [Player(id, username)];
      r := Joined(|roster|);
    }

    /** Dealing: the deck is replaced by the shuffled order, the hands are
        cleared and seats 1..n (n the current roster length) get consecutive
        5-card cuts, and the pool becomes the cut after them. */
    method Deal(shuffled: seq<Card>)
      requires Valid()
      requires multiset(shuffled) == multiset(deck)
      modifies this
      ensures Valid()
      ensures deck == shuffled && roster == old(roster) && turn == old(turn)
      ensures hands == DealtHands(shuffled, |roster|)
      ensures pool == DealtPool(shuffled, |roster|)
    {
      deck := shuffled;
      hands := map[];
      var i := 1;
      while i <= |roster|
        invariant deck == shuffled && roster == old(roster) && turn == old(turn)
        invariant 1 <= i <= |roster| + 1
        invariant hands == DealtHands(deck, i - 1)
      {
        DealtHandsStep(deck, i);
        hands := hands[i := Slice(deck, (i - 1) * HandSize, i * HandSize)];
        i := i + 1;
      }
      pool := Slice(deck, |roster| * HandSize, |roster| * HandSize + PoolSize);
      assert hands == DealtHands(deck, |roster|) && pool == DealtPool(deck, |roster|);
      DealKeeps(deck, roster, turn);
    }

    /** Starting: with fewer than two players nothing changes (not even the
        deck); otherwise the hands are dealt again, whatever state the game
        is in, and the cursor goes back to the first player. */
    method Start(shuffled: seq<Card>) returns (r: StartOutcome)
      requires Valid()
      requires multiset(shuffled) == multiset(deck)
      modifies this
      ensures Valid()
      ensures r.Started? <==> |old(roster)| >= MinPlayers
      ensures roster == old(roster)
      ensures r.InsufficientPlayers? ==>
        deck == old(deck) && hands == old(hands) && pool == old(pool) && turn == old(turn)
      ensures r.Started? ==>
        && deck == shuffled && turn == 0
        && hands == DealtHands(shuffled, |roster|)
        && pool == DealtPool(shuffled, |roster|)
    {
      if |roster| < MinPlayers {
        return InsufficientPlayers;
      }
      Deal(shuffled);
      turn := 0;
      r := Started;
    }

    /** The options request: only the player at the cursor may ask, and they
        are offered the `(index, card)` pairs of seat `turn + 1`'s hand, in
        hand order. Nothing changes. */
    method RequestOptions(userId: int) returns (r: OptionsOutcome)
      ensures r.NoPlayerAtTurn? <==> turn >= |roster|
      ensures r.NotYourTurn? <==> turn < |roster| && userId != roster[turn].id
      ensures r.NoHandAtTurn? <==> turn < |roster| && userId == roster[turn].id && turn + 1 !in hands
      ensures r.Choices? ==>
        && turn + 1 in hands
        && |r.options| == |hands[turn + 1]|
        && forall k :: 0 <= k < |r.options| ==> r.options[k] == (k, hands[turn + 1][k])
    {
      if turn >= |roster| {
        return NoPlayerAtTurn;
      }
      if userId != roster[turn].id {
        return NotYourTurn;
      }
      if turn + 1 !in hands {
        return NoHandAtTurn;
      }
      r := Choices(Enumerate(hands[turn + 1]));
    }

    /** The exchange, for whoever pressed a button: it always acts on seat
        `turn + 1`. The card at the parsed index is popped from that hand;
        then the pool card at `choice` (the random pick) is appended to the
        hand, the first pool entry equal to it is removed, the given card is
        appended to the pool, and the cursor moves to the next roster entry. */
    method Exchange(data: string, choice: nat) returns (r: ExchangeOutcome)
      requires Valid()
      requires |pool| > 0 ==> choice < |pool|
      modifies this
      ensures Valid()
      ensures roster == old(roster) && deck == old(deck)
      ensures r.NotANumber? <==> ParseIndex(data).None?
      ensures r.NoHandToExchange? <==> ParseIndex(data).Some? && old(turn) + 1 !in old(hands)
      ensures r.IndexOutOfRange? <==>
        && ParseIndex(data).Some? && old(turn) + 1 in old(hands)
        && PopPosition(|old(hands[turn + 1])|, ParseIndex(data).value).None?
      ensures r.NotANumber? || r.NoHandToExchange? || r.IndexOutOfRange? ==>
        hands == old(hands) && pool == old(pool) && turn == old(turn)
      ensures r.PoolEmpty? || r.Exchanged? ==>
        && ParseIndex(data).Some? && old(turn) + 1 in old(hands)
        && PopPosition(|old(hands[turn + 1])|, ParseIndex(data).value) == Some(r.position)
        && r.given == old(hands[turn + 1])[r.position]
      ensures r.PoolEmpty? ==>
        && old(pool) == [] && pool == old(pool) && turn == old(turn)
        && hands == old(hands)[old(turn) + 1 := RemoveAt(old(hands[turn + 1]), r.position)]
        && AllCards() + multiset{r.given} == old(AllCards())
      ensures r.Exchanged? ==>
        && old(pool) != [] && r.received == old(pool)[choice]
        && hands == old(hands)[old(turn) + 1 := RemoveAt(old(hands[turn + 1]), r.position) + [r.received]]
        && pool == RemoveAt(old(pool), choice) + [r.given]
        && |hands[old(turn) + 1]| == |old(hands[turn + 1])| && |pool| == |old(pool)|
        && turn == (old(turn) + 1) % |roster|
        && AllCards() == old(AllCards())
    {
      var index := ParseIndex(data);
      if index.None? {
        return NotANumber;
      }
      var seat := turn + 1;
      if seat !in hands {
        return NoHandToExchange;
      }
      var hand := hands[seat];
      var position := PopPosition(|hand|, index.value);
      if position.None? {
        return IndexOutOfRange;
      }
      var k := position.value;
      var given := hand[k];
      if |pool| == 0 {
        Drop(k);
        return PoolEmpty(k, given);
      }
      var received := pool[choice];
      Trade(k, choice);
      r := Exchanged(k, given, received);
    }

    /** The empty-pool failure: the card at `k` leaves seat `turn + 1`'s hand
        and nothing else changes. */
    method Drop(k: nat)
      requires Valid()
      requires turn + 1 in hands && k < |hands[turn + 1]|
      modifies this
      ensures Valid()
      ensures deck == old(deck) && roster == old(roster) && pool == old(pool) && turn == old(turn)
      ensures hands == old(hands)[old(turn) + 1 := RemoveAt(old(hands[turn + 1]), k)]
      ensures AllCards() + multiset{old(hands[turn + 1])[k]} == old(AllCards())
    {
      PopKeeps(deck, roster, hands, pool, turn, k);
      hands := hands[turn + 1 := RemoveAt(hands[turn + 1], k)];
    }

    /** The completed exchange: the card at `k` of seat `turn + 1`'s hand is
        swapped with pool card `j`, each appended at the end of its new place,
        and the cursor moves on. */
    method Trade(k: nat, j: nat)
      requires Valid()
      requires turn + 1 in hands && k < |hands[turn + 1]| && j < |pool|
      modifies this
      ensures Valid()
      ensures deck == old(deck) && roster == old(roster)
      ensures hands == old(hands)[old(turn) + 1 := RemoveAt(old(hands[turn + 1]), k) + [old(pool)[j]]]
      ensures pool == RemoveAt(old(pool), j) + [old(hands[turn + 1])[k]]
      ensures turn == (old(turn) + 1) % |roster|
      ensures AllCards() == old(AllCards())
    {
      var seat := turn + 1;
      var given, received := hands[seat][k], pool[j];
      var next := (turn + 1) % |roster|;
      PoolRemovesChoice(hands, |roster|, pool, j);
      ExchangeKeeps(deck, roster, hands, pool, turn, k, j);
      hands := hands[seat := RemoveAt(hands[seat], k) + [received]];
      pool := RemoveFirst(pool, received) + [given];
      turn := next;
    }
  }

  /** A fresh deal from a shuffled deck keeps the invariant. */
  lemma DealKeeps(deck: seq<Card>, roster: seq<Player>, turn: nat)
    requires multiset(deck) == multiset(FullDeck()) && UniqueIds(roster) && (turn == 0 || turn < |roster|)
    ensures Consistent(deck, roster, DealtHands(deck, |roster|), DealtPool(deck, |roster|), turn)
  {
    DealWithinDeck(deck, |roster|);
  }

  /** A pop with nothing put back (the empty-pool failure) keeps the
      invariant and loses exactly the popped card. */
  lemma PopKeeps(deck: seq<Card>, roster: seq<Player>, hands: map<int, seq<Card>>, pool: seq<Card>, turn: nat, k: nat)
    requires Consistent(deck, roster, hands, pool, turn)
    requires turn + 1 in hands && k < |hands[turn + 1]|
    ensures var h' := hands[turn + 1 := RemoveAt(hands[turn + 1], k)];
      && TableCards(h', |roster|, pool) + multiset{hands[turn + 1][k]} == TableCards(hands, |roster|, pool)
      && Consistent(deck, roster, h', pool, turn)
  {
    PopLoses(hands, |roster|, turn + 1, k, pool);
  }

  /** A completed exchange keeps the invariant and holds the same cards as
      before. */
  lemma ExchangeKeeps(deck: seq<Card>, roster: seq<Player>, hands: map<int, seq<Card>>, pool: seq<Card>, turn: nat,
                      k: nat, j: nat)
    requires Consistent(deck, roster, hands, pool, turn)
    requires turn + 1 in hands && k < |hands[turn + 1]| && j < |pool|
    ensures var h' := hands[turn + 1 := RemoveAt(hands[turn + 1], k) + [pool[j]]];
      var p' := RemoveAt(pool, j) + [hands[turn + 1][k]];
      && TableCards(h', |roster|, p') == TableCards(hands, |roster|, pool)
      && Consistent(deck, roster, h', p', (turn + 1) % |roster|)
  {
    ExchangeConserves(hands, |roster|, turn + 1, k, pool, j);
  }

  /** Popping a card from a hand, with nothing put back, loses exactly that
      card. */
  lemma PopLoses(h: map<int, seq<Card>>, n: nat, seat: int, k: nat, p: seq<Card>)
    requires 1 <= seat <= n && seat in h && k < |h[seat]|
    ensures HeldCards(h[seat := RemoveAt(h[seat], k)], n) + multiset(p) + multiset{h[seat][k]}
            == HeldCards(h, n) + multiset(p)
  {
    var v := RemoveAt(h[seat], k);
    HeldCardsUpdate(h, n, seat, v);
    var a, b := HeldCards(h[seat := v], n), HeldCards(h, n);
    forall e ensures (a + multiset(p) + multiset{h[seat][k]})[e] == (b + multiset(p))[e] {
      assert (a + multiset(h[seat]))[e] == (b + multiset(v))[e];
      assert (multiset(v) + multiset{h[seat][k]})[e] == multiset(h[seat])[e];
    }
  }

  /** The balance of a trade: the hand gains `v` for `m`, `v` is the old hand
      less the given card plus the received one, and the pool gains the given
      card for the received one; together nothing changes. */
  lemma TradeBalances(hNew: multiset<Card>, hOld: multiset<Card>, m: multiset<Card>, v: multiset<Card>,
                      pNew: multiset<Card>, pOld: multiset<Card>, g: multiset<Card>, rc: multiset<Card>)
    requires hNew + m == hOld + v
    requires v + g == m + rc
    requires pNew + rc == pOld + g
    ensures hNew + pNew == hOld + pOld
  {
    forall e ensures (hNew + pNew)[e] == (hOld + pOld)[e] {
      assert (hNew + m)[e] == (hOld + v)[e];
      assert (v + g)[e] == (m + rc)[e];
      assert (pNew + rc)[e] == (pOld + g)[e];
    }
  }

  /** One exchange neither loses nor creates a card. */
  lemma ExchangeConserves(h: map<int, seq<Card>>, n: nat, seat: int, k: nat, p: seq<Card>, j: nat)
    requires 1 <= seat <= n && seat in h && k < |h[seat]| && j < |p|
    ensures
      HeldCards(h[seat := RemoveAt(h[seat], k) + [p[j]]], n) + multiset(RemoveAt(p, j) + [h[seat][k]])
      == HeldCards(h, n) + multiset(p)
  {
    var given, received := h[seat][k], p[j];
    var v := RemoveAt(h[seat], k) + [received];
    var pNew := RemoveAt(p, j) + [given];
    HeldCardsUpdate(h, n, seat, v);
    assert multiset(v) == multiset(RemoveAt(h[seat], k)) + multiset{received};
    assert multiset(pNew) == multiset(RemoveAt(p, j)) + multiset{given};
    TradeBalances(HeldCards(h[seat := v], n), HeldCards(h, n), multiset(h[seat]), multiset(v),
                  multiset(pNew), multiset(p), multiset{given}, multiset{received});
  }

  /** With no card repeated, removing the first copy of the picked pool card
      removes the picked position itself. */
  lemma PoolRemovesChoice(h: map<int, seq<Card>>, n: nat, p: seq<Card>, j: nat)
    requires j < |p|
    requires HeldCards(h, n) + multiset(p) <= multiset(FullDeck())
    ensures RemoveFirst(p, p[j]) == RemoveAt(p, j)
  {
    assert multiset(p) <= multiset(FullDeck());
    WithinDeckDistinct(p);
    assert p[j] !in p[..j];
    RemoveFirstAt(p, j);
  }
}
