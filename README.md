# Card-exchange game: a verified model of the game state

The game is a chat bot for a turn-based card exchange.

- **Deck.** A fixed 25-card deck pairs each of five elements (Agua, Fuego, Tierra, Madera, Metal) with each of five colours (Negro, Rojo, Verde, Blanco, Amarillo).
- **Joining.** Players join with `/unirme`. The join order is the turn order, and a player's seat number is their 1-based position in it.
- **Starting.** `/empezar` needs at least two players. It shuffles the deck and cuts it into 5-card hands for seats 1..n. The next five cards become the shared pool (`sobrantes`), and the turn cursor is set to 0.
- **Options.** The player at the cursor asks for their options with `/entregar`. The options are the `(index, card)` pairs of seat `cursor + 1`'s hand, one button per pair. A button carries its index as text.
- **Exchange.** Pressing a button runs the exchange:
  - the chosen card is popped from seat `cursor + 1`'s hand;
  - a random pool card is added to the end of the hand and removed from the pool;
  - the given card goes to the end of the pool;
  - the cursor moves to the next roster entry, wrapping around.

The model is one class, `Session.GameSession`. Its fields are the program's globals:

- `deck` (`baraja`);
- `roster` (`registro_jugadores`);
- `hands` (`jugadores`, a map from seat to list of cards);
- `pool` (`sobrantes`);
- `turn` (`turno_actual`).

Each command handler is one method. The methods are proved against the value-level definitions in the other modules:

- `Lists`: the Python list operations the game uses. Slices clamp, `pop` accepts a negative index, and `remove` drops the first occurrence.
- `Deck`: the card universe and its order.
- `Roster`: the players and the uniqueness of their ids.
- `Dealer`: what a deal produces, and how it accounts for the cards.
- `Callback`: the text carried by an option button and how the exchange reads it back.

## How the model follows the code

- **Randomness is an input.** `random.shuffle` permutes the deck in place, so `Deal` and `Start` take the new order as an argument, which must be a permutation of the current deck. Every later start shuffles the previous order. `random.choice` becomes the pool index `choice`.
- **The session invariant.** `Valid()` holds before and after every method:
  - the deck is a permutation of the 25 cards;
  - no id joined twice;
  - every hand belongs to a registered seat;
  - the cursor is 0 or points into the roster;
  - the cards in hands of registered seats and in the pool never hold a card twice and never hold a card that is not in the deck.
- **Cards are a datatype, not strings.** The code's card is the string `"Elemento-Color"`. `Deck.LabelInjective` shows that distinct cards have distinct strings, so comparing a card (as `remove` does) is comparing its string.
- **The code raises where the model returns an outcome.** `Exchange` returns one of:
  - `NotANumber`: `int()` raises `ValueError`;
  - `NoHandToExchange`: the seat has no hand, a `KeyError`;
  - `IndexOutOfRange`: `pop` raises `IndexError`;
  - `PoolEmpty`: `random.choice` of an empty pool raises `IndexError`. This happens after the pop, so the popped card is lost and the turn does not move.

  `RequestOptions` reports `NoPlayerAtTurn` (the `IndexError` on an empty roster), `NotYourTurn` and `NoHandAtTurn` in the same way.

### Behaviour of the code worth knowing

The model follows the code in each case.

- **No "started" state.** No handler checks whether a game has started, and a second start re-deals whatever is in progress. Before any start, options and exchanges still fail, but only because no hand exists yet (`jugadores` is empty, main.py:18): the model returns `NoHandAtTurn` or `NoHandToExchange`.
- **No turn check in the exchange.** Whoever presses a button exchanges for the seat at the cursor.
- **Mid-game joining.** A player who joins after the start gets a seat without a hand. Their turn then fails with `NoHandAtTurn` or `NoHandToExchange`.
- **No capacity check.** Dealing for five or more players is not refused. Python's slices clamp, so with five players the pool is empty, and from six players on the higher seats get empty hands (`Dealer.DealOverCapacity`). An exchange then loses the popped card (`PoolEmpty`).
- **Partial changes on failure.** The empty-pool failure happens after the pop, so the popped card is lost.

## Model

| member | source | states |
|---|---|---|
| Deck.FullDeck | main.py:17 | the deck the program builds has 25 cards |
| Deck.FullDeckAt | main.py:17 | card number `5*e + c` is element `e` with colour `c`: element-major, colours in their listed order |
| Deck.FullDeckComplete | main.py:9-17 | every (element, colour) pair is in the deck |
| Deck.FullDeckDistinct | main.py:17 | no card occurs twice in the deck |
| Deck.FullDeckOnce | main.py:9-17 | each of the 25 cards occurs exactly once |
| Deck.Label | main.py:17 | the card string `f"{elemento}-{color}"`: the element's name, then a dash (the first one, since no element name has one), then the colour's name |
| Deck.LabelInjective | main.py:17 | the card strings `"Elemento-Color"` of distinct cards differ |
| Deck.WithinDeckDistinct | main.py:26-30 | any part of a shuffled deck repeats no card |
| Roster.IdsMembership | main.py:46 | an id is in the list of roster ids exactly when some roster entry has it |
| Roster.AppendKeepsUnique | main.py:46-51 | appending a player whose id is new keeps all ids distinct |
| Roster.JoinedSeatOnly | main.py:46-53 | a player who joins with a new id holds the last seat of the roster and no earlier one |
| Session.GameSession.constructor | main.py:17-21 | a fresh process: deck in built order, nobody registered, no hands, empty pool, cursor 0; the invariant holds |
| Session.GameSession.Register | main.py:39-54 | a known id is refused and the roster is unchanged; a new id is appended after the existing entries and its seat is the new roster length and no earlier entry has its id; no hand, pool, deck or cursor change; the invariant and the cards in play are kept |
| Lists.Slice | main.py:29-30 | a Python slice: clamps both bounds; equals the exact slice when in range; is empty from the end on; element `k` is `s[lo + k]` |
| Session.GameSession.Deal | main.py:24-30 | the deck becomes the shuffled order; seats 1..n hold exactly the dealt cuts and nothing else; the pool is the cut after them; roster and cursor unchanged; the invariant holds |
| Dealer.DealtHandsStep | main.py:28-29 | dealing seat `i` after seats 1..i-1 gives the hands of seats 1..i |
| Dealer.HeldCardsInOrder | main.py:27-29 | the cards held by seats 1..n are the cards of their hands laid end to end |
| Dealer.DealtInOrder | main.py:28-29 | the dealt hands of seats 1..m, laid end to end, are the first `5*m` cards of the deck (clamped) |
| Dealer.DealtPrefix | main.py:28-29 | seats 1..m together hold exactly the first `5*m` cards |
| Dealer.DealAccounts | main.py:27-30 | hands and pool together hold exactly the first `5*n + 5` cards of the shuffled deck, each once |
| Dealer.DealWithinDeck | main.py:26-30 | a deal never holds more cards than the deck |
| Dealer.DealWithinCapacity | main.py:28-30 | for at most 4 players: seat `i` holds `d[(i-1)*5 .. i*5)`, the pool `d[5n .. 5n+5)`, all of size 5, and no seat outside 1..n has a hand |
| Dealer.DealDisjoint | main.py:26-30 | for at most 4 players: hands and pool repeat no card and are pairwise disjoint |
| Dealer.DealOverCapacity | main.py:28-30 | for 5 or more players: the pool is empty, seat 5 gets `d[20..]` and seats 6..n get empty hands |
| Session.DealKeeps | main.py:24-30 | a fresh deal from a permutation of the deck satisfies the session invariant |
| Session.GameSession.Start | main.py:57-67 | starts exactly when at least 2 players joined; otherwise nothing changes; on start the hands and pool are the deal of the shuffled deck and the cursor is 0 |
| Session.GameSession.RequestOptions | main.py:90-104 | fails exactly when there is no player at the cursor, when another id asks, or when the cursor's seat has no hand; otherwise the options are the (index, card) pairs of seat `turn + 1`'s hand in order; no state changes |
| Callback.Enumerate | main.py:104 | `enumerate(hand)`: one pair per card, pair `k` is `(k, hand[k])` |
| Callback.IndexData | main.py:103 | `str(i)`: the decimal digits of `i`, a single digit exactly for `i < 10`, with no leading zero for `i > 0` |
| Callback.ParseIndex | main.py:118 | `int(s)`: ASCII digits give their value, `-` or `+` followed by digits gives the signed value, a negative result only comes from a `-`, and every other text fails (`ValueError`) |
| Callback.ParseIndexRoundTrip | main.py:118 | `int(str(i)) == i` |
| Callback.ButtonSelectsShownCard | main.py:102-120 | pressing the button of option `k` pops position `k` of the same hand, the card that option showed |
| Lists.PopPosition | main.py:120 | `pop(i)` succeeds exactly for `-n <= i < n` and removes position `i`, or `n + i` for a negative `i` |
| Lists.RemoveAt | main.py:120 | after the pop the list is one shorter, the cards before and after position `k` keep their order, and exactly `s[k]` is gone |
| Lists.RemoveFirst | main.py:124 | `remove(x)` makes the list one shorter and takes out exactly one copy of `x` |
| Lists.RemoveFirstAt | main.py:124 | `remove(s[k])` removes position `k` when no earlier entry equals `s[k]` |
| Session.GameSession.Exchange | main.py:111-136 | each failure happens exactly under its condition (non-number, no hand, index out of range, empty pool); the first three change nothing; an empty pool loses exactly the popped card and keeps the cursor; a completed exchange swaps the popped card with pool card `choice`, each appended at the end, keeps every other seat, both sizes and all cards in play, and moves the cursor to `(turn + 1) % n`; the invariant holds throughout |
| Session.GameSession.Drop | main.py:119-121 | the popped card leaves the seat's hand; nothing else changes and exactly that card is lost |
| Session.GameSession.Trade | main.py:119-136 | the hand loses position `k` and gains the pool card; the pool loses position `j` and gains the given card; the cursor moves on; the cards in play and the invariant are kept |
| Session.PopKeeps | main.py:120-121 | a pop with nothing put back keeps the invariant and loses exactly the popped card |
| Session.ExchangeKeeps | main.py:119-136 | a completed exchange keeps the invariant and the cards in play, with the cursor at `(turn + 1) % n` |
| Session.ExchangeConserves | main.py:120-125 | pop, append, remove and append together neither lose nor create a card |
| Session.PoolRemovesChoice | main.py:121-124 | since the pool repeats no card, removing the first copy of the picked card removes the picked position |
| Session.PopLoses | main.py:120 | popping a card, with nothing put back, loses exactly that card |
| Dealer.HeldCardsUpdate | main.py:120-123 | replacing one seat's hand trades exactly its old cards for the new ones |
| Session.CursorCycles | main.py:136 | after `k` exchanges from the start the cursor is `k % n`, so turns cycle through the roster in join order |

## Left out

- The chat transport is not modelled: replies, group messages, buttons, `query.answer()` and the `/start` greeting (main.py:33-36, 62, 69-87, 98, 102-108, 115, 127-133). The model keeps the data a button carries (`str(i)`), not its caption.
- Message texts and their formatting are left out, because they are presentation only.
- `notificar_turno` sends a message and changes no state, so it is left out. Its read of `registro_jugadores[turno_actual]` cannot fail in the states the model reaches, by the invariant.
- `main()` is left out: reading the bot token and registering the handlers is configuration.
- Concurrency is not modelled. The handlers are `async`; each is modelled as one atomic step, and interleavings of concurrent callbacks are not.
- Randomness enters as arguments. The model takes the permutation `random.shuffle` produces and the index `random.choice` picks; it proves nothing about their distribution.
- The element weights 5..1 and the `Counter` import are unused by the program, so elements are plain labels.
- Callback.ParseIndex: models `int()` on an optional sign followed by ASCII digits only. The whitespace, underscores and non-ASCII digits that `int()` also accepts are not modelled; a button's data is always `str(i)`.
- The user name is stored on joining but only used in messages, so no contract mentions it beyond its place in `Player`.
