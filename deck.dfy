/** The fixed card universe: each of five elements paired with each of five
    colours, listed element by element, colours in their fixed order. */
module Deck {
  import opened Lists

  datatype Element = Agua | Fuego | Tierra | Madera | Metal
  datatype Color = Negro | Rojo | Verde | Blanco | Amarillo
  datatype Card = Card(element: Element, color: Color)

  /** The elements and the colours, in the order the deck enumerates them. */
  const Elements: seq<Element> := [Agua, Fuego, Tierra, Madera, Metal]
  const Colors: seq<Color> := [Negro, Rojo, Verde, Blanco, Amarillo]

  const DeckSize: nat := 25

  function ElementIndex(e: Element): (k: nat)
    ensures k < |Elements| && Elements[k] == e
  {
    match e
    case Agua => 0
    case Fuego => 1
    case Tierra => 2
    case Madera => 3
    case Metal => 4
  }

  function ColorIndex(c: Color): (k: nat)
    ensures k < |Colors| && Colors[k] == c
  {
    match c
    case Negro => 0
    case Rojo => 1
    case Verde => 2
    case Blanco => 3
    case Amarillo => 4
  }

  function ElementName(e: Element): string
  {
    match e
    case Agua => "Agua"
    case Fuego => "Fuego"
    case Tierra => "Tierra"
    case Madera => "Madera"
    case Metal => "Metal"
  }

  function ColorName(c: Color): string
  {
    match c
    case Negro => "Negro"
    case Rojo => "Rojo"
    case Verde => "Verde"
    case Blanco => "Blanco"
    case Amarillo => "Amarillo"
  }

  /** The text that stands for a card in the game, such as "Agua-Negro". */
  function Label(c: Card): (s: string)
    ensures var e := ElementName(c.element);
      '-' !in e && |s| > |e| && s[..|e|] == e && s[|e|] == '-' && s[|e| + 1..] == ColorName(c.color)
  {
    ElementName(c.element) + "-" + ColorName(c.color)
  }

  /** In `x + "-" + y` with no dash in `x`, the first dash stands right
      after `x`. */
  lemma FirstDash(x: string, y: string)
    requires '-' !in x
    ensures (x + "-" + y)[|x|] == '-'
    ensures forall k :: 0 <= k < |x| ==> (x + "-" + y)[k] != '-'
  {
    forall k | 0 <= k < |x| ensures (x + "-" + y)[k] != '-' {
      assert (x + "-" + y)[k] == x[k];
    }
  }

  /** Two texts glued by a dash split back uniquely when the left part has no
      dash of its own. */
  lemma SplitAtDash(x1: string, y1: string, x2: string, y2: string)
    requires '-' !in x1 && '-' !in x2
    requires x1 + "-" + y1 == x2 + "-" + y2
    ensures x1 == x2 && y1 == y2
  {
    var s := x1 + "-" + y1;
    FirstDash(x1, y1);
    FirstDash(x2, y2);
    assert |x1| == |x2|;
    assert x1 == s[..|x1|] == x2;
    assert y1 == s[|x1| + 1..] == y2;
  }

  /** Distinct cards have distinct labels, so comparing the game's card texts
      is comparing cards. */
  lemma LabelInjective(a: Card, b: Card)
    ensures Label(a) == Label(b) ==> a == b
  {
    if Label(a) == Label(b) {
      SplitAtDash(ElementName(a.element), ColorName(a.color), ElementName(b.element), ColorName(b.color));
    }
  }

  /** The deck as the game builds it: for each element, for each colour. */
  function FullDeck(): (d: seq<Card>)
    ensures |d| == DeckSize
  {
    seq(DeckSize, k requires 0 <= k < DeckSize => Card(Elements[k / 5], Colors[k % 5]))
  }

  /** Card number `5 * e + c` pairs the `e`-th element with the `c`-th colour. */
  lemma FullDeckAt(e: nat, c: nat)
    requires e < |Elements| && c < |Colors|
    ensures FullDeck()[5 * e + c] == Card(Elements[e], Colors[c])
  {
    var k := 5 * e + c;
    assert k / 5 == e && k % 5 == c;
  }

  /** Every pairing of an element with a colour is in the deck. */
  lemma FullDeckComplete(card: Card)
    ensures card in FullDeck()
  {
    var e, c := ElementIndex(card.element), ColorIndex(card.color);
    FullDeckAt(e, c);
  }

  /** No card occurs twice in the deck. */
  lemma FullDeckDistinct()
    ensures Distinct(FullDeck())
  {
    var d := FullDeck();
    forall i, j | 0 <= i < j < |d| ensures d[i] != d[j] {
      assert ElementIndex(d[i].element) == i / 5;
    }
  }

  /** The deck holds each of the 25 cards exactly once. */
  lemma FullDeckOnce(card: Card)
    ensures multiset(FullDeck())[card] == 1
  {
    FullDeckDistinct();
    DistinctMultiset(FullDeck());
    FullDeckComplete(card);
  }

  /** Cards drawn from the deck without repetition, as any part of a shuffled
      deck is, never repeat. */
  lemma WithinDeckDistinct(s: seq<Card>)
    requires multiset(s) <= multiset(FullDeck())
    ensures Distinct(s)
  {
    forall x ensures multiset(s)[x] <= 1 {
      FullDeckOnce(x);
    }
    DistinctMultiset(s);
  }
}
