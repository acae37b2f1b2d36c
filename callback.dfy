/** The options a player is offered and the data their buttons carry: option
    `i` is the pair of index `i` and the card at that position of the hand,
    and its button carries the text `str(i)`, which the exchange reads back
    with `int(...)`. */
module Callback {
  import opened Lists

  /** The `(index, item)` pairs of a hand, in hand order (`enumerate`). */
  function Enumerate<T>(hand: seq<T>): (opts: seq<(nat, T)>)
    ensures |opts| == |hand|
    ensures forall k :: 0 <= k < |opts| ==> opts[k].0 == k && opts[k].1 == hand[k]
  {
    seq(|hand|, k requires 0 <= k < |hand| => (k, hand[k]))
  }

  predicate IsDigit(c: char)
  {
    '0' <= c <= '9'
  }

  predicate AllDigits(s: string)
  {
    forall k :: 0 <= k < |s| ==> IsDigit(s[k])
  }

  function DigitChar(d: nat): (c: char)
    requires d < 10
    ensures IsDigit(c) && c as int - '0' as int == d
  {
    ('0' as int + d) as char
  }

  /** The number a string of decimal digits denotes. */
  function DigitsValue(s: string): nat
    requires AllDigits(s)
  {
    if s == [] then 0
    else 10 * DigitsValue(s[..|s| - 1]) + (s[|s| - 1] as int - '0' as int)
  }

  /** `str(i)` for a non-negative index: its decimal digits, most significant
      first, with no sign and no leading zero. */
  function IndexData(i: nat): (s: string)
    ensures |s| > 0 && AllDigits(s)
    ensures i > 0 ==> s[0] != '0'
    ensures i < 10 <==> |s| == 1
  {
    if i < 10 then [DigitChar(i)]
    else IndexData(i / 10) + [DigitChar(i % 10)]
  }

  /** `int(s)` on an optional sign followed by one or more ASCII digits; None
      stands for the ValueError Python raises for anything else. */
  function ParseIndex(s: string): (r: Option<int>)
    ensures |s| > 0 && AllDigits(s) ==> r == Some(DigitsValue(s))
    ensures |s| >= 2 && s[0] == '-' && AllDigits(s[1..]) ==> r.Some? && r.value == -(DigitsValue(s[1..]) as int)
    ensures |s| >= 2 && s[0] == '+' && AllDigits(s[1..]) ==> r == Some(DigitsValue(s[1..]))
    ensures r.None? <==> !(|s| > 0 && AllDigits(s)) && !(|s| >= 2 && (s[0] == '-' || s[0] == '+') && AllDigits(s[1..]))
    ensures r.Some? && r.value < 0 ==> s[0] == '-'
  {
    if |s| >= 2 && (s[0] == '-' || s[0] == '+') && AllDigits(s[1..]) then
      var v: int := DigitsValue(s[1..]);
      Some(if s[0] == '-' then -v else v)
    else if |s| >= 1 && AllDigits(s) then
      Some(DigitsValue(s))
    else
      None
  }

  /** Reading back the digits of `str(i)` gives `i`. */
  lemma {:induction false} DigitsRoundTrip(i: nat)
    ensures DigitsValue(IndexData(i)) == i
  {
    var s := IndexData(i);
    if i < 10 {
      assert s[..0] == [];
    } else {
      DigitsRoundTrip(i / 10);
      assert s[..|s| - 1] == IndexData(i / 10);
    }
  }

  /** `int(str(i)) == i`: the button of option `i` selects index `i`. */
  lemma ParseIndexRoundTrip(i: nat)
    ensures ParseIndex(IndexData(i)) == Some(i)
  {
    DigitsRoundTrip(i);
    assert IsDigit(IndexData(i)[0]);
  }

  /** Pressing the button of option `k` pops position `k` of the same hand,
      which is the card that option showed. */
  lemma ButtonSelectsShownCard<T>(hand: seq<T>, k: nat)
    requires k < |hand|
    ensures |Enumerate(hand)| == |hand|
    ensures Enumerate(hand)[k].0 == k && Enumerate(hand)[k].1 == hand[k]
    ensures ParseIndex(IndexData(Enumerate(hand)[k].0)) == Some(k)
    ensures PopPosition(|hand|, k) == Some(k)
  {
    ParseIndexRoundTrip(k);
  }
}
