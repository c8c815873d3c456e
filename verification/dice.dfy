/** Dice notation `NdS±M` and dice rolls.

    Two readers of the notation exist. `DiceRoller.roll` (diceRoller.js) and
    `Dice.isValidNotation` (src/services/dice/dice.ts) match the whole string
    against `^(\d*)d(\d+)([+-]\d+)?$` case-insensitively; `Dice.roll`
    (src/services/dice/dice.ts) searches for the same pattern anywhere in
    the string and uses the leftmost match. Both default the count to 1 and
    the modifier to 0, and roll each die as `Math.floor(Math.random() *
    sides) + 1`. */
module Dice {
  import opened Outcomes
  import opened Strings
  import opened Random

  datatype Notation = Notation(count: nat, sides: nat, modifier: int)

  predicate IsDieLetter(c: char) {
    c == 'd' || c == 'D'
  }

  predicate IsSign(c: char) {
    c == '+' || c == '-'
  }

  /** Position `q` holds a die letter followed by a digit: the only place a match can pivot on. */
  predicate MarkAt(s: string, q: int) {
    0 <= q && q + 1 < |s| && IsDieLetter(s[q]) && IsDigit(s[q + 1])
  }

  /** From position `e` on, `s` is `[+-]\d+` to its end, or nothing at all. */
  predicate ModifierToEnd(s: string, e: int) {
    e == |s| || (0 <= e && e + 2 <= |s| && IsSign(s[e]) && DigitsBetween(s, e + 1, |s|))
  }

  /** The language of `^(\d*)d(\d+)([+-]\d+)?$` with the `i` flag. */
  predicate NotationText(s: string) {
    exists q, e {:trigger DigitsBetween(s, q + 1, e)} :: 0 <= q && q + 1 < e <= |s|
      && DigitsBetween(s, 0, q) && IsDieLetter(s[q]) && DigitsBetween(s, q + 1, e) && ModifierToEnd(s, e)
  }

  /** A match of `(\d*)d(\d+)([+-]\d+)?` that starts at `p`, with the position just after it. */
  datatype Scan = Scan(notation: Notation, end: nat)

  /** The optional `([+-]\d+)` group read at some position: its value and the position after it. */
  datatype ModScan = ModScan(value: int, end: nat)

  /** The optional `([+-]\d+)` group at position `e`. */
  function ModifierAt(s: string, e: nat): (m: ModScan)
    requires e <= |s|
    ensures e <= m.end <= |s|
    ensures m.end == e <==> !(e + 1 < |s| && IsSign(s[e]) && IsDigit(s[e + 1]))
    ensures m.end > e ==> m.end >= e + 2 && DigitsBetween(s, e + 1, m.end)
    ensures m.end > e ==> m.end == |s| || !IsDigit(s[m.end])
  {
    if e + 1 < |s| && IsSign(s[e]) && IsDigit(s[e + 1]) then
      var k := DigitRunFrom(s, e + 1);
      var v: int := ValueBetween(s, e + 1, e + 1 + k);
      ModScan(if s[e] == '-' then -v else v, e + 1 + k)
    else
      ModScan(0, e)
  }

  /** `match[1] || '1'`: an empty count means one die. */
  function CountBetween(s: string, p: int, q: int): nat
    requires DigitsBetween(s, p, q)
  {
    if q == p then 1 else ValueBetween(s, p, q)
  }

  /** The regular-expression engine at one start position: `\d*` and `\d+`
      take maximal runs, the optional modifier is taken when a sign and a
      digit follow. No backtracking can change the outcome, because a digit
      never matches `d`, a sign, or the end of the input. */
  function ScanAt(s: string, p: nat): (o: Option<Scan>)
    requires p <= |s|
    ensures o.Some? <==> MarkAt(s, p + DigitRunFrom(s, p))
    ensures o.Some? ==> p < o.value.end <= |s|
  {
    var q := p + DigitRunFrom(s, p);
    if !MarkAt(s, q) then None
    else
      var e := q + 1 + DigitRunFrom(s, q + 1);
      var m := ModifierAt(s, e);
      Some(Scan(Notation(CountBetween(s, p, q), ValueBetween(s, q + 1, e), m.value), m.end))
  }

  /** `ScanAt` described by the positions of its three parts. */
  lemma {:induction false} ScanAtParts(s: string, p: nat, q: nat, e: nat)
    requires p <= q && q + 1 < e <= |s|
    requires DigitRunFrom(s, p) == q - p && MarkAt(s, q) && DigitRunFrom(s, q + 1) == e - q - 1
    ensures ScanAt(s, p) == Some(Scan(Notation(CountBetween(s, p, q), ValueBetween(s, q + 1, e),
      ModifierAt(s, e).value), ModifierAt(s, e).end))
  {
  }

  /** `notation.match(/^(\d*)d(\d+)([+\-]\d+)?$/i)`, read into numbers. */
  function ParseAnchored(s: string): (o: Option<Notation>)
    ensures o.Some? ==> ScanAt(s, 0).Some?
  {
    match ScanAt(s, 0)
    case Some(sc) => if sc.end == |s| then Some(sc.notation) else None
    case None => None
  }

  /** `Dice.isValidNotation`. */
  predicate IsValidNotation(s: string) {
    ParseAnchored(s).Some?
  }

  /** The anchored reader accepts exactly the language of the regular expression. */
  lemma {:induction false} ParseAnchoredMatchesRegex(s: string)
    ensures ParseAnchored(s).Some? <==> NotationText(s)
  {
    if ParseAnchored(s).Some? {
      AcceptedIsText(s);
    }
    if NotationText(s) {
      TextIsAccepted(s);
    }
  }

  lemma {:induction false} AcceptedIsText(s: string)
    requires ParseAnchored(s).Some?
    ensures NotationText(s)
  {
    var q := DigitRunFrom(s, 0);
    var e := q + 1 + DigitRunFrom(s, q + 1);
    assert ModifierToEnd(s, e);
    assert DigitsBetween(s, q + 1, e);
  }

  lemma {:induction false} TextIsAccepted(s: string)
    requires NotationText(s)
    ensures ParseAnchored(s).Some?
  {
    var q, e :| 0 <= q && q + 1 < e <= |s| && DigitsBetween(s, 0, q) && IsDieLetter(s[q])
      && DigitsBetween(s, q + 1, e) && ModifierToEnd(s, e);
    DigitRunExact(s, 0, q);
    DigitRunExact(s, q + 1, e - q - 1);
    if e < |s| {
      DigitRunExact(s, e + 1, |s| - e - 1);
    }
    ScanAtParts(s, 0, q, e);
  }

  /** `^(\d*)d(\d+)$` with the die letter at position `q`: a notation without modifier. */
  predicate PlainTextAt(t: string, q: int) {
    0 <= q && q + 1 < |t| && DigitsBetween(t, 0, q) && IsDieLetter(t[q]) && DigitsBetween(t, q + 1, |t|)
  }

  /** `t.match(/^(\d*)d(\d+)$/i)` read into numbers (the modifier is 0). */
  function PlainNotation(t: string): (o: Option<Notation>)
    ensures o.Some? ==> PlainTextAt(t, DigitRunFrom(t, 0))
    ensures o.Some? ==> o.value == Notation(CountBetween(t, 0, DigitRunFrom(t, 0)),
      ValueBetween(t, DigitRunFrom(t, 0) + 1, |t|), 0)
  {
    var q := DigitRunFrom(t, 0);
    if q + 1 < |t| && IsDieLetter(t[q]) && DigitRunFrom(t, q + 1) == |t| - q - 1 then
      Some(Notation(CountBetween(t, 0, q), ValueBetween(t, q + 1, |t|), 0))
    else None
  }

  /** Every text of the plain pattern is read. */
  lemma {:induction false} PlainTextRead(t: string, q: int)
    requires PlainTextAt(t, q)
    ensures PlainNotation(t).Some? && DigitRunFrom(t, 0) == q
  {
    assert !IsDigit(t[q]);
    DigitRunExact(t, 0, q);
    DigitRunExact(t, q + 1, |t| - q - 1);
  }

  /** A plain notation is a valid notation, read the same way by the full pattern. */
  lemma {:induction false} PlainIsValid(t: string)
    requires PlainNotation(t).Some?
    ensures ParseAnchored(t) == PlainNotation(t)
  {
    var q := DigitRunFrom(t, 0);
    var e := |t|;
    DigitRunExact(t, q + 1, e - q - 1);
    ScanAtParts(t, 0, q, e);
  }

  /** The text a notation is written as: "NdS", "NdS+M" or "NdS-M". */
  function Render(n: Notation): (s: string)
    ensures |s| >= 3
  {
    NatToString(n.count) + "d" + NatToString(n.sides) + ModifierSuffix(n.modifier)
  }

  function ModifierSuffix(m: int): (t: string)
    ensures m == 0 <==> t == ""
  {
    if m > 0 then "+" + NatToString(m)
    else if m < 0 then "-" + NatToString(-m)
    else ""
  }

  /** Reading back a rendered notation gives the notation. */
  lemma {:induction false} ParseRender(n: Notation)
    ensures ParseAnchored(Render(n)) == Some(n)
  {
    RenderLayout(n);
    LaidOutRead(Render(n), n);
  }

  /** A text laid out as the rendered count, a `d`, the rendered sides and
      the modifier suffix reads back as the notation. */
  lemma {:induction false} LaidOutRead(s: string, n: Notation)
    requires var cs, ss := NatToString(n.count), NatToString(n.sides);
      var q, e := |cs|, |cs| + 1 + |ss|;
      e <= |s| && s[0..q] == cs && s[q] == 'd' && s[q + 1..e] == ss && s[e..] == ModifierSuffix(n.modifier)
    ensures ParseAnchored(s) == Some(n)
  {
    var cs, ss, ts := NatToString(n.count), NatToString(n.sides), ModifierSuffix(n.modifier);
    var q := |cs|;
    var e := q + 1 + |ss|;
    PlacedNumber(s, 0, n.count);
    PlacedNumber(s, q + 1, n.sides);
    assert e == |s| || !IsDigit(s[e]) by {
      assert e == |s| || s[e] == ts[0];
    }
    ModifierAtSuffix(s, e, n.modifier);
    ReadBack(s, q, e, n);
  }

  /** Where the count, the die letter, the sides and the modifier sit in a rendered notation. */
  lemma {:induction false} RenderLayout(n: Notation)
    ensures var s, cs, ss := Render(n), NatToString(n.count), NatToString(n.sides);
      var q, e := |cs|, |cs| + 1 + |ss|;
      e <= |s| && s[0..q] == cs && s[q] == 'd' && s[q + 1..e] == ss && s[e..] == ModifierSuffix(n.modifier)
  {
    var cs, ss, ts := NatToString(n.count), NatToString(n.sides), ModifierSuffix(n.modifier);
    var s := Render(n);
    assert s == cs + "d" + ss + ts;
  }

  /** Reading a text laid out as count digits, a die letter, side digits and a modifier. */
  lemma {:induction false} ReadBack(s: string, q: nat, e: nat, n: Notation)
    requires 0 < q && q + 1 < e <= |s|
    requires DigitsBetween(s, 0, q) && ValueBetween(s, 0, q) == n.count && IsDieLetter(s[q])
    requires DigitsBetween(s, q + 1, e) && ValueBetween(s, q + 1, e) == n.sides
    requires e == |s| || !IsDigit(s[e])
    requires ModifierAt(s, e) == ModScan(n.modifier, |s|)
    ensures ParseAnchored(s) == Some(n)
  {
    assert !IsDigit(s[q]);
    DigitRunExact(s, 0, q);
    assert IsDigit(s[q + 1]);
    DigitRunExact(s, q + 1, e - q - 1);
    ScanAtParts(s, 0, q, e);
    assert ScanAt(s, 0) == Some(Scan(n, |s|));
  }

  lemma {:induction false} ModifierAtSuffix(s: string, e: nat, m: int)
    requires e <= |s| && s[e..] == ModifierSuffix(m)
    ensures ModifierAt(s, e) == ModScan(m, |s|)
  {
    if m != 0 {
      var v: nat := if m > 0 then m else -m;
      var vs := NatToString(v);
      assert s[e] == (if m > 0 then '+' else '-') && s[e + 1..e + 1 + |vs|] == vs by {
        assert s[e..] == [if m > 0 then '+' else '-'] + vs;
        assert s[e..][1..] == s[e + 1..e + 1 + |vs|];
      }
      PlacedNumber(s, e + 1, v);
      DigitRunExact(s, e + 1, |vs|);
    }
  }

  /** Leftmost match of the unanchored pattern at or after position `p`. */
  function SearchFrom(s: string, p: nat): (o: Option<Scan>)
    requires p <= |s|
    ensures o.None? <==> forall q {:trigger MarkAt(s, q)} :: p <= q ==> !MarkAt(s, q)
    ensures forall q | p <= q <= |s| && ScanAt(s, q).Some? && (forall k | p <= k < q :: ScanAt(s, k).None?) ::
      o == ScanAt(s, q)
    decreases |s| - p
  {
    var here := ScanAt(s, p);
    if here.Some? then here
    else if p == |s| then None
    else
      var o := SearchFrom(s, p + 1);
      assert ScanAt(s, p).None? ==> !MarkAt(s, p);
      o
  }

  /** `notation.match(/(\d*)d(\d+)([+-]\d+)?/i)`: `None` when no die letter
      in the text is followed by a digit. */
  function Search(s: string): (o: Option<Notation>)
    ensures o.None? <==> forall q {:trigger MarkAt(s, q)} :: !MarkAt(s, q)
    ensures forall q | 0 <= q <= |s| && ScanAt(s, q).Some? && (forall k | 0 <= k < q :: ScanAt(s, k).None?) ::
      o == Some(ScanAt(s, q).value.notation)
  {
    match SearchFrom(s, 0)
    case Some(sc) => Some(sc.notation)
    case None => None
  }

  /** Of two notations in a text, the search reads the first: "1d4 or 2d6" rolls 1d4. */
  lemma {:induction false} SearchTakesFirst()
    ensures Search("1d4 or 2d6") == Some(Notation(1, 4, 0))
  {
    var s := "1d4 or 2d6";
    assert DigitsBetween(s, 0, 1) && DigitsBetween(s, 2, 3);
    DigitRunExact(s, 0, 1);
    DigitRunExact(s, 2, 1);
    assert ModifierAt(s, 3) == ModScan(0, 3);
    ScanAtParts(s, 0, 1, 3);
    assert ScanAt(s, 0) == Some(Scan(Notation(1, 4, 0), 3));
  }

  /** A text the anchored pattern accepts is read the same way by the search. */
  lemma {:induction false} AnchoredSearchAgree(s: string)
    requires IsValidNotation(s)
    ensures Search(s) == ParseAnchored(s)
  {
  }

  /** The roll of `count` dice with `sides` sides each, one draw per die. */
  function RollDice(g: Rng, count: nat, sides: nat): (d: Drawn<int>)
    ensures sides >= 1 ==> count <= d.value <= count * sides
    ensures sides == 0 ==> d.value == count
    ensures d.rng == g.Advance(count)
    decreases count
  {
    if count == 0 then Drawn(0, g)
    else
      var die := PickNext(g, sides);
      var rest := RollDice(die.rng, count - 1, sides);
      assert (count - 1) * sides + sides == count * sides;
      Drawn(die.value + 1 + rest.value, rest.rng)
  }

  /** The interval a roll of `n` lands in. With zero sides every die shows 1. */
  predicate WithinRollBounds(v: int, n: Notation) {
    if n.sides == 0 then v == n.count + n.modifier
    else n.count + n.modifier <= v <= n.count * n.sides + n.modifier
  }

  function RollNotation(g: Rng, n: Notation): (d: Drawn<int>)
    ensures WithinRollBounds(d.value, n)
    ensures d.rng == g.Advance(n.count)
  {
    var dice := RollDice(g, n.count, n.sides);
    Drawn(dice.value + n.modifier, dice.rng)
  }

  /** `DiceRoller.roll` of diceRoller.js: the whole text must be a notation. */
  function Roll(g: Rng, s: string): (r: Result<Drawn<int>>)
    ensures r.Ok? <==> IsValidNotation(s)
    ensures r.Ok? ==> WithinRollBounds(r.value.value, ParseAnchored(s).value)
    ensures r.Err? ==> r.message == "Invalid dice notation: " + s
  {
    match ParseAnchored(s)
    case None => Err("Invalid dice notation: " + s)
    case Some(n) => Ok(RollNotation(g, n))
  }

  /** `Dice.roll` of src/services/dice/dice.ts: any die letter followed by a digit starts a notation. */
  function RollSearch(g: Rng, s: string): (r: Result<Drawn<int>>)
    ensures r.Ok? <==> exists q {:trigger MarkAt(s, q)} :: MarkAt(s, q)
    ensures r.Ok? ==> WithinRollBounds(r.value.value, Search(s).value)
    ensures r.Err? ==> r.message == "Invalid dice notation: " + s
  {
    match Search(s)
    case None => Err("Invalid dice notation: " + s)
    case Some(n) => Ok(RollNotation(g, n))
  }

  /** `Dice.isValidNotation(n)` guarantees that `Dice.roll(n)` does not throw
      and rolls the same notation the anchored reader sees. */
  lemma {:induction false} ValidNotationRolls(g: Rng, s: string)
    requires IsValidNotation(s)
    ensures RollSearch(g, s) == Roll(g, s)
  {
    AnchoredSearchAgree(s);
  }

  /** The unanchored reader accepts text the anchored one refuses. */
  lemma {:induction false} SearchAcceptsTrailingText()
    ensures Search("2d6 Loot") == Some(Notation(2, 6, 0))
    ensures ParseAnchored("2d6 Loot") == None
  {
    var s := "2d6 Loot";
    assert DigitsBetween(s, 0, 1) && DigitsBetween(s, 2, 3);
    DigitRunExact(s, 0, 1);
    DigitRunExact(s, 2, 1);
    assert ModifierAt(s, 3) == ModScan(0, 3);
    ScanAtParts(s, 0, 1, 3);
    assert ScanAt(s, 0) == Some(Scan(Notation(2, 6, 0), 3));
  }
}
