/** Range cells of dice tables: "N", "N-M" and "N+".

    Four readers exist and they differ in detail:
    - `DiceRoller.isInRange` (diceRoller.js) takes a hyphen or an en-dash
      and the open form "N+";
    - `Dice.isInRange` (src/services/dice/dice.ts) takes only the ASCII
      hyphen and the open form;
    - `TableParser.parseRange` (src/services/TableParser.ts) takes a hyphen,
      an en-dash or an em-dash, reads "N+" as N up to 999 and anything else
      as (0, 0);
    - `TableValidator.parseRange` (src/ui/validation/TableBuilderValidation.ts)
      takes the same three dashes but has no open form.
    All of them trim the cell first and test whole-string patterns, so the
    shape of a cell is read once, by position, and each reader interprets
    the shape. */
module Ranges {
  import opened Strings

  const EnDash: char := '\U{2013}'
  const EmDash: char := '\U{2014}'

  /** The dash classes of the span pattern. */
  datatype Dashes =
    | RollerDashes  // `[-–]` of diceRoller.js
    | HyphenOnly    // `-` of dice.ts
    | AllDashes     // `[\-\u2013\u2014]` of the table parser and the validator

  predicate IsDash(ds: Dashes, c: char) {
    match ds
    case RollerDashes => c == '-' || c == EnDash
    case HyphenOnly => c == '-'
    case AllDashes => c == '-' || c == EnDash || c == EmDash
  }

  /** The shape of a trimmed range cell. */
  datatype Shape = Single(n: nat) | Span(lo: nat, hi: nat) | OpenFrom(lo: nat) | NoShape

  /** `^\d+$`. */
  predicate NumeralText(t: string) {
    |t| >= 1 && DigitsBetween(t, 0, |t|)
  }

  /** `^(\d+)[dashes](\d+)$` with the dash at position `q`. */
  predicate SpanTextAt(t: string, dashes: Dashes, q: int) {
    1 <= q && q + 1 < |t| && DigitsBetween(t, 0, q) && IsDash(dashes, t[q]) && DigitsBetween(t, q + 1, |t|)
  }

  /** `^(\d+)\+$`. */
  predicate OpenText(t: string) {
    |t| >= 2 && DigitsBetween(t, 0, |t| - 1) && t[|t| - 1] == '+'
  }

  /** The three whole-string patterns tried on the trimmed cell. They are
      mutually exclusive, so the order in which the source tries them does
      not matter; the first group `\d+` ends at the first non-digit. */
  function ReadShape(t: string, dashes: Dashes): (r: Shape)
    ensures r.Single? <==> NumeralText(t)
    ensures r.Single? ==> r.n == ValueBetween(t, 0, |t|)
    ensures r.Span? ==> SpanTextAt(t, dashes, DigitRunFrom(t, 0))
    ensures r.Span? ==> r.lo == ValueBetween(t, 0, DigitRunFrom(t, 0))
    ensures r.Span? ==> r.hi == ValueBetween(t, DigitRunFrom(t, 0) + 1, |t|)
    ensures r.OpenFrom? <==> OpenText(t)
    ensures r.OpenFrom? ==> r.lo == ValueBetween(t, 0, |t| - 1)
  {
    var k := DigitRunFrom(t, 0);
    if k == 0 then
      NoShape
    else if k == |t| then
      Single(ValueBetween(t, 0, k))
    else if IsDash(dashes, t[k]) && k + 1 < |t| && DigitRunFrom(t, k + 1) == |t| - k - 1 then
      Span(ValueBetween(t, 0, k), ValueBetween(t, k + 1, |t|))
    else if t[k] == '+' && k + 1 == |t| then
      OpenFrom(ValueBetween(t, 0, k))
    else
      NoShape
  }

  /** Any text of the `N<dash>M` pattern is read as that span. */
  lemma {:induction false} SpanTextRead(t: string, dashes: Dashes, q: int)
    requires SpanTextAt(t, dashes, q)
    ensures ReadShape(t, dashes) == Span(ValueBetween(t, 0, q), ValueBetween(t, q + 1, |t|))
  {
    DigitRunExact(t, 0, q);
    DigitRunExact(t, q + 1, |t| - q - 1);
  }

  /** The shape of a cell as every reader sees it: after `trim`. */
  function CellShape(range: string, dashes: Dashes): Shape {
    ReadShape(Trim(range), dashes)
  }

  // ---------------------------------------------------------------------------
  // membership tests

  /** Whether a shape contains `num`; an unreadable shape contains nothing. */
  predicate ShapeContains(sh: Shape, num: int) {
    match sh
    case Single(n) => num == n
    case Span(lo, hi) => lo <= num <= hi
    case OpenFrom(lo) => num >= lo
    case NoShape => false
  }

  /** `DiceRoller.isInRange(num, range)` of diceRoller.js. */
  function RollerInRange(num: int, range: string): (b: bool)
    ensures range == "" ==> !b
    ensures b <==> ShapeContains(CellShape(range, RollerDashes), num)
  {
    if range == "" then false
    else ShapeContains(CellShape(range, RollerDashes), num)
  }

  /** `Dice.isInRange(value, rangeStr)` of src/services/dice/dice.ts. */
  function DiceInRange(num: int, range: string): (b: bool)
    ensures b <==> ShapeContains(CellShape(range, HyphenOnly), num)
  {
    ShapeContains(CellShape(range, HyphenOnly), num)
  }

  /** The inclusive interval a table entry covers. */
  datatype Bounds = Bounds(min: nat, max: nat)

  /** The upper end `TableParser.parseRange` gives to "N+". */
  const OpenMax: nat := 999

  /** `TableParser.parseRange` (src/services/TableParser.ts). */
  function ParserRange(range: string): (b: Bounds)
    ensures CellShape(range, AllDashes).NoShape? ==> b == Bounds(0, 0)
    ensures CellShape(range, AllDashes).Single? ==> b == Bounds(CellShape(range, AllDashes).n, CellShape(range, AllDashes).n)
    ensures CellShape(range, AllDashes).Span? ==> b == Bounds(CellShape(range, AllDashes).lo, CellShape(range, AllDashes).hi)
    ensures CellShape(range, AllDashes).OpenFrom? ==> b == Bounds(CellShape(range, AllDashes).lo, OpenMax)
  {
    if range == "" then Bounds(0, 0)
    else
      match CellShape(range, AllDashes)
      case Single(n) => Bounds(n, n)
      case Span(lo, hi) => Bounds(lo, hi)
      case OpenFrom(lo) => Bounds(lo, OpenMax)
      case NoShape => Bounds(0, 0)
  }

  /** `TableValidator.parseRange` (src/ui/validation/TableBuilderValidation.ts): no open form. */
  function ValidatorRange(range: string): (b: Bounds)
    ensures CellShape(range, AllDashes).OpenFrom? ==> b == Bounds(0, 0)
    ensures !CellShape(range, AllDashes).OpenFrom? ==> b == ParserRange(range)
  {
    if range == "" then Bounds(0, 0)
    else
      match CellShape(range, AllDashes)
      case Single(n) => Bounds(n, n)
      case Span(lo, hi) => Bounds(lo, hi)
      case OpenFrom(_) => Bounds(0, 0)
      case NoShape => Bounds(0, 0)
  }

  // ---------------------------------------------------------------------------
  // agreement between the readers

  /** With no en-dash in the cell, the two `isInRange` versions agree. */
  lemma {:induction false} InRangeAgreeWithoutEnDash(num: int, range: string)
    requires EnDash !in range
    ensures RollerInRange(num, range) == DiceInRange(num, range)
  {
    var t := Trim(range);
    assert EnDash !in t by {
      assert forall i | 0 <= i < |t| :: t[i] == range[SpaceRunFrom(range, 0) + i];
    }
    var k := DigitRunFrom(t, 0);
    if 0 < k < |t| {
      assert IsDash(RollerDashes, t[k]) <==> IsDash(HyphenOnly, t[k]);
    }
  }

  /** On the shapes both accept, the table parser's bounds and the
      roller's membership test describe the same interval. */
  lemma {:induction false} ParserBoundsMatchRoller(num: int, range: string)
    requires CellShape(range, RollerDashes).Single? || CellShape(range, RollerDashes).Span?
    ensures RollerInRange(num, range) <==> ParserRange(range).min <= num <= ParserRange(range).max
  {
    var t := Trim(range);
    var k := DigitRunFrom(t, 0);
    if 0 < k < |t| {
      assert IsDash(RollerDashes, t[k]) ==> IsDash(AllDashes, t[k]);
    }
  }

  /** An en-dash span is a range for diceRoller.js and not for dice.ts. */
  lemma {:induction false} EnDashDisagree()
    ensures RollerInRange(2, "1\U{2013}3") && !DiceInRange(2, "1\U{2013}3")
  {
    var s := "1\U{2013}3";
    NoWhitespaceTrim(s);
    SpanTextRead(s, RollerDashes, 1);
    DigitRunExact(s, 0, 1);
  }

  /** An em-dash span is a range for the table parser and not for diceRoller.js. */
  lemma {:induction false} EmDashDisagree()
    ensures !RollerInRange(2, "1\U{2014}3") && ParserRange("1\U{2014}3") == Bounds(1, 3)
  {
    var s := "1\U{2014}3";
    NoWhitespaceTrim(s);
    SpanTextRead(s, AllDashes, 1);
    DigitRunExact(s, 0, 1);
  }

  /** "N+" is read by the table parser and refused by the validator. */
  lemma {:induction false} OpenFormDisagree()
    ensures ParserRange("5+") == Bounds(5, 999) && ValidatorRange("5+") == Bounds(0, 0)
  {
    NoWhitespaceTrim("5+");
    DigitRunExact("5+", 0, 1);
  }

  /** A text without whitespace is its own trim. */
  lemma {:induction false} NoWhitespaceTrim(s: string)
    requires s != []
    requires forall i | 0 <= i < |s| :: !IsWhitespace(s[i])
    ensures Trim(s) == s
  {
    assert TrimmedAt(s, s, 0);
    TrimUnique(s, s, 0);
  }

  // ---------------------------------------------------------------------------
  // writing ranges

  /** How the table builder writes a range: "N" when both ends agree, else "N-M". */
  function RenderRange(lo: nat, hi: nat): (s: string)
    ensures |s| >= 1
  {
    if lo == hi then NatToString(lo) else NatToString(lo) + "-" + NatToString(hi)
  }

  /** Every reader that accepts a hyphen reads a written range back as written. */
  lemma {:induction false} RenderRangeRead(lo: nat, hi: nat, dashes: Dashes)
    requires IsDash(dashes, '-')
    ensures lo == hi ==> CellShape(RenderRange(lo, hi), dashes) == Single(lo)
    ensures lo != hi ==> CellShape(RenderRange(lo, hi), dashes) == Span(lo, hi)
  {
    if lo == hi {
      var s := NatToString(lo);
      PlacedNumber(s, 0, lo);
      DigitsHaveNoWhitespace(s, 0, |s|);
      NoWhitespaceTrim(s);
    } else {
      RenderSpanRead(NatToString(lo), NatToString(hi), lo, hi, dashes);
    }
  }

  lemma {:induction false} RenderSpanRead(a: string, b: string, lo: nat, hi: nat, dashes: Dashes)
    requires IsDash(dashes, '-')
    requires a == NatToString(lo) && b == NatToString(hi)
    ensures CellShape(a + "-" + b, dashes) == Span(lo, hi)
  {
    var s := a + "-" + b;
    SpanDigits(a, b, lo, hi);
    NoWhitespaceTrim(s);
    SpanTextRead(s, dashes, |a|);
  }

  /** The written span is digits, a hyphen, digits, with no whitespace anywhere. */
  lemma {:induction false} SpanDigits(a: string, b: string, lo: nat, hi: nat)
    requires a == NatToString(lo) && b == NatToString(hi)
    ensures DigitsBetween(a + "-" + b, 0, |a|) && ValueBetween(a + "-" + b, 0, |a|) == lo
    ensures DigitsBetween(a + "-" + b, |a| + 1, |a + "-" + b|) && ValueBetween(a + "-" + b, |a| + 1, |a + "-" + b|) == hi
    ensures (a + "-" + b)[|a|] == '-'
    ensures forall i | 0 <= i < |a + "-" + b| :: !IsWhitespace((a + "-" + b)[i])
  {
    var s := a + "-" + b;
    assert s[0..|a|] == a && s[|a|] == '-' && s[|a| + 1..|a| + 1 + |b|] == b;
    PlacedNumber(s, 0, lo);
    PlacedNumber(s, |a| + 1, hi);
    DigitsHaveNoWhitespace(s, 0, |a|);
    DigitsHaveNoWhitespace(s, |a| + 1, |s|);
    forall i | 0 <= i < |s| ensures !IsWhitespace(s[i]) {
      if i < |a| {} else if i > |a| {}
    }
  }

  lemma {:induction false} DigitsHaveNoWhitespace(s: string, p: int, q: int)
    requires DigitsBetween(s, p, q)
    ensures forall i | p <= i < q :: !IsWhitespace(s[i])
  {
    forall i | p <= i < q ensures !IsWhitespace(s[i]) {
      DigitIsNotWhitespace(s[i]);
    }
  }

  lemma {:induction false} DigitIsNotWhitespace(c: char)
    requires IsDigit(c)
    ensures !IsWhitespace(c)
  {
  }

  /** The table parser reads a written range back as its bounds. */
  lemma {:induction false} ParserRangeRender(lo: nat, hi: nat)
    ensures ParserRange(RenderRange(lo, hi)) == Bounds(lo, hi)
  {
    RenderRangeRead(lo, hi, AllDashes);
  }
}
