/** The JavaScript string primitives the table code relies on: the
    whitespace set shared by `String.prototype.trim` and the regular
    expression class `\s`, the line terminators that `.` refuses, `\d` and
    `\w`, `trim`, `split` with a string separator, `Array.prototype.join`,
    `toLowerCase`, `parseInt` on a run of decimal digits, number-to-string
    conversion, and the code-unit order used by `Array.prototype.sort`. */
module Strings {

  /** ECMAScript WhiteSpace and LineTerminator code points: the characters
      removed by `trim` and matched by `\s` (tab, line feed, vertical tab,
      form feed and carriage return; space; no-break space; ogham space mark;
      the en quad up to the hair space; line and paragraph separators; narrow
      no-break space; medium mathematical space; ideographic space; and the
      byte order mark). */
  predicate IsWhitespace(c: char) {
    ('\t' <= c <= '\r') || c == ' ' || c == '\U{00A0}' || c == '\U{1680}'
      || ('\U{2000}' <= c <= '\U{200A}') || c == '\U{2028}' || c == '\U{2029}'
      || c == '\U{202F}' || c == '\U{205F}' || c == '\U{3000}' || c == '\U{FEFF}'
  }

  /** The characters a regular-expression `.` does not match. */
  predicate IsLineTerminator(c: char) {
    c == '\n' || c == '\r' || c == '\U{2028}' || c == '\U{2029}'
  }

  predicate IsDigit(c: char) {
    '0' <= c <= '9'
  }

  /** The class `\w`: ASCII letters, digits and underscore. */
  predicate IsWordChar(c: char) {
    ('a' <= c <= 'z') || ('A' <= c <= 'Z') || IsDigit(c) || c == '_'
  }

  predicate AllDigits(s: string) {
    forall i :: 0 <= i < |s| ==> IsDigit(s[i])
  }

  predicate AllWhitespace(s: string) {
    forall i :: 0 <= i < |s| ==> IsWhitespace(s[i])
  }

  /** True when `.+` / `.*` can run over all of `s`. */
  predicate NoLineTerminator(s: string) {
    forall i :: 0 <= i < |s| ==> !IsLineTerminator(s[i])
  }

  predicate StartsWith(s: string, prefix: string) {
    |prefix| <= |s| && s[..|prefix|] == prefix
  }

  predicate EndsWith(s: string, suffix: string) {
    |suffix| <= |s| && s[|s| - |suffix|..] == suffix
  }

  predicate OccursAt(s: string, part: string, i: int) {
    0 <= i <= |s| - |part| && s[i..i + |part|] == part
  }

  /** `String.prototype.includes` with a string argument. */
  predicate Includes(s: string, part: string) {
    exists i | 0 <= i <= |s| - |part| :: OccursAt(s, part, i)
  }

  // ---------------------------------------------------------------------------
  // runs of characters, read by position

  /** Positions `p` up to `q` of `s` hold whitespace. */
  predicate SpacesBetween(s: string, p: int, q: int) {
    0 <= p <= q <= |s| && forall i | p <= i < q :: IsWhitespace(s[i])
  }

  /** Length of the run of whitespace starting at position `p`. */
  function SpaceRunFrom(s: string, p: nat): (k: nat)
    requires p <= |s|
    ensures SpacesBetween(s, p, p + k)
    ensures p + k == |s| || !IsWhitespace(s[p + k])
    decreases |s| - p
  {
    if p < |s| && IsWhitespace(s[p]) then 1 + SpaceRunFrom(s, p + 1) else 0
  }

  /** Length of the run of whitespace that ends just before position `q`. */
  function SpaceRunBefore(s: string, q: nat): (k: nat)
    requires q <= |s|
    ensures k <= q && SpacesBetween(s, q - k, q)
    ensures k == q || !IsWhitespace(s[q - k - 1])
  {
    if q > 0 && IsWhitespace(s[q - 1]) then 1 + SpaceRunBefore(s, q - 1) else 0
  }

  /** Positions `p` up to `q` of `s` hold decimal digits. */
  predicate DigitsBetween(s: string, p: int, q: int) {
    0 <= p <= q <= |s| && forall i | p <= i < q :: IsDigit(s[i])
  }

  /** Length of the run of decimal digits starting at position `p`: what
      `\d+` or `\d*` takes there. */
  function DigitRunFrom(s: string, p: nat): (k: nat)
    requires p <= |s|
    ensures DigitsBetween(s, p, p + k)
    ensures p + k == |s| || !IsDigit(s[p + k])
    decreases |s| - p
  {
    if p < |s| && IsDigit(s[p]) then 1 + DigitRunFrom(s, p + 1) else 0
  }

  /** A digit run is determined by where it stops. */
  lemma {:induction false} DigitRunExact(s: string, p: nat, k: nat)
    requires DigitsBetween(s, p, p + k)
    requires p + k == |s| || !IsDigit(s[p + k])
    ensures DigitRunFrom(s, p) == k
    decreases k
  {
    if k > 0 {
      DigitRunExact(s, p + 1, k - 1);
    }
  }

  /** Length of the run of decimal digits that ends just before position `q`. */
  function DigitRunBefore(s: string, q: nat): (k: nat)
    requires q <= |s|
    ensures k <= q && DigitsBetween(s, q - k, q)
    ensures k == q || !IsDigit(s[q - k - 1])
  {
    if q > 0 && IsDigit(s[q - 1]) then 1 + DigitRunBefore(s, q - 1) else 0
  }

  /** A digit run ending at `q` is determined by where it starts. */
  lemma {:induction false} DigitRunBeforeExact(s: string, q: nat, k: nat)
    requires k <= q <= |s| && DigitsBetween(s, q - k, q)
    requires k == q || !IsDigit(s[q - k - 1])
    ensures DigitRunBefore(s, q) == k
    decreases k
  {
    if k > 0 {
      DigitRunBeforeExact(s, q - 1, k - 1);
    }
  }

  // ---------------------------------------------------------------------------
  // trim

  /** `String.prototype.trim`: the infix of `s` whose surroundings are
      whitespace and whose ends are not. */
  function Trim(s: string): (r: string)
    ensures |r| <= |s|
    ensures TrimmedAt(s, r, SpaceRunFrom(s, 0))
    ensures TrimmedEnds(r)
  {
    var i := SpaceRunFrom(s, 0);
    if i == |s| then ""
    else
      var j := |s| - SpaceRunBefore(s, |s|);
      assert i < j by {
        assert !IsWhitespace(s[i]);
      }
      s[i..j]
  }

  /** Neither end of `r` is whitespace. */
  predicate TrimmedEnds(r: string) {
    r == [] || (!IsWhitespace(r[0]) && !IsWhitespace(r[|r| - 1]))
  }

  /** `r` sits at position `i` of `s` with only whitespace around it. */
  predicate TrimmedAt(s: string, r: string, i: int) {
    0 <= i && i + |r| <= |s| && r == s[i..i + |r|] && SpacesBetween(s, 0, i) && SpacesBetween(s, i + |r|, |s|)
  }

  /** Whatever non-empty infix has whitespace around it and none at its ends is the trimmed text. */
  lemma {:induction false} TrimUnique(s: string, r: string, i: nat)
    requires TrimmedAt(s, r, i) && TrimmedEnds(r) && r != []
    ensures Trim(s) == r
  {
    assert !IsWhitespace(s[i]) && !IsWhitespace(s[i + |r| - 1]);
    assert SpaceRunFrom(s, 0) == i by {
      SpaceRunFromExact(s, 0, i);
    }
    assert SpaceRunBefore(s, |s|) == |s| - i - |r| by {
      SpaceRunBeforeExact(s, |s|, |s| - i - |r|);
    }
  }

  lemma {:induction false} SpaceRunFromExact(s: string, p: nat, k: nat)
    requires SpacesBetween(s, p, p + k)
    requires p + k == |s| || !IsWhitespace(s[p + k])
    ensures SpaceRunFrom(s, p) == k
    decreases k
  {
    if k > 0 {
      SpaceRunFromExact(s, p + 1, k - 1);
    }
  }

  lemma {:induction false} SpaceRunBeforeExact(s: string, q: nat, k: nat)
    requires k <= q && SpacesBetween(s, q - k, q)
    requires k == q || !IsWhitespace(s[q - k - 1])
    ensures SpaceRunBefore(s, q) == k
    decreases k
  {
    if k > 0 {
      SpaceRunBeforeExact(s, q - 1, k - 1);
    }
  }

  /** A string JavaScript treats as truthy: not the empty string. */
  predicate NonEmptyText(s: string) {
    s != ""
  }

  /** `!s.trim()`: the cell or line counts as blank. */
  predicate IsBlank(s: string) {
    Trim(s) == ""
  }

  /** A string trims to nothing exactly when every character is whitespace. */
  lemma {:induction false} BlankIffAllWhitespace(s: string)
    ensures IsBlank(s) <==> AllWhitespace(s)
  {
    var i := SpaceRunFrom(s, 0);
    assert AllWhitespace(s) <==> SpacesBetween(s, 0, |s|);
    if i < |s| {
      assert !IsWhitespace(s[i]);
    }
  }

  /** A text with no whitespace at either end is its own trim. */
  lemma {:induction false} TrimTrimmed(s: string)
    requires TrimmedEnds(s)
    ensures Trim(s) == s
  {
    if s != [] {
      assert TrimmedAt(s, s, 0);
      TrimUnique(s, s, 0);
    }
  }

  /** Trimming twice is trimming once. */
  lemma {:induction false} TrimIdempotent(s: string)
    ensures Trim(Trim(s)) == Trim(s)
  {
    var r := Trim(s);
    if r != [] {
      assert TrimmedAt(r, r, 0);
      TrimUnique(r, r, 0);
    }
  }

  // ---------------------------------------------------------------------------
  // case

  function ToLowerChar(c: char): char {
    if 'A' <= c <= 'Z' then (c as int + 32) as char else c
  }

  /** `toLowerCase`, restricted to the ASCII letters. */
  function ToLower(s: string): (r: string)
    ensures |r| == |s|
    ensures forall i :: 0 <= i < |s| ==> r[i] == ToLowerChar(s[i])
  {
    seq(|s|, i requires 0 <= i < |s| => ToLowerChar(s[i]))
  }

  /** Case-insensitive equality as the source writes it: `a.toLowerCase() === b.toLowerCase()`. */
  predicate EqualsIgnoreCase(a: string, b: string) {
    ToLower(a) == ToLower(b)
  }

  // ---------------------------------------------------------------------------
  // split and join

  /** `String.prototype.split` with a non-empty string separator: cut at
      every occurrence, scanning left to right without overlap. */
  function Split(s: string, sep: string): (parts: seq<string>)
    requires |sep| > 0
    ensures |parts| >= 1
    decreases |s|
  {
    if |s| < |sep| then [s]
    else if s[..|sep|] == sep then [""] + Split(s[|sep|..], sep)
    else
      var rest := Split(s[1..], sep);
      [[s[0]] + rest[0]] + rest[1..]
  }

  /** `Array.prototype.join`. */
  function Join(parts: seq<string>, sep: string): string
  {
    if |parts| == 0 then ""
    else if |parts| == 1 then parts[0]
    else parts[0] + sep + Join(parts[1..], sep)
  }

  lemma {:induction false} JoinCons(x: string, rest: seq<string>, sep: string)
    requires |rest| >= 1
    ensures Join([x] + rest, sep) == x + sep + Join(rest, sep)
  {
    assert ([x] + rest)[1..] == rest;
  }

  lemma {:induction false} JoinExtendFirst(c: char, rest: seq<string>, sep: string)
    requires |rest| >= 1
    ensures Join([[c] + rest[0]] + rest[1..], sep) == [c] + Join(rest, sep)
  {
    var parts := [[c] + rest[0]] + rest[1..];
    if |rest| > 1 {
      assert parts[1..] == rest[1..];
      assert Join(parts, sep) == ([c] + rest[0]) + sep + Join(rest[1..], sep);
    }
  }

  /** Joining the pieces of a split with the same separator restores the text. */
  lemma {:induction false} JoinSplit(s: string, sep: string)
    requires |sep| > 0
    ensures Join(Split(s, sep), sep) == s
    decreases |s|
  {
    if |s| < |sep| {
    } else if s[..|sep|] == sep {
      JoinSplit(s[|sep|..], sep);
      JoinSplitAtSeparator(s, sep);
    } else {
      JoinSplit(s[1..], sep);
      JoinSplitAtChar(s, sep);
    }
  }

  lemma {:induction false} JoinSplitAtSeparator(s: string, sep: string)
    requires |sep| > 0 && |s| >= |sep| && s[..|sep|] == sep
    requires Join(Split(s[|sep|..], sep), sep) == s[|sep|..]
    ensures Join(Split(s, sep), sep) == s
  {
    var rest := Split(s[|sep|..], sep);
    assert Split(s, sep) == [""] + rest;
    JoinCons("", rest, sep);
    assert s == sep + s[|sep|..];
  }

  lemma {:induction false} JoinSplitAtChar(s: string, sep: string)
    requires |sep| > 0 && |s| >= |sep| && s[..|sep|] != sep
    requires Join(Split(s[1..], sep), sep) == s[1..]
    ensures Join(Split(s, sep), sep) == s
  {
    var rest := Split(s[1..], sep);
    assert Split(s, sep) == [[s[0]] + rest[0]] + rest[1..];
    JoinExtendFirst(s[0], rest, sep);
    assert s == [s[0]] + s[1..];
  }

  lemma {:induction false} SplitWithoutSeparator(s: string, c: char)
    requires c !in s
    ensures Split(s, [c]) == [s]
    decreases |s|
  {
    if |s| >= 1 {
      assert s[..1] == [s[0]];
      SplitWithoutSeparator(s[1..], c);
      assert [s[0]] + s[1..] == s;
    }
  }

  lemma {:induction false} SplitAfterPiece(p: string, c: char, t: string)
    requires c !in p
    ensures Split(p + [c] + t, [c]) == [p] + Split(t, [c])
    decreases |p|
  {
    var s := p + [c] + t;
    if |p| == 0 {
      assert s[..1] == [c];
      assert s[1..] == t;
    } else {
      assert s[..1] == [p[0]];
      assert s[1..] == p[1..] + [c] + t;
      SplitAfterPiece(p[1..], c, t);
      assert [p[0]] + p[1..] == p;
    }
  }

  /** Splitting a join on a one-character separator that no piece contains
      gives the pieces back. */
  lemma {:induction false} SplitJoin(parts: seq<string>, c: char)
    requires |parts| >= 1
    requires forall i :: 0 <= i < |parts| ==> c !in parts[i]
    ensures Split(Join(parts, [c]), [c]) == parts
    decreases |parts|
  {
    if |parts| == 1 {
      SplitWithoutSeparator(parts[0], c);
    } else {
      SplitJoin(parts[1..], c);
      SplitAfterPiece(parts[0], c, Join(parts[1..], [c]));
      assert [parts[0]] + parts[1..] == parts;
    }
  }

  /** A character that neither the pieces nor the separator hold is not in the join. */
  lemma {:induction false} JoinFree(parts: seq<string>, sep: string, c: char)
    requires c !in sep && forall i | 0 <= i < |parts| :: c !in parts[i]
    ensures c !in Join(parts, sep)
    decreases |parts|
  {
    if |parts| > 1 {
      assert forall i | 0 <= i < |parts| - 1 :: parts[1..][i] == parts[i + 1];
      JoinFree(parts[1..], sep, c);
    }
  }

  /** A join starts with its first piece. */
  lemma {:induction false} JoinStarts(parts: seq<string>, sep: string)
    requires |parts| >= 1
    ensures StartsWith(Join(parts, sep), parts[0])
  {
    if |parts| > 1 {
      assert (parts[0] + sep + Join(parts[1..], sep))[..|parts[0]|] == parts[0];
    }
  }

  /** The first piece of a split does not hold the separator. */
  lemma {:induction false} SplitFirstFree(s: string, c: char)
    ensures c !in Split(s, [c])[0]
    decreases |s|
  {
    if |s| >= 1 && s[..1] != [c] {
      assert s[..1] == [s[0]];
      SplitFirstFree(s[1..], c);
    }
  }

  /** No piece of a split on one character holds that character. */
  lemma {:induction false} SplitFree(s: string, c: char)
    ensures forall i | 0 <= i < |Split(s, [c])| :: c !in Split(s, [c])[i]
    decreases |s|
  {
    if |s| >= 1 {
      SplitFree(s[1..], c);
      if s[..1] != [c] {
        assert s[..1] == [s[0]];
      }
    }
  }

  /** Joining two runs of pieces is joining each and putting the separator between. */
  lemma {:induction false} JoinAppend(xs: seq<string>, ys: seq<string>, sep: string)
    requires |xs| >= 1 && |ys| >= 1
    ensures Join(xs + ys, sep) == Join(xs, sep) + sep + Join(ys, sep)
    decreases |xs|
  {
    if |xs| == 1 {
      JoinCons(xs[0], ys, sep);
      assert [xs[0]] + ys == xs + ys;
    } else {
      JoinAppend(xs[1..], ys, sep);
      assert xs + ys == [xs[0]] + (xs[1..] + ys);
      JoinCons(xs[0], xs[1..] + ys, sep);
      JoinCons(xs[0], xs[1..], sep);
      assert [xs[0]] + xs[1..] == xs;
    }
  }

  /** A piece that is itself a join can be spliced in as its own pieces. */
  lemma {:induction false} JoinFlatten(xs: seq<string>, mid: seq<string>, ys: seq<string>, sep: string)
    requires |xs| >= 1 && |mid| >= 1 && |ys| >= 1
    ensures Join(xs + [Join(mid, sep)] + ys, sep) == Join(xs + mid + ys, sep)
  {
    JoinAppend(xs + [Join(mid, sep)], ys, sep);
    JoinAppend(xs, [Join(mid, sep)], sep);
    JoinAppend(xs + mid, ys, sep);
    JoinAppend(xs, mid, sep);
  }

  /** A text that starts with a non-whitespace character keeps it first when trimmed. */
  lemma {:induction false} TrimFirst(s: string)
    requires |s| > 0 && !IsWhitespace(s[0])
    ensures Trim(s) != "" && Trim(s)[0] == s[0]
  {
    assert SpaceRunFrom(s, 0) == 0;
  }

  /** `text.split(/\r?\n/)`: lines with one carriage return dropped before
      every line feed. */
  function SplitLinesCrLf(s: string): (lines: seq<string>)
    ensures |lines| == |Split(s, "\n")|
  {
    var raw := Split(s, "\n");
    seq(|raw|, i requires 0 <= i < |raw| =>
      if i < |raw| - 1 && EndsWith(raw[i], "\r") then raw[i][..|raw[i]| - 1] else raw[i])
  }

  // ---------------------------------------------------------------------------
  // numbers

  function DigitValue(c: char): nat
    requires IsDigit(c)
  {
    c as int - '0' as int
  }

  function DigitChar(d: nat): (c: char)
    requires d < 10
    ensures IsDigit(c) && DigitValue(c) == d
  {
    ('0' as int + d) as char
  }

  /** `parseInt(s, 10)` for a string of decimal digits (leading zeros allowed). */
  function DigitsValue(s: string): nat
    requires AllDigits(s)
  {
    if |s| == 0 then 0 else DigitsValue(s[..|s| - 1]) * 10 + DigitValue(s[|s| - 1])
  }

  /** The decimal rendering of a natural number, as template literals write it. */
  function NatToString(n: nat): (s: string)
    ensures |s| >= 1 && AllDigits(s)
    ensures s[0] == '0' ==> n == 0
  {
    if n < 10 then [DigitChar(n)] else NatToString(n / 10) + [DigitChar(n % 10)]
  }

  function IntToString(i: int): string {
    if i < 0 then "-" + NatToString(-i) else NatToString(i)
  }

  /** `parseInt` reads back what the number rendering wrote. */
  lemma {:induction false} ParseRenderedNat(n: nat)
    ensures DigitsValue(NatToString(n)) == n
  {
    if n >= 10 {
      var s := NatToString(n);
      ParseRenderedNat(n / 10);
      assert s[..|s| - 1] == NatToString(n / 10);
    }
  }

  lemma {:induction false} LeadingNonZeroIsPositive(s: string)
    requires AllDigits(s) && |s| >= 1 && s[0] != '0'
    ensures DigitsValue(s) >= 1
    decreases |s|
  {
    if |s| > 1 {
      LeadingNonZeroIsPositive(s[..|s| - 1]);
    }
  }

  /** The rendering is exactly the canonical digit string (no leading zero). */
  lemma {:induction false} RenderParsedDigits(s: string)
    requires AllDigits(s) && |s| >= 1 && (s[0] == '0' ==> |s| == 1)
    ensures NatToString(DigitsValue(s)) == s
    decreases |s|
  {
    if |s| > 1 {
      var init := s[..|s| - 1];
      assert init[0] == s[0];
      RenderParsedDigits(init);
      var v := DigitsValue(s);
      LeadingNonZeroIsPositive(init);
      assert v / 10 == DigitsValue(init);
      assert v % 10 == DigitValue(s[|s| - 1]);
      assert s == init + [s[|s| - 1]];
    }
  }

  /** `parseInt` of the digits between `p` and `q`. */
  function ValueBetween(s: string, p: int, q: int): nat
    requires DigitsBetween(s, p, q)
    decreases q - p
  {
    if q == p then 0 else ValueBetween(s, p, q - 1) * 10 + DigitValue(s[q - 1])
  }

  /** The same number as reading the slice on its own. */
  lemma {:induction false} ValueBetweenSlice(s: string, p: int, q: int)
    requires DigitsBetween(s, p, q)
    ensures AllDigits(s[p..q]) && ValueBetween(s, p, q) == DigitsValue(s[p..q])
    decreases q - p
  {
    if q > p {
      ValueBetweenSlice(s, p, q - 1);
      assert s[p..q][..q - p - 1] == s[p..q - 1];
    }
  }

  /** Digits placed at position `p` of a longer text read back as the same number. */
  lemma {:induction false} DigitsAt(s: string, p: nat, t: string)
    requires p + |t| <= |s| && s[p..p + |t|] == t && AllDigits(t)
    ensures DigitsBetween(s, p, p + |t|) && ValueBetween(s, p, p + |t|) == DigitsValue(t)
  {
    assert forall i | p <= i < p + |t| :: s[i] == t[i - p];
    ValueBetweenSlice(s, p, p + |t|);
  }

  /** The rendering of `v` placed at position `p` is a maximal digit run worth `v`. */
  lemma {:induction false} PlacedNumber(s: string, p: nat, v: nat)
    requires p + |NatToString(v)| <= |s| && s[p..p + |NatToString(v)|] == NatToString(v)
    ensures DigitsBetween(s, p, p + |NatToString(v)|)
    ensures ValueBetween(s, p, p + |NatToString(v)|) == v
  {
    DigitsAt(s, p, NatToString(v));
    ParseRenderedNat(v);
  }

  // ---------------------------------------------------------------------------
  // leading runs, used by the hand-written regular expression matchers

  /** Length of the longest prefix of `s` made of the character `c`. */
  function CountLeading(s: string, c: char): (k: nat)
    ensures k <= |s|
    ensures forall i :: 0 <= i < k ==> s[i] == c
    ensures k == |s| || s[k] != c
  {
    if |s| > 0 && s[0] == c then 1 + CountLeading(s[1..], c) else 0
  }

  // ---------------------------------------------------------------------------
  // ordering

  /** The UTF-16 code units of one character: the character itself below
      0x10000, otherwise a high surrogate and a low surrogate. */
  function CodeUnits(c: char): (u: seq<int>)
    ensures c as int < 0x10000 ==> u == [c as int] && !(0xD800 <= u[0] < 0xE000)
    ensures c as int >= 0x10000 ==> |u| == 2 && 0xD800 <= u[0] < 0xDC00 && 0xDC00 <= u[1] < 0xE000
    ensures c as int >= 0x10000 ==> (u[0] - 0xD800) * 0x400 + (u[1] - 0xDC00) + 0x10000 == c as int
  {
    if c as int < 0x10000 then [c as int]
    else [0xD800 + (c as int - 0x10000) / 0x400, 0xDC00 + (c as int - 0x10000) % 0x400]
  }

  /** The UTF-16 code units of a string, the units a JavaScript string is made of. */
  function Utf16(s: string): (u: seq<int>)
    ensures |u| >= |s|
    decreases |s|
  {
    if |s| == 0 then [] else CodeUnits(s[0]) + Utf16(s[1..])
  }

  /** Two strings with the same code units are the same string: a surrogate
      is never a character on its own, so the units split back into
      characters one way only. */
  lemma {:induction false} Utf16Injective(a: string, b: string)
    requires Utf16(a) == Utf16(b)
    ensures a == b
    decreases |a|
  {
    if |a| > 0 && |b| > 0 {
      var ua, ub := CodeUnits(a[0]), CodeUnits(b[0]);
      assert Utf16(a) == ua + Utf16(a[1..]) && Utf16(b) == ub + Utf16(b[1..]);
      assert ua[0] == Utf16(a)[0] == ub[0];
      if a[0] as int < 0x10000 || b[0] as int < 0x10000 {
        assert a[0] as int < 0x10000 && b[0] as int < 0x10000;
      } else {
        assert Utf16(a)[1] == ua[1] && Utf16(b)[1] == ub[1];
      }
      assert a[0] == b[0];
      assert Utf16(a[1..]) == Utf16(a)[|ua|..];
      assert Utf16(b[1..]) == Utf16(b)[|ub|..];
      Utf16Injective(a[1..], b[1..]);
      assert a == [a[0]] + a[1..] && b == [b[0]] + b[1..];
    }
  }

  /** Lexicographic order on code units: a proper prefix comes first. */
  predicate UnitsLess(a: seq<int>, b: seq<int>)
    decreases |a|
  {
    |b| > 0 && (|a| == 0 || a[0] < b[0] || (a[0] == b[0] && UnitsLess(a[1..], b[1..])))
  }

  lemma {:induction false} UnitsLessIrreflexive(a: seq<int>)
    ensures !UnitsLess(a, a)
    decreases |a|
  {
    if |a| > 0 { UnitsLessIrreflexive(a[1..]); }
  }

  lemma {:induction false} UnitsLessTransitive(a: seq<int>, b: seq<int>, c: seq<int>)
    requires UnitsLess(a, b) && UnitsLess(b, c)
    ensures UnitsLess(a, c)
    decreases |a|
  {
    if |a| > 0 && a[0] == b[0] && b[0] == c[0] {
      UnitsLessTransitive(a[1..], b[1..], c[1..]);
    }
  }

  lemma {:induction false} UnitsLessTotal(a: seq<int>, b: seq<int>)
    requires a != b
    ensures UnitsLess(a, b) || UnitsLess(b, a)
    decreases |a|
  {
    if |a| > 0 && |b| > 0 && a[0] == b[0] {
      assert a == [a[0]] + a[1..] && b == [b[0]] + b[1..];
      UnitsLessTotal(a[1..], b[1..]);
    }
  }

  /** The order `Array.prototype.sort` uses for strings when given no
      comparator: UTF-16 code unit by code unit. */
  predicate Less(a: string, b: string) {
    UnitsLess(Utf16(a), Utf16(b))
  }

  /** A character above U+FFFF sorts before U+FF61, although its code point
      is larger: its high surrogate 0xD800 is the smaller unit. */
  lemma {:induction false} AstralBeforeHighBmp()
    ensures Less("\U{10000}", "\U{FF61}") && !Less("\U{FF61}", "\U{10000}")
  {
    assert Utf16("\U{10000}") == [0xD800, 0xDC00];
    assert Utf16("\U{FF61}") == [0xFF61];
  }

  lemma {:induction false} LessIrreflexive(a: string)
    ensures !Less(a, a)
  {
    UnitsLessIrreflexive(Utf16(a));
  }

  lemma {:induction false} LessTransitive(a: string, b: string, c: string)
    requires Less(a, b) && Less(b, c)
    ensures Less(a, c)
  {
    UnitsLessTransitive(Utf16(a), Utf16(b), Utf16(c));
  }

  lemma {:induction false} LessTotal(a: string, b: string)
    requires a != b
    ensures Less(a, b) || Less(b, a)
  {
    if Utf16(a) == Utf16(b) {
      Utf16Injective(a, b);
    }
    UnitsLessTotal(Utf16(a), Utf16(b));
  }
}
