/** Line-level reading of Markdown shared by the table parsers: ATX headings
    as the pattern `^#{1,6}\s+(.+)$` sees them, and pipe-separated rows. */
module Markdown {
  import opened Outcomes
  import opened Strings
  import opened Seqs

  /** No position from `p` up to `q` holds a line terminator: `.` can run over them. */
  predicate NoBreakBetween(s: string, p: int, q: int) {
    0 <= p <= q <= |s| && forall i | p <= i < q :: !IsLineTerminator(s[i])
  }

  /** `(.+)$` can start at position `j` after `\s` covered positions `p` up to
      `j`, at least `least` of them. */
  predicate RestFrom(s: string, p: int, least: nat, j: int) {
    0 <= p && p + least <= j < |s| && SpacesBetween(s, p, j) && NoBreakBetween(s, j, |s|)
  }

  /** `\s{least,}(.+)$` matched at position `p` with the backtracking engine:
      the space run is greedy, so the capture starts at the largest `j` that
      leaves a match. Only `least` 0 and 1 (`\s*` and `\s+`) occur. */
  function SpacesThenRest(s: string, p: nat, least: nat): (o: Option<string>)
    requires p <= |s|
    ensures o.Some? ==> |o.value| <= |s| && o.value == s[|s| - |o.value|..]
    ensures o.Some? ==> RestFrom(s, p, least, |s| - |o.value|)
    ensures o.Some? ==> forall j | |s| - |o.value| < j <= |s| :: !RestFrom(s, p, least, j)
  {
    var w := SpaceRunFrom(s, p);
    if w < least then None
    else if p + w < |s| then
      if forall i | p + w <= i < |s| :: !IsLineTerminator(s[i]) then Some(s[p + w..]) else None
    else if w > least && !IsLineTerminator(s[|s| - 1]) then
      Some(s[|s| - 1..])
    else None
  }

  /** Whenever some split point lets `(.+)$` match, the match succeeds. */
  lemma {:induction false} SpacesThenRestComplete(s: string, p: nat, least: nat, j: int)
    requires p <= |s| && RestFrom(s, p, least, j)
    ensures SpacesThenRest(s, p, least).Some?
  {
    var w := SpaceRunFrom(s, p);
    assert j <= p + w by {
      SpacesBound(s, p, j);
    }
    if p + w < |s| {
      assert forall i | p + w <= i < |s| :: !IsLineTerminator(s[i]) by {
        assert NoBreakBetween(s, j, |s|);
      }
    } else {
      assert !IsLineTerminator(s[|s| - 1]) by {
        assert NoBreakBetween(s, j, |s|);
      }
    }
  }

  /** A run of whitespace from `p` to `j` lies within the maximal run from `p`. */
  lemma {:induction false} SpacesBound(s: string, p: nat, j: int)
    requires p <= |s| && SpacesBetween(s, p, j)
    ensures j <= p + SpaceRunFrom(s, p)
    decreases j - p
  {
    if j > p {
      SpacesBound(s, p + 1, j);
    }
  }

  /** Number of `#` characters from position `p` on. */
  function HashRun(s: string, p: nat): (k: nat)
    requires p <= |s|
    ensures p + k <= |s|
    ensures forall i | p <= i < p + k :: s[i] == '#'
    ensures p + k == |s| || s[p + k] != '#'
    decreases |s| - p
  {
    if p < |s| && s[p] == '#' then 1 + HashRun(s, p + 1) else 0
  }

  /** `line.match(/^#{1,6}\s+(.+)$/)`, giving the captured heading text.
      `#{1,6}` cannot stop short of the `#` run, because a `#` is not `\s`,
      so a run of seven or more `#` is no heading. */
  function HeadingText(line: string): (o: Option<string>)
    ensures o.Some? ==> 1 <= HashRun(line, 0) <= 6
    ensures o.Some? <==> 1 <= HashRun(line, 0) <= 6 && SpacesThenRest(line, HashRun(line, 0), 1).Some?
    ensures o.Some? ==> o == SpacesThenRest(line, HashRun(line, 0), 1)
  {
    var k := HashRun(line, 0);
    if 1 <= k <= 6 then SpacesThenRest(line, k, 1) else None
  }

  /** `line.includes('|')`. */
  predicate HasPipe(line: string) {
    '|' in line
  }

  /** `line.split('|').map(c => c.trim())`. */
  function PipeCells(line: string): (cells: seq<string>)
    ensures |cells| == |Split(line, "|")| && |cells| >= 1
    ensures forall i | 0 <= i < |cells| :: cells[i] == Trim(Split(line, "|")[i])
  {
    var parts := Split(line, "|");
    seq(|parts|, i requires 0 <= i < |parts| => Trim(parts[i]))
  }

  /** `.filter(h => h.length > 0)`: the non-empty cells, in order. */
  function NonEmpty(cells: seq<string>): (r: seq<string>)
    ensures |r| <= |cells|
    ensures forall i | 0 <= i < |r| :: r[i] != ""
    ensures forall i | 0 <= i < |cells| :: cells[i] != "" ==> cells[i] in r
    ensures forall x | x in r :: x in cells
  {
    if |cells| == 0 then []
    else
      var rest := NonEmpty(cells[1..]);
      if cells[0] == "" then rest else [cells[0]] + rest
  }

  /** The kept cells are the non-empty ones in their order, each as often
      as it occurs. */
  lemma {:induction false} NonEmptyInOrder(cells: seq<string>)
    ensures Filtered(NonEmpty(cells), cells, NonEmptyText)
    decreases |cells|
  {
    if |cells| > 0 {
      NonEmptyInOrder(cells[1..]);
      FilteredCons(NonEmpty(cells[1..]), cells, NonEmptyText);
    }
  }
}
