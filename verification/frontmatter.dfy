/** YAML-like frontmatter as both Markdown table parsers read it
    (src/services/TableParser.ts and src/services/tables/table-parser.ts
    carry the same code): a leading block delimited by `---` lines, then one
    `key: value` per line, booleans for `true`/`false`, and one pair of
    matching quotes removed. */
module Frontmatter {
  import opened Outcomes
  import opened Strings
  import opened Records
  import opened Markdown

  /** A frontmatter value: `true`/`false` become booleans, everything else stays text. */
  datatype FmValue = FmBool(b: bool) | FmText(text: string)

  /** The delimiter that closes the block, including the line breaks around it. */
  const Closing: string := "\n---\n"

  /** First position at or after `from` where `part` occurs. */
  function FindFrom(s: string, part: string, from: nat): (o: Option<nat>)
    ensures o.Some? ==> from <= o.value && OccursAt(s, part, o.value)
    ensures o.Some? ==> forall i | from <= i < o.value :: !OccursAt(s, part, i)
    ensures o.None? ==> forall i | from <= i :: !OccursAt(s, part, i)
    decreases |s| - from
  {
    if from + |part| > |s| then None
    else if s[from..from + |part|] == part then Some(from)
    else FindFrom(s, part, from + 1)
  }

  /** `FindFrom` stops at the first occurrence. */
  lemma {:induction false} FindFromFirst(s: string, part: string, from: nat, i: nat)
    requires from <= i && OccursAt(s, part, i)
    requires forall j | from <= j < i :: !OccursAt(s, part, j)
    ensures FindFrom(s, part, from) == Some(i)
    decreases i - from
  {
    if from < i {
      assert !OccursAt(s, part, from);
      FindFromFirst(s, part, from + 1, i);
    }
  }

  /** `content.match(/^---\n([\s\S]*?)\n---\n([\s\S]*)$/)`: the lazy group
      stops at the first closing delimiter after the opening line; the text
      of the block and the body after it. */
  function SplitFrontmatter(content: string): (o: Option<(string, string)>)
    ensures o.None? <==> !StartsWith(content, "---\n") || forall i | 4 <= i :: !OccursAt(content, Closing, i)
    ensures o.Some? ==> StartsWith(content, "---\n") && FindFrom(content, Closing, 4).Some?
    ensures o.Some? ==> o.value == (content[4..FindFrom(content, Closing, 4).value], content[FindFrom(content, Closing, 4).value + 5..])
  {
    if StartsWith(content, "---\n") then
      match FindFrom(content, Closing, 4)
      case Some(i) => Some((content[4..i], content[i + 5..]))
      case None => None
    else None
  }

  /** A block written in front of a body is split back off. */
  lemma {:induction false} SplitFrontmatterWritten(fm: string, body: string)
    requires forall i | 4 <= i < 4 + |fm| :: !OccursAt("---\n" + fm + Closing + body, Closing, i)
    ensures SplitFrontmatter("---\n" + fm + Closing + body) == Some((fm, body))
  {
    var c := "---\n" + fm + Closing + body;
    assert c[..4] == "---\n";
    assert c[4 + |fm|..4 + |fm| + 5] == Closing;
    assert c[4..4 + |fm|] == fm;
    assert c[4 + |fm| + 5..] == body;
    FindFromFirst(c, Closing, 4, 4 + |fm|);
  }

  // ---------------------------------------------------------------------------
  // key: value lines

  /** Number of `\w` characters from position `p` on. */
  function WordRun(s: string, p: nat): (k: nat)
    requires p <= |s|
    ensures p + k <= |s|
    ensures forall i | p <= i < p + k :: IsWordChar(s[i])
    ensures p + k == |s| || !IsWordChar(s[p + k])
    decreases |s| - p
  {
    if p < |s| && IsWordChar(s[p]) then 1 + WordRun(s, p + 1) else 0
  }

  /** End of the greedy `(?:-\w+)*` that follows a word ending at `p`. */
  function HyphenWordsEnd(s: string, p: nat): (e: nat)
    requires p <= |s|
    requires p == |s| || !IsWordChar(s[p])
    ensures p <= e <= |s|
    ensures e == |s| || !IsWordChar(s[e])
    ensures e == p || s[p] == '-'
    ensures e < |s| && s[e] == '-' ==> e + 1 == |s| || !IsWordChar(s[e + 1])
    decreases |s| - p
  {
    if p + 1 < |s| && s[p] == '-' && IsWordChar(s[p + 1]) then
      HyphenWordsEnd(s, p + 1 + WordRun(s, p + 1))
    else p
  }

  /** The key of a line, `\w+(?:-\w+)*` taken greedily: backtracking cannot
      help, since after a shorter key the next character is a word character
      or a hyphen, neither of which `\s*:` accepts. */
  function KeyEnd(line: string): (e: nat)
    ensures e <= |line|
    ensures e > 0 ==> IsWordChar(line[0])
    ensures e == 0 <==> |line| == 0 || !IsWordChar(line[0])
  {
    var w := WordRun(line, 0);
    if w == 0 then 0 else HyphenWordsEnd(line, w)
  }

  /** `line.match(/^(\w+(?:-\w+)*)\s*:\s*(.+)$/)` with both captures trimmed. */
  function KeyValueLine(line: string): (o: Option<(string, string)>)
    ensures o.Some? ==> KeyEnd(line) > 0 && o.value.0 == Trim(line[..KeyEnd(line)])
    ensures o.Some? ==> TrimmedEnds(o.value.1)
  {
    var e := KeyEnd(line);
    if e == 0 then None
    else
      var c := e + SpaceRunFrom(line, e);
      if c < |line| && line[c] == ':' then
        match SpacesThenRest(line, c + 1, 0)
        case Some(v) => Some((Trim(line[..e]), Trim(v)))
        case None => None
      else None
  }

  /** `slice(1, -1)` when a value is wrapped in a matching pair of quotes. */
  function Unquote(v: string): (r: string)
    ensures |r| <= |v|
    ensures (|v| >= 2 && v[0] == v[|v| - 1] && (v[0] == '"' || v[0] == '\'')) ==> r == v[1..|v| - 1]
  {
    if |v| >= 1 && ((v[0] == '"' && v[|v| - 1] == '"') || (v[0] == '\'' && v[|v| - 1] == '\'')) then
      if |v| >= 2 then v[1..|v| - 1] else ""
    else v
  }

  /** The typed value of a trimmed value text. */
  function ValueOf(v: string): (r: FmValue)
    ensures r == FmBool(true) <==> v == "true"
    ensures r == FmBool(false) <==> v == "false"
    ensures r.FmText? ==> |r.text| <= |v|
  {
    if v == "true" then FmBool(true)
    else if v == "false" then FmBool(false)
    else FmText(Unquote(v))
  }

  /** Reading one line into the collected key/value record. */
  function AddLine(kv: Record<FmValue>, line: string): (r: Record<FmValue>)
    ensures KeyValueLine(line).None? ==> r == kv
    ensures KeyValueLine(line).Some? ==> Get(r, KeyValueLine(line).value.0) == Some(ValueOf(KeyValueLine(line).value.1))
  {
    match KeyValueLine(line)
    case None => kv
    case Some((k, v)) => Put(kv, k, ValueOf(v))
  }

  function AddLines(kv: Record<FmValue>, lines: seq<string>): Record<FmValue>
    decreases |lines|
  {
    if |lines| == 0 then kv else AddLines(AddLine(kv, lines[0]), lines[1..])
  }

  /** `parseFrontMatter`: every line of the block in order, a later key overwriting an earlier one. */
  function ParseFrontMatter(text: string): Record<FmValue> {
    AddLines([], Split(text, "\n"))
  }

  /** `extractFrontmatter` of src/services/TableParser.ts: the parsed block and the body. */
  function ExtractFrontmatter(content: string): (r: (Record<FmValue>, string))
    ensures SplitFrontmatter(content).None? ==> r == ([], content)
    ensures SplitFrontmatter(content).Some? ==>
      r == (ParseFrontMatter(SplitFrontmatter(content).value.0), SplitFrontmatter(content).value.1)
  {
    match SplitFrontmatter(content)
    case None => ([], content)
    case Some((fm, body)) => (ParseFrontMatter(fm), body)
  }

  /** `frontmatter[key] === true`. */
  predicate FlagSet(kv: Record<FmValue>, key: string) {
    Get(kv, key) == Some(FmBool(true))
  }

  /** A document without a leading `---` line has no frontmatter and keeps its text. */
  lemma {:induction false} NoBlockNoFrontmatter(content: string)
    requires !StartsWith(content, "---\n")
    ensures ExtractFrontmatter(content) == ([], content)
  {
  }

  /** The lines after the last line setting a key do not change its value. */
  lemma {:induction false} AddLinesKeeps(kv: Record<FmValue>, lines: seq<string>, k: string)
    requires forall i | 0 <= i < |lines| :: KeyValueLine(lines[i]).None? || KeyValueLine(lines[i]).value.0 != k
    ensures Get(AddLines(kv, lines), k) == Get(kv, k)
    decreases |lines|
  {
    if |lines| > 0 {
      AddLinesKeeps(AddLine(kv, lines[0]), lines[1..], k);
    }
  }

  /** A key takes the value of the last line that sets it. */
  lemma {:induction false} LastLineWins(kv: Record<FmValue>, lines: seq<string>, i: nat)
    requires i < |lines| && KeyValueLine(lines[i]).Some?
    requires forall j | i < j < |lines| :: KeyValueLine(lines[j]).None? || KeyValueLine(lines[j]).value.0 != KeyValueLine(lines[i]).value.0
    ensures Get(AddLines(kv, lines), KeyValueLine(lines[i]).value.0) == Some(ValueOf(KeyValueLine(lines[i]).value.1))
    decreases i
  {
    var rest := lines[1..];
    if i == 0 {
      var k := KeyValueLine(lines[0]).value.0;
      forall j | 0 <= j < |rest| ensures KeyValueLine(rest[j]).None? || KeyValueLine(rest[j]).value.0 != k {
        assert rest[j] == lines[j + 1];
      }
      AddLinesKeeps(AddLine(kv, lines[0]), rest, k);
    } else {
      assert rest[i - 1] == lines[i];
      forall j | i - 1 < j < |rest|
        ensures KeyValueLine(rest[j]).None? || KeyValueLine(rest[j]).value.0 != KeyValueLine(rest[i - 1]).value.0
      {
        assert rest[j] == lines[j + 1];
      }
      LastLineWins(AddLine(kv, lines[0]), rest, i - 1);
    }
  }
}
