/**
 * The token extractor: turns the matching engine's answer for the unconsumed view
 * of the buffer into a token of the matched kind, with its lexeme and line data.
 *
 * The engine is a parameter: `search(text)` is `None` when no alternative matches
 * anywhere in `text`, and otherwise `Some(Match(g, s, e))` where `g` is the group
 * that captured and `text[s..e]` its span. Offsets in a token are absolute offsets
 * into the buffer being lexed; the view handed to the engine is `input[pos..]`.
 */
module Extract {
  import opened Wrappers
  import opened Registry

  /** Which capturing group matched, and its span relative to the searched text. */
  datatype Match = Match(group: nat, start: nat, end: nat)

  /** The matching engine's leftmost search over the combined pattern. */
  type Search = string -> Option<Match>

  datatype Status = NoMatch | FilteredMatch | UnfilteredMatch

  /** A token: its kind, its lexeme `input[start..end]`, the line it starts on and the newlines in it. */
  datatype Token = Token(kind: Kind, start: nat, end: nat, firstLine: nat, numLines: nat)

  datatype LexResult = LexResult(token: Token, status: Status)

  /** The value-initialised result: a default token (kind 0, empty view) and no match. */
  const NoMatchResult: LexResult := LexResult(Token(0, 0, 0, 0, 0), NoMatch)

  /** Number of newline characters in `s`. */
  function CountNewlines(s: string): nat {
    if s == [] then 0 else (if s[0] == '\n' then 1 else 0) + CountNewlines(s[1..])
  }

  /** Counting newlines distributes over concatenation. */
  lemma {:induction false} CountNewlinesAppend(a: string, b: string)
    ensures CountNewlines(a + b) == CountNewlines(a) + CountNewlines(b)
  {
    if a != [] {
      assert (a + b)[1..] == a[1..] + b;
      CountNewlinesAppend(a[1..], b);
    } else {
      assert a + b == b;
    }
  }

  /** The newlines of `s[i..k]` are those of `s[i..j]` and those of `s[j..k]`. */
  lemma CountNewlinesSplit(s: string, i: nat, j: nat, k: nat)
    requires i <= j <= k <= |s|
    ensures CountNewlines(s[i..k]) == CountNewlines(s[i..j]) + CountNewlines(s[j..k])
  {
    assert s[i..k] == s[i..j] + s[j..k];
    CountNewlinesAppend(s[i..j], s[j..k]);
  }

  /** The engine's span lies inside the searched text of length `n`. */
  predicate Fits(found: Option<Match>, n: nat) {
    found.Some? ==> found.value.start <= found.value.end <= n
  }

  /** The engine matched, and through a group the extractor inspects (1 .. N-1). */
  predicate Extracts(g: Grammar, found: Option<Match>) {
    found.Some? && 1 <= found.value.group < g.TokenCount()
  }

  /** The token built when group `m.group` is the one that captured. */
  function Capture(g: Grammar, input: string, pos: nat, line: nat, m: Match): (r: LexResult)
    requires g.Valid() && 1 <= m.group <= g.TokenCount()
    requires m.start <= m.end && pos + m.end <= |input|
    ensures r.status != NoMatch && r.token.kind < g.TokenCount()
    ensures r.token.start <= r.token.end <= |input|
    ensures r.status == FilteredMatch <==> g.filterOut[r.token.kind]
  {
    var kind := m.group - 1;
    var start, end := pos + m.start, pos + m.end;
    LexResult(
      Token(kind, start, end, line + CountNewlines(input[pos..start]), CountNewlines(input[start..end])),
      if g.filterOut[kind] then FilteredMatch else UnfilteredMatch)
  }

  /**
   * The static loop over group indices `i .. count-1`: group 0 (the whole match) and
   * groups that did not capture leave the result as it is.
   */
  function VisitGroups(g: Grammar, input: string, pos: nat, line: nat, m: Match,
                       i: nat, count: nat, acc: LexResult): (r: LexResult)
    requires g.Valid() && i <= count <= g.TokenCount() + 1
    requires m.start <= m.end && pos + m.end <= |input|
    ensures r != acc ==> 1 <= m.group && i <= m.group < count
    decreases count - i
  {
    if i == count then acc
    else
      var next := if i == 0 || m.group != i then acc else Capture(g, input, pos, line, m);
      VisitGroups(g, input, pos, line, m, i + 1, count, next)
  }

  /** Visiting groups `i .. count-1` picks up the captured group exactly when it is in that range and not 0. */
  lemma {:induction false} VisitGroupsClosedForm(g: Grammar, input: string, pos: nat, line: nat, m: Match,
                                                 i: nat, count: nat, acc: LexResult)
    requires g.Valid() && i <= count <= g.TokenCount() + 1
    requires m.start <= m.end && pos + m.end <= |input|
    ensures VisitGroups(g, input, pos, line, m, i, count, acc)
         == if 1 <= m.group && i <= m.group < count then Capture(g, input, pos, line, m) else acc
    decreases count - i
  {
    if i < count {
      var next := if i == 0 || m.group != i then acc else Capture(g, input, pos, line, m);
      VisitGroupsClosedForm(g, input, pos, line, m, i + 1, count, next);
    }
  }

  /** Search the view `input[pos..]` and visit groups `0 .. count-1` of the answer. */
  function LexTokenUpTo(g: Grammar, search: Search, input: string, pos: nat, line: nat, count: nat): LexResult
    requires g.Valid() && pos <= |input| && count <= g.TokenCount() + 1
    requires Fits(search(input[pos..]), |input| - pos)
  {
    match search(input[pos..])
    case None => NoMatchResult
    case Some(m) => VisitGroups(g, input, pos, line, m, 0, count, NoMatchResult)
  }

  /**
   * `lex_token` as written: the group loop runs over `token_count` indices, so only
   * groups 1 .. N-1 are turned into tokens. A captured group `g` yields kind `g-1`,
   * the lexeme is the captured span, `firstLine` adds the newlines skipped before the
   * lexeme to `line`, `numLines` counts the newlines inside it, and the status is
   * filtered exactly when the kind is filtered out. Anything else is no match.
   */
  function LexToken(g: Grammar, search: Search, input: string, pos: nat, line: nat): (r: LexResult)
    requires g.Valid() && pos <= |input|
    requires Fits(search(input[pos..]), |input| - pos)
    ensures r.status != NoMatch <==> Extracts(g, search(input[pos..]))
    ensures r.status == NoMatch ==> r == NoMatchResult
    ensures r.status != NoMatch ==>
      var m := search(input[pos..]).value;
      && r.token.kind == m.group - 1
      && r.token.start == pos + m.start
      && r.token.end == pos + m.end
      && r.token.firstLine == line + CountNewlines(input[pos..pos + m.start])
      && r.token.numLines == CountNewlines(input[pos + m.start..pos + m.end])
      && (r.status == FilteredMatch <==> g.filterOut[r.token.kind])
  {
    match search(input[pos..])
    case None => NoMatchResult
    case Some(m) =>
      VisitGroupsClosedForm(g, input, pos, line, m, 0, g.TokenCount(), NoMatchResult);
      LexTokenUpTo(g, search, input, pos, line, g.TokenCount())
  }

  /** The whole-match group 0 is never turned into a token. */
  lemma GroupZeroNeverExtracted(g: Grammar, search: Search, input: string, pos: nat, line: nat)
    requires g.Valid() && pos <= |input|
    requires Fits(search(input[pos..]), |input| - pos)
    requires search(input[pos..]).Some? && search(input[pos..]).value.group == 0
    ensures LexToken(g, search, input, pos, line) == NoMatchResult
  {
  }

  /**
   * A match captured by the last declared kind's group N is never inspected by the
   * group loop, so it reads as no match at all.
   */
  lemma LastKindNeverExtracted(g: Grammar, search: Search, input: string, pos: nat, line: nat)
    requires g.Valid() && pos <= |input|
    requires Fits(search(input[pos..]), |input| - pos)
    requires search(input[pos..]).Some? && search(input[pos..]).value.group == g.TokenCount()
    ensures LexToken(g, search, input, pos, line).status == NoMatch
  {
  }

  /**
   * The extractor with the group loop running over all N+1 groups: every group
   * 1 .. N, the last kind's included, yields its own kind.
   */
  function LexTokenAllGroups(g: Grammar, search: Search, input: string, pos: nat, line: nat): (r: LexResult)
    requires g.Valid() && pos <= |input|
    requires Fits(search(input[pos..]), |input| - pos)
    ensures r.status != NoMatch <==>
      search(input[pos..]).Some? && 1 <= search(input[pos..]).value.group <= g.TokenCount()
    ensures r.status == NoMatch ==> r == NoMatchResult
    ensures r.status != NoMatch ==>
      var m := search(input[pos..]).value;
      && r.token.kind == m.group - 1
      && r.token.start == pos + m.start
      && r.token.end == pos + m.end
      && r.token.firstLine == line + CountNewlines(input[pos..pos + m.start])
      && r.token.numLines == CountNewlines(input[pos + m.start..pos + m.end])
      && (r.status == FilteredMatch <==> g.filterOut[r.token.kind])
  {
    match search(input[pos..])
    case None => NoMatchResult
    case Some(m) =>
      VisitGroupsClosedForm(g, input, pos, line, m, 0, g.TokenCount() + 1, NoMatchResult);
      LexTokenUpTo(g, search, input, pos, line, g.TokenCount() + 1)
  }

  /** With all groups visited, a match by the last kind yields a token of the last kind. */
  lemma LastKindExtractedWithAllGroups(g: Grammar, search: Search, input: string, pos: nat, line: nat)
    requires g.Valid() && pos <= |input|
    requires Fits(search(input[pos..]), |input| - pos)
    requires search(input[pos..]).Some? && search(input[pos..]).value.group == g.TokenCount()
    ensures LexTokenAllGroups(g, search, input, pos, line).status != NoMatch
    ensures LexTokenAllGroups(g, search, input, pos, line).token.kind == g.TokenCount() - 1
  {
  }

  /** On groups 1 .. N-1 the two extractors agree; they differ only on the last kind. */
  lemma {:induction false} AllGroupsAgreesBelowLast(g: Grammar, search: Search, input: string, pos: nat, line: nat)
    requires g.Valid() && pos <= |input|
    requires Fits(search(input[pos..]), |input| - pos)
    requires !(search(input[pos..]).Some? && search(input[pos..]).value.group == g.TokenCount())
    ensures LexTokenAllGroups(g, search, input, pos, line) == LexToken(g, search, input, pos, line)
  {
    match search(input[pos..])
    case None =>
    case Some(m) =>
      VisitGroupsClosedForm(g, input, pos, line, m, 0, g.TokenCount() + 1, NoMatchResult);
      VisitGroupsClosedForm(g, input, pos, line, m, 0, g.TokenCount(), NoMatchResult);
  }
}
