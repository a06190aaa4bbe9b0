/**
 * The lexer loop: repeatedly extracts a token from the unconsumed view, advances the
 * view past the lexeme, carries the line number forward, keeps unfiltered tokens in
 * order, and stops when the view is empty or nothing more is extracted.
 *
 * A view of the buffer is an offset: the unconsumed source is `input[pos..]` and the
 * remainder of a `Lexed` is `input[remainder..]`.
 */
module Lexer {
  import opened Wrappers
  import opened Registry
  import opened Extract

  /** The emitted tokens and the offset where the unconsumed remainder starts. */
  datatype Lexed = Lexed(tokens: seq<Token>, remainder: nat)

  /**
   * The engine's span lies inside the searched text of length `n`, and a match the
   * extractor turns into a token is non-empty (the loop advances past its last
   * character, which an empty lexeme does not have).
   */
  predicate Progresses(g: Grammar, found: Option<Match>, n: nat) {
    Fits(found, n) && (Extracts(g, found) ==> found.value.start < found.value.end)
  }

  /**
   * The engine answers so on every view the loop reaches from `pos`: on `input[pos..]`
   * when it is non-empty and, after an extracted match, on the view that starts where
   * that lexeme ends. Views the loop never searches are unconstrained.
   */
  predicate AlwaysProgresses(g: Grammar, search: Search, input: string, pos: nat)
    decreases |input| - pos
  {
    pos < |input| ==>
      && Progresses(g, search(input[pos..]), |input| - pos)
      && (Extracts(g, search(input[pos..])) ==>
            AlwaysProgresses(g, search, input, pos + search(input[pos..]).value.end))
  }

  /** Lexing the view `input[pos..]` with the line counter at `line`. */
  function LexFrom(g: Grammar, search: Search, input: string, pos: nat, line: nat): (r: Lexed)
    requires g.Valid() && pos <= |input| && AlwaysProgresses(g, search, input, pos)
    ensures pos <= r.remainder <= |input|
    decreases |input| - pos
  {
    if pos == |input| then Lexed([], pos)
    else
      assert Progresses(g, search(input[pos..]), |input| - pos);
      var r := LexToken(g, search, input, pos, line);
      if r.status == NoMatch then Lexed([], pos)
      else
        var rest := LexFrom(g, search, input, r.token.end, r.token.firstLine + r.token.numLines);
        if r.status == UnfilteredMatch then Lexed([r.token] + rest.tokens, rest.remainder) else rest
  }

  /** One iteration of the loop, unfolded: what `LexFrom` does with the extractor's answer. */
  lemma LexFromStep(g: Grammar, search: Search, input: string, pos: nat, line: nat) returns (t: LexResult, rest: Lexed)
    requires g.Valid() && pos < |input| && AlwaysProgresses(g, search, input, pos)
    ensures Progresses(g, search(input[pos..]), |input| - pos)
    ensures t == LexToken(g, search, input, pos, line)
    ensures t.status == NoMatch ==> LexFrom(g, search, input, pos, line) == Lexed([], pos)
    ensures t.status != NoMatch ==>
      && pos < t.token.end <= |input|
      && AlwaysProgresses(g, search, input, t.token.end)
      && rest == LexFrom(g, search, input, t.token.end, t.token.firstLine + t.token.numLines)
      && LexFrom(g, search, input, pos, line)
         == if t.status == UnfilteredMatch then Lexed([t.token] + rest.tokens, rest.remainder) else rest
  {
    assert Progresses(g, search(input[pos..]), |input| - pos);
    t := LexToken(g, search, input, pos, line);
    rest := if t.status == NoMatch then Lexed([], pos)
            else LexFrom(g, search, input, t.token.end, t.token.firstLine + t.token.numLines);
  }

  /**
   * If `line` counts the newlines before `pos`, the extracted token's `firstLine`
   * counts those before its lexeme and the next line counter those before its end.
   */
  lemma StepLines(input: string, pos: nat, line: nat, tok: Token)
    requires pos <= tok.start <= tok.end <= |input|
    requires line == CountNewlines(input[..pos])
    requires tok.firstLine == line + CountNewlines(input[pos..tok.start])
    requires tok.numLines == CountNewlines(input[tok.start..tok.end])
    ensures tok.firstLine == CountNewlines(input[..tok.start])
    ensures tok.firstLine + tok.numLines == CountNewlines(input[..tok.end])
  {
    CountNewlinesSplit(input, 0, pos, tok.start);
    CountNewlinesSplit(input, 0, tok.start, tok.end);
    assert input[..pos] == input[0..pos] && input[..tok.start] == input[0..tok.start];
    assert input[..tok.end] == input[0..tok.end];
  }

  /** Every token lies in `[lo, hi)`, is non-empty, and ends before any later token starts. */
  predicate Slices(ts: seq<Token>, lo: nat, hi: nat) {
    && (forall i | 0 <= i < |ts| :: lo <= ts[i].start < ts[i].end <= hi)
    && (forall i, j | 0 <= i < j < |ts| :: ts[i].end <= ts[j].start)
  }

  /**
   * `lex`: the loop keeps the unconsumed view, the line counter and the token list,
   * and returns the tokens with the unconsumed remainder.
   */
  method Lex(g: Grammar, search: Search, input: string) returns (res: Lexed)
    requires g.Valid() && AlwaysProgresses(g, search, input, 0)
    ensures res == LexFrom(g, search, input, 0, 0)
    ensures res.remainder <= |input| && Slices(res.tokens, 0, res.remainder)
    ensures res.remainder == |input| || !Extracts(g, search(input[res.remainder..]))
    ensures LinesAgree(input, res.tokens)
    ensures forall i | 0 <= i < |res.tokens| ::
      res.tokens[i].kind < g.TokenCount() - 1 && !g.filterOut[res.tokens[i].kind]
  {
    var tokens: seq<Token> := [];
    var pos: nat, line: nat := 0, 0;
    while pos < |input|
      invariant pos <= |input| && AlwaysProgresses(g, search, input, pos)
      invariant LexFrom(g, search, input, 0, 0)
             == Lexed(tokens + LexFrom(g, search, input, pos, line).tokens,
                      LexFrom(g, search, input, pos, line).remainder)
      decreases |input| - pos
    {
      var lexed := LexToken(g, search, input, pos, line);
      if lexed.status == NoMatch {
        ghost var step, rest := LexFromStep(g, search, input, pos, line);
        break;
      }
      ghost var pos0, line0, tokens0 := pos, line, tokens;
      pos := lexed.token.end;
      line := lexed.token.firstLine + lexed.token.numLines;
      if lexed.status == UnfilteredMatch {
        tokens := tokens + [lexed.token];
      }
      Advance(g, search, input, pos0, line0, tokens0, lexed, pos, line, tokens, LexFrom(g, search, input, 0, 0));
    }
    res := Lexed(tokens, pos);
    LexFromFacts(g, search, input, res);
  }

  /** What lexing the whole buffer guarantees, gathered from the lemmas below. */
  lemma LexFromFacts(g: Grammar, search: Search, input: string, r: Lexed)
    requires g.Valid() && AlwaysProgresses(g, search, input, 0)
    requires r == LexFrom(g, search, input, 0, 0)
    ensures r.remainder <= |input| && Slices(r.tokens, 0, r.remainder)
    ensures r.remainder == |input| || !Extracts(g, search(input[r.remainder..]))
    ensures LinesAgree(input, r.tokens)
    ensures forall i | 0 <= i < |r.tokens| :: r.tokens[i].kind < g.TokenCount() - 1 && !g.filterOut[r.tokens[i].kind]
  {
    LexShape(g, search, input, 0, 0);
    LexStops(g, search, input, 0, 0);
    assert input[..0] == [];
    LexLines(g, search, input, 0, 0);
    LexKinds(g, search, input, 0, 0);
  }

  /**
   * One iteration of the loop keeps its invariant: after an extracted token, the view
   * moves to the lexeme's end, the line counter past its newlines, and an unfiltered
   * token joins the emitted ones, while the overall result stays the same.
   */
  lemma Advance(g: Grammar, search: Search, input: string, pos: nat, line: nat, emitted: seq<Token>,
                t: LexResult, pos': nat, line': nat, emitted': seq<Token>, whole: Lexed)
    requires g.Valid() && pos < |input| && AlwaysProgresses(g, search, input, pos)
    requires whole
          == Lexed(emitted + LexFrom(g, search, input, pos, line).tokens, LexFrom(g, search, input, pos, line).remainder)
    requires t == LexToken(g, search, input, pos, line) && t.status != NoMatch
    requires pos' == t.token.end && line' == t.token.firstLine + t.token.numLines
    requires emitted' == if t.status == UnfilteredMatch then emitted + [t.token] else emitted
    ensures pos' <= |input| && AlwaysProgresses(g, search, input, pos')
    ensures whole
         == Lexed(emitted' + LexFrom(g, search, input, pos', line').tokens, LexFrom(g, search, input, pos', line').remainder)
  {
    var step, rest := LexFromStep(g, search, input, pos, line);
    Accumulate(emitted, emitted', t, whole, LexFrom(g, search, input, pos, line), rest);
  }

  /**
   * The loop's bookkeeping: when the view lexes to `here`, which is `rest` with the
   * extracted token kept in front if unfiltered, appending that token to the emitted
   * prefix leaves the overall result unchanged.
   */
  lemma Accumulate(emitted: seq<Token>, emitted': seq<Token>, t: LexResult, whole: Lexed, here: Lexed, rest: Lexed)
    requires whole == Lexed(emitted + here.tokens, here.remainder)
    requires here == if t.status == UnfilteredMatch then Lexed([t.token] + rest.tokens, rest.remainder) else rest
    requires emitted' == if t.status == UnfilteredMatch then emitted + [t.token] else emitted
    ensures whole == Lexed(emitted' + rest.tokens, rest.remainder)
  {
    if t.status == UnfilteredMatch {
      assert emitted + ([t.token] + rest.tokens) == (emitted + [t.token]) + rest.tokens;
    }
  }

  /** Putting a token in front of slices that start after it keeps them slices. */
  lemma SlicesCons(t: Token, ts: seq<Token>, lo: nat, hi: nat)
    requires lo <= t.start < t.end && Slices(ts, t.end, hi) && t.end <= hi
    ensures Slices([t] + ts, lo, hi)
  {
    var us := [t] + ts;
    forall i, j | 0 <= i < j < |us| ensures us[i].end <= us[j].start {
      assert us[j] == ts[j - 1];
      if i > 0 {
        assert us[i] == ts[i - 1];
      }
    }
    forall i | 0 <= i < |us| ensures lo <= us[i].start < us[i].end <= hi {
      if i > 0 {
        assert us[i] == ts[i - 1];
      }
    }
  }

  /**
   * The remainder starts inside the unconsumed view, and the tokens are non-empty,
   * non-overlapping slices of the consumed part, in increasing order of offset.
   */
  lemma {:induction false} LexShape(g: Grammar, search: Search, input: string, pos: nat, line: nat)
    requires g.Valid() && pos <= |input| && AlwaysProgresses(g, search, input, pos)
    ensures var r := LexFrom(g, search, input, pos, line);
      pos <= r.remainder <= |input| && Slices(r.tokens, pos, r.remainder)
    decreases |input| - pos
  {
    if pos < |input| {
      var t, rest := LexFromStep(g, search, input, pos, line);
      if t.status != NoMatch {
        LexShape(g, search, input, t.token.end, t.token.firstLine + t.token.numLines);
        if t.status == UnfilteredMatch {
          SlicesCons(t.token, rest.tokens, pos, rest.remainder);
        }
      }
    }
  }

  /** Lexing stops only at the end of the buffer or where nothing more is extracted. */
  lemma {:induction false} LexStops(g: Grammar, search: Search, input: string, pos: nat, line: nat)
    requires g.Valid() && pos <= |input| && AlwaysProgresses(g, search, input, pos)
    ensures var r := LexFrom(g, search, input, pos, line);
      r.remainder <= |input| && (r.remainder == |input| || !Extracts(g, search(input[r.remainder..])))
    decreases |input| - pos
  {
    if pos < |input| {
      var t, rest := LexFromStep(g, search, input, pos, line);
      if t.status != NoMatch {
        LexStops(g, search, input, t.token.end, t.token.firstLine + t.token.numLines);
      }
    }
  }

  /** Each token's line data against the newlines of the whole buffer. */
  predicate LinesAgree(input: string, ts: seq<Token>) {
    forall i | 0 <= i < |ts| ::
      && ts[i].start <= ts[i].end <= |input|
      && ts[i].firstLine == CountNewlines(input[..ts[i].start])
      && ts[i].numLines == CountNewlines(input[ts[i].start..ts[i].end])
  }

  lemma LinesAgreeCons(input: string, t: Token, ts: seq<Token>)
    requires LinesAgree(input, [t]) && LinesAgree(input, ts)
    ensures LinesAgree(input, [t] + ts)
  {
    var us := [t] + ts;
    forall i | 0 <= i < |us|
      ensures && us[i].start <= us[i].end <= |input|
              && us[i].firstLine == CountNewlines(input[..us[i].start])
              && us[i].numLines == CountNewlines(input[us[i].start..us[i].end])
    {
      if i > 0 {
        assert us[i] == ts[i - 1];
      } else {
        assert us[i] == [t][0];
      }
    }
  }

  /** The line data of one extracted token, and the line counter after it, against the whole buffer. */
  lemma ExtractedLines(g: Grammar, search: Search, input: string, pos: nat, line: nat)
    requires g.Valid() && pos < |input| && AlwaysProgresses(g, search, input, pos)
    requires line == CountNewlines(input[..pos])
    ensures Progresses(g, search(input[pos..]), |input| - pos)
    ensures var t := LexToken(g, search, input, pos, line);
      t.status != NoMatch ==>
        && t.token.end <= |input|
        && LinesAgree(input, [t.token])
        && t.token.firstLine + t.token.numLines == CountNewlines(input[..t.token.end])
  {
    assert Progresses(g, search(input[pos..]), |input| - pos);
    var t := LexToken(g, search, input, pos, line);
    if t.status != NoMatch {
      StepLines(input, pos, line, t.token);
      assert [t.token][0] == t.token;
    }
  }

  /**
   * Started with the line counter equal to the newlines before the view, every token's
   * `firstLine` is the number of newlines before its lexeme in the whole buffer and
   * its `numLines` the number of newlines inside the lexeme.
   */
  lemma {:induction false} LexLines(g: Grammar, search: Search, input: string, pos: nat, line: nat)
    requires g.Valid() && pos <= |input| && AlwaysProgresses(g, search, input, pos)
    requires line == CountNewlines(input[..pos])
    ensures LinesAgree(input, LexFrom(g, search, input, pos, line).tokens)
    decreases |input| - pos
  {
    if pos < |input| {
      var t, rest := LexFromStep(g, search, input, pos, line);
      if t.status != NoMatch {
        var tok := t.token;
        ExtractedLines(g, search, input, pos, line);
        LexLines(g, search, input, tok.end, tok.firstLine + tok.numLines);
        if t.status == UnfilteredMatch {
          LinesAgreeCons(input, tok, rest.tokens);
        }
      }
    }
  }

  /** Line numbers never decrease: a token ends on a line no later than the next one starts. */
  lemma LinesNonDecreasing(g: Grammar, search: Search, input: string)
    requires g.Valid() && AlwaysProgresses(g, search, input, 0)
    ensures var ts := LexFrom(g, search, input, 0, 0).tokens;
      forall i, j | 0 <= i < j < |ts| :: ts[i].firstLine + ts[i].numLines <= ts[j].firstLine
  {
    assert input[..0] == [];
    LexLines(g, search, input, 0, 0);
    LexShape(g, search, input, 0, 0);
    var ts := LexFrom(g, search, input, 0, 0).tokens;
    forall i, j | 0 <= i < j < |ts| ensures ts[i].firstLine + ts[i].numLines <= ts[j].firstLine {
      CountNewlinesSplit(input, 0, ts[i].start, ts[i].end);
      CountNewlinesSplit(input, 0, ts[i].end, ts[j].start);
      assert input[..ts[i].start] == input[0..ts[i].start];
      assert input[..ts[i].end] == input[0..ts[i].end];
      assert input[..ts[j].start] == input[0..ts[j].start];
    }
  }

  /**
   * Only unfiltered kinds are emitted, and never the last declared kind (whose group
   * the extractor does not inspect).
   */
  lemma {:induction false} LexKinds(g: Grammar, search: Search, input: string, pos: nat, line: nat)
    requires g.Valid() && pos <= |input| && AlwaysProgresses(g, search, input, pos)
    ensures var ts := LexFrom(g, search, input, pos, line).tokens;
      forall i | 0 <= i < |ts| :: ts[i].kind < g.TokenCount() - 1 && !g.filterOut[ts[i].kind]
    decreases |input| - pos
  {
    if pos < |input| {
      var t, rest := LexFromStep(g, search, input, pos, line);
      if t.status != NoMatch {
        LexKinds(g, search, input, t.token.end, t.token.firstLine + t.token.numLines);
        if t.status == UnfilteredMatch {
          var ts := [t.token] + rest.tokens;
          assert t.token.kind < g.TokenCount() - 1 && !g.filterOut[t.token.kind];
          forall i | 0 <= i < |ts| ensures ts[i].kind < g.TokenCount() - 1 && !g.filterOut[ts[i].kind] {
            if i > 0 {
              assert ts[i] == rest.tokens[i - 1];
            }
          }
        }
      }
    }
  }

  /** A filtered match emits nothing but still consumes its lexeme and the gap before it. */
  lemma FilteredConsumed(g: Grammar, search: Search, input: string, pos: nat, line: nat)
    requires g.Valid() && pos < |input| && AlwaysProgresses(g, search, input, pos)
    requires Extracts(g, search(input[pos..])) && g.filterOut[search(input[pos..]).value.group - 1]
    ensures var e := pos + search(input[pos..]).value.end;
      LexFrom(g, search, input, pos, line) == LexFrom(g, search, input, e, line + CountNewlines(input[pos..e]))
  {
    FilteredToken(g, search, input, pos, line);
    var t, rest := LexFromStep(g, search, input, pos, line);
  }

  /** The token of a filtered match, and where the loop resumes after it. */
  lemma FilteredToken(g: Grammar, search: Search, input: string, pos: nat, line: nat)
    requires g.Valid() && pos < |input| && Fits(search(input[pos..]), |input| - pos)
    requires Extracts(g, search(input[pos..])) && g.filterOut[search(input[pos..]).value.group - 1]
    ensures var t := LexToken(g, search, input, pos, line);
      var e := pos + search(input[pos..]).value.end;
      && t.status == FilteredMatch && t.token.end == e
      && t.token.firstLine + t.token.numLines == line + CountNewlines(input[pos..e])
  {
    var m := search(input[pos..]).value;
    CountNewlinesSplit(input, pos, pos + m.start, pos + m.end);
  }

  /**
   * A buffer that is one unfiltered lexeme of kind `k` (group `k + 1`, not the last)
   * lexes to exactly that token, spanning the whole buffer, with nothing left over.
   */
  lemma WholeInputOneToken(g: Grammar, search: Search, input: string, k: Kind)
    requires g.Valid() && input != [] && k + 1 < g.TokenCount() && !g.filterOut[k]
    requires search(input) == Some(Match(k + 1, 0, |input|))
    ensures LexFrom(g, search, input, 0, 0) == Lexed([Token(k, 0, |input|, 0, CountNewlines(input))], |input|)
  {
    assert input[0..] == input && input[0..0] == [] && input[0..|input|] == input;
  }

  /**
   * When the first match in the buffer is captured by the last declared kind, lexing
   * stops at once: no tokens, and the whole buffer is the remainder.
   */
  lemma LastKindStopsLexing(g: Grammar, search: Search, input: string)
    requires g.Valid() && input != [] && Fits(search(input), |input|)
    requires search(input).Some? && search(input).value.group == g.TokenCount()
    ensures LexFrom(g, search, input, 0, 0) == Lexed([], 0)
  {
    assert input[0..] == input;
  }

  /**
   * A pattern that can match the empty string does no harm on a buffer where the loop
   * never reaches a view it matches empty: with kinds `ab`, `c*` and `x`, the engine's
   * empty `c*` match on the view `"b"` is never searched, and `"ab"` lexes to one token.
   */
  lemma UnreachedEmptyMatch()
    ensures var g := Grammar(["ab", "c*", "x"], [false, false, false]);
      var search: Search := s => if s == "ab" then Some(Match(1, 0, 2))
                                 else if s == "b" then Some(Match(2, 0, 0)) else None;
      && g.Valid() && !Progresses(g, search("ab"[1..]), 1)
      && AlwaysProgresses(g, search, "ab", 0)
      && LexFrom(g, search, "ab", 0, 0) == Lexed([Token(0, 0, 2, 0, 0)], 2)
  {
    var g := Grammar(["ab", "c*", "x"], [false, false, false]);
    var search: Search := s => if s == "ab" then Some(Match(1, 0, 2))
                               else if s == "b" then Some(Match(2, 0, 0)) else None;
    assert "ab"[0..] == "ab" && "ab"[1..] == "b" && "ab"[0..0] == [] && "ab"[0..2] == "ab";
    assert AlwaysProgresses(g, search, "ab", 2);
    assert AlwaysProgresses(g, search, "ab", 0);
    var t, rest := LexFromStep(g, search, "ab", 0, 0);
  }
}
