/** The external scanner for Tome string literals: given the lexer cursor and
    the kinds of token the grammar accepts, it recognises `#{` (interpolation
    start), `}` (interpolation end) or a maximal run of string content. Only `"`
    ends a string body here: apostrophes are content. */
module Scanner {
  import opened Tokens
  import opened Lexing

  /** A string-content run cannot extend over position `k`: the input ends
      there, or it holds `"`, `\`, or a `#` immediately followed by `{`. */
  predicate IsStop(input: seq<char>, k: nat)
    requires k <= |input|
  {
    k == |input| || input[k] == '"' || input[k] == '\\'
    || (input[k] == '#' && k + 1 < |input| && input[k + 1] == '{')
  }

  /** Where a content run starting at `start` ends: the first stop position at
      or after `start`. */
  function ContentEnd(input: seq<char>, start: nat): (e: nat)
    requires start <= |input|
    ensures start <= e <= |input|
    ensures IsStop(input, e)
    ensures forall k :: start <= k < e ==> !IsStop(input, k)
    decreases |input| - start
  {
    if IsStop(input, start) then start else ContentEnd(input, start + 1)
  }

  /** The branch of the scanner that handles a call, in the scanner's order of
      priority: interpolation start, then interpolation end, then content. */
  datatype Branch = StartBranch | EndBranch | ContentBranch | NoBranch

  function Selected(input: seq<char>, start: nat, valid: ValidSymbols): Branch
  {
    if Permits(valid, InterpolationStart) && CharAt(input, start) == '#' then StartBranch
    else if Permits(valid, InterpolationEnd) && CharAt(input, start) == '}' then EndBranch
    else if Permits(valid, StringContent) then ContentBranch
    else NoBranch
  }

  /** The token a call at `start` recognises, with the position where it ends,
      or None when it recognises nothing. Every token is non-empty and lies
      within the input. */
  function Expected(input: seq<char>, start: nat, valid: ValidSymbols): (r: Option<(TokenType, nat)>)
    requires start <= |input|
    ensures r.Some? ==> start < r.value.1 <= |input|
  {
    match Selected(input, start, valid)
    case StartBranch =>
      if CharAt(input, start + 1) == '{' then Some((InterpolationStart, start + 2)) else None
    case EndBranch => Some((InterpolationEnd, start + 1))
    case ContentBranch =>
      var e := ContentEnd(input, start);
      if start < e then Some((StringContent, e)) else None
    case NoBranch => None
  }

  /** One call of the scanner on the engine's cursor. It reports whether a token
      was recognised and leaves the kind in `resultSymbol` and the token's end
      where `TokenEnd()` finds it. On a false result the cursor is left where
      the scanner stopped; discarding that progress is the engine's business. */
  method Scan(lexer: Lexer, valid: ValidSymbols) returns (found: bool)
    requires lexer.Valid() && lexer.markedEnd == None
    modifies lexer
    ensures lexer.Valid()
    ensures var r := Expected(lexer.input, old(lexer.pos), valid);
      found == r.Some? && (found ==> lexer.resultSymbol == r.value.0 && lexer.TokenEnd() == r.value.1)
    ensures var start := old(lexer.pos);
      match Selected(lexer.input, start, valid)
      case StartBranch =>
        lexer.markedEnd == None
        && lexer.pos == (if found then start + 2 else start + 1)
        && lexer.resultSymbol == (if found then InterpolationStart else old(lexer.resultSymbol))
      case EndBranch =>
        lexer.markedEnd == None && lexer.pos == start + 1 && lexer.resultSymbol == InterpolationEnd
      case ContentBranch =>
        var e := ContentEnd(lexer.input, start);
        lexer.resultSymbol == StringContent && lexer.markedEnd == Some(e)
        && lexer.pos == (if e < |lexer.input| && lexer.input[e] == '#' then e + 1 else e)
      case NoBranch =>
        lexer.pos == start && lexer.markedEnd == None && lexer.resultSymbol == old(lexer.resultSymbol)
  {
    ghost var start := lexer.pos;

    if Permits(valid, InterpolationStart) && lexer.Lookahead() == '#' {
      lexer.Advance();
      if lexer.Lookahead() == '{' {
        lexer.Advance();
        lexer.resultSymbol := InterpolationStart;
        return true;
      }
      return false;
    }

    if Permits(valid, InterpolationEnd) && lexer.Lookahead() == '}' {
      lexer.Advance();
      lexer.resultSymbol := InterpolationEnd;
      return true;
    }

    if Permits(valid, StringContent) {
      var hasContent := false;
      while true
        invariant lexer.Valid()
        invariant start <= lexer.pos <= ContentEnd(lexer.input, start)
        invariant hasContent <==> start < lexer.pos
        decreases |lexer.input| - lexer.pos
      {
        if lexer.Lookahead() == '"' || lexer.Lookahead() == '\\' || lexer.Eof() {
          assert IsStop(lexer.input, lexer.pos);
          break;
        }
        if lexer.Lookahead() == '#' {
          ghost var hash := lexer.pos;
          lexer.MarkEnd();
          lexer.Advance();
          if lexer.Lookahead() == '{' {
            assert IsStop(lexer.input, hash);
            lexer.resultSymbol := StringContent;
            return hasContent;
          }
          hasContent := true;
          continue;
        }
        hasContent := true;
        lexer.Advance();
      }
      lexer.MarkEnd();
      lexer.resultSymbol := StringContent;
      return hasContent;
    }

    return false;
  }
}
