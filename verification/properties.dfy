/** What the scanner's outcome (`Scanner.Expected`) promises, stated against
    the input text and the valid-symbols vector. */
module ScannerProperties {
  import opened Tokens
  import opened Lexing
  import opened Scanner

  /** The valid-symbols vectors that permit exactly one kind of token. */
  const ContentOnly: ValidSymbols := [true, false, false]
  const StartOnly: ValidSymbols := [false, true, false]
  const EndOnly: ValidSymbols := [false, false, true]

  /** `#{` is recognised as an interpolation start exactly when that token is
      permitted and the input holds `#{` at the cursor; the token is those two
      characters. */
  lemma InterpolationStartExactly(input: seq<char>, start: nat, valid: ValidSymbols)
    requires start <= |input|
    ensures (Expected(input, start, valid).Some? && Expected(input, start, valid).value.0 == InterpolationStart)
        <==> (Permits(valid, InterpolationStart) && start + 1 < |input| && input[start..start + 2] == "#{")
    ensures Expected(input, start, valid).Some? && Expected(input, start, valid).value.0 == InterpolationStart
        ==> Expected(input, start, valid).value.1 == start + 2
  {
    if Permits(valid, InterpolationStart) && start + 1 < |input| && input[start..start + 2] == "#{" {
      assert input[start] == input[start..start + 2][0];
      assert input[start + 1] == input[start..start + 2][1];
    }
    if Expected(input, start, valid).Some? && Expected(input, start, valid).value.0 == InterpolationStart {
      assert Selected(input, start, valid) == StartBranch;
      assert input[start..start + 2] == [input[start], input[start + 1]];
    }
  }

  /** With interpolation start permitted, a `#` that is not followed by `{`
      (end of input included) gives no token, whatever else is permitted: the
      first branch never falls through to content. */
  lemma LoneHashRejected(input: seq<char>, start: nat, valid: ValidSymbols)
    requires start < |input| && input[start] == '#'
    requires start + 1 == |input| || input[start + 1] != '{'
    requires Permits(valid, InterpolationStart)
    ensures Expected(input, start, valid) == None
  {
  }

  /** `}` is recognised as an interpolation end exactly when that token is
      permitted and `}` is at the cursor; the token is that one character. */
  lemma InterpolationEndExactly(input: seq<char>, start: nat, valid: ValidSymbols)
    requires start <= |input|
    ensures (Expected(input, start, valid).Some? && Expected(input, start, valid).value.0 == InterpolationEnd)
        <==> (Permits(valid, InterpolationEnd) && start < |input| && input[start] == '}')
    ensures Expected(input, start, valid).Some? && Expected(input, start, valid).value.0 == InterpolationEnd
        ==> Expected(input, start, valid).value.1 == start + 1
  {
    if Permits(valid, InterpolationEnd) && start < |input| && input[start] == '}' {
      assert Selected(input, start, valid) == EndBranch;
    }
  }

  /** The first stop position at or after `start` is the end of the content
      run, whichever way it is found. */
  lemma ContentEndUnique(input: seq<char>, start: nat, j: nat)
    requires start <= j <= |input|
    requires IsStop(input, j)
    requires forall k :: start <= k < j ==> !IsStop(input, k)
    ensures ContentEnd(input, start) == j
  {
  }

  /** A content token holds no `"` and no `\`, contains no `#{`, and is not
      followed by the `{` of a `#{` whose `#` it would end with. When the run
      stops at a `#`, that `#` begins `#{` and is left out of the token. */
  lemma ContentTokenText(input: seq<char>, start: nat, valid: ValidSymbols)
    requires start <= |input|
    requires Expected(input, start, valid).Some? && Expected(input, start, valid).value.0 == StringContent
    ensures var e := Expected(input, start, valid).value.1;
      && e == ContentEnd(input, start)
      && (forall k :: start <= k < e ==> input[k] != '"' && input[k] != '\\')
      && (forall k :: start <= k < e ==> !(input[k] == '#' && CharAt(input, k + 1) == '{'))
      && (e < |input| && input[e] == '#' ==> e + 1 < |input| && input[e + 1] == '{')
  {
    var e := ContentEnd(input, start);
    assert Selected(input, start, valid) == ContentBranch;
    forall k | start <= k < e
      ensures input[k] != '"' && input[k] != '\\'
      ensures !(input[k] == '#' && CharAt(input, k + 1) == '{')
    {
      assert !IsStop(input, k);
    }
  }

  /** Apostrophes, `}` and a `#` not followed by `{` (a trailing `#` too) never
      stop a content run: the run from such a character goes on to where the
      run from the next character ends. */
  lemma ContentPassesOver(input: seq<char>, k: nat)
    requires k < |input|
    requires input[k] == '\'' || input[k] == '}' || (input[k] == '#' && CharAt(input, k + 1) != '{')
    ensures ContentEnd(input, k) == ContentEnd(input, k + 1) > k
  {
    assert !IsStop(input, k);
  }

  /** A run of characters none of which is `"`, `\` or the `#` of a `#{` is
      consumed whole by the content branch. */
  lemma {:induction false} ContentCoversRun(input: seq<char>, start: nat, n: nat)
    requires start + n <= |input|
    requires forall k :: start <= k < start + n ==>
      input[k] != '"' && input[k] != '\\' && !(input[k] == '#' && CharAt(input, k + 1) == '{')
    ensures ContentEnd(input, start) >= start + n
    decreases n
  {
    if n > 0 {
      assert !IsStop(input, start);
      ContentCoversRun(input, start + 1, n - 1);
    }
  }

  /** In the content branch a token is recognised exactly when the run is
      non-empty, and it is then a string-content token ending where the run
      ends; an immediate `"`, `\`, end of input or `#{` gives nothing. */
  lemma ContentFoundIffNonEmpty(input: seq<char>, start: nat, valid: ValidSymbols)
    requires start <= |input|
    requires Selected(input, start, valid) == ContentBranch
    ensures Expected(input, start, valid).Some? <==> start < ContentEnd(input, start)
    ensures Expected(input, start, valid).Some? ==>
      Expected(input, start, valid) == Some((StringContent, ContentEnd(input, start)))
    ensures IsStop(input, start) ==> Expected(input, start, valid) == None
  {
  }

  /** With string content not permitted, the only tokens are `#{` and `}`;
      with nothing permitted, no token at all. */
  lemma NoContentWithoutPermission(input: seq<char>, start: nat, valid: ValidSymbols)
    requires start <= |input|
    requires !Permits(valid, StringContent)
    ensures Expected(input, start, valid).Some? ==>
      Expected(input, start, valid).value.0 != StringContent
    ensures !Permits(valid, InterpolationStart) && !Permits(valid, InterpolationEnd) ==>
      Expected(input, start, valid) == None
  {
  }

  /** No position inside a string body is a dead end: where the next character
      is neither `"` nor `\` (which the grammar matches itself), asking for
      content, or else for an interpolation start, yields a token. */
  lemma Progress(input: seq<char>, start: nat)
    requires start < |input| && input[start] != '"' && input[start] != '\\'
    ensures Expected(input, start, ContentOnly).Some?
         || Expected(input, start, StartOnly) == Some((InterpolationStart, start + 2))
  {
    if !IsStop(input, start) {
      assert Selected(input, start, ContentOnly) == ContentBranch;
      assert start < ContentEnd(input, start);
    }
  }

  /** Worked examples: a `#` without `{` is content, `#{` ends the run before
      the `#`, an empty body gives nothing, an apostrophe is content. */
  lemma Examples()
    ensures Expected("he#llo\"", 0, ContentOnly) == Some((StringContent, 6))
    ensures Expected("he#{llo\"", 0, ContentOnly) == Some((StringContent, 2))
    ensures Expected("\"\"", 0, ContentOnly) == None
    ensures Expected("it's\"", 0, ContentOnly) == Some((StringContent, 4))
    ensures Expected("#{", 0, StartOnly) == Some((InterpolationStart, 2))
    ensures Expected("#x", 0, StartOnly) == None
    ensures Expected("}", 0, EndOnly) == Some((InterpolationEnd, 1))
    ensures Expected("a#", 0, ContentOnly) == Some((StringContent, 2))
    ensures Expected("#", 0, [true, true, false]) == None
  {
    var a := "he#llo\"";
    assert IsStop(a, 6) && forall k :: 0 <= k < 6 ==> !IsStop(a, k);
    ContentEndUnique(a, 0, 6);
    var b := "he#{llo\"";
    assert IsStop(b, 2) && !IsStop(b, 0) && !IsStop(b, 1);
    ContentEndUnique(b, 0, 2);
    var c := "it's\"";
    assert IsStop(c, 4) && forall k :: 0 <= k < 4 ==> !IsStop(c, k);
    ContentEndUnique(c, 0, 4);
    assert IsStop("\"\"", 0);
    var d := "a#";
    assert IsStop(d, 2) && !IsStop(d, 0) && !IsStop(d, 1);
    ContentEndUnique(d, 0, 2);
  }

  /** A caller of `Scan` learns the token from its contract alone. */
  method ScanClient()
  {
    var lexer := new Lexer("he#{llo\"", 0, InterpolationEnd);
    var found := Scan(lexer, ContentOnly);
    Examples();
    assert found && lexer.resultSymbol == StringContent && lexer.TokenEnd() == 2;
    lexer := new Lexer("#x", 0, InterpolationEnd);
    found := Scan(lexer, [true, true, false]);
    assert !found && lexer.pos == 1;
  }
}
