/** The lexer cursor the parsing engine lends to the external scanner for
    one call. The engine's side of it is not part of this model: what the
    scanner relies on is written down here as the behaviour of this class.
    - `Lookahead()` is the character at the cursor, and NUL at end of input.
    - `Eof()` holds exactly at end of input (a NUL inside the input is not the end).
    - `Advance()` moves the cursor one character on and does nothing at end of input.
    - `MarkEnd()` records the cursor position as the end of the token being built.
    - The token the engine takes from a successful call ends at the last
      recorded position, or at the cursor when nothing was recorded (`TokenEnd()`). */
module Lexing {
  import opened Tokens

  /** The character read at position `k`: NUL past the last character. */
  function CharAt(input: seq<char>, k: nat): char
  {
    if k < |input| then input[k] else '\0'
  }

  class Lexer {
    /** The text being scanned. */
    const input: seq<char>
    /** The cursor: the index of the lookahead character. */
    var pos: nat
    /** The position recorded by the last `MarkEnd()` of this call, if any. */
    var markedEnd: Option<nat>
    /** The kind of token the scanner reports. */
    var resultSymbol: TokenType

    ghost predicate Valid()
      reads this
    {
      pos <= |input| && (markedEnd.Some? ==> markedEnd.value <= pos)
    }

    /** The engine starts a scan at `start` with no end recorded yet. */
    constructor (text: seq<char>, start: nat, symbol: TokenType)
      requires start <= |text|
      ensures Valid()
      ensures input == text && pos == start && markedEnd == None && resultSymbol == symbol
    {
      input := text;
      pos := start;
      markedEnd := None;
      resultSymbol := symbol;
    }

    function Lookahead(): char
      reads this
      requires Valid()
    {
      CharAt(input, pos)
    }

    predicate Eof()
      reads this
      requires Valid()
    {
      pos == |input|
    }

    method Advance()
      requires Valid()
      modifies this`pos
      ensures Valid()
      ensures pos == if old(pos) < |input| then old(pos) + 1 else old(pos)
    {
      if pos < |input| {
        pos := pos + 1;
      }
    }

    method MarkEnd()
      requires Valid()
      modifies this`markedEnd
      ensures Valid()
      ensures markedEnd == Some(pos)
    {
      markedEnd := Some(pos);
    }

    /** Where the emitted token ends: the last recorded end, else the cursor. */
    function TokenEnd(): (e: nat)
      reads this
      requires Valid()
      ensures e <= pos
      ensures markedEnd.None? ==> e == pos
    {
      match markedEnd
      case Some(m) => m
      case None => pos
    }
  }
}
