/** The external token kinds of the Tome grammar and the valid-symbols vector
    through which the parsing engine says which of them it accepts. */
module Tokens {

  datatype Option<+T> = None | Some(value: T)

  /** The external tokens, in the order the grammar declares them. */
  datatype TokenType = StringContent | InterpolationStart | InterpolationEnd

  /** Number of external tokens, and so the length of every valid-symbols vector. */
  const NumTokenTypes: nat := 3

  /** The index of a token kind in the enumeration (and in the valid-symbols vector). */
  function Ordinal(t: TokenType): (n: nat)
    ensures n < NumTokenTypes
  {
    match t
    case StringContent => 0
    case InterpolationStart => 1
    case InterpolationEnd => 2
  }

  /** The token kind with a given index, if there is one. */
  function FromOrdinal(n: nat): (r: Option<TokenType>)
    ensures r.Some? <==> n < NumTokenTypes
  {
    if n == 0 then Some(StringContent)
    else if n == 1 then Some(InterpolationStart)
    else if n == 2 then Some(InterpolationEnd)
    else None
  }

  /** The enumeration numbers the kinds one-to-one. */
  lemma OrdinalRoundTrip(t: TokenType, n: nat)
    ensures FromOrdinal(Ordinal(t)) == Some(t)
    ensures n < NumTokenTypes ==> Ordinal(FromOrdinal(n).value) == n
  {
  }

  /** A valid-symbols vector has one flag per external token. */
  type ValidSymbols = v: seq<bool> | |v| == NumTokenTypes witness [false, false, false]

  /** The engine accepts token kind `t` at this position. */
  predicate Permits(valid: ValidSymbols, t: TokenType)
  {
    valid[Ordinal(t)]
  }
}
