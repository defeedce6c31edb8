/** Corpus framing: argv tokens separated by NUL (fuzz/src/lib.rs, fuzz/src/generate.rs). */
module Corpus {
  import opened Text

  const NUL: char := '\0'

  function EndsWithNul(s: string): bool {
    s != [] && s[|s| - 1] == NUL
  }

  /** The argv tokens of a corpus input. */
  function Tokens(input: string): seq<string> {
    if input == [] then []
    else
      var parts := Split(input, NUL);
      if EndsWithNul(input) then parts[..|parts| - 1] else parts
  }

  method SplitTokens(input: string) returns (parts: seq<string>)
    ensures parts == Tokens(input)
  {
    if input == [] {
      return [];
    }
    parts := Split(input, NUL);
    if EndsWithNul(input) {
      parts := parts[..|parts| - 1];
    }
  }

  method TokensToBytes(tokens: seq<string>) returns (input: string)
    ensures input == Join(tokens, NUL)
  {
    input := [];
    for index := 0 to |tokens|
      invariant input == Join(tokens[..index], NUL)
    {
      assert tokens[..index + 1] == tokens[..index] + [tokens[index]];
      JoinAppend(tokens[..index], tokens[index], NUL);
      if index > 0 {
        input := input + [NUL];
      }
      input := input + tokens[index];
    }
    assert tokens[..|tokens|] == tokens;
  }

  /** The tokens are the parts, without the last one when that is empty. */
  lemma TokensFromParts(input: string, parts: seq<string>)
    requires parts == Split(input, NUL)
    ensures Tokens(input) == if parts[|parts| - 1] == [] then parts[..|parts| - 1] else parts
  {
    LastPart(input, NUL);
    if input == [] {
      assert parts == [[]];
    }
  }

  /** Splitting undoes joining, except that an empty last token is lost. */
  lemma TokensOfJoined(tokens: seq<string>)
    requires Free(tokens, NUL)
    ensures Tokens(Join(tokens, NUL)) ==
            if tokens != [] && tokens[|tokens| - 1] == [] then tokens[..|tokens| - 1] else tokens
  {
    if tokens != [] {
      SplitOfJoin(tokens, NUL);
      TokensFromParts(Join(tokens, NUL), tokens);
    }
  }

  /** Joining undoes splitting, except that one trailing NUL is lost. */
  lemma JoinedTokens(input: string)
    ensures Join(Tokens(input), NUL) == if EndsWithNul(input) then input[..|input| - 1] else input
    ensures Free(Tokens(input), NUL)
  {
    if input != [] {
      SplitIsFree(input, NUL);
      JoinOfSplit(input, NUL);
      if EndsWithNul(input) {
        var parts := Split(input, NUL);
        LastPart(input, NUL);
        var front := parts[..|parts| - 1];
        assert parts == front + [[]];
        JoinAppend(front, [], NUL);
        assert input == (if front == [] then [] else Join(front, NUL) + [NUL]);
      }
    }
  }
}
