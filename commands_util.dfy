/** src/commands/util.rs: `parse_args`, a second copy of the three-state
    tokenizer. */
module CommandsUtil {
  import opened Bytes
  import ArgsScan
  import InputParser = ParseArgs

  /** This file's name for the dollar sign. */
  const ENDLINE: byte := '$'

  /** The bytes a backslash escapes inside double quotes. */
  const SPECIAL_CHARS: seq<byte> := [GRAVE, BACKSLASH, DOUBLE_QUOTE, ENDLINE]

  method ParseArgs(str: Bytes) returns (result: seq<Bytes>)
    ensures result == ArgsScan.Tokens(str, SPECIAL_CHARS)
    ensures AllSpace(str) ==> result == []
    ensures forall i | 0 <= i < |result| :: result[i] != []
  {
    result := ArgsScan.ScanTokens(str, SPECIAL_CHARS);
  }

  /** `parse_args` and src/parse/parse_args.rs `parse_input` return the same
      tokens for every line: their tables of escapable bytes are equal. */
  lemma SameAsParseInput(str: Bytes)
    ensures ArgsScan.Tokens(str, SPECIAL_CHARS) == ArgsScan.Tokens(str, InputParser.SPECIAL_CHARS)
  {
  }
}
