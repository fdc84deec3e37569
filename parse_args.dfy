/** src/parse/parse_args.rs: `parse_input`, the three-state tokenizer that
    returns a plain token list. */
module ParseArgs {
  import opened Bytes
  import ArgsScan

  /** The bytes a backslash escapes inside double quotes: `` ` \ " $ `` */
  const SPECIAL_CHARS: seq<byte> := [GRAVE, BACKSLASH, DOUBLE_QUOTE, DOLLAR_SIGN]

  method ParseInput(str: Bytes) returns (tokens: seq<Bytes>)
    ensures tokens == ArgsScan.Tokens(str, SPECIAL_CHARS)
    ensures AllSpace(str) ==> tokens == []
    ensures forall i | 0 <= i < |tokens| :: tokens[i] != []
  {
    tokens := ArgsScan.ScanTokens(str, SPECIAL_CHARS);
  }
}
