/**
 * The standalone tokenizer utility (tokenizer.cpp). Its `tokenize` differs
 * from the indexer's only in dropping the redundant emptiness test before a
 * token is emitted; its contract states that both produce the same tokens.
 */
module TokenizerCli {
  import opened Common
  import DocTokenizer

  /** `tokenize` (tokenizer.cpp): emits exactly the tokens of DocTokenizer.Tokens. */
  method Tokenize(text: Str) returns (tokens: seq<Str>)
    ensures tokens == DocTokenizer.Tokens(text)
  {
    tokens := [];
    var current: Str := [];
    ghost var start := 0;
    for i := 0 to |text|
      invariant DocTokenizer.Scanned(text, i, tokens, current, start)
    {
      var c := text[i];
      if IsAlnum(c) {
        DocTokenizer.ScanAlnum(text, i, tokens, current, start);
        current := current + [ToLower(c)];
      } else {
        DocTokenizer.ScanSeparator(text, i, tokens, current, start);
        if |current| >= 2 {
          tokens := tokens + [current];
        }
        current := [];
        start := i + 1;
      }
    }
    DocTokenizer.ScanEnd(text, tokens, current, start);
    if |current| >= 2 {
      tokens := tokens + [current];
    }
  }
}
