/**
 * SQLFormat.format: one pass over the input that pulls tokens one at a time
 * and updates `depth`, `out`, `lastReserved` and `lastDelimNonWS` in place.
 */
module SqlFormat {
  import opened SqlTokens
  import opened SqlReserved
  import opened SqlIndent

  /** Re-indents `sql`; the result is the fold of the engine over its tokens. */
  method Format(sql: string) returns (out: string)
    ensures out == Formatted(sql)
    ensures sql == [] ==> out == []
  {
    var depth := 0;
    out := "";
    var lastReserved := true;
    var lastDelimNonWS := false;
    var pos := 0;
    ghost var done: seq<string> := [];
    while pos < |sql|
      invariant pos <= |sql|
      invariant Tokenize(sql) == done + Tokenize(sql[pos..])
      invariant State(depth, out, lastReserved, lastDelimNonWS) == Run(done)
      decreases |sql| - pos
    {
      var token, next := NextToken(sql, pos);
      TokenizeAdvance(sql, done, pos, next);
      ghost var st := State(depth, out, lastReserved, lastDelimNonWS);
      var delim := |token| == 1 && token[0] in Delimiters;
      if delim {
        if token == ")" {
          out := out + ("\n" + Spaces(depth * 2) + token);
        } else if !lastDelimNonWS {
          out := out + token;
        }
        if token == "," {
          out := out + ("\n" + Spaces(depth * 2));
        }
        if token[0] !in Whitespace {
          lastDelimNonWS := delim;
        }
      } else {
        lastDelimNonWS := false;
        var reserved := IsReservedWord(token);
        if reserved {
          if !lastReserved {
            depth := depth - 1;
            out := out + "\n";
          }
        } else if lastReserved {
          depth := depth + 1;
          out := out + ("\n" + Spaces(depth * 2));
        }
        lastReserved := reserved;
        out := out + token;
      }
      assert State(depth, out, lastReserved, lastDelimNonWS) == Step(st, token);
      RunSnoc(done, token);
      done := done + [token];
      pos := next;
    }
    assert sql[pos..] == [];
    assert done == Tokenize(sql);
  }
}
