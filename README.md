# SQLFormat in Dafny

A model of `org.fastjax.sql.SQLFormat.format`, a one-pass SQL re-indenter.
`format` cuts its input into tokens with a `StringTokenizer`. The delimiters
are space, tab, newline, carriage return, form feed, `(`, `)` and `,`, and
each one is returned as a token of its own. It then walks the tokens once,
with four local variables: `depth`, `out`, `lastReserved` and
`lastDelimNonWS`. A word's reserved status is looked up by binary search in
a sorted table of 15 upper-case keywords. A newline goes before a word
whenever its reserved status differs from the previous word's. A `)` always
starts a new line. A `,` is always followed by one. Any other delimiter that
comes after `(`, `)` or `,` is dropped until the next word.

Modules, one per part of the source:

- `SqlTokens` (`tokens.dfy`): the tokenizer. `Tokenize` is a function over
  `seq<char>`. Its contract is proved separately: the tokens join back to
  the input, each token is one delimiter or a maximal non-empty run of
  non-delimiters, and these properties determine the tokenization uniquely.
  `NextToken` is the scanning loop of `nextToken`.
- `SqlReserved` (`reserved.dfy`): the keyword table. `Compare` is the sign of
  `String.compareTo`. The table is proved strictly sorted. `BinarySearch` is
  `Arrays.binarySearch`, proved correct for sorted input, so the test in
  `format` is exactly case-sensitive membership.
- `SqlIndent` (`indent.dfy`): the engine as a left fold. `Step` is one pass of
  the loop body and `Run` folds it over a token sequence from the initial
  state. The lemmas describe the output one token at a time, through `Emit`
  and `Trace`. They also characterise the two flags by the tokens seen so
  far.
- `SqlFormat` (`format.dfy`): `Format`, the method itself. It has the same
  loop, branches and in-place updates of the four variables. It is proved to
  return `Formatted(sql)`, the fold of `Step` over `Tokenize(sql)`.

`Strings.padRight("", n)` comes from a library outside this repository.
The model assumes that it returns `n` spaces (`SqlIndent.Spaces`).

The indentation code never clamps `depth` at zero, but `depth` still cannot
go negative. The two branches that change it strictly alternate, so `depth`
is 0 exactly when `lastReserved` holds and 1 otherwise (`SqlIndent.Inv`,
kept by `Step` and `Run`). It therefore never goes negative, never overflows
a Java `int`, and every pad is 0 or 2 spaces.

## Model

| member | source | states |
|---|---|---|
| `SqlTokens.WordLen` | src/main/java/org/fastjax/sql/SQLFormat.java:40-41 | the result is the length of the longest delimiter-free prefix: no delimiter before it, and a delimiter or the end of input at it |
| `SqlTokens.WordLenUnique` | src/main/java/org/fastjax/sql/SQLFormat.java:40-41 | any length with those two properties equals `WordLen`, so a word token is a maximal run |
| `SqlTokens.TokenLen` | src/main/java/org/fastjax/sql/SQLFormat.java:40-41 | the first token of a non-empty input is either its first character, when that is a delimiter, or a maximal non-empty run of non-delimiters |
| `SqlTokens.TokenizeJoins` | src/main/java/org/fastjax/sql/SQLFormat.java:41-48 | joining the tokens in order gives back the input exactly |
| `SqlTokens.TokenizeWellFormed` | src/main/java/org/fastjax/sql/SQLFormat.java:40-49 | every token is a single delimiter or a non-empty run of non-delimiters, and no two word tokens are adjacent |
| `SqlTokens.TokenizeSpec` | src/main/java/org/fastjax/sql/SQLFormat.java:40-49 | the tokenizer's whole contract, including that only the empty input yields no tokens |
| `SqlTokens.TokenizeUnique` | src/main/java/org/fastjax/sql/SQLFormat.java:40-41 | any sequence of well-formed tokens with no adjacent words that joins to `s` is `Tokenize(s)` |
| `SqlTokens.NextToken` | src/main/java/org/fastjax/sql/SQLFormat.java:47-48 | the scanning loop returns the token starting at `pos` and the position just past it, as `Tokenize` splits the rest of the input |
| `SqlReserved.CompareZero` | src/main/java/org/fastjax/sql/SQLFormat.java:64 | `compareTo` answers 0 exactly for equal strings |
| `SqlReserved.CompareFlip` | src/main/java/org/fastjax/sql/SQLFormat.java:64 | swapping the operands of `compareTo` flips the sign |
| `SqlReserved.CompareTrans` | src/main/java/org/fastjax/sql/SQLFormat.java:64 | the `compareTo` order is transitive |
| `SqlReserved.SortedByNeighbours` | src/main/java/org/fastjax/sql/SQLFormat.java:30 | ascending neighbours make the whole table strictly ascending |
| `SqlReserved.ReservedsSorted` | src/main/java/org/fastjax/sql/SQLFormat.java:30 | the keyword table is strictly sorted, as binary search requires |
| `SqlReserved.BinarySearch` | src/main/java/org/fastjax/sql/SQLFormat.java:64 | on a sorted table it returns an index holding the key, or a negative result -(insertion point)-1 with smaller entries before that point and larger ones after it, and the key is then absent |
| `SqlReserved.IsReservedWord` | src/main/java/org/fastjax/sql/SQLFormat.java:64 | `binarySearch(reserveds, token) >= 0` holds exactly when the token is one of the 15 keywords |
| `SqlReserved.CaseSensitive` | src/main/java/org/fastjax/sql/SQLFormat.java:30 | membership is case-sensitive: `SELECT` and `FROM` are reserved, `select` and `from` are not |
| `SqlIndent.Spaces` | src/main/java/org/fastjax/sql/SQLFormat.java:52 | the padding is `n` characters, all spaces |
| `SqlIndent.Step` | src/main/java/org/fastjax/sql/SQLFormat.java:49-78 | one iteration keeps `depth == (lastReserved ? 0 : 1)`; a delimiter never changes `depth` or `lastReserved`; a word sets `lastReserved` to its reserved status and clears `lastDelimNonWS` |
| `SqlIndent.Run` | src/main/java/org/fastjax/sql/SQLFormat.java:42-79 | from the initial state (`depth` 0, `lastReserved` true), the depth invariant holds after every token |
| `SqlIndent.StepAppends` | src/main/java/org/fastjax/sql/SQLFormat.java:50-77 | each iteration appends to `out` exactly the piece `Emit` describes: layout, then the token or nothing, then layout |
| `SqlIndent.RunFlags` | src/main/java/org/fastjax/sql/SQLFormat.java:45-76 | after any tokens, `lastReserved` says that no word has been seen or the last word was reserved; `lastDelimNonWS` says that a structural delimiter has come since the last word; `depth` is 0 or 1 accordingly |
| `SqlIndent.RunOutIsTrace` | src/main/java/org/fastjax/sql/SQLFormat.java:47-81 | the output is the pieces of the tokens joined in input order |
| `SqlIndent.FormatEmpty` | src/main/java/org/fastjax/sql/SQLFormat.java:43-81 | the empty input gives the empty output |
| `SqlIndent.UnmatchedClose` | src/main/java/org/fastjax/sql/SQLFormat.java:51-52 | a lone `)` is not rejected and gives a newline followed by `)` |
| `SqlIndent.PiecesAreLayoutAndToken` | src/main/java/org/fastjax/sql/SQLFormat.java:51-77 | everything inserted is nothing, a newline, or a newline and two spaces; each token comes out verbatim unless it is a dropped delimiter |
| `SqlIndent.WordBreaks` | src/main/java/org/fastjax/sql/SQLFormat.java:64-77 | a word comes out verbatim; a newline goes before it exactly when its reserved status differs from the previous word's (true before the first word); the padding is 2 spaces before a non-reserved word and none before a reserved one |
| `SqlIndent.CloseParenBreaks` | src/main/java/org/fastjax/sql/SQLFormat.java:51-52 | `)` is always emitted, after a newline padded to twice the current depth |
| `SqlIndent.CommaBreaks` | src/main/java/org/fastjax/sql/SQLFormat.java:53-57 | `,` is always followed by a newline padded to twice the depth; the comma itself is dropped exactly after a structural delimiter with no word between |
| `SqlIndent.DelimSuppression` | src/main/java/org/fastjax/sql/SQLFormat.java:53-63 | every delimiter other than `)`, whitespace included, is dropped exactly when a structural delimiter has come since the last word, and otherwise comes out verbatim |
| `SqlIndent.StripIsKept` | src/main/java/org/fastjax/sql/SQLFormat.java:50-77 | deleting the inserted layout from the output leaves the input tokens minus the dropped delimiters, in order |
| `SqlIndent.KeptWords` | src/main/java/org/fastjax/sql/SQLFormat.java:53-77 | dropping removes only delimiters: every word survives, in input order |
| `SqlIndent.FormatDecomposes` | src/main/java/org/fastjax/sql/SQLFormat.java:38-82 | `format(sql)` is its tokens' pieces joined; with the layout deleted, it is `sql` minus the dropped delimiters, and every word of `sql` is kept in order |
| `SqlIndent.NoStructuralKeepsAll` | src/main/java/org/fastjax/sql/SQLFormat.java:53-60 | without structural delimiters no token is dropped |
| `SqlIndent.StripRecoversInput` | src/main/java/org/fastjax/sql/SQLFormat.java:38-82 | for an input with no `(`, `)` or `,`, deleting the inserted layout from the output gives back the input exactly |
| `SqlFormat.Format` | src/main/java/org/fastjax/sql/SQLFormat.java:38-82 | the method's loop computes `Formatted(sql)`, the fold of `Step` over `Tokenize(sql)`, and the empty input gives the empty output |

## Left out

- `org.libj.sql.DelegateConnection`: every method forwards to a wrapped `java.sql.Connection`, so there is no logic to model.
- `Strings.padRight`: its library is not part of this model. `SqlIndent.Spaces` assumes that `padRight("", n)` is `n` spaces.
- `SqlReserved.Compare`: returns only the sign of `String.compareTo`, not the character or length difference, because `binarySearch` uses only the sign.
- `SqlReserved.Compare`: orders characters by Unicode scalar value, while Java orders UTF-16 code units. The two differ only for characters beyond U+FFFF against U+E000–U+FFFF, and the keyword test gives the same answer under either order.
- `SqlReserved.BinarySearch`: requires a sorted table. `Arrays.binarySearch` leaves the result undefined otherwise, and the table is proved sorted.
- Characters are Unicode scalar values rather than UTF-16 code units. All delimiters are ASCII, so the tokens are the same.
- The private constructor and the commented-out `prev` variable.
