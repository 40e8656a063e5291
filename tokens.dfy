/**
 * The tokenizer that SQLFormat.format builds over its input: a
 * StringTokenizer over the delimiters space, tab, newline, carriage return,
 * form feed, `(`, `)` and `,`, with the delimiters returned as tokens of
 * their own.
 */
module SqlTokens {

  /** The whitespace delimiters. */
  const Whitespace: string := " \t\n\r\U{C}"

  /** Every delimiter: the whitespace ones and the structural `(`, `)`, `,`. */
  const Delimiters: string := " \t\n\r\U{C}(),"

  predicate IsDelim(c: char) {
    c in Delimiters
  }

  predicate IsWhitespace(c: char) {
    c in Whitespace
  }

  /** A delimiter token: one delimiter character on its own. */
  predicate IsDelimToken(t: string) {
    |t| == 1 && IsDelim(t[0])
  }

  /** A word token: a non-empty run of characters none of which is a delimiter. */
  predicate IsWordToken(t: string) {
    |t| > 0 && forall k :: 0 <= k < |t| ==> !IsDelim(t[k])
  }

  /** A structural delimiter token: `(`, `)` or `,`. */
  predicate IsStructural(t: string) {
    IsDelimToken(t) && !IsWhitespace(t[0])
  }

  predicate WellFormed(t: string) {
    IsDelimToken(t) || IsWordToken(t)
  }

  /** Words are maximal runs: no two word tokens are adjacent. */
  predicate Maximal(ts: seq<string>) {
    forall i :: 0 <= i < |ts| - 1 ==> !(IsWordToken(ts[i]) && IsWordToken(ts[i + 1]))
  }

  /** The token texts joined in order. */
  function Concat(ts: seq<string>): string {
    if ts == [] then [] else ts[0] + Concat(ts[1..])
  }

  /** Length of the longest prefix of `s` free of delimiters. */
  function WordLen(s: string): (n: nat)
    ensures n <= |s|
    ensures forall k :: 0 <= k < n ==> !IsDelim(s[k])
    ensures n == |s| || IsDelim(s[n])
  {
    if s == [] || IsDelim(s[0]) then 0 else 1 + WordLen(s[1..])
  }

  /** The length of the maximal prefix is the only length with its two properties. */
  lemma WordLenUnique(s: string, n: nat)
    requires n <= |s|
    requires forall k :: 0 <= k < n ==> !IsDelim(s[k])
    requires n == |s| || IsDelim(s[n])
    ensures WordLen(s) == n
  {
  }

  /** Length of the first token of a non-empty input. */
  function TokenLen(s: string): (n: nat)
    requires s != []
    ensures 0 < n <= |s|
    ensures IsDelim(s[0]) ==> n == 1 && IsDelimToken(s[..n])
    ensures !IsDelim(s[0]) ==> IsWordToken(s[..n]) && (n == |s| || IsDelim(s[n]))
  {
    if IsDelim(s[0]) then 1 else WordLen(s)
  }

  /** The token sequence StringTokenizer(s, Delimiters, true) returns. */
  function Tokenize(s: string): (ts: seq<string>)
    decreases |s|
  {
    if s == [] then [] else [s[..TokenLen(s)]] + Tokenize(s[TokenLen(s)..])
  }

  /** Joining the tokens gives back the input. */
  lemma {:induction false} TokenizeJoins(s: string)
    ensures Concat(Tokenize(s)) == s
    decreases |s|
  {
    if s != [] {
      var n := TokenLen(s);
      TokenizeJoins(s[n..]);
      assert s[..n] + s[n..] == s;
    }
  }

  /**
   * Every token is a single delimiter or a non-empty run of non-delimiters,
   * and no two words are adjacent, so every run is maximal.
   */
  lemma {:induction false} TokenizeWellFormed(s: string)
    ensures forall i :: 0 <= i < |Tokenize(s)| ==> WellFormed(Tokenize(s)[i])
    ensures Maximal(Tokenize(s))
    decreases |s|
  {
    if s != [] {
      var n := TokenLen(s);
      var rest := Tokenize(s[n..]);
      TokenizeWellFormed(s[n..]);
      assert Tokenize(s) == [s[..n]] + rest;
      if rest != [] && IsWordToken(s[..n]) {
        assert IsDelim(s[n..][0]);
        assert rest[0] == s[n..][..1];
      }
    }
  }

  /** The tokenizer's whole contract. */
  lemma TokenizeSpec(s: string)
    ensures Concat(Tokenize(s)) == s
    ensures forall i :: 0 <= i < |Tokenize(s)| ==> WellFormed(Tokenize(s)[i])
    ensures Maximal(Tokenize(s))
    ensures s == [] <==> Tokenize(s) == []
  {
    TokenizeJoins(s);
    TokenizeWellFormed(s);
  }

  /** The tail of a well-formed, maximal token sequence is one too. */
  lemma TailTokens(ts: seq<string>)
    requires ts != []
    requires forall i :: 0 <= i < |ts| ==> WellFormed(ts[i])
    requires Maximal(ts)
    ensures forall i :: 0 <= i < |ts[1..]| ==> WellFormed(ts[1..][i])
    ensures Maximal(ts[1..])
  {
    forall i | 0 <= i < |ts[1..]| - 1
      ensures !(IsWordToken(ts[1..][i]) && IsWordToken(ts[1..][i + 1]))
    {
      assert ts[1..][i] == ts[i + 1] && ts[1..][i + 1] == ts[i + 2];
    }
  }

  /** In such a sequence the first token has the length the tokenizer scans. */
  lemma FirstTokenLen(s: string, ts: seq<string>)
    requires ts != [] && Concat(ts) == s
    requires forall i :: 0 <= i < |ts| ==> WellFormed(ts[i])
    requires Maximal(ts)
    ensures s != [] && |ts[0]| <= |s| && s[..|ts[0]|] == ts[0] && s[|ts[0]|..] == Concat(ts[1..])
    ensures TokenLen(s) == |ts[0]|
  {
    var t := ts[0];
    assert WellFormed(ts[0]);
    assert s == t + Concat(ts[1..]);
    assert s[..|t|] == t;
    if !IsDelimToken(t) {
      assert !IsDelim(s[0]);
      if |ts| > 1 {
        assert WellFormed(ts[1]);
        assert !IsWordToken(ts[1]);
        assert Concat(ts[1..]) == ts[1] + Concat(ts[2..]);
        assert s[|t|] == ts[1][0];
      }
      WordLenUnique(s, |t|);
    }
  }

  /**
   * The tokenization is determined by its three properties: any sequence of
   * well-formed tokens with no two adjacent words that joins up to `s` is
   * exactly Tokenize(s).
   */
  lemma {:induction false} TokenizeUnique(s: string, ts: seq<string>)
    requires Concat(ts) == s
    requires forall i :: 0 <= i < |ts| ==> WellFormed(ts[i])
    requires Maximal(ts)
    ensures ts == Tokenize(s)
    decreases |ts|
  {
    if ts != [] {
      FirstTokenLen(s, ts);
      assert s != [];
      TailTokens(ts);
      TokenizeUnique(s[|ts[0]|..], ts[1..]);
      assert ts == [ts[0]] + ts[1..];
    }
  }

  /** The tokens from `pos` on are the token scanned at `pos` followed by the tokens after it. */
  lemma TokenizeFrom(s: string, pos: nat, next: nat)
    requires pos < |s| && next == pos + TokenLen(s[pos..])
    ensures Tokenize(s[pos..]) == [s[pos..next]] + Tokenize(s[next..])
  {
    assert s[pos..][next - pos..] == s[next..];
    assert s[pos..][..next - pos] == s[pos..next];
  }

  /** Consuming the token at `pos` keeps the tokens seen so far and the tokens still to come adding up to Tokenize(s). */
  lemma TokenizeAdvance(s: string, done: seq<string>, pos: nat, next: nat)
    requires pos < |s| && next == pos + TokenLen(s[pos..])
    requires Tokenize(s) == done + Tokenize(s[pos..])
    ensures Tokenize(s) == (done + [s[pos..next]]) + Tokenize(s[next..])
  {
    TokenizeFrom(s, pos, next);
  }

  /**
   * One call of nextToken: scans the token that starts at `pos` and returns it
   * with the position just past it.
   */
  method NextToken(s: string, pos: nat) returns (tok: string, next: nat)
    requires pos < |s|
    ensures pos < next <= |s|
    ensures next == pos + TokenLen(s[pos..])
    ensures tok == s[pos..next]
  {
    next := pos;
    if IsDelim(s[pos]) {
      next := pos + 1;
    } else {
      while next < |s| && !IsDelim(s[next])
        invariant pos <= next <= |s|
        invariant forall k :: pos <= k < next ==> !IsDelim(s[k])
      {
        next := next + 1;
      }
      WordLenUnique(s[pos..], next - pos);
    }
    tok := s[pos..next];
  }
}
