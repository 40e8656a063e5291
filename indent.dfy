/**
 * The indentation engine of SQLFormat.format as a left fold over the token
 * sequence, with the properties of its output.
 *
 * Each token appends one Piece to the output: optional layout before it
 * (`lead`), the token's own text or nothing when it is suppressed (`text`),
 * and optional layout after it (`trail`).
 */
module SqlIndent {
  import opened SqlTokens
  import opened SqlReserved

  /** Strings.padRight("", n): `n` spaces. */
  function Spaces(n: nat): (r: string)
    ensures |r| == n
    ensures forall k :: 0 <= k < |r| ==> r[k] == ' '
  {
    if n == 0 then "" else " " + Spaces(n - 1)
  }

  /** A line break followed by the padding for `depth`. */
  function Break(depth: nat): string {
    "\n" + Spaces(depth * 2)
  }

  /** The four local variables of `format`. */
  datatype State = State(depth: int, out: string, lastReserved: bool, lastDelimNonWS: bool)

  /** Their values before the first token. */
  const Start: State := State(0, "", true, false)

  /** The depth is 0 after a reserved word (or before any word) and 1 after any other word. */
  predicate Inv(st: State) {
    st.depth == if st.lastReserved then 0 else 1
  }

  /** What one token appends to the output. */
  datatype Piece = Piece(lead: string, text: string, trail: string) {
    function Joined(): string {
      lead + text + trail
    }
  }

  /** The piece appended for token `t` in state `st`. */
  function Emit(st: State, t: string): Piece
    requires Inv(st)
  {
    if IsDelimToken(t) then
      var c := t[0];
      Piece(if c == ')' then Break(st.depth) else "",
            if c == ')' || !st.lastDelimNonWS then t else "",
            if c == ',' then Break(st.depth) else "")
    else
      var reserved := IsReserved(t);
      var lead :=
        if reserved && !st.lastReserved then "\n"
        else if !reserved && st.lastReserved then Break(st.depth + 1)
        else "";
      Piece(lead, t, "")
  }

  /** One iteration of the loop of `format`. */
  function Step(st: State, t: string): (r: State)
    requires Inv(st)
    ensures Inv(r)
    ensures IsDelimToken(t) ==> r.depth == st.depth && r.lastReserved == st.lastReserved
    ensures !IsDelimToken(t) ==> r.lastReserved == IsReserved(t) && !r.lastDelimNonWS
  {
    if IsDelimToken(t) then
      // a delimiter token is one character long, so comparing it with ")" or "," compares that character
      var c := t[0];
      var out :=
        if c == ')' then st.out + (Break(st.depth) + t)
        else if !st.lastDelimNonWS then st.out + t
        else st.out;
      var out := if c == ',' then out + Break(st.depth) else out;
      State(st.depth, out, st.lastReserved, if IsWhitespace(c) then st.lastDelimNonWS else true)
    else
      var reserved := IsReserved(t);
      var (depth, out) :=
        if reserved && !st.lastReserved then (st.depth - 1, st.out + "\n")
        else if !reserved && st.lastReserved then (st.depth + 1, st.out + Break(st.depth + 1))
        else (st.depth, st.out);
      State(depth, out + t, reserved, false)
  }

  /** Each step appends exactly the piece Emit describes. */
  lemma StepAppends(st: State, t: string)
    requires Inv(st)
    ensures Step(st, t).out == st.out + Emit(st, t).Joined()
  {
    if IsDelimToken(t) {
      DelimAppends(st, t);
    } else {
      WordAppends(st, t);
    }
  }

  /** StepAppends for a delimiter token. */
  lemma DelimAppends(st: State, t: string)
    requires Inv(st) && IsDelimToken(t)
    ensures Step(st, t).out == st.out + Emit(st, t).Joined()
  {
    var e := Emit(st, t);
    if t[0] == ')' {
      assert e.Joined() == Break(st.depth) + t;
    } else {
      assert e.Joined() == e.text + e.trail;
    }
  }

  /** StepAppends for a word token. */
  lemma WordAppends(st: State, t: string)
    requires Inv(st) && !IsDelimToken(t)
    ensures Step(st, t).out == st.out + Emit(st, t).Joined()
  {
    var e := Emit(st, t);
    assert e.text == t && e.trail == "";
  }

  /** The state after the tokens `ts`, from Start. */
  function Run(ts: seq<string>): (st: State)
    ensures Inv(st)
    decreases |ts|
  {
    if ts == [] then Start else Step(Run(ts[..|ts| - 1]), ts[|ts| - 1])
  }

  /** Run takes one more Step per token. */
  lemma RunSnoc(done: seq<string>, t: string)
    ensures Run(done + [t]) == Step(Run(done), t)
  {
    assert (done + [t])[..|done|] == done;
  }

  /** The result of format(sql). */
  function Formatted(sql: string): string {
    Run(Tokenize(sql)).out
  }

  /** The piece each token of `ts` appends, in order. */
  function Trace(ts: seq<string>): (ps: seq<Piece>)
    ensures |ps| == |ts|
    decreases |ts|
  {
    if ts == [] then [] else
      var p := ts[..|ts| - 1];
      Trace(p) + [Emit(Run(p), ts[|ts| - 1])]
  }

  /** The pieces joined in order. */
  function Flatten(ps: seq<Piece>): string {
    if ps == [] then "" else Flatten(ps[..|ps| - 1]) + ps[|ps| - 1].Joined()
  }

  /** The pieces' texts alone: the output with the inserted layout deleted. */
  function Strip(ps: seq<Piece>): string {
    if ps == [] then "" else Strip(ps[..|ps| - 1]) + ps[|ps| - 1].text
  }

  // ---------------------------------------------------------------------
  // Characterisations of the flags by the tokens seen so far

  /** No word has been seen in `ts`, or the last word seen is reserved. */
  ghost predicate PrevReserved(ts: seq<string>) {
    forall j :: 0 <= j < |ts| && !IsDelimToken(ts[j]) && (forall k :: j < k < |ts| ==> IsDelimToken(ts[k]))
      ==> IsReserved(ts[j])
  }

  /** A structural delimiter occurs in `ts` after its last word. */
  ghost predicate AfterStructural(ts: seq<string>) {
    exists j :: 0 <= j < |ts| && IsStructural(ts[j]) && forall k :: j < k < |ts| ==> IsDelimToken(ts[k])
  }

  /** How PrevReserved changes when one token is appended. */
  lemma PrevReservedSnoc(p: seq<string>, t: string)
    ensures IsDelimToken(t) ==> (PrevReserved(p + [t]) <==> PrevReserved(p))
    ensures !IsDelimToken(t) ==> (PrevReserved(p + [t]) <==> IsReserved(t))
  {
    var ts := p + [t];
    assert forall k :: 0 <= k < |p| ==> ts[k] == p[k];
    if IsDelimToken(t) {
      if PrevReserved(p) {
        forall j | 0 <= j < |ts| && !IsDelimToken(ts[j]) && (forall k :: j < k < |ts| ==> IsDelimToken(ts[k]))
          ensures IsReserved(ts[j])
        {
          assert j < |p|;
          assert forall k :: j < k < |p| ==> IsDelimToken(ts[k]);
        }
      }
      if PrevReserved(ts) {
        forall j | 0 <= j < |p| && !IsDelimToken(p[j]) && (forall k :: j < k < |p| ==> IsDelimToken(p[k]))
          ensures IsReserved(p[j])
        {
          assert forall k :: j < k < |ts| ==> IsDelimToken(ts[k]) by {
            forall k | j < k < |ts| ensures IsDelimToken(ts[k]) {
              if k < |p| { assert ts[k] == p[k]; }
            }
          }
        }
      }
    } else {
      assert ts[|p|] == t && !IsDelimToken(ts[|p|]);
    }
  }

  /** How AfterStructural changes when one token is appended. */
  lemma AfterStructuralSnoc(p: seq<string>, t: string)
    ensures !IsDelimToken(t) ==> !AfterStructural(p + [t])
    ensures IsStructural(t) ==> AfterStructural(p + [t])
    ensures IsDelimToken(t) && !IsStructural(t) ==> (AfterStructural(p + [t]) <==> AfterStructural(p))
  {
    var ts := p + [t];
    assert forall k :: 0 <= k < |p| ==> ts[k] == p[k];
    assert ts[|p|] == t;
    if !IsDelimToken(t) {
      assert !IsDelimToken(ts[|p|]) && !IsStructural(ts[|p|]);
    } else if IsStructural(t) {
      assert IsStructural(ts[|p|]);
    } else {
      if AfterStructural(ts) {
        var j :| 0 <= j < |ts| && IsStructural(ts[j]) && forall k :: j < k < |ts| ==> IsDelimToken(ts[k]);
        assert j < |p|;
        assert IsStructural(p[j]) && forall k :: j < k < |p| ==> IsDelimToken(p[k]);
      }
      if AfterStructural(p) {
        var j :| 0 <= j < |p| && IsStructural(p[j]) && forall k :: j < k < |p| ==> IsDelimToken(p[k]);
        assert IsStructural(ts[j]);
        assert forall k :: j < k < |ts| ==> IsDelimToken(ts[k]) by {
          forall k | j < k < |ts| ensures IsDelimToken(ts[k]) {
            if k < |p| { assert ts[k] == p[k]; }
          }
        }
      }
    }
  }

  /**
   * The engine's flags mean what their names say: `lastReserved` is whether
   * the last word was reserved (true before any word), `lastDelimNonWS`
   * whether a structural delimiter has come since the last word, and the
   * depth is 0 or 1 accordingly.
   */
  lemma {:induction false} RunFlags(ts: seq<string>)
    ensures Run(ts).lastReserved == PrevReserved(ts)
    ensures Run(ts).lastDelimNonWS == AfterStructural(ts)
    ensures Run(ts).depth == if PrevReserved(ts) then 0 else 1
    decreases |ts|
  {
    if ts != [] {
      var p, t := ts[..|ts| - 1], ts[|ts| - 1];
      assert ts == p + [t];
      RunFlags(p);
      PrevReservedSnoc(p, t);
      AfterStructuralSnoc(p, t);
    }
  }

  // ---------------------------------------------------------------------
  // The output as a sequence of pieces

  /** The piece of token `i` is the one Emit gives in the state before it. */
  lemma {:induction false} TraceAt(ts: seq<string>, i: nat)
    requires i < |ts|
    ensures Trace(ts)[i] == Emit(Run(ts[..i]), ts[i])
    decreases |ts|
  {
    var p := ts[..|ts| - 1];
    if i < |p| {
      TraceAt(p, i);
      assert p[..i] == ts[..i];
    } else {
      assert p == ts[..i];
    }
  }

  /** The output is the pieces of the tokens joined in order. */
  lemma {:induction false} RunOutIsTrace(ts: seq<string>)
    ensures Run(ts).out == Flatten(Trace(ts))
    decreases |ts|
  {
    if ts != [] {
      var p := ts[..|ts| - 1];
      RunOutIsTrace(p);
      StepAppends(Run(p), ts[|ts| - 1]);
      assert Trace(ts)[..|ts| - 1] == Trace(p);
    }
  }

  /** `format` of the empty string is the empty string. */
  lemma FormatEmpty()
    ensures Formatted("") == ""
  {
    assert Tokenize("") == [];
  }

  /** An unmatched `)` is not rejected: it comes out on a line of its own. */
  lemma UnmatchedClose()
    ensures Formatted(")") == "\n)"
  {
    assert IsDelim(')');
    TokenizeUnique(")", [")"]);
    RunSnoc([], ")");
    assert Spaces(0) == "";
  }

  /** Layout the engine inserts: nothing, or a newline with 0 or 2 spaces of padding. */
  predicate IsLayout(s: string) {
    s == "" || s == "\n" || s == "\n  "
  }

  /**
   * Every inserted indent is a newline followed by 0 or 2 spaces, and
   * the token's own text is kept unless it is a suppressed delimiter.
   */
  lemma PiecesAreLayoutAndToken(ts: seq<string>, i: nat)
    requires i < |ts|
    ensures IsLayout(Trace(ts)[i].lead) && IsLayout(Trace(ts)[i].trail)
    ensures Trace(ts)[i].text == ts[i] || (Trace(ts)[i].text == "" && IsDelimToken(ts[i]))
  {
    TraceAt(ts, i);
    EmitShape(Run(ts[..i]), ts[i]);
  }

  /** PiecesAreLayoutAndToken for a single piece. */
  lemma EmitShape(st: State, t: string)
    requires Inv(st)
    ensures IsLayout(Emit(st, t).lead) && IsLayout(Emit(st, t).trail)
    ensures Emit(st, t).text == t || (Emit(st, t).text == "" && IsDelimToken(t))
  {
    var e := Emit(st, t);
    BreakIsLayout(st.depth);
    if IsDelimToken(t) {
      assert e.lead == "" || e.lead == Break(st.depth);
      assert e.trail == "" || e.trail == Break(st.depth);
    } else if st.lastReserved {
      BreakIsLayout(st.depth + 1);
      assert e.lead == "" || e.lead == Break(st.depth + 1);
    } else {
      assert e.lead == "" || e.lead == "\n";
    }
  }

  /** The breaks for depth 0 and 1 are layout. */
  lemma BreakIsLayout(depth: int)
    requires 0 <= depth <= 1
    ensures IsLayout(Break(depth))
  {
    assert Spaces(0) == "" && Spaces(2) == "  ";
  }

  /**
   * A word is copied verbatim; a newline is inserted before it exactly when
   * its reserved status differs from that of the previous word (the first
   * word is compared with "reserved"), with 2 spaces of padding when it is
   * not reserved and none when it is.
   */
  lemma WordBreaks(ts: seq<string>, i: nat)
    requires i < |ts| && !IsDelimToken(ts[i])
    ensures Trace(ts)[i].text == ts[i] && Trace(ts)[i].trail == ""
    ensures Trace(ts)[i].lead != "" <==> IsReserved(ts[i]) != PrevReserved(ts[..i])
    ensures Trace(ts)[i].lead != "" ==> Trace(ts)[i].lead == if IsReserved(ts[i]) then "\n" else "\n  "
  {
    TraceAt(ts, i);
    RunFlags(ts[..i]);
    assert Spaces(2) == "  ";
  }

  /**
   * `)` is never suppressed: it always comes out on a new line, padded by
   * twice the depth.
   */
  lemma CloseParenBreaks(ts: seq<string>, i: nat)
    requires i < |ts| && ts[i] == ")"
    ensures Trace(ts)[i] == Piece(if PrevReserved(ts[..i]) then "\n" else "\n  ", ")", "")
  {
    TraceAt(ts, i);
    RunFlags(ts[..i]);
    assert Spaces(0) == "" && Spaces(2) == "  ";
  }

  /**
   * `,` is always followed by a newline padded by twice the depth, even when
   * the comma itself is suppressed after a structural delimiter.
   */
  lemma CommaBreaks(ts: seq<string>, i: nat)
    requires i < |ts| && ts[i] == ","
    ensures Trace(ts)[i] == Piece("", if AfterStructural(ts[..i]) then "" else ",",
                                  if PrevReserved(ts[..i]) then "\n" else "\n  ")
  {
    TraceAt(ts, i);
    RunFlags(ts[..i]);
    assert Spaces(0) == "" && Spaces(2) == "  ";
  }

  /**
   * Every delimiter other than `)`, whitespace included, is dropped exactly
   * when a structural delimiter has come since the last word.
   */
  lemma DelimSuppression(ts: seq<string>, i: nat)
    requires i < |ts| && IsDelimToken(ts[i]) && ts[i] != ")"
    ensures Trace(ts)[i].text == "" <==> AfterStructural(ts[..i])
    ensures Trace(ts)[i].text != "" ==> Trace(ts)[i].text == ts[i]
    ensures ts[i] != "," ==> Trace(ts)[i].lead == "" && Trace(ts)[i].trail == ""
  {
    TraceAt(ts, i);
    RunFlags(ts[..i]);
  }

  /** A delimiter other than `)` that comes after a structural delimiter with no word between. */
  ghost predicate Dropped(p: seq<string>, t: string) {
    IsDelimToken(t) && t != ")" && AfterStructural(p)
  }

  /** The tokens of `ts` that are not dropped, in order. */
  ghost function Kept(ts: seq<string>): seq<string>
    decreases |ts|
  {
    if ts == [] then [] else
      var p, t := ts[..|ts| - 1], ts[|ts| - 1];
      Kept(p) + if Dropped(p, t) then [] else [t]
  }

  /** The word tokens of `ts`, in order. */
  function Words(ts: seq<string>): seq<string> {
    if ts == [] then [] else
      var p, t := ts[..|ts| - 1], ts[|ts| - 1];
      Words(p) + if IsDelimToken(t) then [] else [t]
  }

  /** Joining the tokens from the left gives the same text as Concat. */
  lemma {:induction false} ConcatSnoc(p: seq<string>, t: string)
    ensures Concat(p + [t]) == Concat(p) + t
    decreases |p|
  {
    if p != [] {
      assert (p + [t])[1..] == p[1..] + [t];
      ConcatSnoc(p[1..], t);
    } else {
      assert Concat([t]) == t + Concat([]);
    }
  }

  /**
   * Deleting the inserted layout from the output leaves the input tokens
   * with the dropped delimiters removed.
   */
  lemma {:induction false} StripIsKept(ts: seq<string>)
    ensures Strip(Trace(ts)) == Concat(Kept(ts))
    decreases |ts|
  {
    if ts != [] {
      var p, t := ts[..|ts| - 1], ts[|ts| - 1];
      StripIsKept(p);
      assert Trace(ts)[..|ts| - 1] == Trace(p);
      TraceAt(ts, |ts| - 1);
      RunFlags(p);
      ConcatSnoc(Kept(p), t);
      assert Kept(p) + [] == Kept(p);
    }
  }

  /** Every word survives, in input order: dropping only ever removes delimiters. */
  lemma {:induction false} KeptWords(ts: seq<string>)
    ensures Words(Kept(ts)) == Words(ts)
    decreases |ts|
  {
    if ts != [] {
      var p, t := ts[..|ts| - 1], ts[|ts| - 1];
      KeptWords(p);
      var k := Kept(p);
      if !Dropped(p, t) {
        assert (k + [t])[..|k + [t]| - 1] == k;
      } else {
        assert k + [] == k;
      }
    }
  }

  /**
   * The whole of format(sql): its output is the pieces of the tokens of
   * `sql` joined in order; with the layout deleted it is `sql` less the
   * dropped delimiters; and every word of `sql` survives in order.
   */
  lemma FormatDecomposes(sql: string)
    ensures Formatted(sql) == Flatten(Trace(Tokenize(sql)))
    ensures Strip(Trace(Tokenize(sql))) == Concat(Kept(Tokenize(sql)))
    ensures Words(Kept(Tokenize(sql))) == Words(Tokenize(sql))
  {
    RunOutIsTrace(Tokenize(sql));
    StripIsKept(Tokenize(sql));
    KeptWords(Tokenize(sql));
  }

  /** With no structural delimiter in the input nothing is dropped: deleting the layout gives back `sql`. */
  lemma {:induction false} NoStructuralKeepsAll(ts: seq<string>)
    requires forall i :: 0 <= i < |ts| ==> !IsStructural(ts[i])
    ensures Kept(ts) == ts
    decreases |ts|
  {
    if ts != [] {
      var p := ts[..|ts| - 1];
      NoStructuralKeepsAll(p);
      assert !AfterStructural(p);
    }
  }

  /** Deleting the layout recovers an input that holds none of `(`, `)`, `,`. */
  lemma StripRecoversInput(sql: string)
    requires forall c :: c in sql ==> c !in "(),"
    ensures Strip(Trace(Tokenize(sql))) == sql
  {
    var ts := Tokenize(sql);
    TokenizeSpec(sql);
    forall i | 0 <= i < |ts| ensures !IsStructural(ts[i]) {
      assert WellFormed(ts[i]);
      ConcatHas(ts, i);
    }
    NoStructuralKeepsAll(ts);
    StripIsKept(ts);
  }

  /** Every character of a token occurs in the joined text. */
  lemma {:induction false} ConcatHas(ts: seq<string>, i: nat)
    requires i < |ts| && ts[i] != []
    ensures ts[i][0] in Concat(ts)
    decreases |ts|
  {
    if i == 0 {
      assert Concat(ts)[0] == ts[0][0];
    } else {
      ConcatHas(ts[1..], i - 1);
      assert ts[1..][i - 1] == ts[i];
      assert Concat(ts) == ts[0] + Concat(ts[1..]);
    }
  }
}
