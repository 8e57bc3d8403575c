/** `refine_query`: the fixed instruction prompt around the user's text, and
    the clean-up of the language model's reply. The model call itself is a
    parameter: a function from prompt to reply, `None` when the service fails. */
module Refiner {
  import opened Wrappers
  import opened Text

  /** The f-string of `refine_query`, up to and after the embedded query. */
  const PromptHead: string :=
    "\n        Refine the query.\n        Do not add ideas.\n        Do not guess.\n        Output only refined text.\n\n        Input:\n        \""
  const PromptTail: string := "\"\n\n        Refined:\n        "

  function Prompt(q: string): string {
    PromptHead + q + PromptTail
  }

  /** The query stands verbatim inside the prompt, right after the fixed head. */
  lemma PromptEmbedsQuery(q: string)
    ensures OccursAt(Prompt(q), q, |PromptHead|)
    ensures Contains(Prompt(q), q)
  {
    assert Prompt(q)[|PromptHead|..|PromptHead| + |q|] == q;
    ContainsAt(Prompt(q), q, |PromptHead|);
  }

  /** Different queries give different prompts: nothing of the query is lost. */
  lemma PromptInjective(q1: string, q2: string)
    requires Prompt(q1) == Prompt(q2)
    ensures q1 == q2
  {
    assert |q1| == |q2|;
    assert q1 == Prompt(q1)[|PromptHead|..|PromptHead| + |q1|];
  }

  const DoubleQuote: set<char> := {'"'}
  const SingleQuote: set<char> := {'\''}

  /** `r.content.strip().strip('"').strip("'")`. */
  function CleanReply(reply: string): string {
    StripIn(StripIn(Strip(reply), DoubleQuote), SingleQuote)
  }

  /** Stripping twice is stripping once with both character sets, at
      composed positions. */
  lemma StrippedCompose(s: string, cs: set<char>, r: string, i: int, j: int,
                        ds: set<char>, r2: string, i2: int, j2: int)
    requires StrippedAt(s, cs, r, i, j)
    requires StrippedAt(r, ds, r2, i2, j2)
    ensures StrippedAt(s, cs + ds, r2, i + i2, i + j2)
  {
    assert 0 <= i2 <= j2 <= j - i;
    assert forall k :: 0 <= k < j2 - i2 ==> r2[k] == s[i + i2 + k];
    assert r2 == s[i + i2..i + j2];
    forall k | 0 <= k < i + i2 ensures s[k] in cs + ds {
      if k >= i { assert s[k] == r[k - i]; }
    }
    forall k | i + j2 <= k < |s| ensures s[k] in cs + ds {
      if k < j { assert s[k] == r[k - i]; }
    }
  }

  /** Stripping a piece that was itself stripped out of `s`. */
  lemma {:induction false} ThenStrip(s: string, cs: set<char>, r: string, i: int, j: int, ds: set<char>)
    requires StrippedAt(s, cs, r, i, j)
    ensures StrippedAt(s, cs + ds, StripIn(r, ds), i + LeadIn(r, ds), i + |r| - TrailIn(r[LeadIn(r, ds)..], ds))
  {
    StripInShape(r, ds);
    StrippedCompose(s, cs, r, i, j, ds, StripIn(r, ds), LeadIn(r, ds), |r| - TrailIn(r[LeadIn(r, ds)..], ds));
  }

  /** Three strips in a row remove a prefix and a suffix drawn from the
      three character sets, and leave no character of the last set at either end. */
  lemma {:induction false} StripThrice(s: string, a: set<char>, b: set<char>, c: set<char>)
    ensures exists i, j :: StrippedAt(s, a + b + c, StripIn(StripIn(StripIn(s, a), b), c), i, j)
    ensures var r := StripIn(StripIn(StripIn(s, a), b), c); r == [] || (r[0] !in c && r[|r| - 1] !in c)
  {
    var s1 := StripIn(s, a);
    var s2 := StripIn(s1, b);
    StripInShape(s, a);
    var i1, j1 := LeadIn(s, a), |s| - TrailIn(s[LeadIn(s, a)..], a);
    ThenStrip(s, a, s1, i1, j1, b);
    var i2 := i1 + LeadIn(s1, b);
    var j2 := i1 + |s1| - TrailIn(s1[LeadIn(s1, b)..], b);
    ThenStrip(s, a + b, s2, i2, j2, c);
    StripInShape(s2, c);
  }

  /** The cleaned reply is a contiguous piece of the reply, obtained by
      removing a prefix and a suffix made only of whitespace and quote
      characters, and it neither begins nor ends with an apostrophe. */
  lemma CleanReplyShape(reply: string)
    ensures exists i, j :: StrippedAt(reply, Whitespace + DoubleQuote + SingleQuote, CleanReply(reply), i, j)
    ensures var r := CleanReply(reply); r == [] || (r[0] != '\'' && r[|r| - 1] != '\'')
  {
    StripThrice(reply, Whitespace, DoubleQuote, SingleQuote);
    var r := StripIn(StripIn(StripIn(reply, Whitespace), DoubleQuote), SingleQuote);
    assert CleanReply(reply) == r;
    var i, j :| StrippedAt(reply, Whitespace + DoubleQuote + SingleQuote, r, i, j);
  }

  /** Every surrounding double quote goes, not just one layer. */
  lemma CleanReplyStripsAllQuotes()
    ensures CleanReply("\"\"up\"\"") == "up"
  {
    var a := "\"\"up\"\"";
    StripInKeeps(a, Whitespace);
    assert a[1..][1..] == "up\"\"";
    assert LeadIn(a, DoubleQuote) == 2;
    var b := a[2..];
    assert b[..|b| - 1][..|b| - 2] == "up";
    assert TrailIn(b, DoubleQuote) == 2;
    assert StripIn(a, DoubleQuote) == "up";
    StripInKeeps("up", SingleQuote);
  }

  /** Apostrophes are stripped after double quotes, so double quotes inside
      a layer of apostrophes stay. */
  lemma CleanReplyQuoteOrder()
    ensures CleanReply("'\"up\"'") == "\"up\""
  {
    var c := "'\"up\"'";
    StripInKeeps(c, Whitespace);
    StripInKeeps(c, DoubleQuote);
    assert c[1..] == "\"up\"'";
    assert LeadIn(c, SingleQuote) == 1;
    var d := c[1..];
    assert d[..|d| - 1] == "\"up\"";
    assert TrailIn(d, SingleQuote) == 1;
  }

  /** `refine_query(q)`: `None` when the model service fails, which the
      handler does not catch. */
  function RefineQuery(q: string, llm: string -> Option<string>): Option<string> {
    match llm(Prompt(q))
    case None => None
    case Some(reply) => Some(CleanReply(reply))
  }

  /** The outcome of `refine_query`: it fails exactly when the model call
      fails, and otherwise returns the cleaned reply, which is the reply with
      a prefix and a suffix of whitespace and quote characters removed. */
  lemma RefineQueryOutcome(q: string, llm: string -> Option<string>)
    ensures RefineQuery(q, llm).None? <==> llm(Prompt(q)).None?
    ensures llm(Prompt(q)).Some? ==> RefineQuery(q, llm) == Some(CleanReply(llm(Prompt(q)).value))
    ensures RefineQuery(q, llm).Some? ==>
      exists i, j :: StrippedAt(llm(Prompt(q)).value, Whitespace + DoubleQuote + SingleQuote, RefineQuery(q, llm).value, i, j)
  {
    if llm(Prompt(q)).Some? {
      CleanReplyShape(llm(Prompt(q)).value);
    }
  }
}
