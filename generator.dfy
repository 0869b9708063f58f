/** The prompt template of the baseline generator (baseline/generator/generator.py). */
module Generator {
  import Text

  /** The two fixed instruction sentences that open every prompt, each ending in a newline. */
  const Preamble: string :=
    "You are an expert assistant that only answers questions about countries if the relevant information is available in the given context.\n"
    + "Answer strictly based on the context provided. Only mention countries that are explicitly asked about in the question.\n"

  const ContextHeader: string := "Context:\n"
  const QuestionHeader: string := "\n\nQuestion:\n"

  /** `build_prompt`: the preamble, the context chunks joined by single newlines, then the
      question, closed by a blank line. */
  function BuildPrompt(context: seq<string>, question: string): (prompt: string)
    ensures Preamble + ContextHeader <= prompt
    ensures |prompt| >= |question| + |QuestionHeader| + 2
    ensures prompt[|prompt| - 2..] == "\n\n"
    ensures prompt[|prompt| - 2 - |question|..|prompt| - 2] == question
    ensures prompt[|prompt| - 2 - |question| - |QuestionHeader|..|prompt| - 2 - |question|] == QuestionHeader
  {
    var combined := Text.Join("\n", context);
    var prompt := Preamble + ContextHeader + combined + QuestionHeader + question + "\n\n";
    assert prompt == (Preamble + ContextHeader + combined) + QuestionHeader + question + "\n\n";
    prompt
  }

  /** The text between the context header and the question header of a prompt built for
      `question`. */
  function ContextSection(prompt: string, question: string): string
    requires |Preamble + ContextHeader| + |QuestionHeader| + |question| + 2 <= |prompt|
  {
    prompt[|Preamble + ContextHeader|..|prompt| - 2 - |question| - |QuestionHeader|]
  }

  /** Python's `s.split("\n")`: the pieces between newlines, in order; at least one piece. */
  function SplitLines(s: string): (parts: seq<string>)
    ensures |parts| >= 1
    ensures forall j :: 0 <= j < |parts| ==> '\n' !in parts[j]
  {
    if s == [] then [""]
    else if s[0] == '\n' then [""] + SplitLines(s[1..])
    else
      var rest := SplitLines(s[1..]);
      [[s[0]] + rest[0]] + rest[1..]
  }

  /** The section between the headers is exactly the newline-joined context. */
  lemma ContextSectionOfPrompt(context: seq<string>, question: string)
    ensures |Preamble + ContextHeader| + |QuestionHeader| + |question| + 2 <= |BuildPrompt(context, question)|
    ensures ContextSection(BuildPrompt(context, question), question) == Text.Join("\n", context)
  {
    var combined := Text.Join("\n", context);
    var prompt := BuildPrompt(context, question);
    assert prompt == (Preamble + ContextHeader) + combined + (QuestionHeader + question + "\n\n");
  }

  /** An empty context leaves an empty section: "Context:\n" is followed by a blank line and
      then the question header. */
  lemma EmptyContextPrompt(question: string)
    ensures BuildPrompt([], question) == Preamble + "Context:\n\n\nQuestion:\n" + question + "\n\n"
  {
  }

  lemma {:induction false} SplitNewlineFree(a: string, t: string)
    requires '\n' !in a
    ensures SplitLines(a + t) == [a + SplitLines(t)[0]] + SplitLines(t)[1..]
  {
    if a != [] {
      assert a[0] in a;
      assert (a + t)[0] == a[0] && (a + t)[1..] == a[1..] + t;
      SplitNewlineFree(a[1..], t);
      var rest := SplitLines(a[1..] + t);
      assert rest[0] == a[1..] + SplitLines(t)[0] && rest[1..] == SplitLines(t)[1..];
      assert [a[0]] + (a[1..] + SplitLines(t)[0]) == a + SplitLines(t)[0];
    } else {
      assert a + t == t && a + SplitLines(t)[0] == SplitLines(t)[0];
      assert SplitLines(t) == [SplitLines(t)[0]] + SplitLines(t)[1..];
    }
  }

  /** Splitting the joined context on newlines gives the chunks back, in order, when no
      chunk holds a newline; an empty context splits back to one empty piece. */
  lemma {:induction false} SplitJoin(context: seq<string>)
    requires forall j :: 0 <= j < |context| ==> '\n' !in context[j]
    ensures SplitLines(Text.Join("\n", context)) == if context == [] then [""] else context
  {
    if |context| == 1 {
      SplitNewlineFree(context[0], "");
      assert context[0] + "" == context[0];
    } else if |context| > 1 {
      var rest := Text.Join("\n", context[1..]);
      SplitJoin(context[1..]);
      SplitNewlineFree(context[0], "\n" + rest);
      assert (context[0] + "\n") + rest == context[0] + ("\n" + rest);
      assert ("\n" + rest)[1..] == rest;
      assert SplitLines("\n" + rest) == [""] + context[1..];
      assert context[0] + "" == context[0];
      assert [context[0]] + context[1..] == context;
    }
  }

  /** Joining the pieces of a split with newlines restores the text. */
  lemma {:induction false} JoinSplit(s: string)
    ensures Text.Join("\n", SplitLines(s)) == s
  {
    if s != [] {
      var rest := SplitLines(s[1..]);
      JoinSplit(s[1..]);
      if s[0] == '\n' {
        assert s == "\n" + s[1..];
      } else {
        var parts := [[s[0]] + rest[0]] + rest[1..];
        assert parts[1..] == rest[1..];
        if |rest| > 1 {
          assert rest == [rest[0]] + rest[1..];
          assert Text.Join("\n", rest) == rest[0] + "\n" + Text.Join("\n", rest[1..]);
        }
        assert s == [s[0]] + s[1..];
      }
    }
  }

  /** Reading the context section back out of a prompt and splitting it recovers the chunks
      in the order given, each whole and separated by single newlines. */
  lemma PromptContextRoundTrip(context: seq<string>, question: string)
    requires context != []
    requires forall j :: 0 <= j < |context| ==> '\n' !in context[j]
    ensures |Preamble + ContextHeader| + |QuestionHeader| + |question| + 2 <= |BuildPrompt(context, question)|
    ensures SplitLines(ContextSection(BuildPrompt(context, question), question)) == context
  {
    ContextSectionOfPrompt(context, question);
    SplitJoin(context);
  }
}
