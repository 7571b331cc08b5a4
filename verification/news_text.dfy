/** The post-processing `generateNews` (generateNews.ts) applies to the text
    returned by the text-generation service: trim, collapse line feeds,
    cut off an echoed prompt, then take the first sentence as the title and
    the remaining sentences as the description. */
module NewsText {
  import opened Wrappers
  import opened JsText

  datatype NewsItem = NewsItem(title: string, description: string)

  /** The title used when the first sentence is empty. */
  const DefaultTitle: string := "Crypto market update."
  /** What `split` cuts the cleaned text at. */
  const SentenceSep: string := ". "
  /** Appended to a description that does not end with a full stop. */
  const Ellipsis: string := "..."

  /** The fixed text of the prompt around the two prices. */
  const BtcLead: string := "Bitcoin is currently priced at $"
  const EthLead: string := ", while Ethereum is at $"
  const NewsRequest: string := ". Write a short news update about the crypto market."

  /** The request sentence holds no line feed. */
  lemma NewsRequestHasNoLineFeed()
    ensures '\n' !in NewsRequest
  {
    var ask := ". Write a short news update";
    var topic := " about the crypto market.";
    assert NewsRequest == ask + topic;
    assert '\n' !in ask && '\n' !in topic;
  }

  /** The prompt `generateNews` sends, with the two prices given as the
      text JavaScript renders them to. */
  function NewsPrompt(btcUsd: string, ethUsd: string): (r: string)
    ensures r != "" && IsTrimmed(r)
    ensures '\n' !in btcUsd && '\n' !in ethUsd ==> '\n' !in r
  {
    NewsRequestHasNoLineFeed();
    assert '\n' !in BtcLead && '\n' !in EthLead;
    var r := BtcLead + btcUsd + EthLead + ethUsd + NewsRequest;
    assert r[0] == BtcLead[0] && r[|r| - 1] == NewsRequest[|NewsRequest| - 1];
    r
  }

  /** An echoed prompt at the front of `text` is cut off and what follows
      is trimmed; text that does not start with the prompt is left alone.
      (`text.replace(prompt, "")` removes the first occurrence, which is the
      one at the front.) */
  function StripPrompt(text: string, prompt: string): (r: string)
    ensures StartsWith(text, prompt) ==> IsTrimmed(r) && exists i :: Surrounds(text[|prompt|..], r, i)
    ensures !StartsWith(text, prompt) ==> r == text
  {
    if StartsWith(text, prompt) then Trim(text[|prompt|..]) else text
  }

  /** `generated_text` after trimming, collapsing line feeds and cutting off
      the echoed prompt. */
  function Clean(text: string, prompt: string): (r: string)
    ensures '\n' !in r
    ensures IsTrimmed(r)
    ensures AllSpace(text) ==> r == ""
  {
    StripPrompt(CollapseNewlines(Trim(text)), prompt)
  }

  /** `parts.map(s => s.trim())` */
  function TrimAll(parts: seq<string>): (r: seq<string>)
    ensures |r| == |parts|
    ensures forall k :: 0 <= k < |r| ==> r[k] == Trim(parts[k])
  {
    if |parts| == 0 then [] else [Trim(parts[0])] + TrimAll(parts[1..])
  }

  /** `cleaned.split(". ").map(s => s.trim())` */
  function Sentences(cleaned: string): (ss: seq<string>)
    ensures |ss| == |Split(cleaned, SentenceSep)| >= 1
    ensures forall k :: 0 <= k < |ss| ==> IsTrimmed(ss[k])
  {
    TrimAll(Split(cleaned, SentenceSep))
  }

  /** The first sentence with a full stop, or the default title when the
      first sentence is empty. */
  function TitleOf(first: string): (t: string)
    ensures EndsWith(t, ".")
    ensures first != "" ==> t == first + "."
    ensures first == "" ==> t == DefaultTitle
  {
    if first != "" then first + "." else DefaultTitle
  }

  /** The remaining sentences joined with ". ", with "..." appended unless
      the result already ends with a full stop. */
  function DescriptionOf(rest: seq<string>): (d: string)
    ensures EndsWith(d, ".")
    ensures StartsWith(d, Join(rest, SentenceSep))
    ensures d == Join(rest, SentenceSep) <==> EndsWith(Join(rest, SentenceSep), ".")
    ensures !EndsWith(Join(rest, SentenceSep), ".") ==> d == Join(rest, SentenceSep) + Ellipsis
  {
    var joined := Join(rest, SentenceSep);
    if EndsWith(joined, ".") then joined else joined + Ellipsis
  }

  /** The whole post-processing. `None` for `generated` stands for a
      rejected request, a missing response or a missing `generated_text`;
      the result `None` is the `undefined` the function returns after its
      error is caught and logged. */
  function Summarize(generated: Option<string>, prompt: string): (r: Option<NewsItem>)
    ensures r.Some? <==> generated.Some? && generated.value != ""
    ensures r.Some? ==> EndsWith(r.value.title, ".") && EndsWith(r.value.description, ".")
  {
    match generated
    case None => None
    case Some(text) =>
      if text == "" then None
      else
        var ss := Sentences(Clean(text, prompt));
        Some(NewsItem(TitleOf(ss[0]), DescriptionOf(ss[1..])))
  }

  /** Whitespace-only (but non-empty) text yields the default title and a
      bare ellipsis. */
  lemma SummarizeBlank(text: string, prompt: string)
    requires text != "" && AllSpace(text)
    ensures Summarize(Some(text), prompt) == Some(NewsItem(DefaultTitle, Ellipsis))
  {
  }

  /** Text without a ". " separator becomes the title on its own, and the
      description is a bare ellipsis. */
  lemma SummarizeOneSentence(text: string, prompt: string)
    requires text != ""
    requires !Contains(Clean(text, prompt), SentenceSep)
    ensures var c := Clean(text, prompt);
            Summarize(Some(text), prompt)
              == Some(NewsItem(if c == "" then DefaultTitle else c + ".", Ellipsis))
  {
    var c := Clean(text, prompt);
    SplitWithoutSep(c, SentenceSep);
    TrimOfPadded("", c, "");
    assert "" + c + "" == c;
    var ss := Sentences(c);
    assert |ss| == 1 && ss[0] == c;
    assert Summarize(Some(text), prompt) == Some(NewsItem(TitleOf(ss[0]), DescriptionOf(ss[1..])));
    assert ss[1..] == [];
    assert DescriptionOf([]) == Ellipsis;
  }

  /** Text that starts with the prompt has it cut off, and the rest is
      trimmed. */
  lemma StripPromptFront(prompt: string, u: string)
    ensures StripPrompt(prompt + u, prompt) == Trim(u)
  {
    assert (prompt + u)[..|prompt|] == prompt;
    assert (prompt + u)[|prompt|..] == u;
  }

  /** A model that echoes a trimmed, line-feed-free prompt in front of its
      text has the prompt cut off: what is left is that text with its line
      feeds collapsed, trimmed. */
  lemma CleanEchoedPrompt(prompt: string, rest: string)
    requires prompt != "" && IsTrimmed(prompt) && '\n' !in prompt
    ensures Clean(prompt + rest, prompt) == Trim(CollapseNewlines(rest))
  {
    var m := Trim(rest);
    var w1, w2 := TrimDecompose(rest);
    TrimAfterTrimmedFront(prompt, rest, w1, m, w2);
    if m == "" {
      EchoOfBlank(prompt, rest);
    } else {
      EchoOfText(prompt, rest, w1, m, w2);
    }
  }

  /** `CleanEchoedPrompt` when `rest` is whitespace only. */
  lemma EchoOfBlank(prompt: string, rest: string)
    requires '\n' !in prompt
    requires Trim(prompt + rest) == prompt && Trim(rest) == ""
    ensures Clean(prompt + rest, prompt) == Trim(CollapseNewlines(rest)) == ""
  {
    TrimEmptyIff(rest);
    CollapseKeepsSpace(rest);
    TrimEmptyIff(CollapseNewlines(rest));
    StripPromptFront(prompt, "");
    assert prompt + "" == prompt;
  }

  /** `CleanEchoedPrompt` when `rest` is `w1 + m + w2` with `m` trimmed and
      not empty. */
  lemma EchoOfText(prompt: string, rest: string, w1: string, m: string, w2: string)
    requires '\n' !in prompt && m != "" && IsTrimmed(m)
    requires AllSpace(w2) && rest == w1 + m + w2
    requires Trim(prompt + rest) == prompt + w1 + m
    ensures Clean(prompt + rest, prompt) == Trim(CollapseNewlines(rest))
  {
    var u := w1 + m;
    assert prompt + w1 + m == prompt + u;
    assert prompt == [] || prompt[|prompt| - 1] != '\n';
    CollapseAppend(prompt, u);
    StripPromptFront(prompt, CollapseNewlines(u));
    assert rest == u + w2;
    assert u[|u| - 1] == m[|m| - 1];
    CollapseAppend(u, w2);
    CollapseKeepsSpace(w2);
    TrimDropsSpaceSuffix(CollapseNewlines(u), CollapseNewlines(w2));
  }

  /** When the model echoes the prompt `generateNews` sent and then writes
      `rest`, the summary is built from `rest` alone. */
  lemma SummarizeEchoedPrompt(btcUsd: string, ethUsd: string, rest: string)
    requires '\n' !in btcUsd && '\n' !in ethUsd
    ensures var prompt := NewsPrompt(btcUsd, ethUsd);
            var ss := Sentences(Trim(CollapseNewlines(rest)));
            Summarize(Some(prompt + rest), prompt) == Some(NewsItem(TitleOf(ss[0]), DescriptionOf(ss[1..])))
  {
    var prompt := NewsPrompt(btcUsd, ethUsd);
    CleanEchoedPrompt(prompt, rest);
  }

  lemma FirstSeparator(a: string, b: string)
    requires !Contains(a, SentenceSep)
    ensures forall i :: 0 <= i < |a| ==> !OccursAt(a + SentenceSep + b, SentenceSep, i)
  {
    var s := a + SentenceSep + b;
    forall i | 0 <= i < |a| ensures !OccursAt(s, SentenceSep, i) {
      if i + 2 <= |a| {
        assert a[i..i + 2] == s[i..i + 2];
        assert !OccursAt(a, SentenceSep, i);
      } else {
        assert s[i + 1] == '.';
      }
    }
  }

  /** When the cleaned text is `a + ". " + b` with no separator inside `a`,
      the title is `a` trimmed with a full stop (or the default title), and
      the description is built from the sentences of `b` alone. */
  lemma SummarizeFirstSentence(text: string, prompt: string, a: string, b: string)
    requires text != ""
    requires Clean(text, prompt) == a + SentenceSep + b
    requires !Contains(a, SentenceSep)
    ensures var ta := Trim(a);
            Summarize(Some(text), prompt)
              == Some(NewsItem(if ta == "" then DefaultTitle else ta + ".",
                               DescriptionOf(Sentences(b))))
  {
    var c := Clean(text, prompt);
    SentencesAfterFirst(a, b);
    var ss := Sentences(c);
    assert Summarize(Some(text), prompt) == Some(NewsItem(TitleOf(ss[0]), DescriptionOf(ss[1..])));
    assert ss[0] == Trim(a);
    assert ss[1..] == Sentences(b);
  }

  /** The sentences of `a + ". " + b`, when `a` holds no separator, are `a`
      trimmed followed by the sentences of `b`. */
  lemma SentencesAfterFirst(a: string, b: string)
    requires !Contains(a, SentenceSep)
    ensures Sentences(a + SentenceSep + b) == [Trim(a)] + Sentences(b)
  {
    FirstSeparator(a, b);
    SplitAtFirst(a, SentenceSep, b);
    SentencesOfSplit(a + SentenceSep + b, a, b);
  }

  /** When `c` splits into `a` followed by the pieces of `b`, its sentences
      are `a` trimmed followed by the sentences of `b`. */
  lemma SentencesOfSplit(c: string, a: string, b: string)
    requires Split(c, SentenceSep) == [a] + Split(b, SentenceSep)
    ensures Sentences(c) == [Trim(a)] + Sentences(b)
  {
    assert ([a] + Split(b, SentenceSep))[1..] == Split(b, SentenceSep);
  }

  /** Sentences of a text without line feeds have none either. */
  lemma SentencesHaveNoLineFeed(c: string)
    requires '\n' !in c
    ensures forall k :: 0 <= k < |Sentences(c)| ==> '\n' !in Sentences(c)[k]
  {
    var parts := Split(c, SentenceSep);
    var ss := Sentences(c);
    JoinSplit(c, SentenceSep);
    forall k | 0 <= k < |ss| ensures '\n' !in ss[k] {
      TrimChars(parts[k]);
      if '\n' in parts[k] {
        PartCharsInJoin(parts, SentenceSep, k, '\n');
      }
    }
  }

  /** A title built from a sentence without line feeds has none. */
  lemma TitleHasNoLineFeed(first: string)
    requires '\n' !in first
    ensures '\n' !in TitleOf(first)
  {
  }

  /** A description built from sentences without line feeds has none. */
  lemma DescriptionHasNoLineFeed(rest: seq<string>)
    requires forall k :: 0 <= k < |rest| ==> '\n' !in rest[k]
    ensures '\n' !in DescriptionOf(rest)
  {
    var joined := Join(rest, SentenceSep);
    if '\n' in joined {
      JoinChars(rest, SentenceSep, '\n');
    }
    assert '\n' !in joined;
    if !EndsWith(joined, ".") {
      assert DescriptionOf(rest) == joined + Ellipsis;
      assert forall k :: 0 <= k < |Ellipsis| ==> Ellipsis[k] != '\n';
    }
  }

  /** The title and description never contain a line feed. */
  lemma SummaryHasNoLineFeed(text: string, prompt: string)
    requires text != ""
    ensures var r := Summarize(Some(text), prompt);
            '\n' !in r.value.title && '\n' !in r.value.description
  {
    var c := Clean(text, prompt);
    var ss := Sentences(c);
    assert Summarize(Some(text), prompt) == Some(NewsItem(TitleOf(ss[0]), DescriptionOf(ss[1..])));
    SentencesHaveNoLineFeed(c);
    TitleHasNoLineFeed(ss[0]);
    DescriptionHasNoLineFeed(ss[1..]);
  }
}
