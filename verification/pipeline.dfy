/** The publish pipeline of generateAndPublishNews.ts: `main` fetches the
    market listings, has the text generator write a summary, and publishes
    it to WordPress. Each stage wrapper catches its own errors and answers a
    sentinel; `main` stops on JavaScript-falsy sentinels.

    The remote services, the API keys and `Math.random` are inputs (a
    `World`); a run is a pure function from a `World` to the trace of the
    stage invocations and remote requests it makes and where it stopped. */
module Pipeline {
  import opened Wrappers
  import opened JsText

  /** One record of the market listings response: the asset name and its
      24-hour change and price, as the text `toFixed(2)` renders them to. */
  datatype Listing = Listing(name: string, percentChange24h: string, price: string)

  /** What `fetchCryptoNews` makes of a listing. */
  datatype Headline = Headline(title: string, description: string)

  /** The text-generation call: it threw, or it answered a response whose
      `generated_text` may be missing. */
  datatype TextGenReply = TextGenFailed | TextGenOk(generatedText: Option<string>)

  /** The WordPress POST: it threw, or it answered the new post's link. */
  datatype WordPressReply = WordPressFailed | WordPressOk(link: string)

  /** The body of the WordPress POST. */
  datatype Post = Post(title: string, content: string, status: string)

  /** Stage invocations and the remote requests they make, in the order
      they happen. */
  datatype Event =
    | FetchInvoked
    | ListingsRequested
    | GenerateInvoked(headlines: seq<Headline>)
    | TextGenRequested(prompt: string)
    | PublishInvoked(content: string)
    | WordPressPosted(post: Post)

  datatype Stage = FetchStage | GenerateStage | PublishStage

  /** Where `main` returned. It never throws: every stage catches its own
      errors. */
  datatype Exit = FetchAborted | GenerateAborted | Finished

  /** Everything a run depends on that the program does not compute. `random`
      is the value `Math.random()` gives when the title is picked. */
  datatype World = World(
    listings: Option<seq<Listing>>,
    hfApiKey: string,
    textGen: TextGenReply,
    jwtToken: string,
    random: real,
    wordpress: WordPressReply)

  datatype Run = Run(trace: seq<Event>, exit: Exit)

  /** A stage's remote requests and the value it returns. */
  datatype StageResult<T> = StageResult(events: seq<Event>, value: T)

  // ---------------------------------------------------------------------------
  // JavaScript truthiness of the two sentinels `main` tests

  /** `null` or an array: every array is truthy, even an empty one. */
  predicate ArrayTruthy<T>(v: Option<seq<T>>) {
    v.Some?
  }

  /** `null` or a string: the empty string is falsy. */
  predicate StringTruthy(v: Option<string>) {
    v.Some? && v.value != ""
  }

  // ---------------------------------------------------------------------------
  // fetchCryptoNews

  /** What the description template puts between the change and the price. */
  const ChangeThenPrice: string := "% change in 24h, Current price: $"

  function ToHeadline(l: Listing): Headline {
    Headline(l.name, l.percentChange24h + ChangeThenPrice + l.price)
  }

  /** `listings` is None when the GET threw or the payload could not be
      mapped; the stage then answers `null`. Otherwise it answers one
      headline per listing, in response order. */
  function FetchCryptoNews(listings: Option<seq<Listing>>): (r: StageResult<Option<seq<Headline>>>)
    ensures r.events == [FetchInvoked, ListingsRequested]
    ensures r.value.None? <==> listings.None?
    ensures r.value.Some? ==>
              && |r.value.value| == |listings.value|
              && forall i :: 0 <= i < |listings.value| ==>
                   && r.value.value[i].title == listings.value[i].name
                   && r.value.value[i].description
                        == listings.value[i].percentChange24h + ChangeThenPrice + listings.value[i].price
  {
    var events := [FetchInvoked, ListingsRequested];
    match listings
    case None => StageResult(events, None)
    case Some(ls) => StageResult(events, Some(seq(|ls|, i requires 0 <= i < |ls| => ToHeadline(ls[i]))))
  }

  // ---------------------------------------------------------------------------
  // generateUniqueTitle

  const Titles: seq<string> := [
    "Today's Cryptocurrency Insights",
    "Key Crypto Market Movements",
    "Crypto Market Overview",
    "Daily Digital Asset Update",
    "Breaking News in Crypto",
    "Latest Crypto Developments",
    "Trending Cryptocurrency Reports",
    "Crypto Industry Roundup",
    "What\U{2019}s Happening in Crypto?",
    "Essential Crypto Market News"
  ]

  /** `Math.floor(random * titles.length)` stays inside the pool for every
      value `Math.random()` can give. */
  function TitleIndex(random: real): (k: int)
    requires 0.0 <= random < 1.0
    ensures 0 <= k < |Titles|
  {
    (random * |Titles| as real).Floor
  }

  /** `titles[Math.floor(Math.random() * titles.length)]` */
  function GenerateUniqueTitle(random: real): (t: string)
    requires 0.0 <= random < 1.0
    ensures t in Titles
  {
    Titles[TitleIndex(random)]
  }

  // ---------------------------------------------------------------------------
  // generateNews

  const PromptHead: string := "\n            The latest cryptocurrency market update:\n            "
  const PromptTail: string := "\n            Provide a compelling, concise, and informative summary of these market movements. Avoid repetition and do not give financial advice.\n        "

  /** `- ${item.title}: ${item.description}` */
  function PromptLine(h: Headline): string {
    "- " + h.title + ": " + h.description
  }

  function PromptLines(headlines: seq<Headline>): string {
    Join(seq(|headlines|, i requires 0 <= i < |headlines| => PromptLine(headlines[i])), "\n")
  }

  /** The prompt template with the headline lines in the middle. */
  function BuildPrompt(headlines: seq<Headline>): (r: string)
    ensures StartsWith(r, PromptHead) && EndsWith(r, PromptTail)
    ensures |r| >= |PromptHead| + |PromptTail|
    ensures |headlines| == 0 ==> r == PromptHead + PromptTail
  {
    var lines := PromptLines(headlines);
    assert |headlines| == 0 ==> lines == "";
    PromptHead + lines + PromptTail
  }

  /** Without an API key the stage throws before any request and answers
      `null`; a failed request also gives `null`; otherwise it answers
      `generated_text?.trim() || ""`. */
  function GenerateNews(hfApiKey: string, textGen: TextGenReply, headlines: seq<Headline>)
    : (r: StageResult<Option<string>>)
    ensures hfApiKey == "" ==> r == StageResult([GenerateInvoked(headlines)], None)
    ensures hfApiKey != "" ==> r.events == [GenerateInvoked(headlines), TextGenRequested(BuildPrompt(headlines))]
    ensures r.value.Some? ==> IsTrimmed(r.value.value)
    ensures hfApiKey != "" && textGen.TextGenFailed? ==> r.value == None
    ensures hfApiKey != "" && textGen.TextGenOk? ==>
              r.value == Some(if textGen.generatedText.Some? then Trim(textGen.generatedText.value) else "")
    ensures StringTruthy(r.value) <==>
              hfApiKey != "" && textGen.TextGenOk? && textGen.generatedText.Some?
              && !AllSpace(textGen.generatedText.value)
  {
    var invoked := [GenerateInvoked(headlines)];
    if hfApiKey == "" then StageResult(invoked, None)
    else
      var events := invoked + [TextGenRequested(BuildPrompt(headlines))];
      match textGen
      case TextGenFailed => StageResult(events, None)
      case TextGenOk(None) => StageResult(events, Some(""))
      case TextGenOk(Some(text)) =>
        TrimEmptyIff(text);
        StageResult(events, Some(Trim(text)))
  }

  // ---------------------------------------------------------------------------
  // publishToWordPress

  /** Without a JWT the stage throws before posting; either way, and whatever
      the POST answers, the error is caught inside and the stage returns
      nothing. The value here is the link it logs on success. */
  function PublishToWordPress(jwtToken: string, random: real, content: string, wordpress: WordPressReply)
    : (r: StageResult<Option<string>>)
    requires 0.0 <= random < 1.0
    ensures |r.events| >= 1 && r.events[0] == PublishInvoked(content)
    ensures jwtToken == "" <==> |r.events| == 1
    ensures jwtToken != "" ==>
              |r.events| == 2 && r.events[1].WordPressPosted?
              && r.events[1].post.content == content
              && r.events[1].post.status == "publish"
              && r.events[1].post.title in Titles
    ensures r.value.Some? ==> jwtToken != "" && wordpress.WordPressOk?
  {
    var invoked := [PublishInvoked(content)];
    if jwtToken == "" then StageResult(invoked, None)
    else
      var post := Post(GenerateUniqueTitle(random), content, "publish");
      var events := invoked + [WordPressPosted(post)];
      match wordpress
      case WordPressFailed => StageResult(events, None)
      case WordPressOk(link) => StageResult(events, Some(link))
  }

  // ---------------------------------------------------------------------------
  // main

  /** `main`: fetch, then generate, then publish, stopping after a stage
      whose sentinel is falsy. Every run starts with the fetch, and a run
      that stops early never reaches the publisher. */
  function Main(w: World): (run: Run)
    requires 0.0 <= w.random < 1.0
    ensures |run.trace| >= 2 && run.trace[..2] == [FetchInvoked, ListingsRequested]
    ensures run.exit != Finished ==> forall e :: e in run.trace ==> StageOf(e) != PublishStage
  {
    var fetched := FetchCryptoNews(w.listings);
    if !ArrayTruthy(fetched.value) then
      Run(fetched.events, FetchAborted)
    else
      var generated := GenerateNews(w.hfApiKey, w.textGen, fetched.value.value);
      if !StringTruthy(generated.value) then
        Run(fetched.events + generated.events, GenerateAborted)
      else
        var published := PublishToWordPress(w.jwtToken, w.random, generated.value.value, w.wordpress);
        Run(fetched.events + generated.events + published.events, Finished)
  }

  // ---------------------------------------------------------------------------
  // Properties of a run

  /** The stage an event belongs to. */
  function StageOf(e: Event): Stage {
    match e
    case FetchInvoked => FetchStage
    case ListingsRequested => FetchStage
    case GenerateInvoked(_) => GenerateStage
    case TextGenRequested(_) => GenerateStage
    case PublishInvoked(_) => PublishStage
    case WordPressPosted(_) => PublishStage
  }

  function Rank(st: Stage): nat {
    match st
    case FetchStage => 0
    case GenerateStage => 1
    case PublishStage => 2
  }

  predicate IsInvocation(e: Event) {
    e.FetchInvoked? || e.GenerateInvoked? || e.PublishInvoked?
  }

  /** How often the trace invokes stage `st`. */
  function Invocations(trace: seq<Event>, st: Stage): nat {
    if |trace| == 0 then 0
    else (if IsInvocation(trace[0]) && StageOf(trace[0]) == st then 1 else 0) + Invocations(trace[1..], st)
  }

  lemma {:induction false} InvocationsAppend(a: seq<Event>, b: seq<Event>, st: Stage)
    ensures Invocations(a + b, st) == Invocations(a, st) + Invocations(b, st)
    decreases |a|
  {
    if |a| == 0 {
      assert a + b == b;
    } else {
      assert (a + b)[1..] == a[1..] + b;
      InvocationsAppend(a[1..], b, st);
    }
  }

  /** The events of the stages appear in pipeline order. */
  predicate InStageOrder(trace: seq<Event>) {
    forall i, j :: 0 <= i < j < |trace| ==> Rank(StageOf(trace[i])) <= Rank(StageOf(trace[j]))
  }

  /** Run succeeds up to publishing: listings arrived, the key is set, and
      the generator answered text that is not all whitespace. */
  predicate GenerationSucceeds(w: World) {
    && w.listings.Some?
    && w.hfApiKey != ""
    && w.textGen.TextGenOk?
    && w.textGen.generatedText.Some?
    && !AllSpace(w.textGen.generatedText.value)
  }

  /** `main` stops right after the fetch exactly when the fetch answered
      `null`, and then neither the generator nor the publisher runs. */
  lemma FetchFailureStops(w: World)
    requires 0.0 <= w.random < 1.0
    ensures Main(w).exit == FetchAborted <==> w.listings.None?
    ensures w.listings.None? ==> Main(w).trace == [FetchInvoked, ListingsRequested]
  {
  }

  /** The generator runs exactly once whenever the fetch answered an array,
      even an empty one, and never otherwise; it receives the fetched
      headlines. */
  lemma GeneratorRunsOnAnyArray(w: World)
    requires 0.0 <= w.random < 1.0
    ensures Invocations(Main(w).trace, GenerateStage) == (if w.listings.Some? then 1 else 0)
    ensures w.listings.Some? ==> Main(w).trace[2] == GenerateInvoked(FetchCryptoNews(w.listings).value.value)
  {
    var f := FetchCryptoNews(w.listings);
    FetchStageEvents(w.listings, GenerateStage);
    if w.listings.Some? {
      var g := GenerateNews(w.hfApiKey, w.textGen, f.value.value);
      GenerateStageEvents(w.hfApiKey, w.textGen, f.value.value, GenerateStage);
      InvocationsAppend(f.events, g.events, GenerateStage);
      if StringTruthy(g.value) {
        var p := PublishToWordPress(w.jwtToken, w.random, g.value.value, w.wordpress);
        PublishStageEvents(w.jwtToken, w.random, g.value.value, w.wordpress, GenerateStage);
        InvocationsAppend(f.events + g.events, p.events, GenerateStage);
      }
    }
  }

  /** A trace none of whose events invoke `st` counts zero invocations. */
  lemma {:induction false} NoInvocations(trace: seq<Event>, st: Stage)
    requires forall e :: e in trace ==> !IsInvocation(e) || StageOf(e) != st
    ensures Invocations(trace, st) == 0
    decreases |trace|
  {
    if |trace| > 0 {
      assert trace[0] in trace;
      assert forall e :: e in trace[1..] ==> e in trace;
      NoInvocations(trace[1..], st);
    }
  }

  /** Events that all belong to `s0` and of which only the first is an
      invocation invoke `s0` once and no other stage. */
  lemma OneInvocation(es: seq<Event>, s0: Stage, st: Stage)
    requires |es| >= 1 && IsInvocation(es[0])
    requires forall e :: e in es ==> StageOf(e) == s0
    requires forall k :: 1 <= k < |es| ==> !IsInvocation(es[k])
    ensures Invocations(es, st) == if st == s0 then 1 else 0
  {
    assert es[0] in es;
    NoInvocations(es[1..], st);
  }

  /** The fetch stage invokes itself once and belongs to the fetch stage. */
  lemma FetchStageEvents(listings: Option<seq<Listing>>, st: Stage)
    ensures var es := FetchCryptoNews(listings).events;
            (forall e :: e in es ==> StageOf(e) == FetchStage)
            && Invocations(es, st) == if st == FetchStage then 1 else 0
  {
    OneInvocation(FetchCryptoNews(listings).events, FetchStage, st);
  }

  /** The generate stage invokes itself once and belongs to the generate
      stage. */
  lemma GenerateStageEvents(hfApiKey: string, textGen: TextGenReply, headlines: seq<Headline>, st: Stage)
    ensures var es := GenerateNews(hfApiKey, textGen, headlines).events;
            (forall e :: e in es ==> StageOf(e) == GenerateStage)
            && Invocations(es, st) == if st == GenerateStage then 1 else 0
  {
    OneInvocation(GenerateNews(hfApiKey, textGen, headlines).events, GenerateStage, st);
  }

  /** The publish stage invokes itself once and belongs to the publish
      stage. */
  lemma PublishStageEvents(jwtToken: string, random: real, content: string, wordpress: WordPressReply, st: Stage)
    requires 0.0 <= random < 1.0
    ensures var es := PublishToWordPress(jwtToken, random, content, wordpress).events;
            (forall e :: e in es ==> StageOf(e) == PublishStage)
            && Invocations(es, st) == if st == PublishStage then 1 else 0
  {
    OneInvocation(PublishToWordPress(jwtToken, random, content, wordpress).events, PublishStage, st);
  }

  /** Publishing happens, exactly once, exactly when fetching and generating
      both succeed; a blank or missing text stops the run before it. */
  lemma PublishesIffGenerated(w: World)
    requires 0.0 <= w.random < 1.0
    ensures Invocations(Main(w).trace, PublishStage) == (if GenerationSucceeds(w) then 1 else 0)
    ensures Main(w).exit == Finished <==> GenerationSucceeds(w)
    ensures Main(w).exit == GenerateAborted <==> w.listings.Some? && !GenerationSucceeds(w)
  {
    var f := FetchCryptoNews(w.listings);
    FetchStageEvents(w.listings, PublishStage);
    if w.listings.Some? {
      var g := GenerateNews(w.hfApiKey, w.textGen, f.value.value);
      GenerateStageEvents(w.hfApiKey, w.textGen, f.value.value, PublishStage);
      InvocationsAppend(f.events, g.events, PublishStage);
      if StringTruthy(g.value) {
        var p := PublishToWordPress(w.jwtToken, w.random, g.value.value, w.wordpress);
        PublishStageEvents(w.jwtToken, w.random, g.value.value, w.wordpress, PublishStage);
        InvocationsAppend(f.events + g.events, p.events, PublishStage);
      }
    }
  }

  /** On success the publisher receives the generated text exactly as the
      generator returned it (trimmed), and, when a JWT is configured, posts
      it with status "publish" under a title from the pool; without a JWT
      nothing is posted. */
  lemma PublishesGeneratedText(w: World)
    requires 0.0 <= w.random < 1.0
    requires GenerationSucceeds(w)
    ensures var text := Trim(w.textGen.generatedText.value);
            PublishInvoked(text) in Main(w).trace
            && (w.jwtToken == "" ==> forall e :: e in Main(w).trace ==> !e.WordPressPosted?)
            && (w.jwtToken != "" ==>
                  exists e :: e in Main(w).trace && e.WordPressPosted?
                              && e.post.content == text && e.post.status == "publish"
                              && e.post.title in Titles)
  {
    var text := Trim(w.textGen.generatedText.value);
    var f := FetchCryptoNews(w.listings);
    var g := GenerateNews(w.hfApiKey, w.textGen, f.value.value);
    assert g.value == Some(text);
    var p := PublishToWordPress(w.jwtToken, w.random, text, w.wordpress);
    var trace := f.events + g.events + p.events;
    assert Main(w).trace == trace;
    assert trace[|f.events + g.events|] == PublishInvoked(text);
    if w.jwtToken != "" {
      assert trace[|trace| - 1] == p.events[1];
    }
  }

  /** Without a text-generation key no text-generation request is made, and
      the run never reaches the publisher. */
  lemma MissingKeyMakesNoRequest(w: World)
    requires 0.0 <= w.random < 1.0
    requires w.hfApiKey == ""
    ensures forall e :: e in Main(w).trace ==> !e.TextGenRequested? && StageOf(e) != PublishStage
    ensures Main(w).exit != Finished
  {
  }

  /** Whatever the publisher meets (no JWT, a failed POST, a successful
      one), `main` ends the same way: publisher errors never propagate. */
  lemma PublisherNeverAffectsExit(w: World, jwtToken: string, wordpress: WordPressReply)
    requires 0.0 <= w.random < 1.0
    ensures Main(w).exit == Main(w.(jwtToken := jwtToken, wordpress := wordpress)).exit
  {
  }

  /** Fetch events, then generate events, then publish events, are in
      stage order. */
  lemma BlocksInStageOrder(a: seq<Event>, b: seq<Event>, c: seq<Event>)
    requires forall e :: e in a ==> StageOf(e) == FetchStage
    requires forall e :: e in b ==> StageOf(e) == GenerateStage
    requires forall e :: e in c ==> StageOf(e) == PublishStage
    ensures InStageOrder(a + b + c)
  {
    var t := a + b + c;
    forall i, j | 0 <= i < j < |t| ensures Rank(StageOf(t[i])) <= Rank(StageOf(t[j])) {
      var ri := if i < |a| then 0 else if i < |a| + |b| then 1 else 2;
      var rj := if j < |a| then 0 else if j < |a| + |b| then 1 else 2;
      if i < |a| { assert t[i] == a[i]; assert t[i] in a; }
      else if i < |a| + |b| { assert t[i] == b[i - |a|]; assert t[i] in b; }
      else { assert t[i] == c[i - |a| - |b|]; assert t[i] in c; }
      if j < |a| { assert t[j] == a[j]; assert t[j] in a; }
      else if j < |a| + |b| { assert t[j] == b[j - |a|]; assert t[j] in b; }
      else { assert t[j] == c[j - |a| - |b|]; assert t[j] in c; }
    }
  }

  /** Every run visits the stages in pipeline order. */
  lemma StagesRunInOrder(w: World)
    requires 0.0 <= w.random < 1.0
    ensures InStageOrder(Main(w).trace)
  {
    var f := FetchCryptoNews(w.listings);
    FetchStageEvents(w.listings, FetchStage);
    if w.listings.None? {
      BlocksInStageOrder(f.events, [], []);
      assert f.events + [] + [] == Main(w).trace;
    } else {
      var g := GenerateNews(w.hfApiKey, w.textGen, f.value.value);
      GenerateStageEvents(w.hfApiKey, w.textGen, f.value.value, FetchStage);
      if !StringTruthy(g.value) {
        BlocksInStageOrder(f.events, g.events, []);
        assert f.events + g.events + [] == Main(w).trace;
      } else {
        var p := PublishToWordPress(w.jwtToken, w.random, g.value.value, w.wordpress);
        PublishStageEvents(w.jwtToken, w.random, g.value.value, w.wordpress, FetchStage);
        BlocksInStageOrder(f.events, g.events, p.events);
      }
    }
  }

  /** No run invokes a stage twice. */
  lemma StagesRunAtMostOnce(w: World)
    requires 0.0 <= w.random < 1.0
    ensures forall st :: Invocations(Main(w).trace, st) <= 1
  {
    forall st ensures Invocations(Main(w).trace, st) <= 1 {
      StageRunsAtMostOnce(w, st);
    }
  }

  lemma StageRunsAtMostOnce(w: World, st: Stage)
    requires 0.0 <= w.random < 1.0
    ensures Invocations(Main(w).trace, st) <= 1
  {
    var f := FetchCryptoNews(w.listings);
    FetchStageEvents(w.listings, st);
    if w.listings.Some? {
      var g := GenerateNews(w.hfApiKey, w.textGen, f.value.value);
      GenerateStageEvents(w.hfApiKey, w.textGen, f.value.value, st);
      InvocationsAppend(f.events, g.events, st);
      if StringTruthy(g.value) {
        var p := PublishToWordPress(w.jwtToken, w.random, g.value.value, w.wordpress);
        PublishStageEvents(w.jwtToken, w.random, g.value.value, w.wordpress, st);
        InvocationsAppend(f.events + g.events, p.events, st);
      }
    }
  }

  /** When no title or description contains a line feed, the prompt lists
      the headlines one line each, in order: splitting the middle of the
      prompt at line feeds gives back exactly the `- title: description`
      lines. */
  lemma PromptListsEveryHeadline(headlines: seq<Headline>)
    requires |headlines| > 0
    requires forall i :: 0 <= i < |headlines| ==>
               '\n' !in headlines[i].title && '\n' !in headlines[i].description
    ensures var prompt := BuildPrompt(headlines);
            var lines := prompt[|PromptHead|..|prompt| - |PromptTail|];
            Split(lines, "\n") == seq(|headlines|, i requires 0 <= i < |headlines| => PromptLine(headlines[i]))
  {
    var ls := seq(|headlines|, i requires 0 <= i < |headlines| => PromptLine(headlines[i]));
    forall k | 0 <= k < |ls| ensures "\n"[0] !in ls[k] {
      var h := headlines[k];
      assert ls[k] == "- " + h.title + ": " + h.description;
    }
    SplitJoin(ls, "\n");
    var prompt := BuildPrompt(headlines);
    assert prompt[|PromptHead|..|prompt| - |PromptTail|] == PromptLines(headlines);
  }

  /** A run with one listing, all credentials present, and a summary that
      is some text padded with whitespace: the generator is asked once with
      the one-line prompt, and the post carries the text without the
      padding. */
  lemma SingleListingRun(w: World, l: Listing, pad1: string, text: string, pad2: string)
    requires 0.0 <= w.random < 1.0
    requires w.listings == Some([l]) && w.hfApiKey != "" && w.jwtToken != ""
    requires w.textGen == TextGenOk(Some(pad1 + text + pad2))
    requires AllSpace(pad1) && AllSpace(pad2) && IsTrimmed(text) && text != ""
    ensures var h := Headline(l.name, l.percentChange24h + ChangeThenPrice + l.price);
            Main(w) == Run([FetchInvoked, ListingsRequested,
                            GenerateInvoked([h]), TextGenRequested(BuildPrompt([h])),
                            PublishInvoked(text),
                            WordPressPosted(Post(GenerateUniqueTitle(w.random), text, "publish"))],
                           Finished)
  {
    var h := Headline(l.name, l.percentChange24h + ChangeThenPrice + l.price);
    FetchOneListing(l);
    GeneratePaddedText(w.hfApiKey, pad1, text, pad2, [h]);
    var p := PublishToWordPress(w.jwtToken, w.random, text, w.wordpress);
    var trace := [FetchInvoked, ListingsRequested] + [GenerateInvoked([h]), TextGenRequested(BuildPrompt([h]))] + p.events;
    assert Main(w) == Run(trace, Finished);
    assert p.events == [PublishInvoked(text), WordPressPosted(Post(GenerateUniqueTitle(w.random), text, "publish"))];
  }

  /** Fetching a single listing gives its one headline. */
  lemma FetchOneListing(l: Listing)
    ensures FetchCryptoNews(Some([l])).value
            == Some([Headline(l.name, l.percentChange24h + ChangeThenPrice + l.price)])
  {
    var h := Headline(l.name, l.percentChange24h + ChangeThenPrice + l.price);
    var hs := FetchCryptoNews(Some([l])).value.value;
    assert |hs| == 1 && hs[0] == h;
    assert hs == [h];
  }

  /** With a key, text padded with whitespace comes back without the
      padding. */
  lemma GeneratePaddedText(hfApiKey: string, pad1: string, text: string, pad2: string, headlines: seq<Headline>)
    requires hfApiKey != ""
    requires AllSpace(pad1) && AllSpace(pad2) && IsTrimmed(text)
    ensures GenerateNews(hfApiKey, TextGenOk(Some(pad1 + text + pad2)), headlines)
            == StageResult([GenerateInvoked(headlines), TextGenRequested(BuildPrompt(headlines))], Some(text))
  {
    TrimOfPadded(pad1, text, pad2);
  }
}
