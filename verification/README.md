# crypto-news-agent: a Dafny model of the news publishing pipeline

The crypto-news-agent fetches the top market listings, has a text-generation
model write a summary of them, and publishes that summary to WordPress. Most of
the repository is HTTP plumbing. This project models the three parts that hold
logic:

- **The publish pipeline** (`generateAndPublishNews.ts`), in module `Pipeline`.
  `main` runs three stages in order: fetch, generate, publish. Each stage
  wrapper catches its own errors and returns a sentinel. `main` stops when a
  sentinel is JavaScript-falsy: `null` stops it, an empty headline array does
  not, and an empty string does. The module also covers the random title pick
  and the prompt assembly. The remote services, the API keys and
  `Math.random()` are fields of a `World` value. A run is a pure function
  `Main(w)` that returns the trace of stage invocations and remote requests,
  plus where the run stopped.
- **The post-processor for generated text** (`generateNews.ts`), in module
  `NewsText`. It trims the text, collapses each run of line feeds into one
  space, and cuts off an echoed prompt. It then splits the text at `". "`: the
  first sentence becomes the title, and the remaining sentences become the
  description. There are rules for a default title and for an appended
  ellipsis.
- **The image-response selector** (`generateImage.ts`), in module
  `ImageSelect`. It takes the first creation record that has an `images`
  field and is not expired, and returns the URL of that record's first image.
  In every other case it returns `""`. One case matters: an empty `images`
  array is truthy, so it ends the search and the result is `""`.

Module `JsText` defines the ECMAScript string operations these rely on, over
`string` (a sequence of code points): `trim` with the exact ECMAScript
whitespace set, `startsWith`, `endsWith`, `includes`, `split`/`join` with a
string separator, and `replace(/\n+/g, " ")`. `startsWith`, `endsWith` and
`includes` are defined directly by slicing. The other operations have lemmas
that pin them down independently of their definitions:

- `trim` is characterised by padding (`TrimOfPadded`).
- `join` undoes `split` (`JoinSplit`).
- `split` undoes `join` for a one-character separator (`SplitJoin`).
- The newline collapse acts run by run (`CollapseAppend`, `CollapseRun`).

Module `Wrappers` holds the `Option` type that stands for `null`/`undefined`.

Three behaviours of the code are worth stating up front:

- **Missing credentials are not fatal.** In `generateAndPublishNews.ts`,
  `generateNews` throws on a missing text-generation key, catches that error,
  and returns `null`, so `main` stops before publishing. A missing JWT is
  caught inside `publishToWordPress`, and `main` still ends normally.
- **Image selection takes the first eligible record.** `find` returns the
  first record, in array order, that has `images` and is not expired. If that
  record's image list is empty, the result is `""`, and later records are
  never looked at.
- **Three stages only.** `main` in `generateAndPublishNews.ts` runs fetch,
  generate and publish. It embeds no illustration and posts to no social
  network.

## Model

| member | source | states |
|---|---|---|
| JsText.Trim | generateNews.ts:25 | `trim()` returns a string with no whitespace at either end, and the input is that string with only whitespace around it |
| JsText.TrimEmptyIff | generateAndPublishNews.ts:70 | `trim()` returns `""` exactly when the text is all whitespace (including the empty text) |
| JsText.TrimOfPadded | generateNews.ts:29 | for any trimmed `m` with whitespace on both sides, `trim()` gives back exactly `m`; this pins `trim` down completely |
| JsText.TrimIdempotent | generateNews.ts:29 | trimming an already-trimmed text changes nothing |
| JsText.TrimDecompose | generateNews.ts:25 | every text is its `trim()` result with whitespace on either side |
| JsText.TrimDropsSpaceSuffix | generateNews.ts:29 | appending whitespace to a text does not change its `trim()` result |
| JsText.TrimAfterTrimmedFront | generateNews.ts:25 | trimming a trimmed, non-empty front followed by padded text keeps the front and the whitespace after it, and drops only the outer padding |
| JsText.CollapseNewlines | generateNews.ts:25 | the result has no line feed; text without line feeds comes back unchanged; the first and last characters are kept when they are not line feeds |
| JsText.CollapseAppend | generateNews.ts:25 | the collapse distributes over a concatenation that does not cut a run of line feeds in two |
| JsText.CollapseKeepsSpace | generateNews.ts:25 | collapsing line feeds in whitespace-only text leaves whitespace-only text |
| JsText.CollapseRun | generateNews.ts:25 | a non-empty run of line feeds on its own becomes exactly one space |
| JsText.Split | generateNews.ts:33 | `split` with a non-empty separator always yields at least one piece |
| JsText.JoinSplit | generateNews.ts:33 | joining the pieces of `split(sep)` with `sep` gives back the original string |
| JsText.SplitPiecesAvoidSep | generateNews.ts:33 | no piece produced by `split(sep)` contains `sep` |
| JsText.SplitSingletonIff | generateNews.ts:33 | `split(sep)` gives a single piece, equal to the input, exactly when `sep` does not occur in the input |
| JsText.SplitAtFirst | generateNews.ts:33 | if the first occurrence of `sep` comes right after `a`, then splitting `a + sep + b` gives `a` followed by the pieces of `b` |
| JsText.SplitJoin | generateAndPublishNews.ts:60 | with a one-character separator that occurs in no part, `split` undoes `join` |
| NewsText.NewsPrompt | generateNews.ts:11 | the prompt is non-empty and trimmed, and it has no line feed when the two prices have none |
| NewsText.StripPrompt | generateNews.ts:28-30 | when the text starts with the prompt, the result is trimmed and is the rest of the text with only whitespace around it; otherwise the text is unchanged |
| NewsText.Clean | generateNews.ts:25-30 | the cleaned text has no line feed and is trimmed; all-whitespace input cleans to `""` |
| NewsText.TitleOf | generateNews.ts:34 | the title always ends with "."; it is the first sentence plus "." when that sentence is non-empty, and "Crypto market update." otherwise |
| NewsText.DescriptionOf | generateNews.ts:35-40 | the description always ends with "."; it starts with the remaining sentences joined by ". "; it is exactly that join when the join ends with ".", and otherwise the join followed by "..." |
| NewsText.TrimAll | generateNews.ts:33 | `map(s => s.trim())` keeps the number of pieces and trims each piece in place |
| NewsText.Sentences | generateNews.ts:33 | there is one sentence per piece of `split(". ")`, at least one, and every sentence is trimmed |
| NewsText.Summarize | generateNews.ts:24-52 | a result exists exactly when `generated_text` is present and non-empty (otherwise the error is caught and `undefined` is returned); both title and description end with "." |
| NewsText.SummarizeBlank | generateNews.ts:24-40 | non-empty, whitespace-only text yields the title "Crypto market update." and the description "..." |
| NewsText.SummarizeOneSentence | generateNews.ts:33-40 | when the cleaned text has no ". ", the description is "..." and the title is the whole cleaned text plus "." (or the default title when the cleaned text is empty) |
| NewsText.SummarizeFirstSentence | generateNews.ts:33-35 | when the cleaned text is `a + ". " + b` with no ". " in `a`, the title comes from `a` trimmed and the description is built from the sentences of `b` alone |
| NewsText.CleanEchoedPrompt | generateNews.ts:25-30 | when the text is a trimmed, line-feed-free prompt followed by any text `rest`, cleaning cuts the prompt off and leaves `rest` with its line-feed runs collapsed to spaces, trimmed |
| NewsText.SummarizeEchoedPrompt | generateNews.ts:11-35 | when the model echoes the prompt built from the two prices and then writes any text `rest`, title and description come from the sentences of `rest` alone, its line feeds collapsed and the whole trimmed |
| NewsText.SentencesAfterFirst | generateNews.ts:33 | when `a` holds no ". ", the sentences of `a + ". " + b` are `a` trimmed followed by the sentences of `b` |
| NewsText.DescriptionHasNoLineFeed | generateNews.ts:35-40 | sentences without line feeds give a description without line feeds, with or without the appended "..." |
| NewsText.SummaryHasNoLineFeed | generateNews.ts:25-35 | neither the title nor the description contains a line feed |
| ImageSelect.FirstEligible | generateImage.ts:37 | it finds the first record, in response order, that has `images` and is not expired; it returns None exactly when no record qualifies |
| ImageSelect.SelectUrl | generateImage.ts:31-54 | a request error or a non-array response yields `""`; a non-empty result is the first image URL of some record that is not expired |
| ImageSelect.GenerateImage | generateImage.ts:31-46 | the loop over the records returns the same URL as the selection above |
| ImageSelect.SelectsFirstEligible | generateImage.ts:37-46 | the first qualifying record alone decides the answer: the URL of its first image, or `""` when its image list is empty |
| ImageSelect.NoEligibleNoImage | generateImage.ts:39-42 | when no record qualifies, including for an empty array, the result is `""` |
| ImageSelect.LaterRecordsIgnored | generateImage.ts:37-42 | once a qualifying record exists, appending more records never changes the result |
| ImageSelect.IneligibleRecordIgnored | generateImage.ts:37 | inserting an expired record, or one without `images`, anywhere leaves the result unchanged |
| Pipeline.FetchCryptoNews | generateAndPublishNews.ts:15-31 | a failed fetch yields `null`; otherwise there is one headline per listing, in order, titled with the asset name, whose description is the 24-hour change, then "% change in 24h, Current price: $", then the price |
| Pipeline.TitleIndex | generateAndPublishNews.ts:47 | for every value in [0, 1), `floor(random * 10)` is a valid index into the title pool |
| Pipeline.GenerateUniqueTitle | generateAndPublishNews.ts:34-48 | the title is always one of the ten pool strings |
| Pipeline.BuildPrompt | generateAndPublishNews.ts:58-62 | the prompt begins with the fixed header and ends with the fixed request; with no headlines it is exactly the two joined, and `PromptListsEveryHeadline` states what lies between otherwise |
| Pipeline.GenerateNews | generateAndPublishNews.ts:51-77 | without a key it returns `null` before any request; otherwise it makes exactly one request with the assembled prompt; a failed request gives `null`; a successful one gives `generated_text` trimmed, or `""` when the text is missing; the answer is truthy exactly when the key is set, the call succeeded, and the text is not all whitespace |
| Pipeline.PublishToWordPress | generateAndPublishNews.ts:80-103 | without a JWT nothing is posted; with one, exactly one post is made with the given content, status "publish" and a title from the pool; errors stay inside |
| Pipeline.Main | generateAndPublishNews.ts:112-128 | every run starts with the fetch; a run that stops early never reaches the publisher |
| Pipeline.FetchFailureStops | generateAndPublishNews.ts:115-119 | the run stops after the fetch exactly when the fetch returned `null`; the trace then holds only the fetch |
| Pipeline.GeneratorRunsOnAnyArray | generateAndPublishNews.ts:115-121 | the generator runs exactly once when the fetch returned an array, even an empty one, and receives the fetched headlines; otherwise it never runs |
| Pipeline.PublishesIffGenerated | generateAndPublishNews.ts:121-127 | the publisher runs exactly once when both fetch and generation succeed, and never otherwise; blank, missing or failed text stops the run |
| Pipeline.PublishesGeneratedText | generateAndPublishNews.ts:86-90 | on success the publisher receives the trimmed generated text verbatim; with a JWT the post carries that text, status "publish" and a pool title; without one, nothing is posted |
| Pipeline.MissingKeyMakesNoRequest | generateAndPublishNews.ts:53-55 | without the text-generation key, no generation request is made and the publisher is never reached |
| Pipeline.PublisherNeverAffectsExit | generateAndPublishNews.ts:100-103 | a missing JWT or a failed post never changes how `main` ends |
| Pipeline.StagesRunInOrder | generateAndPublishNews.ts:112-128 | in every run the events come in stage order: fetch, then generate, then publish |
| Pipeline.StagesRunAtMostOnce | generateAndPublishNews.ts:112-128 | no run invokes any stage more than once |
| Pipeline.PromptListsEveryHeadline | generateAndPublishNews.ts:58-62 | for a non-empty list of headlines in which no field contains a line feed, the middle of the prompt splits into exactly one `- title: description` line per headline, in order (an empty list leaves the middle empty, see `BuildPrompt`) |
| Pipeline.SingleListingRun | generateAndPublishNews.ts:112-128 | with one listing, all keys, and text padded with whitespace, the trace is fetch, generate, one request with the one-line prompt, publish of the unpadded text, and one post |

## Left out

- All network calls (`axios.get`, `axios.post`, `HfInference.textGeneration`). Their outcomes are inputs: `World.listings`, `World.textGen`, `World.wordpress`, and the `Reply` given to `ImageSelect.SelectUrl`.
- Environment loading (`dotenv`, `process.env`). The keys are `World` fields. `process.exit` on a missing image-service key (generateImage.ts:9-12) is a start-up check outside the selection logic.
- The cron schedule and the immediate start (generateAndPublishNews.ts:106-109, 130-132). These are timer and concurrency concerns.
- All `console` logging.
- Pipeline.TitleIndex: `Math.random()` is a `real` in [0, 1) and the product is exact. Double-precision rounding of `Math.random() * 10` is not modelled.
- Pipeline.FetchCryptoNews: the `toFixed(2)` renderings of price and change are opaque strings in `Listing`. A payload that fails to map collapses into the `None` input.
- NewsText.NewsPrompt: the prices are given as the text JavaScript renders the numbers to. Number-to-string conversion is not modelled.
- NewsText.Summarize: a rejected request, a missing response and a missing `generated_text` are one `None` input, since all three reach the same caught-error path.
- ImageSelect.SelectUrl: response elements are always objects, `images` is always absent or an array, and every image has a string `url`. The code also accepts other inputs, which the model does not cover. A `null` or `undefined` element makes `item.images` throw, and the catch returns `""`. A number, string or boolean element has no `images`, so `find` skips it like an ineligible record. A truthy `images` that is not an array, and an image without `url`, are not modelled either.
- fetchCrypto.ts: it only performs a GET and logs the result.
- Illustration embedding, social posting and text truncation: `main` in generateAndPublishNews.ts does none of these, so there is nothing to model.
- JsText.Split: only non-empty separators are modelled. The code splits only at `". "`.
