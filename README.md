# Answer relay model

A Dafny model of the answer relay in `app/api/exaanswer/route.ts`. The
relay is the POST handler that forwards a query to the upstream answer
service and streams the answer back as newline-delimited records. The model
covers two parts of it.

- **The query gate.** A request whose `query` is missing or empty gets a 400
  response with the error `query is required`. No upstream call is made for
  it. Any other request opens one streaming call with the model `exa-pro`.
- **The per-chunk transform of the streaming loop.**
  - The chunk's citations are folded into a URL→title map with the
    semantics of a JavaScript `Map`. Keys stay in first-insertion order,
    and setting an existing key overwrites its value in place. The title is
    `Source` when a citation's title is absent or empty.
  - Each URL is regex-escaped, and the resulting pattern reads as exactly
    the literal text `(url)`.
  - Every non-overlapping occurrence of `(url)` in the content is replaced
    by `[title](url)`, scanning from left to right. The map entries are
    applied one after another, each on the previous result.
  - The chunk then yields an optional citations record followed by exactly
    one content record.

Modules:

- `Wrappers` (`wrappers.dfy`): `Option`.
- `Citations` (`citations.dfy`): `Citation`, the title map as an ordered
  `seq<Entry>`, and `Map.set` as `Set`.
- `RegexEscape` (`regex_escape.dfy`): the escape expression, and a reader
  for the literal text an escaped pattern matches.
- `Replace` (`replace.dfy`): literal global replacement. It also holds
  replacement with `$`-template expansion, which is what `String.replace`
  does with a string replacement.
- `AnswerRelay` (`relay.dfy`): chunks, records, the rewrite loop, the
  response stream as a class whose `records` the loop appends to, the
  relay loop, and the POST handler as a function of the query and the
  upstream chunks.

The rewrite loop (`RewriteContent`) and the relay loop (`Relay`,
`EmitChunk`) are methods. Each is proved against a specification function
(`RewriteAll`, `RelayOutput`), and the properties of the handler's output
are proved as lemmas about those functions.

The relay's replacement step goes through `String.replace`, which expands
`$` sequences in the replacement text. That behaviour is modelled
separately as `StepAsWritten` (see Findings). The rest of the model uses
the literal step `Step`, which inserts `[title](url)` verbatim.

## Model

| member | source | states |
|---|---|---|
| Citations.DisplayTitle | app/api/exaanswer/route.ts:41 | The title is never empty. It is the citation's own title when that is present and non-empty, and `Source` otherwise. |
| Citations.SetSpec | app/api/exaanswer/route.ts:38-43 | `Map.set` overwrites the entry of an existing key in place, without moving it, or else appends a new entry at the end. The length grows by one exactly when the key is new. No other entry changes, and keys stay distinct. |
| Citations.TitleMapDistinct | app/api/exaanswer/route.ts:38-43 | The title map has no two entries with the same URL. |
| Citations.TitleMapKeys | app/api/exaanswer/route.ts:38-43 | A URL is a key of the title map if and only if some citation of the chunk has that URL. |
| Citations.TitleMapLastWins | app/api/exaanswer/route.ts:38-43 | For every URL, the entry holds the display title of the last citation with that URL. |
| Citations.TitleMapFirstAppearanceOrder | app/api/exaanswer/route.ts:38-43 | Keys are ordered by first appearance. When key `i1` comes before key `i2`, URL `i1` is cited before every citation of URL `i2`. |
| Citations.TitleMapEntries | app/api/exaanswer/route.ts:38-43 | Every entry of the title map pairs some citation's URL with that citation's display title. |
| RegexEscape.EscapeConcat | app/api/exaanswer/route.ts:48 | Escaping works character by character: the escape of a concatenation is the concatenation of the escapes. |
| RegexEscape.EscapeIdentity | app/api/exaanswer/route.ts:48 | Escaping leaves a URL unchanged if and only if the URL has none of `. * + ? ^ $ { } ( ) \| [ ] \`. |
| RegexEscape.EscapeLength | app/api/exaanswer/route.ts:48 | Escaping never shortens the text. |
| RegexEscape.EscapeExact | app/api/exaanswer/route.ts:48-49 | A pattern reads as the literal text `s` if and only if it is the escape of `s`. Removing the escape backslashes gives the original back. |
| RegexEscape.PatternOfUrl | app/api/exaanswer/route.ts:48-49 | The pattern built for a URL (escaped parentheses around the escaped URL) matches exactly the literal text `(url)`. |
| Replace.ReplaceAllNoMatch | app/api/exaanswer/route.ts:50 | Content in which `(url)` does not occur comes back unchanged. |
| Replace.ReplaceAllFirstMatch | app/api/exaanswer/route.ts:50 | At the leftmost occurrence, the text before it is kept and the occurrence becomes the replacement. Scanning resumes after the occurrence, so the inserted text is not scanned again. |
| Replace.ReplaceAllSkip | app/api/exaanswer/route.ts:50 | A prefix in which no occurrence starts is copied unchanged. |
| Replace.ReplaceAllLength | app/api/exaanswer/route.ts:50 | A replacement at least as long as the pattern never shortens the text. |
| Replace.ExpandLiteral | app/api/exaanswer/route.ts:50 | A replacement template without `$` expands to itself. |
| Replace.TemplateAgreesWhenLiteral | app/api/exaanswer/route.ts:50 | With a template free of `$`, replacement with template expansion equals literal replacement. |
| AnswerRelay.StepAtFirstOccurrence | app/api/exaanswer/route.ts:49-50 | One map entry turns the first `(url)` into `[title](url)` verbatim, keeps the text before it, and carries on after it. |
| AnswerRelay.StepLinksVerbatim | app/api/exaanswer/route.ts:50 | A lone `(url)` becomes exactly `[title](url)`, whatever the title contains. |
| AnswerRelay.StepAgreesWithoutDollar | app/api/exaanswer/route.ts:50 | When neither the title nor the URL contains `$`, the step as written and the corrected step agree. |
| AnswerRelay.DollarTitleCounterexample | app/api/exaanswer/route.ts:50 | For the title `$$`, the step as written produces `[$](u)` while the corrected step produces `[$$](u)`. |
| AnswerRelay.RewriteAllAgreesWithoutDollar | app/api/exaanswer/route.ts:46-52 | When no entry has `$` in its title or URL, the fold over the map entries as the source performs it equals the corrected fold. |
| AnswerRelay.TransformAgreesWithoutDollar | app/api/exaanswer/route.ts:33-61 | When no citation of a chunk has `$` in its URL or title, the source's per-chunk transform equals the corrected one. |
| AnswerRelay.RelayOutputAgreesWithoutDollar | app/api/exaanswer/route.ts:31-71 | When no citation in the stream has `$` in its URL or title, the records the source writes are exactly the modelled relay output. |
| AnswerRelay.RewriteContent | app/api/exaanswer/route.ts:46-52 | The `forEach` over the map entries ends with the content rewritten by every entry in map order, each entry applied to the previous result. |
| AnswerRelay.RewriteAllSequential | app/api/exaanswer/route.ts:46-52 | Rewriting with entries `a` and then `b` is rewriting with `a + b`. |
| AnswerRelay.RewriteAllLength | app/api/exaanswer/route.ts:46-52 | Rewriting never shortens the content. |
| AnswerRelay.DeltaIsFormatted | app/api/exaanswer/route.ts:58 | The fallback `formattedContent \|\| chunk.content` always yields the formatted content. |
| AnswerRelay.ChunkRecordsShape | app/api/exaanswer/route.ts:55-70 | A chunk yields one or two records. The last record is the single content record, carrying the delta content. The first record is a citations record holding the unmodified citations if and only if the chunk has citations. |
| AnswerRelay.UncitedChunkPassesThrough | app/api/exaanswer/route.ts:36-64 | A chunk without citations yields one content record holding its content unchanged. |
| AnswerRelay.EmitAppend | app/api/exaanswer/route.ts:31-71 | The records for consecutive parts of the stream are concatenated. Nothing is reordered or batched. |
| AnswerRelay.EmitAt | app/api/exaanswer/route.ts:31-71 | Chunk `i`'s records come after those of the chunks before it and before those of the chunks after it. |
| AnswerRelay.EmitLength | app/api/exaanswer/route.ts:31-71 | The number of records is the number of chunks plus the number of chunks with citations. |
| AnswerRelay.RelayOutputAt | app/api/exaanswer/route.ts:31-71 | In the relay output, chunk `i`'s records come after those of chunks `0..i` and before the rest. |
| AnswerRelay.RelayOutputSnoc | app/api/exaanswer/route.ts:31-71 | One more chunk appends exactly that chunk's records. |
| AnswerRelay.CitedCountTransformAll | app/api/exaanswer/route.ts:64-67 | Transforming keeps each chunk's citations, so it keeps the number of chunks with citations. |
| AnswerRelay.RelayOutputLength | app/api/exaanswer/route.ts:31-71 | For N chunks the output has N records plus one for each chunk that has citations (`CitedChunks`, counted over the chunks themselves). |
| AnswerRelay.ResponseStream.Enqueue | app/api/exaanswer/route.ts:66-70 | Only an open stream accepts a record, and the record is appended at the end. |
| AnswerRelay.ResponseStream.Close | app/api/exaanswer/route.ts:72 | Closing keeps the records written so far. |
| AnswerRelay.EmitChunk | app/api/exaanswer/route.ts:32-70 | The loop body appends exactly the chunk's records to the open stream. |
| AnswerRelay.Relay | app/api/exaanswer/route.ts:31-72 | After the loop the stream holds its earlier records followed by the records of every chunk in order, and it is closed only after the last chunk. |
| AnswerRelay.Post | app/api/exaanswer/route.ts:14-87 | The response is a 400 error `query is required` if and only if the query is missing or empty, and then no upstream call is made. Otherwise the status is 200, the headers are `Content-Type: text/event-stream`, `Cache-Control: no-cache` and `Connection: keep-alive`, one upstream call is made with the query and the model `exa-pro`, and the body is the relay output of the upstream chunks. |

## Left out

- Next.js request and response plumbing (`req.json()`, `Response` objects, `maxDuration`, `dynamic`). The handler is a function from the request's `query` field to a response value.
- The upstream client and `streamAnswer`. Their output is the given finite sequence of chunks. The API key from the environment is not modelled.
- `ReadableStream`, `TextEncoder` and `JSON.stringify`. Records are datatype values appended to a sequence, not encoded bytes.
- `console.log` and `console.error`.
- The 500 response and the mid-stream error path (`controller.error`). Both are exception and transport behaviour.
- A general regular-expression engine. Matching is literal substring search. `PatternOfUrl` shows that the escaped pattern matches exactly the literal text `(url)`.
- AnswerRelay.Post: a `query` that is a non-string JSON value (a number, `false`, `null`) is not modelled. Only a missing or string query is.
- AnswerRelay.EmitChunk: the `typeof` guards are not modelled. Content and URLs are strings, so the guards always hold.
- AnswerRelay.RewriteContent: applies the corrected literal step, so `$$`, `$&`, `` $` `` and `$'` in a title or URL are inserted verbatim rather than expanded as `String.replace` does. `RewriteAllAgreesWithoutDollar` shows it agrees with the source whenever no entry contains `$`.
- AnswerRelay.RewriteAllLength: holds for the corrected literal step only. The source's step can shorten the content; for instance a URL `` $`$` `` with an empty title turns `` ($`$`) `` into `[]()`.
- AnswerRelay.EmitChunk: writes the records of the corrected transform, so `$` sequences in a title or URL are not expanded as the source does. `TransformAgreesWithoutDollar` shows it agrees with the source when no citation of the chunk contains `$`.
- AnswerRelay.Relay: writes `RelayOutput`, built on the corrected literal step, so `$` sequences are not expanded as the source does. `RelayOutputAgreesWithoutDollar` shows it equals the source's output `RelayOutputAsWritten` when no citation contains `$`.
- AnswerRelay.Post: its body is `RelayOutput`, built on the corrected literal step, with the same `$` caveat as `Relay`.
- Replace.ReplaceTemplate: `$n` and `$<name>` are treated as literal text. The relay's pattern has no capture groups, so `String.replace` leaves them unexpanded.

## Findings

| source | as written | input that shows it | evidently intended | confidence | as-written member | corrected member |
|---|---|---|---|---|---|---|
| app/api/exaanswer/route.ts:50 | The link `[${title}](${url})` is passed to `String.replace` as a replacement string, so `$$`, `$&`, `` $` `` and `$'` in a title or URL are expanded | content `(u)` with a citation of URL `u` and title `$$` gives `[$](u)` | the link is inserted verbatim, giving `[$$](u)` | not executed | AnswerRelay.DollarTitleCounterexample | AnswerRelay.StepLinksVerbatim |
