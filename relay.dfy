/**
 * The answer relay: the query check of the POST handler and the transform
 * applied to each chunk of the upstream answer stream before it is written
 * to the response as newline-delimited records.
 */
module AnswerRelay {
  import opened Wrappers
  import opened Citations
  import opened RegexEscape
  import opened Replace

  /** One chunk of the upstream answer: a text fragment and its citations. */
  datatype Chunk = Chunk(content: string, citations: seq<Citation>)

  /** One outbound record, before JSON encoding. */
  datatype Record =
    | CitationsRecord(citations: seq<Citation>)  // { citations }
    | ContentRecord(content: string)             // { choices: [{ delta: { content } }] }

  /** The markdown link that replaces a parenthesised URL. */
  function Link(e: Entry): string {
    "[" + e.title + "](" + e.url + ")"
  }

  /**
   * The text that the relay's regular expression for `url` matches: by
   * `PatternOfUrl`, the escaped pattern `RegexSource(url)` reads as exactly
   * this literal.
   */
  function UrlPattern(url: string): string {
    "(" + url + ")"
  }

  /** One title-map entry applied to the content: every `(url)` becomes `[title](url)`. */
  function Step(s: string, e: Entry): string {
    ReplaceAll(s, UrlPattern(e.url), Link(e))
  }

  /** The same step as the source performs it, with `$` sequences of the link expanded. */
  function StepAsWritten(s: string, e: Entry): string {
    ReplaceTemplate(s, UrlPattern(e.url), Link(e))
  }

  /** When neither the title nor the URL contains `$`, both steps agree. */
  lemma StepAgreesWithoutDollar(s: string, e: Entry)
    requires NoDollar(e.title) && NoDollar(e.url)
    ensures StepAsWritten(s, e) == Step(s, e)
  {
    TemplateAgreesWhenLiteral(s, UrlPattern(e.url), Link(e));
  }

  /** A parenthesised URL on its own becomes exactly the link, whatever the title contains. */
  lemma StepLinksVerbatim(e: Entry)
    ensures Step(UrlPattern(e.url), e) == Link(e)
  {
    var p := UrlPattern(e.url);
    ReplaceAllFirstMatch(p, p, Link(e), 0);
    assert p[..0] == [] && p[|p|..] == [];
  }

  /**
   * Each step keeps the text before the first `(url)`, turns that occurrence
   * into the link verbatim, and carries on after it.
   */
  lemma StepAtFirstOccurrence(s: string, e: Entry, i: nat)
    requires OccursAt(s, UrlPattern(e.url), i)
    requires forall k :: 0 <= k < i ==> !OccursAt(s, UrlPattern(e.url), k)
    ensures Step(s, e) == s[..i] + Link(e) + Step(s[i + |UrlPattern(e.url)|..], e)
  {
    ReplaceAllFirstMatch(s, UrlPattern(e.url), Link(e), i);
  }

  /** A title `$$` is shown as `$` by the source, and verbatim by the corrected step. */
  lemma DollarTitleCounterexample()
    ensures StepAsWritten("(u)", Entry("u", "$$")) == "[$](u)"
    ensures Step("(u)", Entry("u", "$$")) == "[$$](u)"
  {
    var s, link := "(u)", "[$$](u)";
    assert UrlPattern("u") == s;
    assert Link(Entry("u", "$$")) == link;
    ExpandPrefix(s);
    assert ReplaceTemplateFrom(s, s, link, 3) == [];
    assert ReplaceTemplateFrom(s, s, link, 0) == "[$](u)" + [] by {
      assert s[0..3] == s && s[..0] == [] && s[3..] == [];
    }
    assert ReplaceAll(s, s, link) == link + ReplaceAll([], s, link) by {
      assert s[..3] == s && s[3..] == [];
    }
  }

  lemma ExpandPrefix(s: string)
    ensures Expand("[$$](u)", s, [], []) == "[$](u)"
  {
    var t := "[$$](u)";
    assert t[0] == '[' && t[1..] == "$$](u)";
    ExpandEscapedDollar(s);
  }

  lemma ExpandEscapedDollar(s: string)
    ensures Expand("$$](u)", s, [], []) == "$](u)"
  {
    var t, tail := "$$](u)", "](u)";
    assert Expand(tail, s, [], []) == tail by {
      assert NoDollar(tail);
      ExpandLiteral(tail, s, [], []);
    }
    assert t[0] == '$' && t[1] == '$' && t[2..] == tail;
  }

  /** The URLs of the title map applied one after another, each to the previous result. */
  function RewriteAll(s: string, entries: seq<Entry>): string
    decreases |entries|
  {
    if entries == [] then s
    else Step(RewriteAll(s, entries[..|entries| - 1]), entries[|entries| - 1])
  }

  /** The `forEach` over the title map, reassigning the formatted content at each entry. */
  method RewriteContent(content: string, entries: seq<Entry>) returns (formatted: string)
    ensures formatted == RewriteAll(content, entries)
  {
    formatted := content;
    var i := 0;
    while i < |entries|
      invariant 0 <= i <= |entries|
      invariant formatted == RewriteAll(content, entries[..i])
    {
      assert entries[..i + 1][..i] == entries[..i];
      formatted := Step(formatted, entries[i]);
      i := i + 1;
    }
    assert entries[..i] == entries;
  }

  /** Rewriting with `a` then `b` is rewriting with `a + b`: each URL works on the previous result. */
  lemma {:induction false} RewriteAllSequential(s: string, a: seq<Entry>, b: seq<Entry>)
    ensures RewriteAll(s, a + b) == RewriteAll(RewriteAll(s, a), b)
    decreases |b|
  {
    if b == [] {
      assert a + b == a;
    } else {
      var b' := b[..|b| - 1];
      assert (a + b)[..|a + b| - 1] == a + b';
      RewriteAllSequential(s, a, b');
    }
  }

  /** Rewriting never shortens the content, since a link is longer than `(url)`. */
  lemma {:induction false} RewriteAllLength(s: string, entries: seq<Entry>)
    ensures |RewriteAll(s, entries)| >= |s|
    decreases |entries|
  {
    if entries != [] {
      var e := entries[|entries| - 1];
      var before := RewriteAll(s, entries[..|entries| - 1]);
      RewriteAllLength(s, entries[..|entries| - 1]);
      ReplaceAllLength(before, UrlPattern(e.url), Link(e));
    }
  }

  /** The fold as the source performs it, with `StepAsWritten` for each entry. */
  function RewriteAllAsWritten(s: string, entries: seq<Entry>): string
    decreases |entries|
  {
    if entries == [] then s
    else StepAsWritten(RewriteAllAsWritten(s, entries[..|entries| - 1]), entries[|entries| - 1])
  }

  /** An entry whose title and URL have no `$`, so that template expansion leaves its link alone. */
  predicate LiteralEntry(e: Entry) {
    NoDollar(e.title) && NoDollar(e.url)
  }

  /** Over entries without `$`, the source's rewrite and the corrected rewrite agree. */
  lemma {:induction false} RewriteAllAgreesWithoutDollar(s: string, entries: seq<Entry>)
    requires forall e | e in entries :: LiteralEntry(e)
    ensures RewriteAllAsWritten(s, entries) == RewriteAll(s, entries)
    decreases |entries|
  {
    if entries != [] {
      var prefix, last := entries[..|entries| - 1], entries[|entries| - 1];
      assert forall e | e in prefix :: e in entries;
      RewriteAllAgreesWithoutDollar(s, prefix);
      assert last in entries;
      StepAgreesWithoutDollar(RewriteAll(s, prefix), last);
    }
  }

  /** The content after the citation rewrite (unchanged when the chunk has no citations). */
  function FormattedContent(c: Chunk): string {
    if |c.citations| > 0 then RewriteAll(c.content, TitleMap(c.citations)) else c.content
  }

  /** `formattedContent || chunk.content`. */
  function DeltaContent(c: Chunk): string {
    var f := FormattedContent(c);
    if f != "" then f else c.content
  }

  /** The fallback to the original content never changes the outcome. */
  lemma DeltaIsFormatted(c: Chunk)
    ensures DeltaContent(c) == FormattedContent(c)
  {
    if |c.citations| > 0 {
      RewriteAllLength(c.content, TitleMap(c.citations));
    }
  }

  /** What one chunk contributes to the response: its raw citations and its delta content. */
  datatype Outgoing = Outgoing(citations: seq<Citation>, content: string)

  /** The per-chunk transform. */
  function Transform(c: Chunk): Outgoing {
    Outgoing(c.citations, DeltaContent(c))
  }

  /** The records written for one transformed chunk. */
  function Frame(o: Outgoing): seq<Record> {
    (if |o.citations| > 0 then [CitationsRecord(o.citations)] else []) + [ContentRecord(o.content)]
  }

  /** The records written for one chunk. */
  function ChunkRecords(c: Chunk): seq<Record> {
    Frame(Transform(c))
  }

  /**
   * Exactly one content record per chunk, carrying the delta content, and
   * immediately before it a record with the raw citation list if and only
   * if the chunk has citations.
   */
  lemma ChunkRecordsShape(c: Chunk)
    ensures |ChunkRecords(c)| == if |c.citations| > 0 then 2 else 1
    ensures ChunkRecords(c)[|ChunkRecords(c)| - 1] == ContentRecord(DeltaContent(c))
    ensures ChunkRecords(c)[0] == CitationsRecord(c.citations) <==> |c.citations| > 0
  {
  }

  /** A chunk without citations passes its content through and yields one record. */
  lemma UncitedChunkPassesThrough(c: Chunk)
    requires c.citations == []
    ensures ChunkRecords(c) == [ContentRecord(c.content)]
  {
  }

  /** Every chunk transformed, in stream order. */
  function TransformAll(chunks: seq<Chunk>): seq<Outgoing> {
    seq(|chunks|, i requires 0 <= i < |chunks| => Transform(chunks[i]))
  }

  /** The records for a sequence of transformed chunks, one chunk after another. */
  function Emit(os: seq<Outgoing>): seq<Record>
    decreases |os|
  {
    if os == [] then []
    else Emit(os[..|os| - 1]) + Frame(os[|os| - 1])
  }

  /** The records written for a stream of chunks. */
  function RelayOutput(chunks: seq<Chunk>): seq<Record> {
    Emit(TransformAll(chunks))
  }

  /** The number of chunks that carry at least one citation. */
  function CitedCount(os: seq<Outgoing>): nat
    decreases |os|
  {
    if os == [] then 0
    else CitedCount(os[..|os| - 1]) + (if |os[|os| - 1].citations| > 0 then 1 else 0)
  }

  /** A citation whose URL and title (when present) have no `$`. */
  predicate LiteralCitation(c: Citation) {
    NoDollar(c.url) && (c.title.Some? ==> NoDollar(c.title.value))
  }

  /** The per-chunk transform as the source performs it, with `$` sequences of each link expanded. */
  function TransformAsWritten(c: Chunk): Outgoing {
    var f := if |c.citations| > 0 then RewriteAllAsWritten(c.content, TitleMap(c.citations)) else c.content;
    Outgoing(c.citations, if f != "" then f else c.content)
  }

  /** The records the source writes for a stream of chunks. */
  function RelayOutputAsWritten(chunks: seq<Chunk>): seq<Record> {
    Emit(seq(|chunks|, i requires 0 <= i < |chunks| => TransformAsWritten(chunks[i])))
  }

  /** For a chunk whose citations have no `$`, the source's transform and the corrected one agree. */
  lemma TransformAgreesWithoutDollar(c: Chunk)
    requires forall i | 0 <= i < |c.citations| :: LiteralCitation(c.citations[i])
    ensures TransformAsWritten(c) == Transform(c)
  {
    if |c.citations| > 0 {
      var m := TitleMap(c.citations);
      TitleMapEntries(c.citations);
      forall e | e in m
        ensures LiteralEntry(e)
      {
        var j :| 0 <= j < |c.citations| && e == Entry(c.citations[j].url, DisplayTitle(c.citations[j]));
        assert LiteralCitation(c.citations[j]);
        assert NoDollar("Source");
      }
      RewriteAllAgreesWithoutDollar(c.content, m);
    }
  }

  /**
   * When no citation in the stream has a `$` in its URL or title, the
   * records the source writes are exactly the modelled relay output.
   */
  lemma RelayOutputAgreesWithoutDollar(chunks: seq<Chunk>)
    requires forall k, i | 0 <= k < |chunks| && 0 <= i < |chunks[k].citations| ::
               LiteralCitation(chunks[k].citations[i])
    ensures RelayOutputAsWritten(chunks) == RelayOutput(chunks)
  {
    var written := seq(|chunks|, i requires 0 <= i < |chunks| => TransformAsWritten(chunks[i]));
    forall k | 0 <= k < |chunks|
      ensures written[k] == TransformAll(chunks)[k]
    {
      TransformAgreesWithoutDollar(chunks[k]);
    }
    assert written == TransformAll(chunks);
  }

  /** The output of consecutive parts of the stream is concatenated: nothing is reordered or batched. */
  lemma {:induction false} EmitAppend(a: seq<Outgoing>, b: seq<Outgoing>)
    ensures Emit(a + b) == Emit(a) + Emit(b)
    decreases |b|
  {
    if b == [] {
      assert a + b == a;
    } else {
      var b', last := b[..|b| - 1], b[|b| - 1];
      assert (a + b)[..|a + b| - 1] == a + b' && (a + b)[|a + b| - 1] == last;
      EmitAppend(a, b');
    }
  }

  /** Chunk `i`'s records stand between those of the chunks before it and those after it. */
  lemma EmitAt(os: seq<Outgoing>, i: nat)
    requires i < |os|
    ensures Emit(os) == Emit(os[..i]) + Frame(os[i]) + Emit(os[i + 1..])
  {
    var upTo, after := os[..i + 1], os[i + 1..];
    assert os == upTo + after;
    EmitAppend(upTo, after);
    EmitSnoc(os, i);
  }

  lemma EmitSnoc(os: seq<Outgoing>, i: nat)
    requires i < |os|
    ensures Emit(os[..i + 1]) == Emit(os[..i]) + Frame(os[i])
  {
    assert os[..i + 1][..i] == os[..i];
  }

  /** One record per chunk, plus one per chunk with citations. */
  lemma {:induction false} EmitLength(os: seq<Outgoing>)
    ensures |Emit(os)| == |os| + CitedCount(os)
    decreases |os|
  {
    if os != [] {
      EmitLength(os[..|os| - 1]);
    }
  }

  /** In the relay output, chunk `i`'s records follow those of chunks `0..i` and precede the rest. */
  lemma RelayOutputAt(chunks: seq<Chunk>, i: nat)
    requires i < |chunks|
    ensures RelayOutput(chunks)
         == RelayOutput(chunks[..i]) + ChunkRecords(chunks[i]) + RelayOutput(chunks[i + 1..])
  {
    EmitAt(TransformAll(chunks), i);
    TransformAllPrefix(chunks, i);
    TransformAllSuffix(chunks, i + 1);
  }

  /** Transforming a prefix of the stream gives the same prefix of the transformed stream. */
  lemma TransformAllPrefix(chunks: seq<Chunk>, i: nat)
    requires i <= |chunks|
    ensures TransformAll(chunks)[..i] == TransformAll(chunks[..i])
  {
  }

  /** Transforming a suffix of the stream gives the same suffix of the transformed stream. */
  lemma TransformAllSuffix(chunks: seq<Chunk>, i: nat)
    requires i <= |chunks|
    ensures TransformAll(chunks)[i..] == TransformAll(chunks[i..])
  {
  }

  /** Extending a prefix of the stream by one chunk appends that chunk's records. */
  lemma RelayOutputSnoc(chunks: seq<Chunk>, i: nat)
    requires i < |chunks|
    ensures RelayOutput(chunks[..i + 1]) == RelayOutput(chunks[..i]) + ChunkRecords(chunks[i])
  {
    var os := TransformAll(chunks[..i + 1]);
    assert os[..i] == TransformAll(chunks[..i]);
  }

  /** The number of chunks of the stream that carry at least one citation. */
  function CitedChunks(chunks: seq<Chunk>): nat
    decreases |chunks|
  {
    if chunks == [] then 0
    else CitedChunks(chunks[..|chunks| - 1]) + (if |chunks[|chunks| - 1].citations| > 0 then 1 else 0)
  }

  /** Transforming keeps the citations, so it keeps the number of cited chunks. */
  lemma {:induction false} CitedCountTransformAll(chunks: seq<Chunk>)
    ensures CitedCount(TransformAll(chunks)) == CitedChunks(chunks)
    decreases |chunks|
  {
    if chunks != [] {
      var n := |chunks| - 1;
      var os := TransformAll(chunks);
      TransformAllPrefix(chunks, n);
      assert os[..|os| - 1] == TransformAll(chunks[..n]);
      CitedCountTransformAll(chunks[..n]);
    }
  }

  /** One record per chunk, plus one per chunk with citations. */
  lemma RelayOutputLength(chunks: seq<Chunk>)
    ensures |RelayOutput(chunks)| == |chunks| + CitedChunks(chunks)
  {
    EmitLength(TransformAll(chunks));
    CitedCountTransformAll(chunks);
  }

  /** The response body: records are written one at a time, then the stream is closed. */
  class ResponseStream {
    var records: seq<Record>
    var closed: bool

    constructor ()
      ensures records == [] && !closed
    {
      records := [];
      closed := false;
    }

    /** `controller.enqueue`: only an open stream accepts records. */
    method Enqueue(r: Record)
      requires !closed
      modifies this
      ensures records == old(records) + [r] && !closed
    {
      records := records + [r];
    }

    /** `controller.close`. */
    method Close()
      requires !closed
      modifies this
      ensures closed && records == old(records)
    {
      closed := true;
    }
  }

  /** The body of the `for await` loop: rewrite one chunk and write its records. */
  method EmitChunk(chunk: Chunk, out: ResponseStream)
    requires !out.closed
    modifies out
    ensures !out.closed
    ensures out.records == old(out.records) + ChunkRecords(chunk)
  {
    var formatted := chunk.content;
    if |chunk.citations| > 0 {
      var titles := TitleMap(chunk.citations);
      formatted := RewriteContent(formatted, titles);
    }
    assert formatted == FormattedContent(chunk);
    var delta := if formatted != "" then formatted else chunk.content;
    if |chunk.citations| > 0 {
      out.Enqueue(CitationsRecord(chunk.citations));
    }
    out.Enqueue(ContentRecord(delta));
  }

  /** The `for await` loop over the upstream chunks, followed by closing the stream. */
  method Relay(chunks: seq<Chunk>, out: ResponseStream)
    requires !out.closed
    modifies out
    ensures out.closed
    ensures out.records == old(out.records) + RelayOutput(chunks)
  {
    ghost var start := out.records;
    for i := 0 to |chunks|
      invariant !out.closed
      invariant out.records == start + RelayOutput(chunks[..i])
    {
      EmitChunk(chunks[i], out);
      RelayOutputSnoc(chunks, i);
    }
    assert chunks[..|chunks|] == chunks;
    out.Close();
  }

  /** The model selector sent upstream with every query. */
  const UpstreamModel := "exa-pro"

  /** The upstream streaming call the handler opens. */
  datatype UpstreamCall = UpstreamCall(query: string, model: string)

  datatype Response =
    | ErrorResponse(status: nat, error: string)
    | StreamResponse(status: nat, call: UpstreamCall, headers: seq<(string, string)>, body: seq<Record>)

  /**
   * The POST handler, given the request's `query` field and the chunks the
   * upstream call yields for it.
   */
  function Post(query: Option<string>, upstream: seq<Chunk>): (r: Response)
    ensures r.ErrorResponse? <==> query == None || query == Some("")
    ensures r.ErrorResponse? ==> r.status == 400 && r.error == "query is required"
    ensures r.StreamResponse? ==>
              r.status == 200 && r.call == UpstreamCall(query.value, "exa-pro") && r.body == RelayOutput(upstream)
    ensures r.StreamResponse? ==>
              r.headers == [("Content-Type", "text/event-stream"), ("Cache-Control", "no-cache"), ("Connection", "keep-alive")]
  {
    if query == None || query == Some("") then
      ErrorResponse(400, "query is required")
    else
      StreamResponse(200, UpstreamCall(query.value, UpstreamModel),
                     [("Content-Type", "text/event-stream"),
                      ("Cache-Control", "no-cache"),
                      ("Connection", "keep-alive")],
                     RelayOutput(upstream))
  }
}
