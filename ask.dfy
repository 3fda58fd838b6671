/**
 * `ask_question`: the `/ask` endpoint.  It checks the `X-API-Key` header, ranks the chunks of
 * the request's documents, builds the context handed to the chat model, and answers with the
 * model's reply and the titles of the documents the context came from.  Failures of the
 * embedding or chat calls become HTTP errors.
 *
 * The embedding service and the chat model are outside the model; they are given as outcomes:
 * `embed` is what the two embedding calls produce (the similarity of each chunk, or the text of
 * the exception they raised), `chat` the reply to a context and a question (or the text of the
 * exception it raised).
 */
module Ask {
  import opened Wrappers
  import opened Text
  import opened Chunking
  import opened Schema
  import opened Ranking

  /** An `HTTPException`: status code and detail. */
  datatype HttpError = HttpError(status: int, detail: string)

  /** The outcome of a call into a service: its value, or the text of the exception raised. */
  datatype Call<T> = Returned(value: T) | Raised(message: string)

  /** The `top_k` that `ask_question` passes. */
  const TopK := 3

  const MissingKeyDetail := "X-API-Key header is required"
  const KeyFormatDetail := "Invalid API key format. Must start with 'sk-'"
  const BadOpenAIKeyDetail := "Invalid OpenAI API key"
  const ServiceErrorPrefix := "OpenAI API error: "

  // ---------------------------------------------------------------------------
  // Key gating

  /** The two checks on the header, in order: present and non-empty, then the `sk-` prefix. */
  function CheckApiKey(key: Option<string>): (r: Result<string, HttpError>)
    ensures r.Ok? <==> key.Some? && HasPrefix(key.value, "sk-")
    ensures r.Ok? ==> r.value == key.value
    ensures (key == None || key == Some("")) ==> r == Err(HttpError(400, MissingKeyDetail))
    ensures key.Some? && key.value != "" && !HasPrefix(key.value, "sk-") ==> r == Err(HttpError(400, KeyFormatDetail))
  {
    if key.None? || key.value == "" then Err(HttpError(400, MissingKeyDetail))
    else if !HasPrefix(key.value, "sk-") then Err(HttpError(400, KeyFormatDetail))
    else Ok(key.value)
  }

  // ---------------------------------------------------------------------------
  // Error mapping

  /**
   * The except-branch as written: the first test looks for a mixed-case phrase in a lowercased
   * message. Either a 401 with the key detail or a 500 carrying the message; "invalid" always gives
   * the 401 (`AsWrittenTestsOnlyInvalid` shows it is the only way to get one).
   */
  function MapErrorAsWritten(message: string): (e: HttpError)
    ensures e.status == 401 ==> e.detail == BadOpenAIKeyDetail
    ensures e.status != 401 ==> e == HttpError(500, ServiceErrorPrefix + message)
    ensures Contains(Lower(message), "invalid") ==> e.status == 401
  {
    var lowered := Lower(message);
    if Contains(lowered, "incorrect API key") || Contains(lowered, "invalid") then HttpError(401, BadOpenAIKeyDetail)
    else HttpError(500, ServiceErrorPrefix + message)
  }

  /** The except-branch as intended: both phrases are looked for, case-insensitively. */
  function MapError(message: string): (e: HttpError)
    ensures e.status == 401 <==> Contains(Lower(message), "incorrect api key") || Contains(Lower(message), "invalid")
    ensures e.status == 401 ==> e.detail == BadOpenAIKeyDetail
    ensures e.status != 401 ==> e == HttpError(500, ServiceErrorPrefix + message)
  {
    var lowered := Lower(message);
    if Contains(lowered, "incorrect api key") || Contains(lowered, "invalid") then HttpError(401, BadOpenAIKeyDetail)
    else HttpError(500, ServiceErrorPrefix + message)
  }

  /** No lowercased message contains "incorrect API key": the phrase holds the capitals A, P and I. */
  lemma MixedCasePhraseNeverFound(message: string)
    ensures !Contains(Lower(message), "incorrect API key")
  {
    if Contains(Lower(message), "incorrect API key") {
      ContainsHasChar(Lower(message), "incorrect API key", 10);
      LowerHasNoUpper(message);
      assert false;
    }
  }

  /** As written, only "invalid" decides: a message is a 401 exactly when its lowercase form contains "invalid". */
  lemma AsWrittenTestsOnlyInvalid(message: string)
    ensures MapErrorAsWritten(message).status == 401 <==> Contains(Lower(message), "invalid")
    ensures MapErrorAsWritten(message).status != 401 ==> MapErrorAsWritten(message) == HttpError(500, ServiceErrorPrefix + message)
  {
    MixedCasePhraseNeverFound(message);
  }

  /** A text lacking one of a needle's characters does not contain the needle. */
  lemma MissingCharNotContained(s: string, needle: string, j: nat)
    requires j < |needle|
    requires forall i :: 0 <= i < |s| ==> s[i] != needle[j]
    ensures !Contains(s, needle)
  {
    if Contains(s, needle) {
      ContainsHasChar(s, needle, j);
      assert false;
    }
  }

  /**
   * Every message that names an incorrect key without saying "invalid" is misclassified as written:
   * a 500 where the corrected mapping gives the 401.
   */
  lemma AsWrittenMisclassifiesKeyErrors(message: string)
    requires Contains(Lower(message), "incorrect api key") && !Contains(Lower(message), "invalid")
    ensures MapErrorAsWritten(message) == HttpError(500, ServiceErrorPrefix + message)
    ensures MapError(message) == HttpError(401, BadOpenAIKeyDetail)
  {
    AsWrittenTestsOnlyInvalid(message);
  }

  /** The message "Incorrect API key provided" is a 500 as written, and the 401 it was meant to be once corrected. */
  lemma IncorrectKeyMessageMisclassified()
    ensures MapErrorAsWritten("Incorrect API key provided") == HttpError(500, ServiceErrorPrefix + "Incorrect API key provided")
    ensures MapError("Incorrect API key provided") == HttpError(401, BadOpenAIKeyDetail)
  {
    var m := "Incorrect API key provided";
    LowerIncorrectKeyMessage();
    assert HasPrefix(Lower(m), "incorrect api key");
    InvalidNotInIncorrectKeyMessage();
    AsWrittenMisclassifiesKeyErrors(m);
  }

  lemma LowerIncorrectKeyMessage()
    ensures Lower("Incorrect API key provided") == "incorrect api key provided"
  {
  }

  /** "invalid" holds an 'l', and the lowercased message has none. */
  lemma InvalidNotInIncorrectKeyMessage()
    ensures !Contains("incorrect api key provided", "invalid")
  {
    var lowered := "incorrect api key provided";
    assert forall i :: 0 <= i < |lowered| ==> lowered[i] != 'l';
    assert "invalid"[4] == 'l';
    MissingCharNotContained(lowered, "invalid", 4);
  }

  /** Corrected, the test ignores case: a message containing either phrase in any capitalisation is a 401. */
  lemma MapErrorIgnoresCase(message: string, phrase: string)
    requires Lower(phrase) == "incorrect api key" || Lower(phrase) == "invalid"
    requires Contains(message, phrase)
    ensures MapError(message) == HttpError(401, BadOpenAIKeyDetail)
  {
    LowerKeepsContains(message, phrase);
  }

  // ---------------------------------------------------------------------------
  // Context and sources

  function Header(title: string): string {
    "From '" + title + "':"
  }

  /** One context entry: `f"From '{title}':\n{chunk}"`. */
  function Excerpt(entry: Scored): string {
    Header(entry.title) + "\n" + entry.chunk
  }

  function Excerpts(ranked: seq<Scored>): seq<string> {
    seq(|ranked|, i requires 0 <= i < |ranked| => Excerpt(ranked[i]))
  }

  /** The context: the entries' excerpts joined by blank lines, in ranked order. */
  function Context(ranked: seq<Scored>): string {
    Join(Excerpts(ranked), "\n\n")
  }

  predicate NoNewline(s: string) {
    forall i :: 0 <= i < |s| ==> s[i] != '\n'
  }

  /** The lines a context reads back as, when no title or chunk holds a line feed. */
  predicate ReadsBack(ranked: seq<Scored>, lines: seq<string>) {
    && |lines| == (if ranked == [] then 1 else 3 * |ranked| - 1)
    && (forall i :: 0 <= i < |ranked| ==> lines[3 * i] == Header(ranked[i].title) && lines[3 * i + 1] == ranked[i].chunk)
    && (forall i :: 0 <= i < |ranked| - 1 ==> lines[3 * i + 2] == "")
  }

  lemma ExcerptLines(x: Scored)
    requires NoNewline(x.title) && NoNewline(x.chunk)
    ensures Lines(Excerpt(x)) == [Header(x.title), x.chunk]
  {
    var h := Header(x.title);
    assert forall i :: 0 <= i < |h| ==> h[i] != '\n' by {
      assert forall i :: 6 <= i < 6 + |x.title| ==> h[i] == x.title[i - 6];
    }
    LinesAppend(h, x.chunk);
    LinesOfLine(h);
    LinesOfLine(x.chunk);
  }

  /** A context of two or more entries is the first excerpt, a blank line, and the context of the rest. */
  lemma ContextLinesCons(ranked: seq<Scored>)
    requires |ranked| >= 2
    requires NoNewline(ranked[0].title) && NoNewline(ranked[0].chunk)
    ensures Lines(Context(ranked)) == [Header(ranked[0].title), ranked[0].chunk, ""] + Lines(Context(ranked[1..]))
  {
    var x := ranked[0];
    var cr := Context(ranked[1..]);
    assert Excerpts(ranked) == [Excerpt(x)] + Excerpts(ranked[1..]);
    assert Context(ranked) == Excerpt(x) + "\n" + ("" + "\n" + cr);
    LinesAppend(Excerpt(x), "" + "\n" + cr);
    LinesAppend("", cr);
    LinesOfLine("");
    ExcerptLines(x);
  }

  /**
   * The context can be read back line by line: line 3i is the header of the i-th entry,
   * line 3i + 1 its chunk, and a blank line separates consecutive entries.
   */
  lemma {:induction false} ContextReadBack(ranked: seq<Scored>)
    requires forall i :: 0 <= i < |ranked| ==> NoNewline(ranked[i].title) && NoNewline(ranked[i].chunk)
    ensures ReadsBack(ranked, Lines(Context(ranked)))
  {
    if |ranked| == 1 {
      assert Context(ranked) == Excerpt(ranked[0]);
      ExcerptLines(ranked[0]);
    } else if |ranked| >= 2 {
      var rest := ranked[1..];
      ContextReadBack(rest);
      ContextLinesCons(ranked);
      ReadsBackCons(ranked, Lines(Context(rest)));
    }
  }

  /** Reading back extends entry by entry: a header, a chunk and a blank line before the rest's lines. */
  lemma ReadsBackCons(ranked: seq<Scored>, rest: seq<string>)
    requires |ranked| >= 2 && ReadsBack(ranked[1..], rest)
    ensures ReadsBack(ranked, [Header(ranked[0].title), ranked[0].chunk, ""] + rest)
  {
    var ls := [Header(ranked[0].title), ranked[0].chunk, ""] + rest;
    forall i | 1 <= i < |ranked|
      ensures ls[3 * i] == Header(ranked[i].title) && ls[3 * i + 1] == ranked[i].chunk
    {
      assert ls[3 * i] == rest[3 * (i - 1)];
      assert ls[3 * i + 1] == rest[3 * (i - 1) + 1];
      assert ranked[1..][i - 1] == ranked[i];
    }
    forall i | 1 <= i < |ranked| - 1 ensures ls[3 * i + 2] == "" {
      assert ls[3 * i + 2] == rest[3 * (i - 1) + 2];
    }
  }

  predicate NoDuplicates(s: seq<string>) {
    forall i, j :: 0 <= i < j < |s| ==> s[i] != s[j]
  }

  /** The distinct values of `s`, each once, in order of first occurrence. */
  function Distinct(s: seq<string>): (r: seq<string>)
    ensures NoDuplicates(r)
    ensures forall x :: x in r <==> x in s
  {
    if s == [] then []
    else
      var rest := Distinct(s[..|s| - 1]);
      if s[|s| - 1] in rest then rest else rest + [s[|s| - 1]]
  }

  function Titles(ranked: seq<Scored>): seq<string> {
    seq(|ranked|, i requires 0 <= i < |ranked| => ranked[i].title)
  }

  /** `list(set(title for each entry))`: each title of the entries exactly once, and nothing else. */
  function Sources(ranked: seq<Scored>): (r: seq<string>)
    ensures NoDuplicates(r)
    ensures forall t :: t in r <==> exists i :: 0 <= i < |ranked| && ranked[i].title == t
  {
    var titles := Titles(ranked);
    assert forall i :: 0 <= i < |ranked| ==> titles[i] == ranked[i].title;
    Distinct(titles)
  }

  // ---------------------------------------------------------------------------
  // The endpoint

  /**
   * `ask_question`.  The key checks are decided first and alone: on a key error the response is
   * that error whatever `embed` and `chat` are, so no service outcome can influence it.
   * `contacted` is set by this method on the path past the key checks; it records which path was
   * taken and is not by itself evidence about the calls.
   */
  method AskQuestion(request: AskRequest, apiKey: Option<string>, embed: Call<nat -> int>,
                     chat: (string, string) -> Call<string>)
    returns (response: Result<AskResponse, HttpError>, contacted: bool)
    ensures contacted <==> CheckApiKey(apiKey).Ok?
    ensures CheckApiKey(apiKey).Err? ==> response == Err(CheckApiKey(apiKey).error)
    ensures CheckApiKey(apiKey).Ok? && embed.Raised? ==> response == Err(MapError(embed.message))
    ensures CheckApiKey(apiKey).Ok? && embed.Returned? ==>
      var ranked := Ranked(request.documents, embed.value, TopK);
      var reply := chat(Context(ranked), request.question);
      response == if reply.Raised? then Err(MapError(reply.message)) else Ok(AskResponse(reply.value, Sources(ranked)))
  {
    var checked := CheckApiKey(apiKey);
    if checked.Err? {
      return Err(checked.error), false;
    }
    contacted := true;
    if embed.Raised? {
      return Err(MapError(embed.message)), contacted;
    }
    var relevantChunks := FindRelevantChunks(request.documents, embed.value, TopK);
    var context := Context(relevantChunks);
    var reply := chat(context, request.question);
    if reply.Raised? {
      return Err(MapError(reply.message)), contacted;
    }
    var sources := Sources(relevantChunks);
    response := Ok(AskResponse(reply.value, sources));
  }

  // ---------------------------------------------------------------------------
  // What the answer promises

  /** Every source is the title of one of the request's documents. */
  lemma SourcesAreDocumentTitles(docs: seq<Document>, similarity: nat -> int, topK: int)
    ensures forall t :: t in Sources(Ranked(docs, similarity, topK)) ==> exists k :: 0 <= k < |docs| && docs[k].title == t
  {
    var r := Ranked(docs, similarity, topK);
    RankedFromDocuments(docs, similarity, topK);
    forall t | t in Sources(r) ensures exists k :: 0 <= k < |docs| && docs[k].title == t {
      var i :| 0 <= i < |r| && r[i].title == t;
      assert FromDocument(r[i].title, r[i].chunk, docs);
    }
  }

  /** Titles that are all one title yield that title once. */
  lemma {:induction false} DistinctOfOne(s: seq<string>, title: string)
    requires s != []
    requires forall i :: 0 <= i < |s| ==> s[i] == title
    ensures Distinct(s) == [title]
  {
    if |s| > 1 {
      DistinctOfOne(s[..|s| - 1], title);
    }
  }

  /** A single document with any words in it is the one source of the answer. */
  lemma SingleDocumentSource(doc: Document, similarity: nat -> int, topK: int)
    requires topK >= 1
    requires exists i :: 0 <= i < |doc.content| && !IsSpace(doc.content[i])
    ensures Sources(Ranked([doc], similarity, topK)) == [doc.title]
  {
    var r := Ranked([doc], similarity, topK);
    ChunksEmpty(doc.content, DefaultChunkSize);
    assert Passages([doc]) == DocumentPassages(doc) by {
      assert [doc][..0] == [];
    }
    RankedLength([doc], similarity, topK);
    assert |r| >= 1;
    RankedFromDocuments([doc], similarity, topK);
    forall i | 0 <= i < |r| ensures r[i].title == doc.title {
      assert FromDocument(r[i].title, r[i].chunk, [doc]);
    }
    DistinctOfOne(Titles(r), doc.title);
  }

  /** With titles free of line feeds, the context of the ranked chunks reads back entry by entry. */
  lemma RankedContextReadBack(docs: seq<Document>, similarity: nat -> int, topK: int)
    requires forall k :: 0 <= k < |docs| ==> NoNewline(docs[k].title)
    ensures ReadsBack(Ranked(docs, similarity, topK), Lines(Context(Ranked(docs, similarity, topK))))
  {
    var ranked := Ranked(docs, similarity, topK);
    RankedFromDocuments(docs, similarity, topK);
    forall i | 0 <= i < |ranked| ensures NoNewline(ranked[i].title) && NoNewline(ranked[i].chunk) {
      assert FromDocument(ranked[i].title, ranked[i].chunk, docs);
      var k :| 0 <= k < |docs| && ranked[i].title == docs[k].title &&
        ranked[i].chunk in Chunks(docs[k].content, DefaultChunkSize);
      ChunksWellFormed(docs[k].content, DefaultChunkSize);
      var chunks := Chunks(docs[k].content, DefaultChunkSize);
      var j :| 0 <= j < |chunks| && chunks[j] == ranked[i].chunk;
      assert SingleSpaced(chunks[j]);
    }
    ContextReadBack(ranked);
  }
}
