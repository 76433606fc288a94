/**
 * The extraction run (`run`, `upsert_result`): documents are visited in order, skipped when
 * already scraped (on a continued run) or blank, and otherwise extracted, upserted into the
 * results by id, and the results written out after each one.
 */
module Runs {
  import opened Basics
  import opened JsonValue
  import opened Text
  import opened Cleaning
  import opened Extraction

  /** `llm_options`: what the result records about the model and its sizes. */
  datatype LlmOptions = LlmOptions(modelPath: string, contextSize: nat, responseTokens: nat)

  /** One saved result. `data` is the decoded JSON, or `JNull` when decoding failed. */
  datatype ExtractionResult = ExtractionResult(
    id: Json, text: string, prompt: string, response: string, data: Json, options: LlmOptions)

  /** An input document: its id and its text, as read from the input JSON. */
  datatype Document = Document(id: Json, text: Json)

  /**
   * What the run cannot see: the model's tokenizer (a token count for a text), its completion
   * stream for a prompt, the JSON decoder (`None` for a decode error), and the model's path.
   */
  datatype Model = Model(
    countTokens: string -> nat, complete: string -> seq<Chunk>, parseJson: string -> Option<Json>, modelPath: string)

  /** The index of the first result with the id, or the number of results when there is none. */
  function FindId(results: seq<ExtractionResult>, id: Json): (k: nat)
    ensures k <= |results|
    ensures k < |results| ==> results[k].id == id
    ensures forall j :: 0 <= j < k ==> results[j].id != id
    decreases |results|
  {
    if |results| == 0 then 0
    else if results[0].id == id then 0
    else 1 + FindId(results[1..], id)
  }

  /** `upsert_result`: replace the first result with the same id, or append when there is none. */
  function Upsert(results: seq<ExtractionResult>, result: ExtractionResult): (r: seq<ExtractionResult>)
    ensures |r| == if FindId(results, result.id) < |results| then |results| else |results| + 1
    decreases |results|
  {
    if |results| == 0 then [result]
    else if results[0].id == result.id then [result] + results[1..]
    else [results[0]] + Upsert(results[1..], result)
  }

  /** The ids of the results: the code's `already_scraped`. */
  function Ids(results: seq<ExtractionResult>): set<Json>
  {
    set i | 0 <= i < |results| :: results[i].id
  }

  /** No two results share an id. */
  predicate UniqueIds(results: seq<ExtractionResult>) {
    forall i, j :: 0 <= i < j < |results| ==> results[i].id != results[j].id
  }

  /** An upsert replaces the first result with the id when there is one, and appends otherwise. */
  lemma {:induction false} UpsertShape(results: seq<ExtractionResult>, result: ExtractionResult)
    ensures FindId(results, result.id) == |results| ==> Upsert(results, result) == results + [result]
    ensures FindId(results, result.id) < |results| ==>
      Upsert(results, result) == results[FindId(results, result.id) := result]
    decreases |results|
  {
    if |results| > 0 && results[0].id != result.id {
      var rest := results[1..];
      UpsertShape(rest, result);
      assert results == [results[0]] + rest;
      if FindId(rest, result.id) == |rest| {
        assert [results[0]] + (rest + [result]) == results + [result];
      } else {
        var k := FindId(rest, result.id);
        assert [results[0]] + rest[k := result] == results[k + 1 := result];
      }
    }
  }

  /** The ids of a result followed by others. */
  lemma IdsCons(x: ExtractionResult, results: seq<ExtractionResult>)
    ensures Ids([x] + results) == {x.id} + Ids(results)
  {
    var xs := [x] + results;
    forall y | y in Ids(results) ensures y in Ids(xs) {
      var i :| 0 <= i < |results| && results[i].id == y;
      assert xs[i + 1] == results[i];
    }
    forall y | y in Ids(xs) ensures y in {x.id} + Ids(results) {
      var i :| 0 <= i < |xs| && xs[i].id == y;
      if i > 0 {
        assert results[i - 1].id == y;
      }
    }
    assert xs[0].id == x.id;
  }

  /** A single result's ids. */
  lemma IdsSingle(x: ExtractionResult)
    ensures Ids([x]) == {x.id}
  {
    assert [x] == [x] + [];
    IdsCons(x, []);
  }

  /** An upsert adds the result's id to the ids and nothing else. */
  lemma {:induction false} UpsertIds(results: seq<ExtractionResult>, result: ExtractionResult)
    ensures Ids(Upsert(results, result)) == Ids(results) + {result.id}
    decreases |results|
  {
    if |results| == 0 {
      IdsSingle(result);
    } else {
      assert results == [results[0]] + results[1..];
      IdsCons(results[0], results[1..]);
      if results[0].id == result.id {
        IdsCons(result, results[1..]);
      } else {
        UpsertIds(results[1..], result);
        IdsCons(results[0], Upsert(results[1..], result));
      }
    }
  }

  /** An upsert keeps ids unique. */
  lemma UpsertKeepsUnique(results: seq<ExtractionResult>, result: ExtractionResult)
    requires UniqueIds(results)
    ensures UniqueIds(Upsert(results, result))
  {
    UpsertShape(results, result);
  }

  /** After an upsert, looking the id up finds the result. */
  lemma {:induction false} UpsertFinds(results: seq<ExtractionResult>, result: ExtractionResult)
    ensures FindId(Upsert(results, result), result.id) < |Upsert(results, result)|
    ensures Upsert(results, result)[FindId(Upsert(results, result), result.id)] == result
    decreases |results|
  {
    var r := Upsert(results, result);
    if |results| == 0 || results[0].id == result.id {
      assert r[0] == result;
      assert FindId(r, result.id) == 0;
    } else {
      var t := Upsert(results[1..], result);
      UpsertFinds(results[1..], result);
      assert r == [results[0]] + t;
      assert r[1..] == t;
      var k := FindId(t, result.id);
      assert FindId(r, result.id) == 1 + k;
      assert r[1 + k] == t[k];
    }
  }

  /** Results with other ids are untouched by an upsert. */
  lemma UpsertKeepsOthers(results: seq<ExtractionResult>, result: ExtractionResult, x: ExtractionResult)
    requires x in results && x.id != result.id
    ensures x in Upsert(results, result)
  {
    var i :| 0 <= i < |results| && results[i] == x;
    UpsertShape(results, result);
    assert Upsert(results, result)[i] == x;
  }

  /** An upsert adds the result and keeps only results that were there. */
  lemma {:induction false} UpsertElems(results: seq<ExtractionResult>, result: ExtractionResult)
    ensures result in Upsert(results, result)
    ensures forall x :: x in Upsert(results, result) ==> x in results || x == result
    decreases |results|
  {
    if |results| > 0 {
      var tail := results[1..];
      assert forall x :: x in tail ==> x in results;
      if results[0].id == result.id {
        assert Upsert(results, result) == [result] + tail;
      } else {
        UpsertElems(tail, result);
        assert Upsert(results, result) == [results[0]] + Upsert(tail, result);
      }
    }
  }

  /** Upserting the same result twice is upserting it once. */
  lemma UpsertIdempotent(results: seq<ExtractionResult>, result: ExtractionResult)
    ensures Upsert(Upsert(results, result), result) == Upsert(results, result)
  {
    var r := Upsert(results, result);
    UpsertFinds(results, result);
    var k' := FindId(r, result.id);
    assert r[k' := result] == r;
  }

  /** What the loop does with one document. */
  datatype Action = SkipScraped | SkipBlank | Process(text: string) | Fail

  /**
   * The checks of the loop, in order: on a continued run an already scraped id is skipped; a
   * falsy text is skipped; a string is extracted; any other text fails with a `TypeError` (from
   * `len` or the substitutions of the cleaning).
   */
  function Triage(doc: Document, scraped: set<Json>, continued: bool): (a: Action)
    ensures a.SkipScraped? <==> continued && doc.id in scraped
    ensures a.SkipBlank? <==> !(continued && doc.id in scraped) && !Truthy(doc.text)
    ensures a.Process? <==> !(continued && doc.id in scraped) && doc.text.JStr? && doc.text.s != ""
    ensures a.Process? ==> a.text == doc.text.s
  {
    if continued && doc.id in scraped then SkipScraped
    else if !Truthy(doc.text) then SkipBlank
    else if doc.text.JStr? then Process(doc.text.s)
    else Fail
  }

  /** The options of a run: the model path and the two size constants. */
  function Options(model: Model): (o: LlmOptions)
    ensures o.modelPath == model.modelPath
    ensures o.contextSize == ContextSize && o.responseTokens == ResponseTokens
  {
    LlmOptions(model.modelPath, ContextSize, ResponseTokens)
  }

  /** What `scrape_via_prompt` returns: the prompt and the model's response to it. */
  datatype Scrape = Scrape(prompt: string, response: string)

  /**
   * The prompt holds the document right after its head, the schema right after the schema's
   * head, and ends with the opened fence and brace.
   */
  predicate Carries(prompt: string, doc: string, schema: string) {
    var at := |DocumentHead| + |doc| + |SchemaHead|;
    |DocumentHead| + |doc| <= |prompt| && prompt[|DocumentHead|..|DocumentHead| + |doc|] == doc
    && at + |schema| <= |prompt| && prompt[at..][..|schema|] == schema
    && EndsWith(prompt, Continuation)
  }

  /**
   * The prompt for a cleaned document and the response the stream gives for it: the prompt
   * carries the document and the schema, and the response is what `execute` reads from the stream.
   */
  function Ask(complete: string -> seq<Chunk>, doc: string, schema: string): (s: Scrape)
    ensures Carries(s.prompt, doc, schema)
    ensures s.response == Accumulate(complete(s.prompt))
  {
    var prompt := Prompt(doc, schema);
    Scrape(prompt, Accumulate(complete(prompt)))
  }

  /**
   * `scrape_via_prompt`: the prompt carries the cleaned document (the filtered text itself when
   * that fits the budget) and the schema, and the response is what the stream gives for that prompt.
   */
  function ScrapeViaPrompt(model: Model, text: string, schema: string): (s: Scrape)
    ensures Carries(s.prompt, CleanDocument(text, model.countTokens), schema)
    ensures var filtered := FilterLines(NormaliseAsWritten(text));
            model.countTokens(filtered) <= MaxDocSize ==> Carries(s.prompt, filtered, schema)
    ensures s.response == Accumulate(model.complete(s.prompt))
  {
    Ask(model.complete, CleanDocument(text, model.countTokens), schema)
  }

  /** The decoded JSON text of a response: the decoder's value, or `JNull` when decoding fails. */
  function Decode(parseJson: string -> Option<Json>, response: string): (j: Json)
    ensures parseJson(JsonText(response)).Some? ==> j == parseJson(JsonText(response)).value
    ensures parseJson(JsonText(response)).None? ==> j == JNull
  {
    match parseJson(JsonText(response))
    case Some(j) => j
    case None => JNull
  }

  /** Why a run stops early: a document whose text is truthy but not a string. */
  datatype RunError = TextNotString(id: Json)

  /** The state of a run: the results, every write of the output file in order, and the error that stopped it. */
  datatype RunState = RunState(results: seq<ExtractionResult>, writes: seq<seq<ExtractionResult>>, error: Option<RunError>)


  /**
   * What a loop over documents is given: the scrape of a text, the decoding of a response, the
   * options saved with each result, the ids scraped before, and whether it continues a run.
   */
  datatype Job = Job(
    scrape: string -> Scrape, decode: string -> Json, options: LlmOptions, scraped: set<Json>, continued: bool)

  /**
   * The result saved for a document's id and text: the scrape's prompt and response, the
   * decoding of that response, and the job's options.
   */
  function ResultFor(job: Job, id: Json, text: string): (r: ExtractionResult)
    ensures r.id == id && r.text == text
    ensures r.prompt == job.scrape(text).prompt && r.response == job.scrape(text).response
    ensures r.data == job.decode(r.response)
    ensures r.options == job.options
  {
    var s := job.scrape(text);
    ExtractionResult(id, text, s.prompt, s.response, job.decode(s.response), job.options)
  }

  /** The document stops the loop. */
  predicate Fails(job: Job, doc: Document) {
    Triage(doc, job.scraped, job.continued).Fail?
  }

  /** The document is extracted. */
  predicate Extracts(job: Job, doc: Document) {
    Triage(doc, job.scraped, job.continued).Process?
  }

  /**
   * One iteration of the loop. After an error nothing happens; a document that fails sets the
   * error; a skipped document changes nothing; an extracted one upserts its result, adds its id
   * and writes the new results.
   */
  function RunStep(job: Job, st: RunState, doc: Document): (st': RunState)
    ensures st.error.Some? ==> st' == st
    ensures st.error.None? ==> (st'.error.Some? <==> Fails(job, doc))
    ensures st'.error.Some? && st.error.None? ==> st'.error.value == TextNotString(doc.id)
    ensures !(st.error.None? && Extracts(job, doc)) ==> st'.results == st.results && st'.writes == st.writes
    ensures st.error.None? && Extracts(job, doc) ==>
              st'.writes == st.writes + [st'.results]
              && Ids(st'.results) == Ids(st.results) + {doc.id}
              && ResultFor(job, doc.id, doc.text.s) in st'.results
  {
    if st.error.Some? then st
    else match Triage(doc, job.scraped, job.continued)
      case SkipScraped => st
      case SkipBlank => st
      case Fail => st.(error := Some(TextNotString(doc.id)))
      case Process(text) =>
        var result := ResultFor(job, doc.id, text);
        var results := Upsert(st.results, result);
        UpsertIds(st.results, result);
        UpsertFinds(st.results, result);
        RunState(results, st.writes + [results], None)
  }

  /** The loop over the documents, from the prior results: at most one write per document. */
  function RunDocs(job: Job, prior: seq<ExtractionResult>, docs: seq<Document>): (st: RunState)
    ensures |st.writes| <= |docs|
    decreases |docs|
  {
    if |docs| == 0 then RunState(prior, [], None)
    else RunStep(job, RunDocs(job, prior, docs[..|docs| - 1]), docs[|docs| - 1])
  }

  /**
   * `run`: the prior results are those of the output file, and their ids are the scraped set.
   * The run ends with an error exactly when some document is neither skipped nor a string, and
   * the error names the first such document.
   */
  function Run(model: Model, prior: seq<ExtractionResult>, docs: seq<Document>, schema: string, continued: bool)
    : (st: RunState)
    ensures st.error.None? <==> forall i :: 0 <= i < |docs| ==> !Triage(docs[i], Ids(prior), continued).Fail?
    ensures st.error.Some? ==>
              exists i :: 0 <= i < |docs| && Triage(docs[i], Ids(prior), continued).Fail?
                          && st.error.value == TextNotString(docs[i].id)
                          && forall j :: 0 <= j < i ==> !Triage(docs[j], Ids(prior), continued).Fail?
  {
    var job := RunJob(model, prior, schema, continued);
    RunDocsFailure(job, prior, docs);
    RunDocs(job, prior, docs)
  }

  /** The job of `run`: scraping through the model, and the ids of the prior results as the scraped set. */
  function RunJob(model: Model, prior: seq<ExtractionResult>, schema: string, continued: bool): (job: Job)
    ensures job.scraped == Ids(prior) && job.continued == continued && job.options == Options(model)
  {
    Job(text => ScrapeViaPrompt(model, text, schema), response => Decode(model.parseJson, response),
        Options(model), Ids(prior), continued)
  }

  /** The index of the first document that fails, or the number of documents when none does. */
  function FirstFailure(job: Job, docs: seq<Document>): (k: nat)
    ensures k <= |docs|
    ensures k < |docs| ==> Fails(job, docs[k])
    ensures forall j :: 0 <= j < k ==> !Fails(job, docs[j])
    decreases |docs|
  {
    if |docs| == 0 then 0
    else
      var k := FirstFailure(job, docs[..|docs| - 1]);
      if k < |docs| - 1 then k
      else if Fails(job, docs[|docs| - 1]) then |docs| - 1
      else |docs|
  }

  /** A prefix of the documents before the last is a prefix of all of them. */
  lemma PrefixOfInit(docs: seq<Document>, k: nat)
    requires k <= |docs|
    ensures k < |docs| ==> docs[..|docs| - 1][..k] == docs[..k]
    ensures k == |docs| - 1 ==> docs[..k] == docs[..|docs| - 1] && docs[..|docs| - 1][..k] == docs[..|docs| - 1]
    ensures k == |docs| ==> docs[..k] == docs
  {
  }

  /** The first failure among more documents is the one among fewer, when there is one. */
  lemma FirstFailureSnoc(job: Job, docs: seq<Document>)
    requires |docs| > 0
    ensures FirstFailure(job, docs[..|docs| - 1]) < |docs| - 1 ==>
      FirstFailure(job, docs) == FirstFailure(job, docs[..|docs| - 1])
    ensures FirstFailure(job, docs[..|docs| - 1]) == |docs| - 1 ==>
      FirstFailure(job, docs) == if Fails(job, docs[|docs| - 1]) then |docs| - 1 else |docs|
  {
  }

  /**
   * The loop stops at the first document that fails: it ends with that document's error and the
   * state of the loop over the documents before it, which ends without error.
   */
  lemma {:induction false} RunDocsFailure(job: Job, prior: seq<ExtractionResult>, docs: seq<Document>)
    ensures RunDocs(job, prior, docs[..FirstFailure(job, docs)]).error == None
    ensures FirstFailure(job, docs) == |docs| ==> RunDocs(job, prior, docs).error == None
    ensures FirstFailure(job, docs) < |docs| ==>
      RunDocs(job, prior, docs) ==
        RunDocs(job, prior, docs[..FirstFailure(job, docs)]).(error := Some(TextNotString(docs[FirstFailure(job, docs)].id)))
    decreases |docs|
  {
    var n := |docs|;
    if n == 0 {
      assert docs[..0] == docs;
    } else {
      var init := docs[..n - 1];
      var k := FirstFailure(job, docs);
      RunDocsFailure(job, prior, init);
      FirstFailureSnoc(job, docs);
      PrefixOfInit(docs, k);
      if FirstFailure(job, init) == n - 1 {
        PrefixOfInit(docs, n - 1);
      }
    }
  }

  /** The number of documents extracted. */
  function ExtractedCount(job: Job, docs: seq<Document>): (n: nat)
    ensures n <= |docs|
    decreases |docs|
  {
    if |docs| == 0 then 0
    else ExtractedCount(job, docs[..|docs| - 1]) + (if Extracts(job, docs[|docs| - 1]) then 1 else 0)
  }

  /**
   * The output file is written after each extraction and holds the results at that point: the
   * last write is the final results, there is none when the results are the prior ones, and
   * without error there is one write per extracted document.
   */
  lemma {:induction false} RunDocsWrites(job: Job, prior: seq<ExtractionResult>, docs: seq<Document>)
    ensures |RunDocs(job, prior, docs).writes| == 0 ==> RunDocs(job, prior, docs).results == prior
    ensures |RunDocs(job, prior, docs).writes| > 0 ==>
      RunDocs(job, prior, docs).writes[|RunDocs(job, prior, docs).writes| - 1] == RunDocs(job, prior, docs).results
    ensures RunDocs(job, prior, docs).error == None ==> |RunDocs(job, prior, docs).writes| == ExtractedCount(job, docs)
    decreases |docs|
  {
    if |docs| > 0 {
      RunDocsWrites(job, prior, docs[..|docs| - 1]);
    }
  }

  /** The results only grow, and keep ids unique when the prior results have unique ids. */
  lemma {:induction false} RunDocsKeeps(job: Job, prior: seq<ExtractionResult>, docs: seq<Document>)
    ensures |RunDocs(job, prior, docs).results| >= |prior|
    ensures Ids(prior) <= Ids(RunDocs(job, prior, docs).results)
    ensures UniqueIds(prior) ==> UniqueIds(RunDocs(job, prior, docs).results)
    decreases |docs|
  {
    if |docs| > 0 {
      var init := docs[..|docs| - 1];
      var last := docs[|docs| - 1];
      RunDocsKeeps(job, prior, init);
      var st := RunDocs(job, prior, init);
      if st.error.None? && Extracts(job, last) {
        var r := ResultFor(job, last.id, last.text.s);
        UpsertIds(st.results, r);
        if UniqueIds(prior) {
          UpsertKeepsUnique(st.results, r);
        }
      }
    }
  }

  /** The ids of the extracted documents. */
  function ExtractedIds(job: Job, docs: seq<Document>): set<Json>
  {
    set i | 0 <= i < |docs| && Extracts(job, docs[i]) :: docs[i].id
  }

  /** The extracted ids of the documents: those before the last, and the last one's when it is extracted. */
  lemma ExtractedIdsLast(job: Job, docs: seq<Document>)
    requires |docs| > 0
    ensures ExtractedIds(job, docs)
            == ExtractedIds(job, docs[..|docs| - 1]) + (if Extracts(job, docs[|docs| - 1]) then {docs[|docs| - 1].id} else {})
  {
    var init := docs[..|docs| - 1];
    var doc := docs[|docs| - 1];
    forall x | x in ExtractedIds(job, init) ensures x in ExtractedIds(job, docs) {
      var i :| 0 <= i < |init| && Extracts(job, init[i]) && init[i].id == x;
      assert docs[i] == init[i];
    }
    forall x | x in ExtractedIds(job, docs)
      ensures x in ExtractedIds(job, init) + (if Extracts(job, doc) then {doc.id} else {})
    {
      var i :| 0 <= i < |docs| && Extracts(job, docs[i]) && docs[i].id == x;
      if i < |init| {
        assert init[i] == docs[i];
      }
    }
  }

  /** Without error, the ids of the results are the prior ids and those of the extracted documents. */
  lemma {:induction false} RunDocsIds(job: Job, prior: seq<ExtractionResult>, docs: seq<Document>)
    requires RunDocs(job, prior, docs).error == None
    ensures Ids(RunDocs(job, prior, docs).results) == Ids(prior) + ExtractedIds(job, docs)
    decreases |docs|
  {
    if |docs| == 0 {
      assert ExtractedIds(job, docs) == {};
    } else {
      var init := docs[..|docs| - 1];
      var last := docs[|docs| - 1];
      RunDocsIds(job, prior, init);
      ExtractedIdsLast(job, docs);
      StepIds(job, RunDocs(job, prior, init), last, Ids(prior), ExtractedIds(job, init), ExtractedIds(job, docs));
    }
  }

  /** The inductive step of `RunDocsIds`: one more document adds its id when it is extracted. */
  lemma StepIds(job: Job, st: RunState, doc: Document, priorIds: set<Json>, before: set<Json>, after: set<Json>)
    requires st.error == None && Ids(st.results) == priorIds + before
    requires after == before + (if Extracts(job, doc) then {doc.id} else {})
    ensures Ids(RunStep(job, st, doc).results) == priorIds + after
  {
  }

  /** A loop whose every document is skipped changes nothing and writes nothing. */
  lemma {:induction false} RunDocsAllSkip(job: Job, prior: seq<ExtractionResult>, docs: seq<Document>)
    requires forall i :: 0 <= i < |docs| ==> !Fails(job, docs[i]) && !Extracts(job, docs[i])
    ensures RunDocs(job, prior, docs) == RunState(prior, [], None)
    decreases |docs|
  {
    if |docs| > 0 {
      RunDocsAllSkip(job, prior, docs[..|docs| - 1]);
    }
  }

  /**
   * The last extraction of an id wins: without error, the result of a document extracted after
   * every other extraction of its id is among the final results.
   */
  lemma {:induction false} RunDocsLastWins(job: Job, prior: seq<ExtractionResult>, docs: seq<Document>, i: nat)
    requires i < |docs| && Extracts(job, docs[i])
    requires RunDocs(job, prior, docs).error == None
    requires forall j :: i < j < |docs| && Extracts(job, docs[j]) ==> docs[j].id != docs[i].id
    ensures ResultFor(job, docs[i].id, docs[i].text.s) in RunDocs(job, prior, docs).results
    decreases |docs|
  {
    var n := |docs|;
    var init := docs[..n - 1];
    var last := docs[n - 1];
    var st := RunDocs(job, prior, init);
    assert st.error == None;
    var r := ResultFor(job, docs[i].id, docs[i].text.s);
    if i < n - 1 {
      assert init[i] == docs[i];
      assert forall j :: i < j < |init| ==> init[j] == docs[j];
      RunDocsLastWins(job, prior, init, i);
      StepKeeps(job, st, last, r);
    }
  }

  /** A result whose id the next document does not extract stays among the results. */
  lemma StepKeeps(job: Job, st: RunState, doc: Document, r: ExtractionResult)
    requires st.error == None && r in st.results
    requires Extracts(job, doc) ==> doc.id != r.id
    ensures r in RunStep(job, st, doc).results
  {
    if Extracts(job, doc) {
      UpsertKeepsOthers(st.results, ResultFor(job, doc.id, doc.text.s), r);
    }
  }

  /**
   * Continuing from the results of a run in which no document's text was refused skips every
   * document: each was extracted (so its id is now scraped), already scraped, or blank. The run
   * then ends without error and the continued run writes nothing.
   */
  lemma ContinuedRunSkipsAll(model: Model, prior: seq<ExtractionResult>, docs: seq<Document>, schema: string,
                             continued: bool, model': Model, schema': string)
    requires forall i :: 0 <= i < |docs| ==> !Triage(docs[i], Ids(prior), continued).Fail?
    ensures Run(model, prior, docs, schema, continued).error == None
    ensures var after := Run(model, prior, docs, schema, continued).results;
      Run(model', after, docs, schema', true) == RunState(after, [], None)
  {
    var job := RunJob(model, prior, schema, continued);
    var after := RunDocs(job, prior, docs).results;
    var job' := RunJob(model', after, schema', true);
    RunDocsFailure(job, prior, docs);
    assert FirstFailure(job, docs) == |docs|;
    assert docs[..|docs|] == docs;
    RunDocsIds(job, prior, docs);
    forall i | 0 <= i < |docs| ensures !Fails(job', docs[i]) && !Extracts(job', docs[i]) {
      if docs[i].id !in Ids(after) {
        assert !Extracts(job, docs[i]);
        assert !Fails(job, docs[i]);
      }
    }
    RunDocsAllSkip(job', after, docs);
  }

  /**
   * The file is rewritten with a growing history: the writes of the loop over the first `k`
   * documents are a prefix of the writes of the loop over all of them.
   */
  lemma {:induction false} RunDocsWritesPrefix(job: Job, prior: seq<ExtractionResult>, docs: seq<Document>, k: nat)
    requires k <= |docs|
    ensures RunDocs(job, prior, docs[..k]).writes <= RunDocs(job, prior, docs).writes
    decreases |docs|
  {
    if k < |docs| {
      var init := docs[..|docs| - 1];
      assert init[..k] == docs[..k];
      RunDocsWritesPrefix(job, prior, init, k);
    } else {
      assert docs[..k] == docs;
    }
  }

  /**
   * Every result of the loop is a prior result or the result of an extracted document for its
   * id and text.
   */
  lemma {:induction false} RunDocsProvenance(job: Job, prior: seq<ExtractionResult>, docs: seq<Document>)
    ensures forall x :: x in RunDocs(job, prior, docs).results ==>
              x in prior
              || exists i :: 0 <= i < |docs| && Extracts(job, docs[i]) && x == ResultFor(job, docs[i].id, docs[i].text.s)
    decreases |docs|
  {
    if |docs| > 0 {
      var init := docs[..|docs| - 1];
      var last := docs[|docs| - 1];
      RunDocsProvenance(job, prior, init);
      var st := RunDocs(job, prior, init);
      forall x | x in RunDocs(job, prior, docs).results
        ensures x in prior
                || exists i :: 0 <= i < |docs| && Extracts(job, docs[i]) && x == ResultFor(job, docs[i].id, docs[i].text.s)
      {
        if st.error.None? && Extracts(job, last) {
          UpsertElems(st.results, ResultFor(job, last.id, last.text.s));
        }
        if x in st.results && x !in prior {
          var i :| 0 <= i < |init| && Extracts(job, init[i]) && x == ResultFor(job, init[i].id, init[i].text.s);
          assert docs[i] == init[i];
        }
      }
    }
  }

  /**
   * Every result `run` adds carries the model's options, the prompt and response of
   * `scrape_via_prompt` for its text, and the decoding of that response.
   */
  lemma RunResultsFrom(model: Model, prior: seq<ExtractionResult>, docs: seq<Document>, schema: string, continued: bool)
    ensures forall x :: x in Run(model, prior, docs, schema, continued).results && x !in prior ==>
              x.options == Options(model)
              && x.prompt == ScrapeViaPrompt(model, x.text, schema).prompt
              && x.response == ScrapeViaPrompt(model, x.text, schema).response
              && x.data == Decode(model.parseJson, x.response)
  {
    RunDocsProvenance(RunJob(model, prior, schema, continued), prior, docs);
  }

  /**
   * The skip test looks at the ids of the prior results only, whatever the run has done before:
   * a document is skipped as scraped exactly when the run continues and its id is a prior one;
   * otherwise a string text is extracted and written, even when an earlier document of this run
   * had the same id.
   */
  lemma RunSkipsScraped(model: Model, prior: seq<ExtractionResult>, docs: seq<Document>, schema: string,
                        continued: bool, i: nat)
    requires i < |docs|
    ensures continued && docs[i].id in Ids(prior) ==>
              Run(model, prior, docs[..i + 1], schema, continued) == Run(model, prior, docs[..i], schema, continued)
    ensures var before := Run(model, prior, docs[..i], schema, continued);
            before.error == None && !(continued && docs[i].id in Ids(prior))
            && docs[i].text.JStr? && docs[i].text.s != "" ==>
              Run(model, prior, docs[..i + 1], schema, continued).writes
                == before.writes + [Run(model, prior, docs[..i + 1], schema, continued).results]
  {
    assert docs[..i + 1][..i] == docs[..i];
  }

  /**
   * A document extracted after documents none of which fails leaves the loop without error, with
   * its result among the results, which are what was last written.
   */
  lemma RunDocsSaves(job: Job, prior: seq<ExtractionResult>, docs: seq<Document>, i: nat)
    requires i < |docs| && Extracts(job, docs[i])
    requires forall j :: 0 <= j < i ==> !Fails(job, docs[j])
    ensures var st := RunDocs(job, prior, docs[..i + 1]);
            st.error == None && ResultFor(job, docs[i].id, docs[i].text.s) in st.results
            && |st.writes| > 0 && st.writes[|st.writes| - 1] == st.results
  {
    var ds := docs[..i + 1];
    assert ds[..i] == docs[..i];
    RunDocsFailure(job, prior, docs[..i]);
    assert FirstFailure(job, docs[..i]) == i;
    assert docs[..i][..i] == docs[..i];
  }

  /**
   * A response the JSON decoder refuses is still saved, with `data` null, and the run goes on
   * without error: the document's result is among the results written.
   */
  lemma RunDecodeFailure(model: Model, prior: seq<ExtractionResult>, docs: seq<Document>, schema: string,
                         continued: bool, i: nat)
    requires i < |docs| && docs[i].text.JStr? && docs[i].text.s != ""
    requires !(continued && docs[i].id in Ids(prior))
    requires forall j :: 0 <= j < i ==> !Triage(docs[j], Ids(prior), continued).Fail?
    requires model.parseJson(JsonText(ScrapeViaPrompt(model, docs[i].text.s, schema).response)).None?
    ensures var st := Run(model, prior, docs[..i + 1], schema, continued);
            var s := ScrapeViaPrompt(model, docs[i].text.s, schema);
            st.error == None
            && ExtractionResult(docs[i].id, docs[i].text.s, s.prompt, s.response, JNull, Options(model)) in st.results
            && |st.writes| > 0 && st.writes[|st.writes| - 1] == st.results
  {
    var job := RunJob(model, prior, schema, continued);
    RunJobResult(model, prior, schema, continued, docs[i].id, docs[i].text.s);
    assert Extracts(job, docs[i]) && forall j :: 0 <= j < i ==> !Fails(job, docs[j]);
    RunDocsSaves(job, prior, docs, i);
  }

  /** The result `run` saves for a text: the scrape's prompt and response, their decoding and the model's options. */
  lemma RunJobResult(model: Model, prior: seq<ExtractionResult>, schema: string, continued: bool, id: Json, text: string)
    ensures var sc := ScrapeViaPrompt(model, text, schema);
            ResultFor(RunJob(model, prior, schema, continued), id, text)
              == ExtractionResult(id, text, sc.prompt, sc.response, Decode(model.parseJson, sc.response), Options(model))
  {
  }
}
