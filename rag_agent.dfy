/**
 * The answer pipeline of rag_integration/rag_agent.py.
 *
 * `RAGAgent.ask` runs web search, a FAISS nearest-neighbour search and a
 * language model; all three are outside the model and reach `Ask` as
 * results handed in by the caller: the web search as a summary or a failure,
 * the local search as the raw neighbour ids FAISS returned (which may be -1
 * or past the end of the document list) or a failure, the language model as
 * a function from prompt to reply. What is left is the deterministic part:
 * index filtering, context assembly, the refusal short-circuit, the length
 * cap, the prompt template and the cleaning of the reply.
 */
module RagAgent {
  import opened Wrappers
  import opened Text
  import opened FaissIndexing

  // ---------------------------------------------------------------------
  // Fixed texts of the pipeline

  // The two sentences are written in pieces so that the verifier can read
  // their first characters.

  /** The canonical refusal sentence (Russian). */
  const RefusalRu: string := "В предоставленных данных " + "(включая веб-поиск) " + "нет информации по этому вопросу."
  /** The earlier English refusal sentence, still recognised in replies. */
  const RefusalEn: string := "There is no information " + "on this matter in the provided news."

  const WebHeader: string := "===== Информация из Веб-Поиска =====\n"
  const LocalHeader: string := "===== Информация из Базы Новостей =====\n"
  /** Separates retrieved documents, and the two context sections. */
  const Separator: string := "\n\n---\n\n"

  const MaxContextLength: nat := 15000
  const Ellipsis: string := "..."

  const PromptIntro: string :=
    "**Инструкция:** Проанализируй следующий контекст (который может включать информацию из веб-поиска и/или локальной базы новостей). "
    + "Затем ответь на вопрос пользователя **строго на русском языке**. "
    + "Твой ответ должен быть основан **исключительно** на информации из предоставленного контекста. "
    + "Не добавляй информацию, которой нет в тексте. "
    + "Не выдумывай факты. "
    + "Если информация для ответа полностью отсутствует в предоставленном контексте, напиши **только** фразу **на русском языке**: \""
  const PromptContextLabel: string := "\"\n\n**Контекст:**\n"
  const PromptQuestionLabel: string := "\n\n**Вопрос пользователя:** "
  const PromptAnswerLabel: string := "\n\n**Ответ (на русском языке):**"

  const LlmErrorPrefix: string := "Произошла ошибка при обращении к языковой модели: "

  /** Boilerplate the model tends to echo after its answer, scanned in this order. */
  const Markers: seq<string> := ["---", "### Пример:", "**Инструкция:**", "**Контекст:**", "**Вопрос:**", "**Ответ (на русском языке):**"]

  /** A marker is never cut at a position of 5 or less. */
  const MinMarkerPos: nat := 5

  /** Below this position a marker in a refusal reply counts as part of the refusal. */
  function RefusalSpan(): nat {
    Max(|RefusalRu|, |RefusalEn|) + 5
  }

  // ---------------------------------------------------------------------
  // Collaborator results

  /** What the Serper web search returned for the query. */
  datatype WebSearch = WebFailed | WebSummary(text: string)

  /** What encoding the query and searching the FAISS index gave: the first
      row of neighbour ids, or a failure of either step. */
  datatype LocalSearch = SearchFailed | Neighbours(ids: seq<int>)

  /** What the language model replied to a prompt. */
  datatype LlmReply = LlmFailed(error: string) | LlmText(text: string)

  // ---------------------------------------------------------------------
  // Stage 1: local retrieval

  /** The neighbour ids that name a document: `[i for i in ids if 0 <= i < n]`. */
  function ValidIndexes(ids: seq<int>, n: int): (r: seq<int>)
    ensures |r| <= |ids|
    ensures forall k :: 0 <= k < |r| ==> 0 <= r[k] < n
    ensures forall i :: i in r <==> i in ids && 0 <= i < n
  {
    if ids == [] then []
    else (if 0 <= ids[0] < n then [ids[0]] else []) + ValidIndexes(ids[1..], n)
  }

  /** Filtering keeps rank order: it distributes over concatenation. */
  lemma {:induction false} ValidIndexesAppend(a: seq<int>, b: seq<int>, n: int)
    ensures ValidIndexes(a + b, n) == ValidIndexes(a, n) + ValidIndexes(b, n)
  {
    if a == [] {
      assert a + b == b;
    } else {
      var head := if 0 <= a[0] < n then [a[0]] else [];
      assert (a + b)[0] == a[0];
      assert (a + b)[1..] == a[1..] + b;
      ValidIndexesAppend(a[1..], b, n);
      calc {
        ValidIndexes(a + b, n);
        head + ValidIndexes(a[1..] + b, n);
        head + (ValidIndexes(a[1..], n) + ValidIndexes(b, n));
        (head + ValidIndexes(a[1..], n)) + ValidIndexes(b, n);
      }
    }
  }

  /** When every id is in range nothing is dropped. */
  lemma {:induction false} ValidIndexesKeepsAll(ids: seq<int>, n: int)
    requires forall k :: 0 <= k < |ids| ==> 0 <= ids[k] < n
    ensures ValidIndexes(ids, n) == ids
  {
    if ids != [] {
      ValidIndexesKeepsAll(ids[1..], n);
    }
  }

  /** The documents named by the valid ids, in rank order. */
  function RetrievedDocs(docs: seq<string>, ids: seq<int>): (r: seq<string>)
    ensures var valid := ValidIndexes(ids, |docs|);
      |r| == |valid| && forall k :: 0 <= k < |r| ==> r[k] == docs[valid[k]]
  {
    var valid := ValidIndexes(ids, |docs|);
    seq(|valid|, k requires 0 <= k < |valid| => docs[valid[k]])
  }

  /** The local context: the retrieved documents joined by the separator,
      or nothing when the search failed or found no valid id. */
  function LocalContext(docs: seq<string>, local: LocalSearch): string {
    match local
    case SearchFailed => []
    case Neighbours(ids) => Join(RetrievedDocs(docs, ids), Separator)
  }

  // ---------------------------------------------------------------------
  // Stage 2: context assembly

  /** The context sections: web first, then local, each present only when
      its source is not blank, under its header and stripped. */
  function Sections(web: string, local: string): seq<string> {
    var webPart := if IsBlank(web) then [] else [WebHeader + Strip(web)];
    var localPart := if IsBlank(local) then [] else [LocalHeader + Strip(local)];
    webPart + localPart
  }

  /** `"\n\n---\n\n".join(context_parts)`. */
  function AssembleContext(web: string, local: string): string {
    Join(Sections(web, local), Separator)
  }

  /** The web section comes first and the local one second; each appears
      exactly when its source is not blank. */
  lemma ContextLayout(web: string, local: string)
    ensures var ctx := AssembleContext(web, local);
      && (IsBlank(web) && IsBlank(local) ==> ctx == [])
      && (!IsBlank(web) && IsBlank(local) ==> ctx == WebHeader + Strip(web))
      && (IsBlank(web) && !IsBlank(local) ==> ctx == LocalHeader + Strip(local))
      && (!IsBlank(web) && !IsBlank(local) ==>
            ctx == (WebHeader + Strip(web)) + Separator + (LocalHeader + Strip(local)))
  {
    var w := WebHeader + Strip(web);
    var l := LocalHeader + Strip(local);
    var s := Sections(web, local);
    if IsBlank(web) && IsBlank(local) {
      assert s == [];
    } else if IsBlank(web) {
      assert s == [l];
    } else if IsBlank(local) {
      assert s == [w];
    } else {
      assert s == [w] + [l];
      JoinPair(w, l, Separator);
    }
  }

  /** Two parts are joined by one separator. */
  lemma JoinPair(a: string, b: string, sep: string)
    ensures Join([a, b], sep) == a + sep + b
  {
    assert [a, b][1..] == [b];
  }

  /** The context is blank exactly when both sources are blank. */
  lemma ContextBlank(web: string, local: string)
    ensures IsBlank(AssembleContext(web, local)) <==> IsBlank(web) && IsBlank(local)
  {
    ContextLayout(web, local);
    var ctx := AssembleContext(web, local);
    if !IsBlank(web) {
      assert ctx[0] == WebHeader[0];
    } else if !IsBlank(local) {
      assert ctx[0] == LocalHeader[0];
    }
  }

  /** The context cap: over 15000 characters, keep the first 15000 and mark the cut. */
  function CapContext(ctx: string): (r: string)
    ensures |ctx| <= MaxContextLength ==> r == ctx
    ensures |ctx| > MaxContextLength ==>
      |r| == MaxContextLength + |Ellipsis| && r[..MaxContextLength] == ctx[..MaxContextLength] && EndsWith(r, Ellipsis)
  {
    if |ctx| > MaxContextLength then ctx[..MaxContextLength] + Ellipsis else ctx
  }

  /** Capping twice is capping once: a capped context is left alone. */
  lemma CapContextIdempotent(ctx: string)
    ensures CapContext(CapContext(ctx)) == CapContext(ctx)
  {
    var r := CapContext(ctx);
    if |ctx| > MaxContextLength {
      assert r[..MaxContextLength] + Ellipsis == r;
    }
  }

  /** A non-blank context stays non-blank under the cap. */
  lemma CapContextNotBlank(ctx: string)
    requires !IsBlank(ctx)
    ensures !IsBlank(CapContext(ctx))
  {
    if |ctx| > MaxContextLength {
      var r := CapContext(ctx);
      assert r[|r| - 1] == '.';
    }
  }

  // ---------------------------------------------------------------------
  // Stage 3: the prompt

  function BuildPrompt(ctx: string, query: string): string {
    PromptIntro + RefusalRu + PromptContextLabel + ctx + PromptQuestionLabel + query + PromptAnswerLabel
  }

  /** In `a + x + b + y + c + z + d`, the pieces `x`, `y` and `z` sit at
      their offsets. */
  lemma PiecesAt(a: string, x: string, b: string, y: string, c: string, z: string, d: string)
    ensures var p := a + x + b + y + c + z + d;
      && OccursAt(p, x, |a|)
      && OccursAt(p, y, |a| + |x| + |b|)
      && OccursAt(p, z, |a| + |x| + |b| + |y| + |c|)
      && EndsWith(p, d)
  {
    var p := a + x + b + y + c + z + d;
    assert p[|a|..|a| + |x|] == x;
    assert p[|a| + |x| + |b|..|a| + |x| + |b| + |y|] == y;
    assert p[|a| + |x| + |b| + |y| + |c|..|a| + |x| + |b| + |y| + |c| + |z|] == z;
    assert p[|p| - |d|..] == d;
  }

  /** The prompt carries the refusal sentence, then the context, then the
      query, each verbatim, and ends with the answer label. */
  lemma PromptCarries(ctx: string, query: string)
    ensures var p := BuildPrompt(ctx, query);
      && OccursAt(p, RefusalRu, |PromptIntro|)
      && OccursAt(p, ctx, |PromptIntro| + |RefusalRu| + |PromptContextLabel|)
      && OccursAt(p, query, |PromptIntro| + |RefusalRu| + |PromptContextLabel| + |ctx| + |PromptQuestionLabel|)
      && Contains(p, RefusalRu) && Contains(p, ctx) && Contains(p, query)
      && EndsWith(p, PromptAnswerLabel)
  {
    PiecesAt(PromptIntro, RefusalRu, PromptContextLabel, ctx, PromptQuestionLabel, query, PromptAnswerLabel);
  }

  // ---------------------------------------------------------------------
  // Stage 4: cleaning the reply

  predicate StartsWithRefusal(s: string) {
    StartsWith(s, RefusalRu) || StartsWith(s, RefusalEn)
  }

  /** A marker whose first occurrence lies past position 5, and, in a
      refusal, past the refusal span: the scan cuts there. */
  predicate CutsAt(s: string, marker: string, isRefusal: bool) {
    var pos := Find(s, marker);
    pos > MinMarkerPos && !(isRefusal && pos < RefusalSpan())
  }

  /** The marker scan: cut before the first marker, in list order, that
      `CutsAt`, and strip; without one, leave the reply alone. */
  function ScanMarkers(s: string, markers: seq<string>, isRefusal: bool): (r: string)
    ensures |r| <= |s|
  {
    if markers == [] then s
    else if CutsAt(s, markers[0], isRefusal) then Strip(s[..Find(s, markers[0])])
    else ScanMarkers(s, markers[1..], isRefusal)
  }

  /** The scan cuts once, at the first marker in list order that qualifies. */
  lemma {:induction false} ScanCutsAtFirst(s: string, markers: seq<string>, isRefusal: bool, j: nat)
    requires j < |markers| && CutsAt(s, markers[j], isRefusal)
    requires forall i :: 0 <= i < j ==> !CutsAt(s, markers[i], isRefusal)
    ensures ScanMarkers(s, markers, isRefusal) == Strip(s[..Find(s, markers[j])])
    decreases j
  {
    if j > 0 {
      assert !CutsAt(s, markers[0], isRefusal);
      forall i | 0 <= i < j - 1 ensures !CutsAt(s, markers[1..][i], isRefusal) {
        assert markers[1..][i] == markers[i + 1];
      }
      ScanCutsAtFirst(s, markers[1..], isRefusal, j - 1);
    }
  }

  /** Without a qualifying marker the reply is left as it is. */
  lemma {:induction false} ScanKeeps(s: string, markers: seq<string>, isRefusal: bool)
    requires forall i :: 0 <= i < |markers| ==> !CutsAt(s, markers[i], isRefusal)
    ensures ScanMarkers(s, markers, isRefusal) == s
  {
    if markers != [] {
      assert !CutsAt(s, markers[0], isRefusal);
      forall i | 0 <= i < |markers| - 1 ensures !CutsAt(s, markers[1..][i], isRefusal) {
        assert markers[1..][i] == markers[i + 1];
      }
      ScanKeeps(s, markers[1..], isRefusal);
    }
  }

  /** In a refusal, a cut never falls inside the refusal sentence: the
      result still begins with the sentence it began with. */
  lemma {:induction false} ScanKeepsRefusal(s: string, markers: seq<string>, phrase: string)
    requires phrase == RefusalRu || phrase == RefusalEn
    requires StartsWith(s, phrase)
    ensures StartsWith(ScanMarkers(s, markers, true), phrase)
  {
    if markers != [] {
      if CutsAt(s, markers[0], true) {
        var pos := Find(s, markers[0]);
        assert pos >= RefusalSpan();
        assert StartsWith(s[..pos], phrase);
        StripKeepsPrefix(s[..pos], phrase);
      } else {
        ScanKeepsRefusal(s, markers[1..], phrase);
      }
    }
  }

  /** Stripping leaves in place a prefix that neither starts nor ends with whitespace. */
  lemma StripKeepsPrefix(s: string, prefix: string)
    requires prefix != [] && !IsSpace(prefix[0]) && !IsSpace(prefix[|prefix| - 1])
    requires StartsWith(s, prefix)
    ensures StartsWith(Strip(s), prefix)
  {
    assert s[0] == prefix[0];
    assert TrimStart(s, Whitespace) == s;
    var r := Strip(s);
    assert r == TrimEnd(s, Whitespace);
    assert s[|prefix| - 1] == prefix[|prefix| - 1];
    assert |r| >= |prefix|;
    assert r[..|prefix|] == s[..|prefix|];
  }

  /** The refusal sentences carry no surrounding whitespace, and the
      English one does not begin with the Russian one. */
  lemma RefusalsDistinct()
    ensures Strip(RefusalRu) == RefusalRu && Strip(RefusalEn) == RefusalEn
    ensures !StartsWith(RefusalEn, RefusalRu)
  {
    StripFixed(RefusalRu);
    StripFixed(RefusalEn);
    assert RefusalRu[0] != RefusalEn[0];
  }

  /** The last step of cleaning: fall back to the refusal when nothing is
      left, force the canonical refusal when a refusal was mangled, strip. */
  function Finalize(cleaned: string, isRefusal: bool): (r: string)
    ensures r != [] && Strip(r) == r
    ensures !IsBlank(cleaned) && !isRefusal ==> r == Strip(cleaned)
    ensures isRefusal ==> r == RefusalRu || r == RefusalEn
    ensures isRefusal && StartsWith(cleaned, RefusalRu) ==> r == RefusalRu
    ensures IsBlank(cleaned) ==> r == RefusalRu
    ensures isRefusal && cleaned == RefusalEn ==> r == RefusalEn
    ensures isRefusal && !IsBlank(cleaned) && cleaned != RefusalRu && cleaned != RefusalEn ==> r == RefusalRu
  {
    RefusalsDistinct();
    var fixed :=
      if IsBlank(cleaned) then RefusalRu
      else if isRefusal && cleaned != RefusalRu && cleaned != RefusalEn then RefusalRu
      else cleaned;
    StripIdempotent(fixed);
    Strip(fixed)
  }

  /** Cleaning of a successful reply: strip, scan the markers, finalize. */
  function CleanResponse(raw: string): (r: string)
    ensures r != [] && Strip(r) == r
    ensures IsBlank(raw) ==> r == RefusalRu
  {
    var response := Strip(raw);
    var isRefusal := StartsWithRefusal(response);
    Finalize(ScanMarkers(response, Markers, isRefusal), isRefusal)
  }

  /** A reply that began with a refusal sentence comes out as exactly one of
      the two sentences, and as the Russian one when it began with that. */
  lemma CleanKeepsRefusal(raw: string)
    ensures StartsWithRefusal(Strip(raw)) ==> CleanResponse(raw) == RefusalRu || CleanResponse(raw) == RefusalEn
    ensures StartsWith(Strip(raw), RefusalRu) ==> CleanResponse(raw) == RefusalRu
  {
    var response := Strip(raw);
    if StartsWith(response, RefusalRu) {
      ScanKeepsRefusal(response, Markers, RefusalRu);
    }
  }

  /** A reply that is not a refusal and holds no marker past position 5
      comes back stripped and otherwise untouched. */
  lemma CleanKeepsPlainAnswer(raw: string)
    requires !IsBlank(raw) && !StartsWithRefusal(Strip(raw))
    requires forall i :: 0 <= i < |Markers| ==> !CutsAt(Strip(raw), Markers[i], false)
    ensures CleanResponse(raw) == Strip(raw)
  {
    ScanKeeps(Strip(raw), Markers, false);
    StripIdempotent(raw);
  }

  /** A reply that is an answer followed by an echoed `---` line is cut
      back to the answer. */
  lemma CleanCutsEcho(answer: string, rest: string)
    requires |answer| >= 5 && Strip(answer) == answer
    requires !Contains(answer, "---")
    requires !StartsWithRefusal(Strip(answer + "\n---\n" + rest))
    ensures CleanResponse(answer + "\n---\n" + rest) == answer
  {
    EchoSurvivesStrip(answer, rest);
    EchoScan(answer, Strip(answer + "\n---\n" + rest), Markers);
    assert !IsBlank(answer) by { assert answer == Strip(answer); }
  }

  /** Outside a refusal, the scan cuts a reply that begins with an answer
      and a `---` line at the dashes. */
  lemma EchoScan(answer: string, s: string, markers: seq<string>)
    requires |answer| >= 5 && Strip(answer) == answer
    requires !Contains(answer, "---")
    requires StartsWith(s, answer + "\n---")
    requires markers != [] && markers[0] == "---"
    ensures ScanMarkers(s, markers, false) == answer
  {
    var pos := Find(s, "---");
    assert pos == |answer| + 1 by { FirstDashes(answer, s); }
    assert ScanMarkers(s, markers, false) == Strip(s[..pos]) by {
      assert CutsAt(s, markers[0], false);
      ScanCutsAtFirst(s, markers, false, 0);
    }
    assert s[..pos] == answer + "\n" by { FirstLine(answer, s); }
    assert Strip(answer + "\n") == answer by { StripNewline(answer); }
  }

  /** Stripping the echoed reply keeps the answer and the dashes after it. */
  lemma EchoSurvivesStrip(answer: string, rest: string)
    requires answer != [] && Strip(answer) == answer
    ensures StartsWith(Strip(answer + "\n---\n" + rest), answer + "\n---")
  {
    var raw := answer + "\n---\n" + rest;
    var head := answer + "\n---";
    assert raw[..|head|] == head;
    assert head[0] == answer[0];
    assert head[|head| - 1] == '-';
    StripKeepsPrefix(raw, head);
  }

  /** In a text that begins with `answer + "\n---"`, where `answer` holds no
      `---`, the first `---` is the one after the line break. */
  lemma FirstDashes(answer: string, s: string)
    requires !Contains(answer, "---")
    requires StartsWith(s, answer + "\n---")
    ensures Find(s, "---") == |answer| + 1
  {
    var n := |answer|;
    var head := answer + "\n---";
    assert s[..n] == answer by { assert s[..n] == s[..|head|][..n] && head[..n] == answer; }
    assert s[n + 1..n + 4] == head[n + 1..n + 4] == "---";
    assert OccursAt(s, "---", n + 1);
    assert Contains(s, "---");
    forall i | 0 <= i < n + 1 ensures !OccursAt(s, "---", i) {
      if i + 3 <= n {
        assert s[i..i + 3] == s[..n][i..i + 3];
        assert !OccursAt(answer, "---", i);
      } else {
        assert s[n] == '\n';
        assert s[i..i + 3][n - i] == s[n];
      }
    }
    var r := Find(s, "---");
    assert r != -1;
    assert r <= n + 1;
  }

  /** A text that begins with `answer + "\n---"` begins with the answer's line. */
  lemma FirstLine(answer: string, s: string)
    requires StartsWith(s, answer + "\n---")
    ensures s[..|answer| + 1] == answer + "\n"
  {
    var head := answer + "\n---";
    assert s[..|answer| + 1] == head[..|answer| + 1];
    assert head == (answer + "\n") + "---";
  }

  /** A stripped text followed by a line break strips back to itself. */
  lemma StripNewline(t: string)
    requires t != [] && Strip(t) == t
    ensures Strip(t + "\n") == t
  {
    var s := t + "\n";
    assert s[0] == t[0];
    assert TrimStart(s, Whitespace) == s;
    assert s[..|s| - 1] == t;
    assert TrimEnd(t, Whitespace) == t;
  }

  /** The text `ask` returns for the model's reply: the error message on a
      failure, the cleaned reply otherwise. */
  function Reply(reply: LlmReply): (r: string)
    ensures r != []
    ensures reply.LlmFailed? ==> StartsWith(r, LlmErrorPrefix) && r[|LlmErrorPrefix|..] == reply.error
  {
    match reply
    case LlmFailed(e) => LlmErrorPrefix + e
    case LlmText(t) => CleanResponse(t)
  }

  /** The marker loop of step 5: for each marker in order, find its first
      occurrence; past position 5 it cuts there and stops, unless the reply
      is a refusal and the marker lies within the refusal span. */
  method CutAtMarkers(response: string, markers: seq<string>, isRefusal: bool) returns (cleanedResponse: string)
    ensures cleanedResponse == ScanMarkers(response, markers, isRefusal)
  {
    cleanedResponse := response;
    var i := 0;
    while i < |markers|
      invariant 0 <= i <= |markers|
      invariant cleanedResponse == response
      invariant ScanMarkers(response, markers[i..], isRefusal) == ScanMarkers(response, markers, isRefusal)
    {
      assert markers[i..][0] == markers[i] && markers[i..][1..] == markers[i + 1..];
      var markerPos := Find(cleanedResponse, markers[i]);
      if markerPos > MinMarkerPos {
        if isRefusal && markerPos < RefusalSpan() {
          i := i + 1;
          continue;
        }
        cleanedResponse := Strip(cleanedResponse[..markerPos]);
        return;
      }
      i := i + 1;
    }
  }

  /** Step 5 of `ask`: strip the reply, cut it at the first qualifying
      marker and finalize. */
  method Clean(raw: string) returns (answer: string)
    ensures answer == CleanResponse(raw)
  {
    var response := Strip(raw);
    var isRefusal := StartsWithRefusal(response);
    var cleanedResponse := CutAtMarkers(response, Markers, isRefusal);
    if IsBlank(cleanedResponse) {
      cleanedResponse := RefusalRu;
    } else if isRefusal && cleanedResponse != RefusalRu && cleanedResponse != RefusalEn {
      cleanedResponse := RefusalRu;
    }
    answer := Strip(cleanedResponse);
  }

  /** Steps 3 to 5 of `ask` for a non-blank context: cap it, build the
      prompt, ask the model, and clean its reply or report its failure. */
  method Generate(context: string, query: string, llm: string -> LlmReply) returns (answer: string, prompt: string)
    ensures prompt == BuildPrompt(CapContext(context), query)
    ensures answer == Reply(llm(prompt)) && answer != []
    ensures Contains(prompt, query) && Contains(prompt, RefusalRu)
  {
    var finalContext := context;
    if |finalContext| > MaxContextLength {
      finalContext := finalContext[..MaxContextLength] + Ellipsis;
    }

    // 3. the prompt
    prompt := BuildPrompt(finalContext, query);
    PromptCarries(finalContext, query);

    // 4. the model
    match llm(prompt) {
      case LlmFailed(e) =>
        answer := LlmErrorPrefix + e;
      case LlmText(t) =>
        // 5. cleaning
        answer := Clean(t);
    }
  }

  // ---------------------------------------------------------------------
  // The agent

  /** The web text `ask` works with: the summary when web search is
      available and succeeded, nothing otherwise. */
  function WebText(enabled: bool, web: WebSearch): string {
    if enabled && web.WebSummary? then web.text else []
  }

  /** Step 2 of `ask`: each non-blank source, stripped under its header,
      and the sections joined by the separator. */
  method JoinSections(webResultsText: string, localContext: string) returns (finalContext: string)
    ensures finalContext == AssembleContext(webResultsText, localContext)
  {
    var contextParts: seq<string> := [];
    ghost var webPart: seq<string> := [];
    if !IsBlank(webResultsText) {
      contextParts := contextParts + [WebHeader + Strip(webResultsText)];
      webPart := contextParts;
    }
    if !IsBlank(localContext) {
      contextParts := contextParts + [LocalHeader + Strip(localContext)];
    } else {
      assert contextParts == webPart + [];
    }
    finalContext := Join(contextParts, Separator);
  }

  class Agent {
    const indexer: FaissIndexer
    const topK: nat
    const webSearchEnabled: bool

    /** Builds the agent over a loaded indexer; the environment lookup of the
        Serper key and the wrapper construction are handed in. Web search is
        available exactly when the key is set and not empty and the search
        wrapper could be built with it. */
    constructor(indexer: FaissIndexer, topK: nat, serperKey: Option<string>, wrapperBuilds: bool)
      ensures this.indexer == indexer && this.topK == topK
      ensures webSearchEnabled <==> serperKey.Some? && serperKey.value != [] && wrapperBuilds
    {
      this.indexer := indexer;
      this.topK := topK;
      match serperKey {
        case None => webSearchEnabled := false;
        case Some(key) => webSearchEnabled := key != [] && wrapperBuilds;
      }
    }

    /** Step 1 of `ask`: the documents named by the valid neighbour ids,
        joined by the separator. */
    method RetrieveLocal(local: LocalSearch) returns (localContext: string)
      ensures localContext == LocalContext(indexer.docs, local)
    {
      localContext := "";
      match local {
        case SearchFailed =>
        case Neighbours(ids) =>
          var validIndexes := ValidIndexes(ids, |indexer.docs|);
          if validIndexes != [] {
            var contextDocs := RetrievedDocs(indexer.docs, ids);
            localContext := Join(contextDocs, Separator);
          }
      }
    }

    /** Step 0 of `ask`: the web summary, when web search is available and
        succeeded. */
    method SearchWeb(web: WebSearch) returns (webResultsText: string)
      ensures webResultsText == WebText(webSearchEnabled, web)
    {
      webResultsText := "";
      if webSearchEnabled {
        match web {
          case WebSummary(text) => webResultsText := text;
          case WebFailed => webResultsText := "";
        }
      }
    }

    /** Steps 0 to 2 of `ask`: the web summary, the local documents, and the
        two labelled sections joined. */
    method GatherContext(web: WebSearch, local: LocalSearch) returns (finalContext: string)
      ensures finalContext == AssembleContext(WebText(webSearchEnabled, web), LocalContext(indexer.docs, local))
    {
      var webResultsText := SearchWeb(web);
      var localContext := RetrieveLocal(local);
      finalContext := JoinSections(webResultsText, localContext);
    }

    /** `ask`: gather web and local context, refuse when both are blank,
        otherwise cap the context, build the prompt, ask the model and clean
        its reply. `prompt` is the text handed to the model, if any. */
    method Ask(query: string, web: WebSearch, local: LocalSearch, llm: string -> LlmReply)
      returns (answer: string, prompt: Option<string>)
      ensures var webText := WebText(webSearchEnabled, web);
        var localText := LocalContext(indexer.docs, local);
        && (prompt == None <==> IsBlank(webText) && IsBlank(localText))
        && (prompt == None ==> answer == RefusalRu)
        && (prompt != None ==>
              && prompt.value == BuildPrompt(CapContext(AssembleContext(webText, localText)), query)
              && answer == Reply(llm(prompt.value)))
      ensures answer != []
      ensures prompt != None ==> Contains(prompt.value, query) && Contains(prompt.value, RefusalRu)
    {
      var finalContext := GatherContext(web, local);
      ContextBlank(WebText(webSearchEnabled, web), LocalContext(indexer.docs, local));
      if IsBlank(finalContext) {
        return RefusalRu, None;
      }
      var p;
      answer, p := Generate(finalContext, query, llm);
      prompt := Some(p);
    }
  }
}
