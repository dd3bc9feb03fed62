# RAG_hack core, modelled in Dafny

This project models the deterministic core of a small retrieval-augmented
question-answering system for news articles. It has four parts.

- **`RagAgent`** (`rag_agent.dfy`) models `RAGAgent.ask`:
  - it gathers a web-search summary and the local documents whose FAISS
    neighbour ids are in range;
  - it joins them into a labelled context, and refuses with a fixed Russian
    sentence when both are blank;
  - otherwise it caps the context at 15000 characters and fills the prompt
    template;
  - it asks the language model and cleans the reply. Cleaning strips the
    reply, cuts at the first echoed marker past position 5 (never inside a
    leading refusal sentence), falls back to the refusal, and restores a
    mangled refusal.
- **`FaissIndexing`** (`faiss_indexer.dfy`) models the `FaissIndexer` store:
  - a document list beside a flat L2 index, represented by its dimension and
    vector count;
  - `add_documents` with its blank-document cleaning;
  - `save` and `load`, over a map of files, with the documents path derived
    by `os.path.splitext(path)[0] + '.pkl'`.
- **`Chunker`** (`chunker.dfy`) models `chunk_text`, the sliding-window
  splitter.
- **`BaseScraper`** (`base_scraper.dfy`) models four parts of the scraper:
  - `safe_filename`;
  - the article-URL filter of `get_article_urls_from_sitemap`: path length,
    image extensions, excluded path fragments;
  - its breadth-first sitemap traversal, with its three limits;
  - the success/failure counting loop of `scrape_articles_from_site`.

Web search, the FAISS search, the language model, HTTP fetching and
sitemap parsing, and article extraction are outside the model. They reach it
as values or functions handed in by the caller:

- `WebSearch`, `LocalSearch` and `llm` for the agent;
- `fetch` and `extract` for the scraper.

`text.dfy` holds the Python string operations the core relies on:

- `strip`, `find` and `in`;
- `join` and `lower`;
- single-character `replace`;
- slicing with negative bounds.

`wrappers.dfy` holds `Option` and `Outcome`.

## Model

| member | source | states |
|---|---|---|
| `Text.Strip` | indexing/faiss_indexer.py:14 | `s.strip()` is empty exactly when `s` is blank; otherwise it neither starts nor ends with whitespace |
| `Text.StripIdempotent` | indexing/faiss_indexer.py:14 | stripping twice is stripping once |
| `Text.Find` | rag_integration/rag_agent.py:190 | `s.find(pat)` is -1 exactly when `pat` does not occur; otherwise `pat` occurs there and at no earlier index |
| `Text.PySlice` | preprocessing/chunker.py:13 | `text[lo:hi]` for `lo` inside the text: the slice for in-range `hi`, empty for `0 <= hi <= lo`, the rest of the text for `hi` past the end, and for negative `hi` the slice up to `len(text) + hi`, empty when that is before `lo` |
| `Text.StripWhereDrops` | scraper/base_scraper.py:29 | every character `strip` removes, before and after what it keeps, is one of the stripped characters |
| `Chunker.ChunkText` | preprocessing/chunker.py:3-15 | an empty text gives no chunk whatever the sizes; otherwise the window loop returns exactly the chunk list `Chunks(text, size, overlap)`, and it terminates because the step `size - overlap` is positive |
| `Chunker.ChunksOfEmpty` | preprocessing/chunker.py:9-11 | an empty text gives no chunk |
| `Chunker.ChunkAt` | preprocessing/chunker.py:11-14 | chunk `k` starts inside the text at `k * (size - overlap)` and is `text[k*step : min(k*step + size, len(text))]` |
| `Chunker.ChunkCount` | preprocessing/chunker.py:11-14 | the number of chunks is the least `n` with `n * (size - overlap) >= len(text)` |
| `Chunker.ChunksBounded` | preprocessing/chunker.py:12-13 | with a positive size every chunk holds between 1 and `size` characters |
| `Chunker.LastChunkEnds` | preprocessing/chunker.py:11-14 | for `0 <= overlap < size` and a non-empty text, the last chunk is a suffix of the text |
| `Chunker.Covered` | preprocessing/chunker.py:11-14 | for `0 <= overlap < size`, every character of the text lies in some chunk |
| `Chunker.ConcatWithoutOverlap` | preprocessing/chunker.py:11-14 | with `overlap == 0` the chunks concatenate back to the text |
| `FaissIndexing.CleanDocs` | indexing/faiss_indexer.py:14 | cleaning never adds documents; the lemmas below pin down which survive |
| `FaissIndexing.CleanDocsMembers` | indexing/faiss_indexer.py:14 | a cleaned document is the stripped form of some non-blank input, and every non-blank input's stripped form is kept |
| `FaissIndexing.CleanDocsEmpty` | indexing/faiss_indexer.py:14-17 | nothing survives cleaning exactly when every input is blank (the `ValueError` case) |
| `FaissIndexing.CleanDocsStripped` | indexing/faiss_indexer.py:14 | every stored document is non-empty and already stripped |
| `FaissIndexing.CleanDocsAppend` | indexing/faiss_indexer.py:14 | cleaning distributes over concatenation, so survivors keep their input order |
| `FaissIndexing.CleanDocsSingle` | indexing/faiss_indexer.py:14 | one document survives exactly when it is not blank, as its stripped form |
| `FaissIndexing.SplitExtRoot` | indexing/faiss_indexer.py:24 | the `splitext` root is a prefix of the path; when shorter, it is cut at the extension dot: a `.` after which the path has no `.` or `/`, with a non-dot character before it in the last component; and whenever the path has such a dot, the root is the path cut there |
| `FaissIndexing.DocsPath` | indexing/faiss_indexer.py:24 | the documents path ends in `.pkl` and the rest is a prefix of the index path |
| `FaissIndexing.DocsPathSwapsExtension` | indexing/faiss_indexer.py:24 | `dir/name.ext` gives `dir/name.pkl` |
| `FaissIndexing.DocsPathOfPkl` | indexing/faiss_indexer.py:24 | an index path already named `name.pkl` is its own documents path |
| `FaissIndexing.DocsPathWithoutDot` | indexing/faiss_indexer.py:24 | a path without a dot gains `.pkl` and so differs from the index path |
| `FaissIndexing.SaveFiles` | indexing/faiss_indexer.py:22-26 | after `save` the index blob is at the path (unless the pickle overwrote it), the documents are at the documents path, and no other file changed |
| `FaissIndexing.LoadFrom` | indexing/faiss_indexer.py:28-36 | an unreadable index raises and changes nothing; otherwise the index is replaced; then the documents come from the pickle, are emptied when it is missing, or the load raises with the new index and the old documents; no other error is raised |
| `FaissIndexing.LoadAfterSave` | indexing/faiss_indexer.py:22-36 | `load` after `save` on the same path restores both stores, when the two files have different names |
| `FaissIndexing.LoadAfterSaveOnPklPath` | indexing/faiss_indexer.py:22-36 | on a path ending in `.pkl` the pickle overwrites the index blob, so loading it back raises and changes nothing |
| `FaissIndexing.LoadWithoutDocsBreaksConsistency` | indexing/faiss_indexer.py:31-36 | a missing pickle leaves a non-empty index with no documents: one vector per document no longer holds |
| `FaissIndexing.FaissIndexer.constructor` | indexing/faiss_indexer.py:7-11 | a new indexer has an empty index of the model's dimension and no documents |
| `FaissIndexing.FaissIndexer.AddDocuments` | indexing/faiss_indexer.py:13-20 | it raises and changes nothing when nothing survives cleaning or the index dimension differs; otherwise it appends the cleaned documents and one vector each; one vector per document is preserved |
| `FaissIndexing.FaissIndexer.Save` | indexing/faiss_indexer.py:22-26 | the files become `SaveFiles` of the old files and the indexer's stores |
| `FaissIndexing.FaissIndexer.Load` | indexing/faiss_indexer.py:28-36 | the stores and the outcome are `LoadFrom` of the files and the old stores |
| `FaissIndexing.SaveThenLoad` | indexing/faiss_indexer.py:22-36 | saving one indexer and loading into another succeeds and reproduces the first one's stores |
| `RagAgent.ValidIndexes` | rag_integration/rag_agent.py:117 | the kept ids are exactly the neighbour ids in `0 <= i < len(docs)` |
| `RagAgent.ValidIndexesAppend` | rag_integration/rag_agent.py:117 | filtering distributes over concatenation: rank order is kept |
| `RagAgent.ValidIndexesKeepsAll` | rag_integration/rag_agent.py:117 | when every id is in range nothing is dropped |
| `RagAgent.RetrievedDocs` | rag_integration/rag_agent.py:120 | the retrieved documents are `docs[i]` for the kept ids, in rank order |
| `RagAgent.ContextLayout` | rag_integration/rag_agent.py:138-145 | the web section comes first and the local one second; each appears, stripped under its header, exactly when its source is not blank, joined by the separator |
| `RagAgent.ContextBlank` | rag_integration/rag_agent.py:139-149 | the assembled context is blank exactly when both sources are blank (the refusal case) |
| `RagAgent.CapContext` | rag_integration/rag_agent.py:152-155 | a context of at most 15000 characters is kept; a longer one becomes its first 15000 characters followed by `...` |
| `RagAgent.CapContextIdempotent` | rag_integration/rag_agent.py:152-155 | capping a capped context changes nothing |
| `RagAgent.CapContextNotBlank` | rag_integration/rag_agent.py:152-155 | a non-blank context stays non-blank under the cap |
| `RagAgent.PromptCarries` | rag_integration/rag_agent.py:160-167 | the prompt holds the refusal sentence, the context and the query verbatim at their places, and ends with the answer label |
| `RagAgent.ScanMarkers` | rag_integration/rag_agent.py:189-196 | the marker scan never lengthens the reply |
| `RagAgent.ScanCutsAtFirst` | rag_integration/rag_agent.py:189-196 | the reply is cut once, before the first marker in list order that qualifies, and stripped |
| `RagAgent.ScanKeeps` | rag_integration/rag_agent.py:189-196 | without a qualifying marker the reply is left alone |
| `RagAgent.ScanKeepsRefusal` | rag_integration/rag_agent.py:187-196 | in a refusal a cut never falls inside the refusal sentence |
| `RagAgent.RefusalsDistinct` | rag_integration/rag_agent.py:185-187 | both refusal sentences are already stripped, and the English one does not start with the Russian one |
| `RagAgent.Finalize` | rag_integration/rag_agent.py:198-205 | the result is non-empty and stripped; a blank text becomes the Russian refusal; a non-blank non-refusal is only stripped; a refusal ends as one of the two sentences, the Russian one when it began with it, and the English one stays when it is exactly the English sentence; any other non-blank refusal becomes the Russian sentence |
| `RagAgent.CleanResponse` | rag_integration/rag_agent.py:181-205 | a cleaned reply is never empty and carries no surrounding whitespace; a blank reply becomes the Russian refusal |
| `RagAgent.CleanKeepsRefusal` | rag_integration/rag_agent.py:187-205 | a reply beginning with a refusal sentence comes out as exactly one of the two sentences, and as the Russian one when it began with it |
| `RagAgent.CleanKeepsPlainAnswer` | rag_integration/rag_agent.py:181-205 | a non-refusal reply with no marker past position 5 comes back only stripped |
| `RagAgent.CleanCutsEcho` | rag_integration/rag_agent.py:184-205 | an answer followed by an echoed `---` line is cut back to the answer |
| `RagAgent.EchoScan` | rag_integration/rag_agent.py:189-196 | outside a refusal the scan cuts `answer` + newline + `---` at the dashes, leaving `answer` |
| `RagAgent.Reply` | rag_integration/rag_agent.py:172-205 | a model failure gives the error prefix followed by the error text; the reply is never empty |
| `RagAgent.CutAtMarkers` | rag_integration/rag_agent.py:189-196 | the marker loop computes `ScanMarkers` |
| `RagAgent.Clean` | rag_integration/rag_agent.py:181-205 | step 5 computes `CleanResponse` |
| `RagAgent.Generate` | rag_integration/rag_agent.py:152-205 | the prompt is the template over the capped context; the answer is the model's cleaned reply or its error; the prompt contains the query and the refusal sentence |
| `RagAgent.JoinSections` | rag_integration/rag_agent.py:137-145 | step 2 computes `AssembleContext` of the two texts |
| `RagAgent.Agent.constructor` | rag_integration/rag_agent.py:19-67 | the agent keeps its indexer and `top_k`; web search is on exactly when the Serper key is set, not empty, and the search wrapper could be built with it |
| `RagAgent.Agent.SearchWeb` | rag_integration/rag_agent.py:83-101 | the web text is the summary when search is on and succeeded, and empty otherwise |
| `RagAgent.Agent.RetrieveLocal` | rag_integration/rag_agent.py:105-129 | the local context is the in-range documents joined by the separator, and empty on a failed search |
| `RagAgent.Agent.GatherContext` | rag_integration/rag_agent.py:83-145 | steps 0-2 give the assembled context of the web text and the local context |
| `RagAgent.Agent.Ask` | rag_integration/rag_agent.py:70-205 | `ask` refuses with the Russian sentence and sends no prompt exactly when both sources are blank; otherwise it answers with the reply to the capped-context prompt; the answer is never empty |
| `BaseScraper.SubForbidden` | scraper/base_scraper.py:25 | each character of `<>:"/\|?*` becomes `_` and every other character stays |
| `BaseScraper.Sanitized` | scraper/base_scraper.py:25-27 | the text keeps its length; forbidden characters and spaces become `_`; the result holds none of them |
| `BaseScraper.SafeFilename` | scraper/base_scraper.py:22-29 | the name holds no forbidden character or space, is at most `max_len` long for `max_len >= 0`, and neither starts nor ends with `_` |
| `BaseScraper.SafeFilenameIsPiece` | scraper/base_scraper.py:22-29 | the name is a contiguous piece of the text cut at `max_len`, each character sanitized, and everything cut off around it is `_` once sanitized |
| `BaseScraper.NameAtUnique` | scraper/base_scraper.py:22-29 | two such pieces without `_` at either end are equal, so the contracts of `SafeFilename` and `SafeFilenameIsPiece` determine the name |
| `BaseScraper.SafeFilenameIdempotent` | scraper/base_scraper.py:22-29 | for `max_len >= 0`, cleaning a cleaned name changes nothing |
| `BaseScraper.SafeFilenameFixed` | scraper/base_scraper.py:22-29 | a safe name that fits and has no `_` at either end is left alone |
| `BaseScraper.SafeFilenameDropsLast` | scraper/base_scraper.py:29 | `max_len == -1` drops the last character of a plain name |
| `BaseScraper.SafeFilenameNegativeCutsAgain` | scraper/base_scraper.py:29 | with a negative `max_len` cleaning is not idempotent: each application cuts again |
| `BaseScraper.UrlPath` | scraper/base_scraper.py:147 | the parsed path is no longer than the URL and holds no `?` or `#` |
| `BaseScraper.BeforeQuery` | scraper/base_scraper.py:147 | the text before the query is a prefix holding no `?` or `#`, and ends at one when it is shorter than the text |
| `BaseScraper.UrlPathOfAbsolute` | scraper/base_scraper.py:147 | for `scheme://host` followed by a path and then nothing, a query or a fragment, the parsed path is exactly that path |
| `BaseScraper.UrlPathOfRelative` | scraper/base_scraper.py:147 | a URL with neither a scheme nor a `//` in front has as its path everything before its query or fragment |
| `BaseScraper.FilterIgnoresCase` | scraper/base_scraper.py:150-152 | the image and exclusion tests ignore letter case |
| `BaseScraper.NewChildrenMembers` | scraper/base_scraper.py:130-136 | a child is queued exactly when the index lists it (stripped) and it was not yet processed |
| `BaseScraper.EnqueueChildren` | scraper/base_scraper.py:130-136 | the queue grows by exactly the new children in entry order; every queued sitemap stays reached from the initial one |
| `BaseScraper.TakenComplete` | scraper/base_scraper.py:143-158 | every value among the first `n` stripped `<loc>`s that the filter accepts is taken |
| `BaseScraper.TakenSound` | scraper/base_scraper.py:143-158 | every taken value is accepted by the filter and is one of the stripped `<loc>`s |
| `BaseScraper.TakenGrow` | scraper/base_scraper.py:143-158 | what a prefix of the entries takes, a longer prefix takes too |
| `BaseScraper.AcceptedLocsCollected` | scraper/base_scraper.py:143-158 | holding the accepted URLs of the first `n` entries means every accepted URL among them is found |
| `BaseScraper.CollectEntry` | scraper/base_scraper.py:143-161 | an accepted entry below the limit adds exactly its URL, any other entry changes nothing; the loop stops exactly when `limit` URLs are found; so `found` stays the start plus the accepted URLs of the entries scanned |
| `BaseScraper.CollectUrls` | scraper/base_scraper.py:142-161 | the result is `CollectFrom`, the entry-by-entry loop in document order that stops at `limit`; it is the old set plus exactly the accepted URLs of the entries scanned, at most `limit`; scanning stops early only once `limit` is reached, and before each scanned entry fewer than `limit` were found; every URL is listed by a visited urlset |
| `BaseScraper.CheckSitemap` | scraper/base_scraper.py:114-169 | the new queue and found set are exactly `CheckOutcome`: an index appends its new children in entry order, a urlset gives `CollectFrom` over its entries, a failure changes nothing; so every child an index lists is processed or queued, a urlset adds only accepted URLs it lists, and the queue keeps its sitemaps |
| `BaseScraper.ChildrenSeenPop` | scraper/base_scraper.py:105-108 | skipping an already processed sitemap loses no listed child from the visited-or-queued set |
| `BaseScraper.ChildrenSeenVisit` | scraper/base_scraper.py:105-136 | visiting the head of the queue keeps every child of every visited index visited or queued |
| `BaseScraper.ChildrenSeenDone` | scraper/base_scraper.py:104 | when the queue ran empty, every child of every visited index was visited |
| `BaseScraper.VisitSitemap` | scraper/base_scraper.py:105-169 | checking a new sitemap marks it processed and appends it to the visited list, gives the queue and found set of `CheckOutcome`, and leaves the rest of `Walk` unchanged; it keeps the visited list without repeats, and keeps found URLs sourced, sitemaps reached, urlsets collected and listed children seen |
| `BaseScraper.GetArticleUrls` | scraper/base_scraper.py:81-177 | the found set and the checked sitemaps in order are exactly `Walk` from the queue holding the initial sitemap: first in first out, skipping processed ones, stopping at either limit; at most `limit` URLs and `max_sitemaps` sitemaps, none checked twice, the first being the initial one; every URL passes the filter and is listed by a checked urlset, and every checked sitemap was reached; below `limit`, every accepted URL of every checked urlset is returned; below both limits, every child of every checked index was checked too |
| `BaseScraper.ListOf` | scraper/base_scraper.py:175 | `list(set)` holds each element of the set exactly once |
| `BaseScraper.ScrapeArticles` | scraper/base_scraper.py:210-224 | at most `limit` successes; successes count the saved URLs among those tried; every URL tried is counted as processed, plus the one at which the loop stops once `limit` were saved; every URL tried had fewer than `limit` successes before it, so the loop stops as soon as `limit` is reached |
| `BaseScraper.ArticleList` | scraper/base_scraper.py:201 | the URLs to scrape are the walk's result for `2 * limit`, listed without repeats, and the found set and checked sitemaps are exactly `Walk` from the sitemap for `2 * limit`: the walk starts at the sitemap when both limits are positive, every URL is accepted and listed by a visited urlset, and below the limits every accepted URL and every nested child was reached |
| `BaseScraper.TakeUntilPrefix` | scraper/base_scraper.py:143-161 | the entry loop that stops at `limit` ends with the start plus the values taken from the shortest prefix that reaches `limit`, or from all entries |
| `BaseScraper.CollectFromIsPrefix` | scraper/base_scraper.py:143-161 | `CollectFrom` is the start plus the accepted URLs of the prefix scanned before the limit was reached, or of all entries |
| `BaseScraper.WalkOneUrlset` | scraper/base_scraper.py:104-161 | a walk allowed one sitemap, from a urlset, checks it alone and returns `CollectFrom` over its entries |
| `BaseScraper.TakeFirstTwo` | scraper/base_scraper.py:155-161 | with room for two, the entry loop keeps the first two accepted values and stops |
| `BaseScraper.WalkKeepsFirst` | scraper/base_scraper.py:143-161 | with room for two URLs and one sitemap, a urlset listing accepted `a`, `b` and then `c` gives exactly `{a, b}`: the first URLs in document order are kept |
| `BaseScraper.NewChildrenPair` | scraper/base_scraper.py:130-136 | an index listing `x` then `y`, neither processed, queues `[x, y]` in that order |
| `BaseScraper.WalkIndexFirst` | scraper/base_scraper.py:104-136 | a walk from an index checks it first and continues from the queue of its new children |
| `BaseScraper.WalkSecondLast` | scraper/base_scraper.py:104-112 | with room for two sitemaps, the second one checked is the head of the queue |
| `BaseScraper.WalkChecksInOrder` | scraper/base_scraper.py:104-136 | with room for two sitemaps, an index listing `x` then `y` is followed by `x`: sitemaps are checked first in, first out |
| `BaseScraper.SingleUrlsetListed` | scraper/base_scraper.py:81-177 | with one sitemap allowed, a sitemap that is a urlset listing one accepted, already stripped URL yields exactly that URL: the facts `ArticleList` states leave no other list |
| `BaseScraper.ScrapeSite` | scraper/base_scraper.py:182-233 | the scraped list is the sitemap walk's result for `2 * limit`, with every fact `ArticleList` states; when it is empty nothing is counted; otherwise the counts are those of the scraping loop over it: at most `limit` successes, tried URLs counted in order, and an early stop only at `limit` successes, taken as soon as `limit` is reached |
| `BaseScraper.ScrapeUrls` | scraper/base_scraper.py:203-224 | an empty list counts nothing; otherwise the counts are the scraping loop's, including the stop as soon as `limit` successes are reached |

## Left out

- The embedding models and FAISS numerics are not modelled: vectors, L2 distances and nearest-neighbour ranking. An index is its dimension and vector count; the neighbour ids of a search are an input (`LocalSearch`).
- Network services are inputs, not calls: the Serper web search, the Hugging Face endpoint, `requests.get` and XML parsing. Any exception they raise is one failure value: `WebFailed`, `SearchFailed`, `LlmFailed`, `FetchFailed`. The error text of a model failure is given as a string.
- A sitemap is fetched and parsed as a whole (`Fetched`). An exception raised midway through a urlset, after some URLs were added, is not modelled. A non-XML content type and an unknown root tag are not told apart: both change nothing.
- File I/O, `pickle` and the FAISS file format are not modelled: files are a map from path to artifact (`Storage`).
- `print`, `tqdm`, `time.sleep`, `load_dotenv` and the request headers and timeouts are not modelled; they affect no result.
- `extract_and_save_article` and `setup_newspaper_config` are not modelled: extraction is the caller's function `extract`, returning success or failure.
- The other scrapers, `main.py` and the Chroma indexer are not part of this model.
- RagAgent.Agent.constructor: the loading of the embedding and language models is not modelled. The `hasattr` check on the indexer always passes for a `FaissIndexer`, which sets both `index` and `docs` when built (indexing/faiss_indexer.py:7-11); an indexer of another class is not modelled, so the `ValueError` of that check is not either.
- RagAgent.Agent.Ask: `top_k` is kept but not used to bound the number of neighbour ids, which come from the search result as given.
- Text.Lower: folds ASCII letters only; Python's `str.lower` also folds other letters (the Kelvin sign becomes `k`, for instance).
- BaseScraper.UrlPath: does not model the rest of `urlparse`:
  - it does not split `;params` off the last path segment;
  - it does not remove the tab and newline characters `urlparse` deletes.

  So `http://h/;p` counts as having a path longer than one character.
- BaseScraper.ListOf: returns the set's elements in an unspecified order; Python's iteration order of a set is not modelled.
- BaseScraper.ScrapeSite: returns the scraped list and its success, failure and processed counts instead of printing them; the pause between articles is not modelled.
- Chunker.ChunkText: requires `chunk_size > overlap` for a non-empty text, where the loop in `chunk_text` otherwise never ends; on an empty text the loop condition `start < length` fails at once, so the body never runs and any sizes are allowed.
