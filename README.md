# Article generator core, modelled in Dafny

The article generator gathers research material for a topic and writes an
article from it section by section. Its core is a small
retrieval-augmented generation store:

- **Chunker** (`RAGSystem.chunk_text`): splits text into words and packs
  them into chunks. Each word is charged its length plus one. A chunk is
  closed as soon as its charge reaches the chunk size (500 by default). A
  non-empty remainder becomes the last chunk.
- **Vector store** (`RAGSystem.add_content`): chunks the content and
  records one citation for it in the ledger. It then appends every chunk
  whose embedding succeeds to four parallel lists: chunks, embeddings,
  source labels and citation ids.
- **Retriever** (`RAGSystem.get_relevant_chunks`): scores every stored
  embedding against the query's. It keeps the positions scoring strictly
  above the threshold and sorts them best first with a stable sort. It
  returns at most `n` rows.
- **Section writer** (`RAGSystem.generate_section`): retrieves up to five
  chunks for `"<section> <topic>"`. It appends ` [id]` to each chunk that
  has a citation and joins them with blank lines. The result goes to the
  language model. A placeholder stands in when nothing is found or the
  call fails.
- **Citation ledger** (`CitationManager`): normalises citation details and
  stores them under dense ids 1, 2, 3, …. It renders them as a markdown
  reference list in id order.
- **URL harvester** (the loop of `PerplexityClient.extract_urls`): reads
  the search service's answer line by line. From each line carrying
  `**URL:**` it takes the text after the marker and cleans off spaces and
  asterisks. It keeps the result when it starts with `http`.

Modules:

- `Wrappers`: `Option` and `Result`.
- `Text`: Python's `strip`, `split()`, `split(sep)`, `join`, `find`, `startswith` and `str(int)`.
- `Chunker`: the chunker.
- `Ranking`: the filter, sort and slice of the retriever.
- `CitationLedger`: the ledger, a class whose methods update its dictionary and counter.
- `Rag`: the store. It is a class whose methods append to its four lists.
- `UrlExtraction`: the URL harvester.

Each loop of the source is a method with loop invariants, proved against a
function. The lemmas then prove what that function promises.

### How the model treats the documentation

The model follows the code wherever the documentation disagrees with it.

- `add_citation` promises a `ValueError` when every field is missing. The
  code defaults the year to the current year before its emptiness check, so
  a call with nothing given is accepted and stored with the year alone.
  The model does what the code does: `CitationLedger.Normalize` rejects
  only a year given as whitespace with every other field blank or absent,
  and `CitationLedger.IdsAreDense` shows an all-absent call receiving an id.
- The docstring of `get_references` shows `Smith, J. (2023)`. The code
  joins the parts with `". "`, so authors ending in a period produce
  `Smith, J.. (2023)`, as `CitationLedger.ReferenceExample` states.

## Model

| member | source | states |
|---|---|---|
| Chunker.ChunkText | src/rag_system.py:65-101 | The chunking loop returns exactly `Chunks(text, chunkSize)`, and no chunks exactly when the text is blank |
| Chunker.ChunksEmptyIffBlank | src/rag_system.py:79-81 | Chunking gives nothing if and only if the text is empty or whitespace only |
| Chunker.ChunksArePacking | src/rag_system.py:83-98 | The chunks are the rendered groups of a packing of the words: the groups cover the words in order, none is empty, each stays under the limit without its last word, every group but the last reaches it. Any packing renders to the same chunks |
| Chunker.PackingUnique | src/rag_system.py:88-98 | The word groups of a packing are unique: two packings of the same words under the same limit are equal |
| Chunker.PackingPrefixesUnder | src/rag_system.py:88-95 | In a packing, every non-empty proper prefix of a group is charged less than the limit (a chunk is closed at the first word that reaches it) |
| Chunker.ChunksRoundTrip | src/rag_system.py:83-98 | Joining the chunks with spaces equals `" ".join(text.split())`. Splitting that join again gives the text's words. No chunk is empty |
| Chunker.ChunkSizes | src/rag_system.py:88-98 | Every chunk but the last is at least `chunkSize - 1` characters long. Each group is non-empty and under the limit without its last word. Each chunk's length plus one is its group's charge |
| Ranking.AboveComplete | src/rag_system.py:182-183 | Every position whose score is strictly above the threshold is among the kept positions (which the function's contract already shows to be valid, above the threshold and ascending) |
| Ranking.SortPermutes | src/rag_system.py:184-186 | The descending sort is a permutation of the indices it sorts |
| Ranking.SortRanked | src/rag_system.py:184-186 | Sorting ascending distinct indices puts them best score first, equal scores in ascending index order, as Python's stable `sorted(..., reverse=True)` does |
| Ranking.RankedOrder | src/rag_system.py:184-186 | A ranked list has non-increasing scores, and equal scores keep ascending index order |
| Ranking.PrefixSound | src/rag_system.py:184-186 | The slice `[:n]` of a ranked list of qualifying indices is ranked and qualifying, and has at most `n` elements when `n` is not negative |
| Ranking.TopIndicesSound | src/rag_system.py:182-186 | The selected indices are valid positions, all score strictly above the threshold, come ranked best first, and number at most `n` when `n` is not negative |
| Ranking.TopIndicesComplete | src/rag_system.py:182-186 | A qualifying index that is left out ranks after the last selected one, and then exactly `n` were selected |
| Ranking.TopIndicesShort | src/rag_system.py:182-186 | When fewer than `n` indices are selected, every qualifying index is selected |
| Ranking.TopIndicesExample | src/rag_system.py:182-186 | Scores 0.9, 0.5, 0.5 select 0, 1, 2 at threshold 0.3 (tie kept in index order) and only 0 at threshold 0.6 |
| CitationLedger.Normalize | src/citation_manager.py:71-83 | Truthy fields are stripped and falsy ones become `None`. A falsy year becomes the current year. The result is rejected exactly when the year is given as whitespace and every other field is blank or absent. An accepted record has a truthy field |
| CitationLedger.NormalizeTrimmed | src/citation_manager.py:72-78 | Non-empty, already trimmed fields are stored unchanged |
| CitationLedger.CitationManager.constructor | src/citation_manager.py:36-39 | A new ledger is empty, its first id is 1, and it satisfies the dense-id invariant |
| CitationLedger.CitationManager.AddCitation | src/citation_manager.py:41-91 | An accepted citation is stored under the current counter, which was a fresh id. That id is returned and the counter goes up by one. A rejected one returns the error and changes nothing. Ids stay dense (1 .. counter - 1) and every stored record has content |
| CitationLedger.CitationManager.GetReferences | src/citation_manager.py:93-135 | An empty ledger gives the empty string. Otherwise the result is the heading followed by each citation's line in ascending id order |
| CitationLedger.CitationManager.GetCitationById | src/citation_manager.py:137-147 | The stored record for an id that is present, and `None` exactly for an unknown id |
| CitationLedger.PartsNonEmptyIff | src/citation_manager.py:117-130 | A stored record renders to at least one component exactly when it has a truthy field |
| CitationLedger.ReferencesLayout | src/citation_manager.py:111-132 | For a ledger with dense ids, the line of citation `k` sits after the lines of smaller ids and before those of larger ids. It is never empty |
| CitationLedger.EntryWithoutJournal | src/citation_manager.py:115-131 | A citation with authors, year, title and URL renders as `[id] authors. (year). *title*. [Available online](url)` followed by a blank line |
| CitationLedger.ReferenceExample | src/citation_manager.py:104-131 | The documented Smith example is accepted and renders with `Smith, J.. (2023)`, the doubled period the `". "` joiner produces |
| CitationLedger.IdsAreDense | src/citation_manager.py:72-88 | Over a run of calls the first accepted citation gets 1. A rejected one consumes no id, so the next gets 2. A call with every field absent is accepted and gets 3 |
| Rag.Submitted | src/rag_system.py:138-143 | A record is stored exactly when the details are a non-empty dictionary without a `self` key that `add_citation` accepts: not a year given as non-empty whitespace with title, url, authors and journal all blank or absent. A stored record has content |
| Rag.RAGSystem.constructor | src/rag_system.py:42-55 | A new store has four empty lists, uses the given ledger and services, and is valid |
| Rag.RAGSystem.Kept | src/rag_system.py:146-148 | The kept chunks all embed and come from the input. Every input chunk that embeds is kept |
| Rag.RAGSystem.KeptInOrder | src/rag_system.py:146-152 | Chunks are filtered one at a time in chunk order: a single chunk is kept exactly when it embeds, and the chunks kept from `a + b` are those kept from `a` followed by those kept from `b` (which determines `Kept` completely) |
| Rag.RAGSystem.KeptAllOrNone | src/rag_system.py:146-152 | When every chunk embeds all are kept in order; when none does none is |
| Rag.RAGSystem.RecordCitation | src/rag_system.py:138-143 | The ledger gains the normalised record under the next id exactly when `add_citation(**details)` would succeed, and that id is returned. Otherwise nothing changes and `None` is returned |
| Rag.RAGSystem.Store | src/rag_system.py:149-152 | One chunk, its embedding, its source and its citation id are appended to the four lists, which stay parallel and valid |
| Rag.RAGSystem.StoreChunks | src/rag_system.py:146-152 | Exactly the chunks that embed are appended, in order, with the given source and citation id. Earlier entries are unchanged, and every stored embedding is that of its chunk |
| Rag.RAGSystem.AddContent | src/rag_system.py:120-154 | Blank content changes nothing, not even the ledger. Otherwise the citation is recorded as `RecordCitation` does, then the chunks that embed are appended with the source and that id. The lists stay parallel and every citation id is in the ledger |
| Rag.RAGSystem.StoredWordsOfContent | src/rag_system.py:133-152 | When every chunk embeds, the chunks stored for some content spell out exactly its words |
| Rag.RAGSystem.Scores | src/rag_system.py:179 | One score per stored embedding, in storage order: the similarity of the query vector to that embedding |
| Rag.RAGSystem.GetRelevantChunks | src/rag_system.py:156-196 | No rows when the query does not embed or nothing is stored. Otherwise one row per selected position, in selection order, carrying that position's chunk, source, citation id and score |
| Rag.RAGSystem.RetrievedAreStored | src/rag_system.py:182-196 | Every returned row is a stored chunk scoring strictly above the threshold, and its citation id, if any, is found in the ledger |
| Rag.RAGSystem.RetrievedRanked | src/rag_system.py:184-196 | At most `n` rows come back when `n` is not negative, with non-increasing similarity |
| Rag.RAGSystem.RetrievedComplete | src/rag_system.py:182-186 | When fewer than `n` rows come back, every stored chunk scoring above the threshold is selected |
| Rag.RAGSystem.GenerateSection | src/rag_system.py:198-251 | Retrieves with `"<section> <topic>"`, 5 and 0.3. With no rows the result is the no-content placeholder. Otherwise it is the model's answer for the annotated context, or the error placeholder when the call fails |
| Rag.AnnotatedAll | src/rag_system.py:224-229 | One context part per row, in order, each the row's text with its citation marker |
| Rag.AnnotatedMarker | src/rag_system.py:226-228 | A part starts with the chunk text and differs from it exactly when the citation id is truthy (present and not 0) |
| Rag.ContextHasEveryChunk | src/rag_system.py:224-231 | Every retrieved chunk, with its marker, occurs in the context given to the model |
| UrlExtraction.UrlPart | src/perplexity_client.py:135 | The text that follows the marker's first occurrence. It stops at the first position where the marker starts again, or at the end of the line when it does not. The marker does not start at any earlier position of that text, and the text never contains the marker |
| UrlExtraction.CleanUrlInfix | src/perplexity_client.py:135-136 | The three strips keep a contiguous piece of the part they clean |
| UrlExtraction.LineUrlSound | src/perplexity_client.py:134-138 | A URL taken from a line starts with `http`, has no surrounding whitespace, does not contain the marker, and uses only characters of that line |
| UrlExtraction.ExtractUrls | src/perplexity_client.py:123-148 | No content gives no URLs. Otherwise the loop returns the URLs of the content's lines, in line order |
| UrlExtraction.UrlsSound | src/perplexity_client.py:132-138 | Every harvested URL starts with `http`, is trimmed, contains neither the marker nor a line break, and is the URL of some line |
| UrlExtraction.UrlsOfAppend | src/perplexity_client.py:133-138 | Lines are read independently: the URLs of two blocks of lines are those of each, in order |
| UrlExtraction.LineUrlRoundTrip | src/perplexity_client.py:134-138 | A line `lead-in **URL:** url` (lead-in without asterisks, URL starting `http`, trimmed, not ending in `*`, without the marker) gives that URL back |
| UrlExtraction.UrlsOfListing | src/perplexity_client.py:132-138 | A list of such lines gives back its URLs, in order |
| Text.Strip | src/citation_manager.py:73-77 | `strip()` leaves no whitespace at either end and is empty exactly when its input is blank |
| Text.StripRemovesEnds | src/citation_manager.py:73-77 | `strip()` removes exactly the surrounding whitespace. The result is a contiguous piece of the input, only whitespace comes before and after it, and neither of its ends is whitespace |
| Text.StripIdempotent | src/perplexity_client.py:135-136 | Stripping twice is stripping once |
| Text.WordsOfJoin | src/rag_system.py:83 | `split()` of words joined by single spaces gives the words back |
| Text.Split | src/perplexity_client.py:133 | `split('\n')` gives at least one piece, and no piece contains the separator |
| Text.JoinSplit | src/perplexity_client.py:133 | Joining the pieces of `split(c)` with `c` restores the string |
| Text.Find | src/perplexity_client.py:134-135 | `find` returns the first occurrence at or after the start, and `None` only when there is none |
| Text.NatToStringRoundTrip | src/citation_manager.py:76 | The decimal digits written for a number read back as that number |

## Left out

- The sentence-embedding model (`SentenceTransformer`, `get_embedding`) is the `embed` parameter of the store. `None` stands for a failed embedding and the empty vector for a falsy one.
- Cosine similarity (scikit-learn) is the `similarity` parameter and scores are reals. Floating point, NaN scores, vectors of different lengths and the `float()` conversion are not modelled.
- Rag.RAGSystem.GenerateSection: an exception raised by the retrieval itself inside the `try` is not modelled, because the retrieval is a total function of the store here. Only a failing model call (`complete` returning `None`) leads to the error placeholder.
- The language-model call, its prompt text (`_create_section_prompt`), model name and temperature are the `complete` parameter, which receives the section, the topic and the assembled context.
- Logging is left out everywhere; it changes no state that the model observes.
- `datetime.now().year` is the `currentYear` parameter of `add_citation`.
- Rag.Submitted: citation details are modelled as a dictionary of strings, so `str()` of a non-string value is not modelled. Any key besides the five fields and `self` lands in `**kwargs` and is ignored.
- UrlExtraction.ExtractUrls: the HTTP request, its retries and the JSON lookup `response['choices'][0]['message']['content']` are not modelled. The content arrives as an `Option`, and every failure among them is `None`, which the source also maps to the empty list.
- The SentenceTransformer start-up failure in `RAGSystem.__init__` and the OpenAI client object are outside the model.
- Strings are sequences of Unicode scalar values, and `IsSpace` lists the characters for which `str.isspace()` holds. Unicode normalisation is not modelled.
