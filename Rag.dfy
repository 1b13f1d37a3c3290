/**
 The retrieval-augmented generation store (`RAGSystem`): chunks of added
 content together with their embeddings, source labels and citation ids,
 kept in four parallel lists; a similarity query over them; and the
 assembly of a section from the best-matching chunks.

 The embedding model, the similarity measure and the language-model call
 are outside the model: they are given to the store as functions.
 */
module Rag {
  import opened Wrappers
  import opened Text
  import opened Chunker
  import opened Ranking
  import opened CitationLedger

  /** An embedding vector. */
  type Vector = seq<real>

  /** One result of a similarity query: the dictionary with keys `text`, `source`, `citation` and `similarity`. */
  datatype Retrieved = Retrieved(text: string, source: string, citation: Option<int>, similarity: real)

  /** `details.get(key)`. */
  function Field(details: map<string, string>, key: string): Option<string> {
    if key in details then Some(details[key]) else None
  }

  /** `add_content` calls `add_citation` only for a non-empty dictionary of details. */
  predicate Calls(details: Option<map<string, string>>) {
    details.Some? && |details.value| > 0
  }

  /**
   The details `add_citation` rejects: a year given as a non-empty,
   whitespace-only string, and every other field absent or blank.
   */
  predicate BlankYearOnly(d: map<string, string>) {
    && Truthy(Field(d, "year")) && IsBlank(Field(d, "year").value)
    && BlankOrAbsent(Field(d, "title")) && BlankOrAbsent(Field(d, "url"))
    && BlankOrAbsent(Field(d, "authors")) && BlankOrAbsent(Field(d, "journal"))
  }

  /**
   The record that `add_citation(**details)` stores for non-empty details,
   or `None` when the call raises and the error is swallowed: a `self` key
   clashes with the bound instance (`TypeError`), and an empty citation is
   rejected (`ValueError`). Any other unknown key lands in `**kwargs` and
   is ignored.
   */
  function Submitted(details: Option<map<string, string>>, currentYear: nat): (r: Option<CitationRecord>)
    ensures r.Some? ==> HasContent(r.value)
    ensures r.Some? <==> Calls(details) && "self" !in details.value && !BlankYearOnly(details.value)
  {
    if !Calls(details) || "self" in details.value then None
    else
      var d := details.value;
      match Normalize(Field(d, "title"), Field(d, "url"), Field(d, "authors"), Field(d, "year"), Field(d, "journal"), currentYear)
      case Success(rec) => Some(rec)
      case Failure(_) => None
  }

  /** Concatenation is associative. */
  lemma AppendAssoc<T>(a: seq<T>, b: seq<T>, c: seq<T>)
    ensures a + b + c == a + (b + c)
  {
  }

  /** `n` copies of `x`: the value a parallel list gets once per stored chunk. */
  function Copies<T>(x: T, n: nat): (r: seq<T>)
    ensures |r| == n && forall k | 0 <= k < n :: r[k] == x
  {
    if n == 0 then [] else Copies(x, n - 1) + [x]
  }

  /** The citation marker appended to a chunk in the context: ` [id]` when the id is truthy (present and not 0). */
  function Annotated(r: Retrieved): string {
    if r.citation.Some? && r.citation.value != 0 then r.text + " [" + IntToString(r.citation.value) + "]" else r.text
  }

  /** The annotated chunks, in order. */
  function AnnotatedAll(rs: seq<Retrieved>): (parts: seq<string>)
    ensures |parts| == |rs|
    ensures forall k | 0 <= k < |rs| :: parts[k] == Annotated(rs[k])
  {
    if rs == [] then [] else AnnotatedAll(rs[..|rs| - 1]) + [Annotated(rs[|rs| - 1])]
  }

  /** The research context handed to the language model: the annotated chunks separated by blank lines. */
  function Context(rs: seq<Retrieved>): string {
    JoinWith("\n\n", AnnotatedAll(rs))
  }

  /** The placeholder returned when nothing relevant is stored. */
  function NoContent(section: string): string {
    "No content available for " + section + " section"
  }

  /** The placeholder returned when generation raises. */
  function GenerationFailed(section: string): string {
    "Error generating " + section + " section"
  }

  class RAGSystem {
    /** The citation ledger shared with the rest of the application. */
    const ledger: CitationManager
    /** The sentence embedder; `None` stands for an embedding failure. */
    const embed: string -> Option<Vector>
    /** Cosine similarity of a query vector and a stored vector. */
    const similarity: (Vector, Vector) -> real
    /** The chat-completion call for (section, topic, context); `None` stands for a raised error. */
    const complete: (string, string, string) -> Option<string>

    var chunks: seq<string>
    var embeddings: seq<Vector>
    var sources: seq<string>
    var citations: seq<Option<int>>

    /** `if embedding:` — the embedder produced a non-empty vector. */
    predicate Embeds(c: string) {
      embed(c).Some? && embed(c).value != []
    }

    /**
     The four lists are parallel; every stored embedding is the non-empty
     embedding of its chunk; every stored citation id names a citation in
     the ledger.
     */
    ghost predicate Valid()
      reads this, ledger
    {
      && |embeddings| == |chunks| && |sources| == |chunks| && |citations| == |chunks|
      && (forall k | 0 <= k < |chunks| :: Embeds(chunks[k]) && embeddings[k] == embed(chunks[k]).value)
      && ledger.Valid()
      && (forall k | 0 <= k < |citations| && citations[k].Some? :: citations[k].value in ledger.citations)
    }

    /** An empty store over the given ledger and services. */
    constructor (ledger: CitationManager, embed: string -> Option<Vector>,
                 similarity: (Vector, Vector) -> real, complete: (string, string, string) -> Option<string>)
      requires ledger.Valid()
      ensures Valid()
      ensures this.ledger == ledger && this.embed == embed && this.similarity == similarity && this.complete == complete
      ensures chunks == [] && embeddings == [] && sources == [] && citations == []
    {
      this.ledger := ledger;
      this.embed := embed;
      this.similarity := similarity;
      this.complete := complete;
      chunks, embeddings, sources, citations := [], [], [], [];
    }

    /** The chunks, in order, whose embedding succeeds: exactly those that `add_content` stores. */
    function Kept(cs: seq<string>): (r: seq<string>)
      ensures |r| <= |cs|
      ensures forall k | 0 <= k < |r| :: Embeds(r[k]) && r[k] in cs
      ensures forall k | 0 <= k < |cs| && Embeds(cs[k]) :: cs[k] in r
    {
      if cs == [] then []
      else Kept(cs[..|cs| - 1]) + (if Embeds(cs[|cs| - 1]) then [cs[|cs| - 1]] else [])
    }

    /**
     Chunks `content`, records its citation when the details are a
     non-empty dictionary that `add_citation` accepts, and appends every
     chunk whose embedding succeeds, with its vector, the source label and
     the citation id (or `None`). Blank content changes nothing, not even
     the ledger; otherwise the citation is recorded even if no chunk embeds.
     */
    method AddContent(content: string, source: string, details: Option<map<string, string>>, currentYear: nat)
      requires Valid()
      modifies this, ledger
      ensures Valid()
      ensures var cs := Chunks(content, CHUNK_SIZE);
        var rec := if cs == [] then None else Submitted(details, currentYear);
        var cid := if rec.Some? then Some(old(ledger.counter)) else None;
        var added := Kept(cs);
        && chunks == old(chunks) + added
        && embeddings[..|old(embeddings)|] == old(embeddings)
        && sources == old(sources) + Copies(source, |added|)
        && citations == old(citations) + Copies(cid, |added|)
        && ledger.citations == (if rec.Some? then old(ledger.citations)[old(ledger.counter) := rec.value] else old(ledger.citations))
        && ledger.counter == old(ledger.counter) + (if rec.Some? then 1 else 0)
    {
      ChunksEmptyIffBlank(content, CHUNK_SIZE);
      if content == [] {
        return;
      }
      var cs := ChunkText(content, CHUNK_SIZE);
      if cs == [] {
        return;
      }
      var cid := RecordCitation(details, currentYear);
      StoreChunks(cs, source, cid);
    }

    /** The citation step of `add_content`: the new id when `add_citation` accepts the details, else `None` and no change. */
    method RecordCitation(details: Option<map<string, string>>, currentYear: nat) returns (cid: Option<int>)
      requires ledger.Valid()
      modifies ledger
      ensures ledger.Valid()
      ensures var rec := Submitted(details, currentYear);
        && cid == (if rec.Some? then Some(old(ledger.counter)) else None)
        && ledger.citations == (if rec.Some? then old(ledger.citations)[old(ledger.counter) := rec.value] else old(ledger.citations))
        && ledger.counter == old(ledger.counter) + (if rec.Some? then 1 else 0)
    {
      cid := None;
      if details.Some? && |details.value| > 0 {
        var d := details.value;
        if "self" !in d {
          var r := ledger.AddCitation(Field(d, "title"), Field(d, "url"), Field(d, "authors"), Field(d, "year"), Field(d, "journal"), currentYear);
          if r.Success? {
            cid := Some(r.value);
          }
        }
      }
    }

    /** Appends one chunk with its embedding, source and citation id to the four lists. */
    method Store(chunk: string, embedding: Vector, source: string, cid: Option<int>)
      requires Valid()
      requires embed(chunk) == Some(embedding) && embedding != []
      requires cid.Some? ==> cid.value in ledger.citations
      modifies this
      ensures Valid()
      ensures chunks == old(chunks) + [chunk] && embeddings == old(embeddings) + [embedding]
      ensures sources == old(sources) + [source] && citations == old(citations) + [cid]
    {
      chunks := chunks + [chunk];
      embeddings := embeddings + [embedding];
      sources := sources + [source];
      citations := citations + [cid];
    }

    /**
     The chunks are filtered one by one, in order: a single chunk is kept
     exactly when it embeds, and the chunks kept from two consecutive runs
     are those of the first run followed by those of the second.
     */
    lemma {:induction false} KeptInOrder(a: seq<string>, b: seq<string>)
      ensures Kept(a + b) == Kept(a) + Kept(b)
      ensures |a| == 1 ==> Kept(a) == if Embeds(a[0]) then [a[0]] else []
      decreases |b|
    {
      if |a| == 1 {
        assert a[..0] == [];
      }
      if b == [] {
        assert a + b == a;
      } else {
        var b' := b[..|b| - 1];
        var last := b[|b| - 1];
        KeptInOrder(a, b');
        assert (a + b)[..|a + b| - 1] == a + b';
        assert (a + b)[|a + b| - 1] == last;
        var tail := if Embeds(last) then [last] else [];
        calc {
          Kept(a + b);
          Kept(a + b') + tail;
          Kept(a) + Kept(b') + tail;
          { AppendAssoc(Kept(a), Kept(b'), tail); }
          Kept(a) + (Kept(b') + tail);
        }
      }
    }

    /** One more chunk considered: it is kept exactly when it embeds. */
    lemma KeptStep(cs: seq<string>, i: nat)
      requires i < |cs|
      ensures Kept(cs[..i + 1]) == Kept(cs[..i]) + (if Embeds(cs[i]) then [cs[i]] else [])
    {
      assert cs[..i + 1][..i] == cs[..i];
    }

    /** The storing loop of `add_content`: appends each chunk that embeds, with its vector, `source` and `cid`. */
    method StoreChunks(cs: seq<string>, source: string, cid: Option<int>)
      requires Valid()
      requires cid.Some? ==> cid.value in ledger.citations
      modifies this
      ensures Valid()
      ensures chunks == old(chunks) + Kept(cs)
      ensures embeddings[..|old(embeddings)|] == old(embeddings)
      ensures sources == old(sources) + Copies(source, |Kept(cs)|)
      ensures citations == old(citations) + Copies(cid, |Kept(cs)|)
    {
      ghost var before := |chunks|;
      for i := 0 to |cs|
        invariant Valid()
        invariant chunks == old(chunks) + Kept(cs[..i])
        invariant embeddings[..before] == old(embeddings)
        invariant sources == old(sources) + Copies(source, |Kept(cs[..i])|)
        invariant citations == old(citations) + Copies(cid, |Kept(cs[..i])|)
      {
        KeptStep(cs, i);
        var embedding := embed(cs[i]);
        if embedding.Some? && embedding.value != [] {
          ghost var kept := Kept(cs[..i]);
          AppendAssoc(old(chunks), kept, [cs[i]]);
          AppendAssoc(old(sources), Copies(source, |kept|), [source]);
          AppendAssoc(old(citations), Copies(cid, |kept|), [cid]);
          Store(cs[i], embedding.value, source, cid);
        }
      }
      assert cs[..|cs|] == cs;
    }

    /** The similarity of the query vector to each stored embedding, in storage order. */
    function Scores(q: Vector): (s: seq<real>)
      reads this
      ensures |s| == |embeddings|
      ensures forall k | 0 <= k < |s| :: s[k] == similarity(q, embeddings[k])
    {
      var es, sim := embeddings, similarity;
      seq(|es|, k requires 0 <= k < |es| => sim(q, es[k]))
    }

    /**
     `get_relevant_chunks`: nothing when the query does not embed or the
     store is empty; otherwise one row per position `TopIndices` selects
     from the stored embeddings' scores, in selection order, carrying that
     position's chunk, source, citation and score.
     */
    function GetRelevantChunks(query: string, n: int, threshold: real): (rs: seq<Retrieved>)
      requires Valid()
      reads this, ledger
      ensures !Embeds(query) || chunks == [] ==> rs == []
      ensures Embeds(query) && chunks != [] ==>
        var scores := Scores(embed(query).value);
        var top := TopIndices(scores, threshold, n);
        && |rs| == |top|
        && forall j | 0 <= j < |rs| ::
             0 <= top[j] < |chunks| &&
             rs[j] == Retrieved(chunks[top[j]], sources[top[j]], citations[top[j]], scores[top[j]])
    {
      match embed(query)
      case None => []
      case Some(q) =>
        if q == [] || embeddings == [] then []
        else
          var scores := Scores(q);
          var top := TopIndices(scores, threshold, n);
          TopIndicesSound(scores, threshold, n);
          var cs, ss, cits := chunks, sources, citations;
          seq(|top|, j requires 0 <= j < |top| && 0 <= top[j] < |cs| =>
            Retrieved(cs[top[j]], ss[top[j]], cits[top[j]], scores[top[j]]))
    }

    /**
     `generate_section`: retrieves up to five chunks above similarity 0.3
     for the query `"<section> <topic>"`; with none, a placeholder; else the
     language model's answer for the context built from them, or an error
     placeholder when that call fails.
     */
    method GenerateSection(section: string, topic: string) returns (text: string)
      requires Valid()
      ensures var rs := GetRelevantChunks(section + " " + topic, 5, 0.3);
        text == if rs == [] then NoContent(section)
                else match complete(section, topic, Context(rs))
                     case Some(t) => t
                     case None => GenerationFailed(section)
    {
      var rs := GetRelevantChunks(section + " " + topic, 5, 0.3);
      if rs == [] {
        return "No content available for " + section + " section";
      }
      var parts: seq<string> := [];
      for j := 0 to |rs|
        invariant parts == AnnotatedAll(rs[..j])
      {
        assert rs[..j + 1][..j] == rs[..j];
        var t := rs[j].text;
        if rs[j].citation.Some? && rs[j].citation.value != 0 {
          t := t + " [" + IntToString(rs[j].citation.value) + "]";
        }
        parts := parts + [t];
      }
      assert rs[..|rs|] == rs;
      var context := JoinWith("\n\n", parts);
      var response := complete(section, topic, context);
      if response.None? {
        return "Error generating " + section + " section";
      }
      text := response.value;
    }

    /** When every chunk embeds, all of them are kept, in order; when none does, none is. */
    lemma {:induction false} KeptAllOrNone(cs: seq<string>)
      ensures (forall k | 0 <= k < |cs| :: Embeds(cs[k])) ==> Kept(cs) == cs
      ensures (forall k | 0 <= k < |cs| :: !Embeds(cs[k])) ==> Kept(cs) == []
    {
      if cs != [] {
        KeptAllOrNone(cs[..|cs| - 1]);
        assert cs[..|cs| - 1] + [cs[|cs| - 1]] == cs;
      }
    }

    /** When the embedder never fails, the chunks one `add_content` call stores spell out the content's words. */
    lemma StoredWordsOfContent(content: string)
      requires forall k | 0 <= k < |Chunks(content, CHUNK_SIZE)| :: Embeds(Chunks(content, CHUNK_SIZE)[k])
      ensures Words(JoinWith(" ", Kept(Chunks(content, CHUNK_SIZE)))) == Words(content)
    {
      KeptAllOrNone(Chunks(content, CHUNK_SIZE));
      ChunksRoundTrip(content, CHUNK_SIZE);
    }

    /** Every row a query returns is a stored chunk that scored above the threshold, and its citation, if any, is in the ledger. */
    lemma RetrievedAreStored(query: string, n: int, threshold: real)
      requires Valid()
      ensures var rs := GetRelevantChunks(query, n, threshold);
        forall j | 0 <= j < |rs| ::
          && rs[j].text in chunks
          && rs[j].similarity > threshold
          && (rs[j].citation.Some? ==> ledger.GetCitationById(rs[j].citation.value).Some?)
    {
      if Embeds(query) && chunks != [] {
        TopIndicesSound(Scores(embed(query).value), threshold, n);
      }
    }

    /** The rows come best first, at most `n` of them, and distinct positions of the store. */
    lemma RetrievedRanked(query: string, n: int, threshold: real)
      requires Valid()
      ensures var rs := GetRelevantChunks(query, n, threshold);
        && (n >= 0 ==> |rs| <= n)
        && forall j, l | 0 <= j < l < |rs| :: rs[j].similarity >= rs[l].similarity
    {
      if Embeds(query) && chunks != [] {
        var scores := Scores(embed(query).value);
        TopIndicesSound(scores, threshold, n);
        RankedOrder(scores, TopIndices(scores, threshold, n));
      }
    }

    /**
     No stored chunk scoring above the threshold is left out of a query
     whose results were cut short of `n`: with fewer than `n` rows, every
     qualifying position is selected.
     */
    lemma RetrievedComplete(query: string, n: int, threshold: real, i: int)
      requires Valid()
      requires Embeds(query) && 0 <= i < |chunks|
      requires similarity(embed(query).value, embeddings[i]) > threshold
      requires |GetRelevantChunks(query, n, threshold)| < n
      ensures i in TopIndices(Scores(embed(query).value), threshold, n)
    {
      TopIndicesShort(Scores(embed(query).value), threshold, n, i);
    }
  }

  /** The marker is added exactly when the citation id is truthy, and the chunk text always comes first. */
  lemma AnnotatedMarker(r: Retrieved)
    ensures StartsWith(Annotated(r), r.text)
    ensures Annotated(r) == r.text <==> r.citation.None? || r.citation.value == 0
  {
    if r.citation.Some? && r.citation.value != 0 {
      assert |Annotated(r)| > |r.text|;
    }
  }

  /** Every retrieved chunk, with its marker, appears in the context given to the language model. */
  lemma ContextHasEveryChunk(rs: seq<Retrieved>, k: nat)
    requires k < |rs|
    ensures exists j :: OccursAt(Context(rs), Annotated(rs[k]), j)
  {
    var parts := AnnotatedAll(rs);
    JoinWithContains("\n\n", parts, k);
    var j :| OccursAt(JoinWith("\n\n", parts), parts[k], j);
    assert OccursAt(Context(rs), Annotated(rs[k]), j);
  }
}
