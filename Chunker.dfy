/**
 The word-packing chunker of the RAG system (`RAGSystem.chunk_text`).

 Text is split into words; words are added to the current chunk, each one
 charging its length plus one separator, and the chunk is closed as soon as
 the charge reaches the chunk size. A non-empty remainder becomes the last
 chunk. The loop is `ChunkText`; `Pack` is the function it is proved
 against; `IsPacking` is an independent, declarative description of the
 word groups, and the lemmas below show that `Pack` is the one and only
 packing that satisfies it.
 */
module Chunker {
  import opened Text

  /** The configured target chunk size. */
  const CHUNK_SIZE: int := 500

  /** The charge of a group of words: the sum of `len(word) + 1`. */
  function Size(g: seq<string>): nat
  {
    if g == [] then 0 else Size(g[..|g| - 1]) + |g[|g| - 1]| + 1
  }

  /** The words of a list of groups, in order. */
  function Concat(gs: seq<seq<string>>): seq<string>
  {
    if gs == [] then [] else gs[0] + Concat(gs[1..])
  }

  /** A group as the loop closes it: not empty, and under the limit once its last word is dropped. */
  predicate GroupOk(g: seq<string>, limit: int) {
    g != [] && (|g| > 1 ==> Size(g[..|g| - 1]) < limit)
  }

  /**
   What a packing of the words `ws` is, independently of how it is computed:
   the groups cover the words in order, none is empty, each is under the
   limit without its last word (so every proper prefix of it is, see
   `PackingPrefixesUnder`), and every group but the last reaches the limit.
   */
  ghost predicate IsPacking(ws: seq<string>, gs: seq<seq<string>>, limit: int) {
    && Concat(gs) == ws
    && (forall i | 0 <= i < |gs| :: GroupOk(gs[i], limit))
    && (forall i | 0 <= i < |gs| - 1 :: Size(gs[i]) >= limit)
  }

  /** The charge of a prefix never exceeds the charge of the whole group. */
  lemma {:induction false} SizePrefix(g: seq<string>, j: nat)
    requires j <= |g|
    ensures Size(g[..j]) <= Size(g)
    decreases |g|
  {
    if j < |g| {
      var init := g[..|g| - 1];
      SizePrefix(init, j);
      assert init[..j] == g[..j];
    } else {
      assert g[..j] == g;
    }
  }

  /** In a packing, every non-empty proper prefix of a group is charged less than the limit. */
  lemma PackingPrefixesUnder(ws: seq<string>, gs: seq<seq<string>>, limit: int)
    requires IsPacking(ws, gs, limit)
    ensures forall i, k | 0 <= i < |gs| && 0 < k < |gs[i]| :: Size(gs[i][..k]) < limit
  {
    forall i, k | 0 <= i < |gs| && 0 < k < |gs[i]| ensures Size(gs[i][..k]) < limit {
      var g := gs[i];
      assert GroupOk(g, limit);
      SizePrefix(g[..|g| - 1], k);
      assert g[..|g| - 1][..k] == g[..k];
    }
  }

  /**
   The groups the chunking loop closes when it resumes with the words `ws`
   still to read and `cur` the chunk under construction.
   */
  function Pack(ws: seq<string>, cur: seq<string>, limit: int): seq<seq<string>>
    decreases |ws|
  {
    if ws == [] then (if cur == [] then [] else [cur])
    else
      var next := cur + [ws[0]];
      if Size(next) >= limit then [next] + Pack(ws[1..], [], limit)
      else Pack(ws[1..], next, limit)
  }

  /** Each group rendered as `" ".join(group)`. */
  function Render(gs: seq<seq<string>>): (cs: seq<string>)
    ensures |cs| == |gs|
  {
    if gs == [] then [] else [JoinWith(" ", gs[0])] + Render(gs[1..])
  }

  /** What `chunk_text(text, chunkSize)` returns. */
  function Chunks(text: string, chunkSize: int): seq<string>
  {
    Render(Pack(Words(text), [], chunkSize))
  }

  /**
   The chunking loop. Blank text gives no chunks; otherwise each word is
   appended to the current chunk and charged `|word| + 1`; the chunk is
   closed once the charge reaches `chunkSize`, and a remainder is closed at
   the end.
   */
  method ChunkText(text: string, chunkSize: int) returns (chunks: seq<string>)
    ensures chunks == Chunks(text, chunkSize)
    ensures chunks == [] <==> IsBlank(text)
  {
    ChunksEmptyIffBlank(text, chunkSize);
    if text == "" || Strip(text) == "" {
      return [];
    }
    var words := Words(text);
    ghost var target := Chunks(text, chunkSize);
    chunks := [];
    var current: seq<string> := [];
    var currentSize := 0;
    for i := 0 to |words|
      invariant currentSize == Size(current)
      invariant chunks + Render(Pack(words[i..], current, chunkSize)) == target
    {
      ghost var rest := words[i..];
      assert rest[0] == words[i] && rest[1..] == words[i + 1..];
      var next := current + [words[i]];
      assert next[..|next| - 1] == current;
      assert Size(next) == currentSize + |words[i]| + 1;
      if currentSize + |words[i]| + 1 >= chunkSize {
        ghost var later := Pack(words[i + 1..], [], chunkSize);
        assert Pack(rest, current, chunkSize) == [next] + later;
        RenderCons(next, later);
        chunks := chunks + [JoinWith(" ", next)];
        current := [];
        currentSize := 0;
      } else {
        assert Pack(rest, current, chunkSize) == Pack(words[i + 1..], next, chunkSize);
        current := next;
        currentSize := currentSize + |words[i]| + 1;
      }
    }
    assert words[|words|..] == [];
    if current != [] {
      chunks := chunks + [JoinWith(" ", current)];
    }
  }

  /** Rendering a group in front of others renders it first. */
  lemma RenderCons(g: seq<string>, gs: seq<seq<string>>)
    ensures Render([g] + gs) == [JoinWith(" ", g)] + Render(gs)
  {
    assert ([g] + gs)[1..] == gs;
  }

  /** Packing leaves no words out exactly when there were none: no chunks iff the text is blank. */
  lemma ChunksEmptyIffBlank(text: string, chunkSize: int)
    ensures Chunks(text, chunkSize) == [] <==> IsBlank(text)
  {
    var ws := Words(text);
    PackIsPacking(ws, [], chunkSize);
    if ws != [] {
      assert Concat(Pack(ws, [], chunkSize)) != [];
    }
  }

  /** Putting a closed group in front of a packing of the rest packs the whole. */
  lemma ConsPacking(g: seq<string>, ws: seq<string>, gs: seq<seq<string>>, limit: int)
    requires GroupOk(g, limit) && Size(g) >= limit
    requires IsPacking(ws, gs, limit)
    ensures IsPacking(g + ws, [g] + gs, limit)
  {
    var hs := [g] + gs;
    assert hs[1..] == gs;
    assert forall i | 0 < i < |hs| :: hs[i] == gs[i - 1];
  }

  /** The groups the loop produces, after the open chunk `cur`, form a packing of `cur + ws`. */
  lemma {:induction false} PackIsPacking(ws: seq<string>, cur: seq<string>, limit: int)
    requires cur == [] || (GroupOk(cur, limit) && Size(cur) < limit)
    ensures IsPacking(cur + ws, Pack(ws, cur, limit), limit)
    decreases |ws|
  {
    if ws == [] {
      assert cur + ws == cur;
      if cur != [] {
        assert Concat([cur]) == cur + Concat([]);
      }
    } else {
      var next := cur + [ws[0]];
      assert next[..|next| - 1] == cur;
      assert GroupOk(next, limit);
      assert next + ws[1..] == cur + ws;
      if Size(next) >= limit {
        PackIsPacking(ws[1..], [], limit);
        assert [] + ws[1..] == ws[1..];
        ConsPacking(next, ws[1..], Pack(ws[1..], [], limit), limit);
      } else {
        PackIsPacking(ws[1..], next, limit);
      }
    }
  }

  /** Dropping the first group of a packing packs the remaining words. */
  lemma TailPacking(ws: seq<string>, gs: seq<seq<string>>, limit: int)
    requires IsPacking(ws, gs, limit) && gs != []
    ensures |gs[0]| <= |ws| && ws[..|gs[0]|] == gs[0]
    ensures IsPacking(ws[|gs[0]|..], gs[1..], limit)
  {
    assert ws == gs[0] + Concat(gs[1..]);
    assert ws[|gs[0]|..] == Concat(gs[1..]);
    var hs := gs[1..];
    assert forall i | 0 <= i < |hs| :: hs[i] == gs[i + 1];
  }

  /** A list of words has at most one packing: the declarative description determines the groups. */
  lemma {:induction false} PackingUnique(ws: seq<string>, g1: seq<seq<string>>, g2: seq<seq<string>>, limit: int)
    requires IsPacking(ws, g1, limit) && IsPacking(ws, g2, limit)
    ensures g1 == g2
    decreases |ws|
  {
    if g1 == [] || g2 == [] {
    } else {
      TailPacking(ws, g1, limit);
      TailPacking(ws, g2, limit);
      var a, b := g1[0], g2[0];
      FirstGroupNotShorter(ws, g1, g2, limit);
      FirstGroupNotShorter(ws, g2, g1, limit);
      assert a == ws[..|a|] == b;
      PackingUnique(ws[|a|..], g1[1..], g2[1..], limit);
      assert g1 == [a] + g1[1..];
      assert g2 == [b] + g2[1..];
    }
  }

  /** In two packings of the same words, the first group of one is never shorter than that of the other. */
  lemma FirstGroupNotShorter(ws: seq<string>, g1: seq<seq<string>>, g2: seq<seq<string>>, limit: int)
    requires IsPacking(ws, g1, limit) && IsPacking(ws, g2, limit)
    requires g1 != [] && g2 != []
    requires |g1[0]| <= |ws| && ws[..|g1[0]|] == g1[0]
    requires |g2[0]| <= |ws| && ws[..|g2[0]|] == g2[0]
    ensures |g1[0]| >= |g2[0]|
  {
    var a, b := g1[0], g2[0];
    if |a| < |b| {
      UnderLimitGroupIsLast(ws, g1, b, limit);
      assert false;
    }
  }

  /**
   If the first group of a packing is a strict prefix of some well-formed
   group, it stays under the limit, so it must be the only group.
   */
  lemma UnderLimitGroupIsLast(ws: seq<string>, gs: seq<seq<string>>, b: seq<string>, limit: int)
    requires IsPacking(ws, gs, limit) && gs != []
    requires |gs[0]| < |b| && b[..|gs[0]|] == gs[0] && GroupOk(b, limit)
    ensures ws == gs[0]
  {
    StrictPrefixUnder(gs[0], b, limit);
    assert |gs| == 1;
    assert Concat(gs) == gs[0] + Concat(gs[1..]);
  }

  /** A non-empty strict prefix of a well-formed group is charged less than the limit. */
  lemma StrictPrefixUnder(a: seq<string>, b: seq<string>, limit: int)
    requires a != [] && |a| < |b| && b[..|a|] == a
    requires GroupOk(b, limit)
    ensures Size(a) < limit
  {
    SizePrefix(b[..|b| - 1], |a|);
    assert b[..|b| - 1][..|a|] == a;
  }

  /** Charge and rendered length agree: a non-empty group costs one more than its joined text. */
  lemma {:induction false} SizeOfJoin(g: seq<string>)
    requires g != []
    ensures Size(g) == |JoinWith(" ", g)| + 1
    decreases |g|
  {
    if |g| > 1 {
      var init := g[..|g| - 1];
      SizeOfJoin(init);
      JoinWithAppend(" ", init, [g[|g| - 1]]);
      assert init + [g[|g| - 1]] == g;
    }
  }

  /** Joining the rendered groups with spaces joins their words with spaces. */
  lemma {:induction false} JoinRender(gs: seq<seq<string>>)
    requires forall i | 0 <= i < |gs| :: gs[i] != []
    ensures JoinWith(" ", Render(gs)) == JoinWith(" ", Concat(gs))
    decreases |gs|
  {
    if |gs| == 1 {
      assert gs[1..] == [];
      assert Render(gs) == [JoinWith(" ", gs[0])];
      assert JoinWith(" ", Render(gs)) == JoinWith(" ", gs[0]);
      assert Concat(gs) == gs[0] + Concat([]) == gs[0];
    } else if |gs| > 1 {
      JoinRender(gs[1..]);
      ConcatNonEmpty(gs[1..]);
      JoinWithAppend(" ", gs[0], Concat(gs[1..]));
    }
  }

  /** Non-empty groups concatenate to a non-empty list. */
  lemma ConcatNonEmpty(gs: seq<seq<string>>)
    requires gs != [] && gs[0] != []
    ensures Concat(gs) != []
  {
  }

  /** Every word of a group is one of the words being packed. */
  lemma {:induction false} GroupWordsFromConcat(gs: seq<seq<string>>, i: nat, k: nat)
    requires i < |gs| && k < |gs[i]|
    ensures gs[i][k] in Concat(gs)
    decreases i
  {
    if i == 0 {
      assert Concat(gs) == gs[0] + Concat(gs[1..]);
    } else {
      GroupWordsFromConcat(gs[1..], i - 1, k);
      assert Concat(gs) == gs[0] + Concat(gs[1..]);
    }
  }

  /** The chunks of a text are exactly the rendered groups of the unique packing of its words. */
  lemma ChunksArePacking(text: string, chunkSize: int)
    ensures IsPacking(Words(text), Pack(Words(text), [], chunkSize), chunkSize)
    ensures forall gs | IsPacking(Words(text), gs, chunkSize) :: Chunks(text, chunkSize) == Render(gs)
  {
    PackIsPacking(Words(text), [], chunkSize);
    assert [] + Words(text) == Words(text);
    forall gs | IsPacking(Words(text), gs, chunkSize) ensures Chunks(text, chunkSize) == Render(gs) {
      PackingUnique(Words(text), gs, Pack(Words(text), [], chunkSize), chunkSize);
    }
  }

  /**
   Chunking loses and invents nothing: joining the chunks with single
   spaces is `" ".join(text.split())`, splitting that again gives the
   text's words, and no chunk is empty.
   */
  lemma ChunksRoundTrip(text: string, chunkSize: int)
    ensures JoinWith(" ", Chunks(text, chunkSize)) == JoinWith(" ", Words(text))
    ensures Words(JoinWith(" ", Chunks(text, chunkSize))) == Words(text)
    ensures forall i | 0 <= i < |Chunks(text, chunkSize)| :: Chunks(text, chunkSize)[i] != ""
  {
    var ws := Words(text);
    var gs := Pack(ws, [], chunkSize);
    PackIsPacking(ws, [], chunkSize);
    assert [] + ws == ws;
    JoinRender(gs);
    WordsOfJoin(ws);
    forall i | 0 <= i < |gs| ensures Render(gs)[i] != "" {
      RenderAt(gs, i);
      GroupWordsFromConcat(gs, i, 0);
      JoinWithStartsWithHead(" ", gs[i]);
    }
  }

  /** The `i`-th chunk is the `i`-th group joined with spaces. */
  lemma {:induction false} RenderAt(gs: seq<seq<string>>, i: nat)
    requires i < |gs|
    ensures Render(gs)[i] == JoinWith(" ", gs[i])
    decreases i
  {
    if i > 0 {
      RenderAt(gs[1..], i - 1);
    }
  }

  /**
   The size bounds of the chunks: a chunk closed inside the loop (every
   chunk but the last) is charged at least `chunkSize`, i.e. its text is at
   least `chunkSize - 1` long, while dropping its last word brings it under
   the limit; a last chunk is either such a closed chunk or a remainder
   charged less than `chunkSize`.
   */
  lemma ChunkSizes(text: string, chunkSize: int)
    ensures var cs := Chunks(text, chunkSize);
      forall i | 0 <= i < |cs| - 1 :: |cs[i]| + 1 >= chunkSize
    ensures var gs := Pack(Words(text), [], chunkSize);
      forall i | 0 <= i < |gs| ::
        && gs[i] != []
        && (|gs[i]| > 1 ==> Size(gs[i][..|gs[i]| - 1]) < chunkSize)
        && Render(gs)[i] == JoinWith(" ", gs[i])
        && |Render(gs)[i]| + 1 == Size(gs[i])
  {
    var ws := Words(text);
    var gs := Pack(ws, [], chunkSize);
    PackIsPacking(ws, [], chunkSize);
    assert [] + ws == ws;
    forall i | 0 <= i < |gs|
      ensures |gs[i]| > 1 ==> Size(gs[i][..|gs[i]| - 1]) < chunkSize
      ensures Render(gs)[i] == JoinWith(" ", gs[i]) && |Render(gs)[i]| + 1 == Size(gs[i])
    {
      RenderAt(gs, i);
      SizeOfJoin(gs[i]);
    }
  }
}
