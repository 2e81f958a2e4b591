/** `BM25Ingestor`: one whitespace token list per chunk, for a BM25 model
    whose scoring is not part of this model. */
module Bm25Ingestor {
  import opened Results
  import opened PyText
  import opened VectorDbIngestor

  /** The corpus a `BM25Okapi` is built from. */
  datatype Bm25Index = Bm25Index(corpus: seq<seq<string>>)

  /** `create_bm25_index`: `[chunk.split() for chunk in chunks]`. */
  function CreateBm25Index(chunks: seq<string>): (r: Bm25Index)
    ensures |r.corpus| == |chunks|
    ensures forall i :: 0 <= i < |chunks| ==> r.corpus[i] == Split(chunks[i])
    ensures forall i :: 0 <= i < |chunks| ==> Concat(r.corpus[i]) == NonSpaceChars(chunks[i])
    ensures forall i, k :: 0 <= i < |chunks| && 0 <= k < |r.corpus[i]| ==>
      r.corpus[i][k] != [] && All(r.corpus[i][k], NotSpace)
  {
    TokensSpellChunks(chunks);
    Bm25Index(seq(|chunks|, i requires 0 <= i < |chunks| => Split(chunks[i])))
  }

  lemma TokensSpellChunks(chunks: seq<string>)
    ensures forall i :: 0 <= i < |chunks| ==> Concat(Split(chunks[i])) == NonSpaceChars(chunks[i])
  {
    forall i | 0 <= i < |chunks| ensures Concat(Split(chunks[i])) == NonSpaceChars(chunks[i]) {
      SplitKeepsNonSpace(chunks[i]);
    }
  }

  /** The texts `process_reports` indexes: every chunk's "text", blank or
      not; a chunk without one raises `KeyError` (`None`). */
  function Bm25ReportTexts(report: Report): (r: Option<seq<string>>)
    ensures r.Some? <==> report.chunks.Some? && forall i :: 0 <= i < |report.chunks.value| ==> report.chunks.value[i].text.Some?
    ensures r.Some? ==>
      && |r.value| == |report.chunks.value|
      && forall i :: 0 <= i < |r.value| ==> r.value[i] == report.chunks.value[i].text.value
  {
    match report.chunks
    case None => None
    case Some(chunks) =>
      if forall i :: 0 <= i < |chunks| ==> chunks[i].text.Some? then
        Some(seq(|chunks|, i requires 0 <= i < |chunks| && chunks[i].text.Some? => chunks[i].text.value))
      else None
  }

  /** Whitespace tokenisation and joining are inverse on proper tokens. */
  lemma TokensOfJoinedText(tokens: seq<string>)
    requires forall k :: 0 <= k < |tokens| ==> tokens[k] != [] && All(tokens[k], NotSpace)
    ensures CreateBm25Index([JoinWithSpace(tokens)]).corpus == [tokens]
  {
    SplitJoinRoundTrip(tokens);
  }

  /** The two indexes of one report need not line up: with a blank chunk
      before a non-blank one, BM25 has two entries (the first with no
      tokens) and the vector index one vector. */
  lemma IndexesDiverge(call: (nat, seq<string>) -> NativeResponse, d: nat)
    requires NativeWellBehaved(call, d)
    ensures var report := Report(Some([Chunk(Some(" ")), Chunk(Some("a"))]));
      && Bm25ReportTexts(report) == Some([" ", "a"])
      && CreateBm25Index([" ", "a"]).corpus == [[], ["a"]]
      && ProcessReport(NativeApi(call), report).Ok?
      && |ProcessReport(NativeApi(call), report).value.vectors| == 1
  {
    var chunks := [Chunk(Some(" ")), Chunk(Some("a"))];
    assert Bm25ReportTexts(Report(Some(chunks))).value == [" ", "a"];
    BlankThenWordCorpus();
    assert EmbeddedTexts(chunks) == ["a"] by {
      assert IsBlank(Truncate(" "));
      assert chunks[..1][..0] == [];
      assert chunks[..1] == [Chunk(Some(" "))];
      assert EmbeddedTexts(chunks[..1]) == [];
    }
    WellBehavedNativeIndex(call, d, chunks);
  }

  lemma BlankThenWordCorpus()
    ensures CreateBm25Index([" ", "a"]).corpus == [[], ["a"]]
  {
    assert Split(" ") == [] by { assert " "[1..] == []; }
    assert Split("a") == ["a"] by { SplitRun("a"); }
  }
}
