/** `VectorDBIngestor`: select a report's chunk texts, embed them in
    batches through one of two providers with up to three attempts, and
    build a flat inner-product index of the vectors. */
module VectorDbIngestor {
  import opened Results
  import opened PyText
  import opened Batching

  const MaxChunkLength := 2048
  const PlaceholderDimension := 1024
  const MaxAttempts := 3
  const UnauthorizedStatus := 401
  const OkStatus := 200

  // ---------------------------------------------------------------------
  // Reports and the texts chosen for embedding

  /** A chunk record; `text` is `None` when the record has no "text" key. */
  datatype Chunk = Chunk(text: Option<string>)

  /** A report; `chunks` is `None` when `report["content"]` has no
      "chunks" key. */
  datatype Report = Report(chunks: Option<seq<Chunk>>)

  /** `t[:2048]`. */
  function Truncate(t: string): (r: string)
    ensures |r| == Min(|t|, MaxChunkLength) && r == t[..|r|]
  {
    if |t| > MaxChunkLength then t[..MaxChunkLength] else t
  }

  /** The filter of both comprehensions: a "text" key whose value is not
      blank. Both test the text before it is cut. */
  predicate Selected(c: Chunk)
  {
    c.text.Some? && !IsBlank(c.text.value)
  }

  /** `[t[:2048] for t in [c['text'] for c in chunks if <Selected>] if t.strip()]`. */
  function SelectChunkTexts(chunks: seq<Chunk>): (r: seq<string>)
    ensures |r| <= |chunks|
    ensures forall j :: 0 <= j < |r| ==> |r[j]| <= MaxChunkLength
  {
    if chunks == [] then []
    else
      var last := chunks[|chunks| - 1];
      SelectChunkTexts(chunks[..|chunks| - 1]) + (if Selected(last) then [Truncate(last.text.value)] else [])
  }

  /** Positions of the selected chunks, in order. */
  ghost function SelectedIndices(chunks: seq<Chunk>): (idx: seq<nat>)
    ensures forall j :: 0 <= j < |idx| ==> idx[j] < |chunks| && Selected(chunks[idx[j]])
    ensures forall j, j' :: 0 <= j < j' < |idx| ==> idx[j] < idx[j']
    ensures forall i :: 0 <= i < |chunks| && Selected(chunks[i]) ==> i in idx
  {
    if chunks == [] then []
    else
      var n := |chunks| - 1;
      var init := chunks[..n];
      var before := SelectedIndices(init);
      assert forall i :: 0 <= i < n ==> init[i] == chunks[i];
      before + (if Selected(chunks[n]) then [n] else [])
  }

  /** The texts sent for embedding are exactly the selected chunks' texts,
      in their order, each cut to 2048 characters. */
  lemma {:induction false} SelectChunkTextsExact(chunks: seq<Chunk>)
    ensures |SelectChunkTexts(chunks)| == |SelectedIndices(chunks)|
    ensures forall j :: 0 <= j < |SelectedIndices(chunks)| ==>
      SelectChunkTexts(chunks)[j] == Truncate(chunks[SelectedIndices(chunks)[j]].text.value)
    decreases |chunks|
  {
    if chunks != [] {
      var n := |chunks| - 1;
      var init := chunks[..n];
      SelectChunkTextsExact(init);
      var r0, idx0 := SelectChunkTexts(init), SelectedIndices(init);
      var keep := Selected(chunks[n]);
      assert SelectChunkTexts(chunks) == r0 + (if keep then [Truncate(chunks[n].text.value)] else []);
      assert SelectedIndices(chunks) == idx0 + (if keep then [n] else []);
      SelectedStep(chunks, r0, idx0, keep);
    }
  }

  /** One more chunk, selected or not, keeps the selection in step with
      its positions. */
  lemma SelectedStep(chunks: seq<Chunk>, r0: seq<string>, idx0: seq<nat>, keep: bool)
    requires chunks != [] && |r0| == |idx0|
    requires forall j :: 0 <= j < |idx0| ==>
      && idx0[j] < |chunks| - 1 && chunks[..|chunks| - 1][idx0[j]].text.Some?
      && r0[j] == Truncate(chunks[..|chunks| - 1][idx0[j]].text.value)
    requires keep ==> chunks[|chunks| - 1].text.Some?
    ensures var r := r0 + (if keep then [Truncate(chunks[|chunks| - 1].text.value)] else []);
      var idx := idx0 + (if keep then [|chunks| - 1] else []);
      && |r| == |idx|
      && forall j :: 0 <= j < |idx| ==>
           && idx[j] < |chunks| && chunks[idx[j]].text.Some?
           && r[j] == Truncate(chunks[idx[j]].text.value)
  {
  }

  /** `[x for x in texts if x.strip()]`. */
  function FilterNonBlank(texts: seq<string>): (r: seq<string>)
    ensures |r| <= |texts|
    ensures forall j :: 0 <= j < |r| ==> !IsBlank(r[j])
    ensures r == [] <==> forall i :: 0 <= i < |texts| ==> IsBlank(texts[i])
  {
    if texts == [] then []
    else
      var n := |texts| - 1;
      var init := texts[..n];
      assert forall i :: 0 <= i < n ==> init[i] == texts[i];
      FilterNonBlank(init) + (if IsBlank(texts[n]) then [] else [texts[n]])
  }

  /** Positions of the non-blank texts, in order. */
  ghost function NonBlankIndices(texts: seq<string>): (idx: seq<nat>)
    ensures forall j :: 0 <= j < |idx| ==> idx[j] < |texts| && !IsBlank(texts[idx[j]])
    ensures forall j, j' :: 0 <= j < j' < |idx| ==> idx[j] < idx[j']
    ensures forall i :: 0 <= i < |texts| && !IsBlank(texts[i]) ==> i in idx
  {
    if texts == [] then []
    else
      var n := |texts| - 1;
      var init := texts[..n];
      var before := NonBlankIndices(init);
      assert forall i :: 0 <= i < n ==> init[i] == texts[i];
      before + (if IsBlank(texts[n]) then [] else [n])
  }

  /** The filter keeps exactly the non-blank texts, in their order. */
  lemma {:induction false} FilterNonBlankExact(texts: seq<string>)
    ensures |FilterNonBlank(texts)| == |NonBlankIndices(texts)|
    ensures forall j :: 0 <= j < |NonBlankIndices(texts)| ==>
      FilterNonBlank(texts)[j] == texts[NonBlankIndices(texts)[j]]
    decreases |texts|
  {
    if texts != [] {
      var n := |texts| - 1;
      var init := texts[..n];
      FilterNonBlankExact(init);
      var r0, idx0 := FilterNonBlank(init), NonBlankIndices(init);
      var keep := !IsBlank(texts[n]);
      assert FilterNonBlank(texts) == r0 + (if keep then [texts[n]] else []);
      assert NonBlankIndices(texts) == idx0 + (if keep then [n] else []);
      PickedStep(texts, r0, idx0, keep);
    }
  }

  /** One more input position, kept or not, keeps a picked sequence in
      step with its positions. */
  lemma PickedStep(texts: seq<string>, r0: seq<string>, idx0: seq<nat>, keep: bool)
    requires texts != [] && |r0| == |idx0|
    requires forall j :: 0 <= j < |idx0| ==> idx0[j] < |texts| - 1 && r0[j] == texts[..|texts| - 1][idx0[j]]
    ensures var r, idx := r0 + (if keep then [texts[|texts| - 1]] else []), idx0 + (if keep then [|texts| - 1] else []);
      |r| == |idx| && forall j :: 0 <= j < |idx| ==> idx[j] < |texts| && r[j] == texts[idx[j]]
  {
  }

  /** Non-blank texts pass the filter unchanged. */
  lemma {:induction false} FilterNonBlankKeepsNonBlank(texts: seq<string>)
    requires forall i :: 0 <= i < |texts| ==> !IsBlank(texts[i])
    ensures FilterNonBlank(texts) == texts
    decreases |texts|
  {
    if texts != [] {
      var n := |texts| - 1;
      FilterNonBlankKeepsNonBlank(texts[..n]);
      assert texts == texts[..n] + [texts[n]];
    }
  }

  /** What is finally embedded: the selected texts whose first 2048
      characters are not blank. */
  predicate Embedded(c: Chunk)
  {
    c.text.Some? && !IsBlank(Truncate(c.text.value))
  }

  function EmbeddedTexts(chunks: seq<Chunk>): seq<string>
  {
    if chunks == [] then []
    else
      var last := chunks[|chunks| - 1];
      EmbeddedTexts(chunks[..|chunks| - 1]) + (if Embedded(last) then [Truncate(last.text.value)] else [])
  }

  /** Filtering the selection once more drops exactly the texts whose first
      2048 characters are blank although the whole text is not. */
  lemma {:induction false} FilterSelectionIsEmbedded(chunks: seq<Chunk>)
    ensures FilterNonBlank(SelectChunkTexts(chunks)) == EmbeddedTexts(chunks)
    decreases |chunks|
  {
    if chunks != [] {
      var n := |chunks| - 1;
      var last := chunks[n];
      FilterSelectionIsEmbedded(chunks[..n]);
      var sel := SelectChunkTexts(chunks[..n]);
      if Selected(last) {
        var t := Truncate(last.text.value);
        assert SelectChunkTexts(chunks) == sel + [t];
        assert (sel + [t])[..|sel|] == sel;
      } else {
        assert SelectChunkTexts(chunks) == sel;
        if last.text.Some? {
          var t := last.text.value;
          assert IsBlank(t);
          assert IsBlank(Truncate(t)) by {
            forall i | 0 <= i < |Truncate(t)| ensures IsSpace(Truncate(t)[i]) { assert Truncate(t)[i] == t[i]; }
          }
        }
      }
    }
  }

  // ---------------------------------------------------------------------
  // Provider responses

  /** One entry of `resp.output['embeddings']`; `embedding` is `None` for a
      null embedding and `textIndex` is `None` when there is no
      "text_index" key. */
  datatype EmbItem = EmbItem(embedding: Option<Vector>, textIndex: Option<int>)

  /** `resp.output`: a dict, with `embeddings` the value of its
      "embeddings" key and `embedding` that of its "embedding" key (each
      `None` when the key is missing), or anything else. */
  datatype Output =
    | DictOutput(embeddings: Option<seq<EmbItem>>, embedding: Option<Option<Vector>>)
    | NonDictOutput

  /** A response of the native `TextEmbedding.call`. */
  datatype NativeResponse = NativeResponse(status: int, output: Output)

  /** `client.embeddings.create(...)`: the vectors of `resp.data`, or the
      message of the exception it raised. */
  datatype CompatResponse = CompatOk(data: seq<Vector>) | CompatRaised(message: string)

  /** Why one batch failed; every case is raised inside the batch's `try`
      and re-raised as "Error generating embeddings: ...". */
  datatype BatchError =
    | AuthenticationFailed
    | ApiError(status: int)
    | EmptyEmbedding(textIndex: Option<int>)
    | TextIndexOutOfRange(index: int)
    | EmptySingleEmbedding
    | UnexpectedFormat
    | ClientError(message: string)

  predicate IsEmptyVector(v: Option<Vector>)
  {
    v.None? || v.value == []
  }

  /** One entry of a batch response: its vector, or the error raised for an
      empty one. Looking up `batch[text_index]` for the log message raises
      `IndexError` when the index is outside Python's range. */
  function ItemResult(batch: seq<string>, item: EmbItem): (r: Result<seq<Vector>, BatchError>)
    ensures r.Ok? <==> !IsEmptyVector(item.embedding)
    ensures r.Ok? ==> r.value == [item.embedding.value]
  {
    if !IsEmptyVector(item.embedding) then Ok([item.embedding.value])
    else
      match item.textIndex
      case None => Err(EmptyEmbedding(None))
      case Some(i) =>
        if -|batch| <= i < |batch| then Err(EmptyEmbedding(Some(i))) else Err(TextIndexOutOfRange(i))
  }

  function ItemResultOf(batch: seq<string>): EmbItem -> Result<seq<Vector>, BatchError>
  {
    item => ItemResult(batch, item)
  }

  predicate NonEmptyVector(v: Vector)
  {
    v != []
  }

  /** The checks the native loop makes on one batch's response. */
  function NativeBatchResult(batch: seq<string>, resp: NativeResponse): (r: Result<seq<Vector>, BatchError>)
    ensures resp.status == UnauthorizedStatus ==> r == Err(AuthenticationFailed)
    ensures resp.status != OkStatus && resp.status != UnauthorizedStatus ==> r == Err(ApiError(resp.status))
    ensures r.Ok? ==> resp.status == OkStatus && resp.output.DictOutput?
    ensures r.Ok? ==> forall v :: v in r.value ==> NonEmptyVector(v)
    ensures resp.status == OkStatus && resp.output.DictOutput? && resp.output.embeddings.Some? ==>
      var items := resp.output.embeddings.value;
      && (r.Ok? <==> forall i :: 0 <= i < |items| ==> !IsEmptyVector(items[i].embedding))
      && (r.Ok? ==> |r.value| == |items|)
      && (r.Ok? ==> forall i :: 0 <= i < |items| ==>
            items[i].embedding.Some? && r.value[i] == items[i].embedding.value)
    ensures && resp.status == OkStatus && resp.output.DictOutput?
            && resp.output.embeddings.None? && resp.output.embedding.Some? ==>
      var e := resp.output.embedding.value;
      && (r.Ok? <==> !IsEmptyVector(e))
      && (r.Ok? ==> r.value == [e.value])
      && (r.Err? ==> r.error == EmptySingleEmbedding)
    ensures && resp.status == OkStatus
            && (resp.output.NonDictOutput? || (resp.output.embeddings.None? && resp.output.embedding.None?)) ==>
      r == Err(UnexpectedFormat)
  {
    if resp.status != OkStatus then
      if resp.status == UnauthorizedStatus then Err(AuthenticationFailed) else Err(ApiError(resp.status))
    else
      match resp.output
      case NonDictOutput => Err(UnexpectedFormat)
      case DictOutput(Some(items), _) =>
        var r := Collect(items, ItemResultOf(batch));
        ItemsResultIff(batch, items);
        if r.Ok? then
          CollectKeeps(items, ItemResultOf(batch), NonEmptyVector);
          r
        else r
      case DictOutput(None, Some(e)) =>
        if IsEmptyVector(e) then Err(EmptySingleEmbedding) else Ok([e.value])
      case DictOutput(None, None) => Err(UnexpectedFormat)
  }

  /** A batch response listing vectors succeeds exactly when none of them
      is empty, and then yields them all, one per entry, in order; otherwise
      the first empty entry's error is raised. */
  lemma ItemsResultIff(batch: seq<string>, items: seq<EmbItem>)
    ensures Collect(items, ItemResultOf(batch)).Ok? <==>
      forall i :: 0 <= i < |items| ==> !IsEmptyVector(items[i].embedding)
    ensures Collect(items, ItemResultOf(batch)).Ok? ==>
      && |Collect(items, ItemResultOf(batch)).value| == |items|
      && forall i :: 0 <= i < |items| ==>
           items[i].embedding.Some? && Collect(items, ItemResultOf(batch)).value[i] == items[i].embedding.value
    ensures forall k ::
      && 0 <= k < |items| && IsEmptyVector(items[k].embedding)
      && (forall i :: 0 <= i < k ==> !IsEmptyVector(items[i].embedding)) ==>
      Collect(items, ItemResultOf(batch)) == Err(ItemResult(batch, items[k]).error)
  {
    var f := ItemResultOf(batch);
    if Collect(items, f).Ok? {
      ItemsInOrder(batch, items);
    }
    forall k | 0 <= k < |items| && IsEmptyVector(items[k].embedding) &&
        (forall i :: 0 <= i < k ==> !IsEmptyVector(items[i].embedding))
      ensures Collect(items, f) == Err(ItemResult(batch, items[k]).error)
    {
      var prefix := items[..k];
      assert forall i :: 0 <= i < |prefix| ==> !IsEmptyVector(prefix[i].embedding);
      CollectFailsAt(items, f, k, Collect(prefix, f).value);
    }
  }

  /** A successful list response yields its entries' vectors, in order. */
  lemma {:induction false} ItemsInOrder(batch: seq<string>, items: seq<EmbItem>)
    requires Collect(items, ItemResultOf(batch)).Ok?
    ensures |Collect(items, ItemResultOf(batch)).value| == |items|
    ensures forall i :: 0 <= i < |items| ==>
      items[i].embedding.Some? && Collect(items, ItemResultOf(batch)).value[i] == items[i].embedding.value
    decreases |items|
  {
    if items != [] {
      var n := |items| - 1;
      var init := items[..n];
      var f := ItemResultOf(batch);
      var acc := Collect(init, f).value;
      ItemsInOrder(batch, init);
      assert f(items[n]).Ok?;
      assert Collect(items, f).value == acc + [items[n].embedding.value];
      assert forall i :: 0 <= i < n ==> init[i] == items[i];
    }
  }

  /** The batch function each loop applies, for one attempt. */
  function NativeBatch(call: (nat, seq<string>) -> NativeResponse, attempt: nat): seq<string> -> Result<seq<Vector>, BatchError>
  {
    batch => NativeBatchResult(batch, call(attempt, batch))
  }

  function CompatBatchResult(resp: CompatResponse): (r: Result<seq<Vector>, BatchError>)
    ensures r.Ok? <==> resp.CompatOk?
    ensures resp.CompatOk? ==> r.value == resp.data
    ensures resp.CompatRaised? ==> r == Err(ClientError(resp.message))
  {
    match resp
    case CompatOk(data) => Ok(data)
    case CompatRaised(m) => Err(ClientError(m))
  }

  function CompatBatch(create: (nat, seq<string>) -> CompatResponse, attempt: nat): seq<string> -> Result<seq<Vector>, BatchError>
  {
    batch => CompatBatchResult(create(attempt, batch))
  }

  // ---------------------------------------------------------------------
  // The two batching loops

  /** `_get_embeddings_native`, on the given attempt. */
  method EmbedNative(call: (nat, seq<string>) -> NativeResponse, attempt: nat, texts: seq<string>)
    returns (r: Result<seq<Vector>, BatchError>)
    ensures r == Collect(Batches(texts), NativeBatch(call, attempt))
  {
    ghost var bs := Batches(texts);
    ghost var f := NativeBatch(call, attempt);
    BatchAt(texts);
    var embeddings: seq<Vector> := [];
    var i := 0;
    ghost var k := 0;
    while i < |texts|
      invariant 0 <= k <= |bs| && i == MaxBatchSize * k
      invariant i < |texts| <==> k < |bs|
      invariant Collect(bs[..k], f) == Ok(embeddings)
      decreases |texts| - i
    {
      var batch := texts[i..Min(i + MaxBatchSize, |texts|)];
      assert batch == bs[k];
      var resp := call(attempt, batch);
      assert f(bs[k]) == NativeBatchResult(batch, resp);
      if resp.status != OkStatus {
        if resp.status == UnauthorizedStatus {
          r := Err(AuthenticationFailed);
        } else {
          r := Err(ApiError(resp.status));
        }
        CollectFailsAt(bs, f, k, embeddings);
        return;
      }
      match resp.output {
        case NonDictOutput =>
          r := Err(UnexpectedFormat);
          CollectFailsAt(bs, f, k, embeddings);
          return;
        case DictOutput(Some(items), _) =>
          ghost var before := embeddings;
          ghost var part: seq<Vector> := [];
          ghost var g := ItemResultOf(batch);
          var j := 0;
          while j < |items|
            invariant 0 <= j <= |items|
            invariant Collect(items[..j], g) == Ok(part) && embeddings == before + part
          {
            var item := items[j];
            if IsEmptyVector(item.embedding) {
              r := ItemResult(batch, item);
              assert g(items[j]) == r;
              CollectFailsAt(items, g, j, part);
              CollectFailsAt(bs, f, k, before);
              return;
            }
            CollectStep(items, g, j, part);
            embeddings := embeddings + [item.embedding.value];
            part := part + [item.embedding.value];
            j := j + 1;
          }
          assert items[..j] == items;
          CollectStep(bs, f, k, before);
        case DictOutput(None, Some(e)) =>
          if IsEmptyVector(e) {
            r := Err(EmptySingleEmbedding);
            CollectFailsAt(bs, f, k, embeddings);
            return;
          }
          CollectStep(bs, f, k, embeddings);
          embeddings := embeddings + [e.value];
        case DictOutput(None, None) =>
          r := Err(UnexpectedFormat);
          CollectFailsAt(bs, f, k, embeddings);
          return;
      }
      i := i + MaxBatchSize;
      k := k + 1;
    }
    assert bs[..k] == bs;
    r := Ok(embeddings);
  }

  /** `_get_embeddings_openai_compatible`, on the given attempt. */
  method EmbedOpenAiCompatible(create: (nat, seq<string>) -> CompatResponse, attempt: nat, texts: seq<string>)
    returns (r: Result<seq<Vector>, BatchError>)
    ensures r == Collect(Batches(texts), CompatBatch(create, attempt))
  {
    ghost var bs := Batches(texts);
    ghost var f := CompatBatch(create, attempt);
    BatchAt(texts);
    var embeddings: seq<Vector> := [];
    var i := 0;
    ghost var k := 0;
    while i < |texts|
      invariant 0 <= k <= |bs| && i == MaxBatchSize * k
      invariant i < |texts| <==> k < |bs|
      invariant Collect(bs[..k], f) == Ok(embeddings)
      decreases |texts| - i
    {
      var batch := texts[i..Min(i + MaxBatchSize, |texts|)];
      assert batch == bs[k];
      var resp := create(attempt, batch);
      assert f(bs[k]) == CompatBatchResult(resp);
      match resp {
        case CompatRaised(message) =>
          r := Err(ClientError(message));
          CollectFailsAt(bs, f, k, embeddings);
          return;
        case CompatOk(data) =>
          ghost var before := embeddings;
          var j := 0;
          while j < |data|
            invariant 0 <= j <= |data| && embeddings == before + data[..j]
          {
            embeddings := embeddings + [data[j]];
            assert data[..j + 1] == data[..j] + [data[j]];
            j := j + 1;
          }
          assert data[..j] == data;
          CollectStep(bs, f, k, before);
      }
      i := i + MaxBatchSize;
      k := k + 1;
    }
    assert bs[..k] == bs;
    r := Ok(embeddings);
  }

  // ---------------------------------------------------------------------
  // `_get_embeddings`: validation and the retrying decorator

  /** The two ways the ingestor reaches DashScope; the attempt number is an
      argument so that each attempt may see different responses. */
  datatype Provider =
    | NativeApi(call: (nat, seq<string>) -> NativeResponse)
    | OpenAiCompatible(create: (nat, seq<string>) -> CompatResponse)

  /** The `text` argument: one string or a list of strings. */
  datatype EmbedInput = Single(text: string) | Many(texts: seq<string>)

  /** Why one attempt of `_get_embeddings` raised. */
  datatype AttemptError = EmptyString | AllInputsBlank | BatchFailed(cause: BatchError)

  /** Tenacity's `RetryError` after the last attempt, holding its error. */
  datatype RetryError = RetryError(last: AttemptError)

  function BatchOf(p: Provider, attempt: nat): seq<string> -> Result<seq<Vector>, BatchError>
  {
    match p
    case NativeApi(call) => NativeBatch(call, attempt)
    case OpenAiCompatible(create) => CompatBatch(create, attempt)
  }

  /** The checks before any request: a blank single string is refused,
      blank list entries are dropped and a list with nothing left is
      refused. */
  function ValidatedTexts(input: EmbedInput): (r: Result<seq<string>, AttemptError>)
    ensures input.Single? ==> (r.Ok? <==> !IsBlank(input.text))
    ensures input.Single? && r.Err? ==> r.error == EmptyString
    ensures input.Single? && r.Ok? ==> r.value == [input.text]
    ensures input.Many? ==> (r.Ok? <==> exists i :: 0 <= i < |input.texts| && !IsBlank(input.texts[i]))
    ensures input.Many? && r.Err? ==> r.error == AllInputsBlank
    ensures input.Many? && r.Ok? ==> r.value == FilterNonBlank(input.texts)
    ensures r.Ok? ==> r.value != [] && forall j :: 0 <= j < |r.value| ==> !IsBlank(r.value[j])
  {
    if input.Single? && IsBlank(input.text) then Err(EmptyString)
    else
      var chunks := if input.Single? then [input.text] else input.texts;
      FilterNonBlankKeepsNonBlank(if input.Single? then [input.text] else []);
      var kept := FilterNonBlank(chunks);
      if kept == [] then Err(AllInputsBlank) else Ok(kept)
  }

  /** The batched requests of one attempt, on texts that passed the
      checks: it succeeds exactly when every batch does, with the batches'
      vectors in input order, and otherwise fails with a batch's error. */
  function EmbedBatches(f: seq<string> -> Result<seq<Vector>, BatchError>, texts: seq<string>): (r: Result<seq<Vector>, AttemptError>)
    ensures r.Ok? <==> forall k :: 0 <= k < |Batches(texts)| ==> f(Batches(texts)[k]).Ok?
    ensures r.Ok? ==> r.value == Flatten(OkValues(Batches(texts), f))
    ensures r.Err? ==> exists k ::
      && 0 <= k < |Batches(texts)| && f(Batches(texts)[k]).Err?
      && r == Err(BatchFailed(f(Batches(texts)[k]).error))
  {
    var bs := Batches(texts);
    CollectOutcome(bs, f);
    match Collect(bs, f)
    case Ok(vs) => Ok(vs)
    case Err(e) => Err(BatchFailed(e))
  }

  /** One call of the undecorated `_get_embeddings`: invalid input is
      refused before any request. */
  function AttemptEmbeddings(p: Provider, input: EmbedInput, attempt: nat): (r: Result<seq<Vector>, AttemptError>)
    ensures ValidatedTexts(input).Err? ==> r == Err(ValidatedTexts(input).error)
    ensures r.Ok? ==> ValidatedTexts(input).Ok?
  {
    match ValidatedTexts(input)
    case Err(e) => Err(e)
    case Ok(texts) => EmbedBatches(BatchOf(p, attempt), texts)
  }

  /** The function the decorator wraps: attempt `a` of the undecorated
      `_get_embeddings` on the same arguments. */
  function Attempts(p: Provider, input: EmbedInput): nat -> Result<seq<Vector>, AttemptError>
  {
    (a: nat) => AttemptEmbeddings(p, input, a)
  }

  /** `retry(stop=stop_after_attempt(3))` around `run`: attempts from
      `attempt` on until one succeeds, then `RetryError` with the last
      attempt's error. */
  function RetryFrom(run: nat -> Result<seq<Vector>, AttemptError>, attempt: nat): (r: Result<seq<Vector>, RetryError>)
    requires 1 <= attempt <= MaxAttempts
    ensures r.Ok? <==> exists a :: attempt <= a <= MaxAttempts && run(a).Ok?
    ensures r.Ok? ==> exists a :: attempt <= a <= MaxAttempts && run(a) == Ok(r.value)
    ensures r.Err? ==> run(MaxAttempts).Err? && r.error == RetryError(run(MaxAttempts).error)
    decreases MaxAttempts - attempt
  {
    var here := run(attempt);
    if here.Ok? then Ok(here.value)
    else if attempt == MaxAttempts then Err(RetryError(here.error))
    else RetryFrom(run, attempt + 1)
  }

  /** The decorated `_get_embeddings`. */
  function GetEmbeddings(p: Provider, input: EmbedInput): (r: Result<seq<Vector>, RetryError>)
    ensures r.Ok? ==> ValidatedTexts(input).Ok?
    ensures r.Ok? ==> exists a :: 1 <= a <= MaxAttempts && AttemptEmbeddings(p, input, a) == Ok(r.value)
  {
    RetryFrom(Attempts(p, input), 1)
  }

  /** The first attempt that succeeds gives the result of the whole
      decorated call. */
  lemma RetryFirstSuccess(run: nat -> Result<seq<Vector>, AttemptError>, a: nat)
    requires 1 <= a <= MaxAttempts && run(a).Ok?
    requires forall b :: 1 <= b < a ==> run(b).Err?
    ensures RetryFrom(run, 1) == Ok(run(a).value)
  {
    if a >= 2 {
      assert run(1).Err?;
      assert RetryFrom(run, 1) == RetryFrom(run, 2);
    }
    if a == 3 {
      assert run(2).Err?;
      assert RetryFrom(run, 2) == RetryFrom(run, 3);
    }
  }

  /** The call succeeds exactly when one of the three attempts does, with
      the first successful attempt's vectors; otherwise it fails with the
      third attempt's error. */
  lemma RetryOutcome(p: Provider, input: EmbedInput)
    ensures GetEmbeddings(p, input).Ok? <==> exists a :: 1 <= a <= MaxAttempts && AttemptEmbeddings(p, input, a).Ok?
    ensures forall a ::
      (&& 1 <= a <= MaxAttempts && AttemptEmbeddings(p, input, a).Ok?
       && (forall b :: 1 <= b < a ==> AttemptEmbeddings(p, input, b).Err?)) ==>
      GetEmbeddings(p, input) == Ok(AttemptEmbeddings(p, input, a).value)
    ensures GetEmbeddings(p, input).Err? ==>
      GetEmbeddings(p, input) == Err(RetryError(AttemptEmbeddings(p, input, MaxAttempts).error))
  {
    var run := Attempts(p, input);
    assert GetEmbeddings(p, input) == RetryFrom(run, 1);
    assert forall a :: run(a) == AttemptEmbeddings(p, input, a);
    forall a | 1 <= a <= MaxAttempts && AttemptEmbeddings(p, input, a).Ok? &&
               (forall b :: 1 <= b < a ==> AttemptEmbeddings(p, input, b).Err?)
      ensures GetEmbeddings(p, input) == Ok(AttemptEmbeddings(p, input, a).value)
    {
      assert forall b :: 1 <= b < a ==> run(b).Err?;
      RetryFirstSuccess(run, a);
    }
  }

  /** Input the checks refuse fails identically on every attempt, whatever
      the provider does. */
  lemma InvalidInputFails(p: Provider, input: EmbedInput)
    ensures ValidatedTexts(input).Err? ==>
      GetEmbeddings(p, input) == Err(RetryError(ValidatedTexts(input).error))
  {
    RetryOutcome(p, input);
  }

  // ---------------------------------------------------------------------
  // The index

  /** A `faiss.IndexFlatIP` of the given dimension holding `vectors`. */
  datatype FlatIndex = FlatIndex(dimension: nat, vectors: seq<Vector>)

  datatype ProcessError = MissingChunks | EmbeddingFailed(cause: RetryError) | NoEmbeddings | RaggedEmbeddings

  /** `_create_vector_db`: the dimension is that of the first vector;
      `embeddings[0]` raises on an empty list and `np.array` on vectors of
      different lengths. */
  function CreateVectorDb(e: seq<Vector>): (r: Result<FlatIndex, ProcessError>)
    ensures e == [] ==> r == Err(NoEmbeddings)
    ensures e != [] ==> (r.Ok? <==> forall i :: 0 <= i < |e| ==> |e[i]| == |e[0]|)
    ensures e != [] && r.Err? ==> r.error == RaggedEmbeddings
    ensures r.Ok? ==> r.value.vectors == e && r.value.dimension == |e[0]|
    ensures r.Ok? ==> forall i :: 0 <= i < |e| ==> |e[i]| == r.value.dimension
  {
    if e == [] then Err(NoEmbeddings)
    else if forall i :: 0 <= i < |e| ==> |e[i]| == |e[0]| then Ok(FlatIndex(|e[0]|, e))
    else Err(RaggedEmbeddings)
  }

  /** `_process_report`. */
  function ProcessReport(p: Provider, report: Report): (r: Result<FlatIndex, ProcessError>)
    ensures report.chunks.None? ==> r == Err(MissingChunks)
    ensures report.chunks.Some? && SelectChunkTexts(report.chunks.value) == [] ==>
      r == Ok(FlatIndex(PlaceholderDimension, []))
    ensures (report.chunks.Some? && SelectChunkTexts(report.chunks.value) != [] &&
             EmbeddedTexts(report.chunks.value) == []) ==>
      r == Err(EmbeddingFailed(RetryError(AllInputsBlank)))
    ensures r.Ok? ==> forall i :: 0 <= i < |r.value.vectors| ==> |r.value.vectors[i]| == r.value.dimension
    ensures report.chunks.Some? && SelectChunkTexts(report.chunks.value) != [] ==>
      var g := GetEmbeddings(p, Many(SelectChunkTexts(report.chunks.value)));
      && (g.Err? ==> r == Err(EmbeddingFailed(g.error)))
      && (g.Ok? ==> r == CreateVectorDb(g.value))
      && (r.Ok? ==> g == Ok(r.value.vectors) && r.value.vectors != [] && r.value.dimension == |r.value.vectors[0]|)
  {
    match report.chunks
    case None => Err(MissingChunks)
    case Some(chunks) =>
      var texts := SelectChunkTexts(chunks);
      if texts == [] then Ok(FlatIndex(PlaceholderDimension, []))
      else
        FilterSelectionIsEmbedded(chunks);
        InvalidInputFails(p, Many(texts));
        match GetEmbeddings(p, Many(texts))
        case Err(e) => Err(EmbeddingFailed(e))
        case Ok(e) => CreateVectorDb(e)
  }

  // ---------------------------------------------------------------------
  // A provider that answers as documented

  /** A 200 response listing one vector of dimension `d` per text. */
  predicate GoodNativeResponse(resp: NativeResponse, n: nat, d: nat)
  {
    && resp.status == OkStatus && resp.output.DictOutput? && resp.output.embeddings.Some?
    && |resp.output.embeddings.value| == n
    && forall i :: 0 <= i < n ==>
      resp.output.embeddings.value[i].embedding.Some? && |resp.output.embeddings.value[i].embedding.value| == d
  }

  ghost predicate NativeWellBehaved(call: (nat, seq<string>) -> NativeResponse, d: nat)
  {
    d > 0 && forall a: nat, b: seq<string> :: GoodNativeResponse(call(a, b), |b|, d)
  }

  predicate HasDimension(d: nat, v: Vector)
  {
    |v| == d
  }

  /** Each batch then yields one vector of dimension `d` per text. */
  lemma GoodBatch(call: (nat, seq<string>) -> NativeResponse, d: nat, a: nat, b: seq<string>)
    requires NativeWellBehaved(call, d)
    ensures NativeBatch(call, a)(b).Ok? && |NativeBatch(call, a)(b).value| == |b|
    ensures forall v :: v in NativeBatch(call, a)(b).value ==> HasDimension(d, v)
  {
    var resp := call(a, b);
    assert GoodNativeResponse(resp, |b|, d);
    var items := resp.output.embeddings.value;
    var hd := (v: Vector) => HasDimension(d, v);
    forall i | 0 <= i < |items|
      ensures ItemResultOf(b)(items[i]).Ok? && |ItemResultOf(b)(items[i]).value| == One(items[i])
      ensures forall v :: v in ItemResultOf(b)(items[i]).value ==> hd(v)
    {
      assert ItemResultOf(b)(items[i]) == Ok([items[i].embedding.value]);
    }
    CollectShape(items, ItemResultOf(b), One, hd);
    SumByOne(items);
  }

  /** Every batch of `emb` then succeeds, giving one vector of dimension
      `d` per text on the first attempt. */
  lemma GoodCollect(call: (nat, seq<string>) -> NativeResponse, d: nat, emb: seq<string>)
    requires NativeWellBehaved(call, d)
    ensures Collect(Batches(emb), NativeBatch(call, 1)).Ok?
    ensures |Collect(Batches(emb), NativeBatch(call, 1)).value| == |emb|
    ensures forall i :: 0 <= i < |Collect(Batches(emb), NativeBatch(call, 1)).value| ==>
      HasDimension(d, Collect(Batches(emb), NativeBatch(call, 1)).value[i])
  {
    var bs := Batches(emb);
    var f := NativeBatch(call, 1);
    var hd := (v: Vector) => HasDimension(d, v);
    forall i | 0 <= i < |bs|
      ensures f(bs[i]).Ok? && |f(bs[i]).value| == Length(bs[i])
      ensures forall v :: v in f(bs[i]).value ==> hd(v)
    {
      GoodBatch(call, d, 1, bs[i]);
    }
    CollectShape(bs, f, Length, hd);
    SumByLengthIsFlattenLength(bs);
    BatchesFlatten(emb);
    var vs := Collect(bs, f).value;
    forall i | 0 <= i < |vs| ensures HasDimension(d, vs[i]) { assert vs[i] in vs; }
  }

  /** The decorated call then succeeds on its first attempt, with one
      vector of dimension `d` per text left after the checks. */
  lemma WellBehavedEmbeddings(call: (nat, seq<string>) -> NativeResponse, d: nat, texts: seq<string>)
    requires NativeWellBehaved(call, d)
    requires FilterNonBlank(texts) != []
    ensures GetEmbeddings(NativeApi(call), Many(texts)).Ok?
    ensures |GetEmbeddings(NativeApi(call), Many(texts)).value| == |FilterNonBlank(texts)|
    ensures forall i :: 0 <= i < |GetEmbeddings(NativeApi(call), Many(texts)).value| ==>
      HasDimension(d, GetEmbeddings(NativeApi(call), Many(texts)).value[i])
  {
    var emb := FilterNonBlank(texts);
    GoodCollect(call, d, emb);
    var vs := Collect(Batches(emb), NativeBatch(call, 1)).value;
    assert AttemptEmbeddings(NativeApi(call), Many(texts), 1) == Ok(vs);
    assert GetEmbeddings(NativeApi(call), Many(texts)) == Ok(vs);
  }

  /** With such a provider, a report whose chunks leave something to embed
      gets an index of dimension `d` with one vector per embedded text. */
  lemma WellBehavedNativeIndex(call: (nat, seq<string>) -> NativeResponse, d: nat, chunks: seq<Chunk>)
    requires NativeWellBehaved(call, d)
    requires EmbeddedTexts(chunks) != []
    ensures ProcessReport(NativeApi(call), Report(Some(chunks))).Ok?
    ensures ProcessReport(NativeApi(call), Report(Some(chunks))).value.dimension == d
    ensures |ProcessReport(NativeApi(call), Report(Some(chunks))).value.vectors| == |EmbeddedTexts(chunks)|
  {
    var texts := SelectChunkTexts(chunks);
    FilterSelectionIsEmbedded(chunks);
    WellBehavedEmbeddings(call, d, texts);
    var e := GetEmbeddings(NativeApi(call), Many(texts)).value;
    assert ProcessReport(NativeApi(call), Report(Some(chunks))) == CreateVectorDb(e);
    assert HasDimension(d, e[0]);
  }

  /** `n` spaces. */
  function Spaces(n: nat): (s: string)
    ensures |s| == n && IsBlank(s)
  {
    seq(n, _ => ' ')
  }

  /** A chunk of 2048 spaces followed by "x" passes the first filter, is cut
      to blank text and is dropped by the second, so the report fails on
      every attempt whatever the provider. */
  lemma BlankPrefixChunkFails(p: Provider)
    ensures ProcessReport(p, Report(Some([Chunk(Some(Spaces(MaxChunkLength) + "x"))]))) ==
      Err(EmbeddingFailed(RetryError(AllInputsBlank)))
  {
    var t := Spaces(MaxChunkLength) + "x";
    var chunks := [Chunk(Some(t))];
    assert t[|t| - 1] == 'x';
    assert Selected(chunks[0]);
    assert chunks[..0] == [];
    assert SelectChunkTexts(chunks) != [];
    assert Truncate(t) == Spaces(MaxChunkLength);
    assert EmbeddedTexts(chunks) == [];
  }
}
