/** What the two embedding loops of `VectorDBIngestor` share: the input
    list is cut into consecutive batches of at most 25 texts, each batch
    yields a list of vectors or an error, the vectors are appended in
    input order and the first error aborts the whole call. */
module Batching {
  import opened Results
  import opened PyText

  const MaxBatchSize := 25

  /** An embedding vector; its numbers are never computed with here. */
  type Vector = seq<real>

  /** All elements of the lists in `xss`, in order. */
  function Flatten<T>(xss: seq<seq<T>>): seq<T>
  {
    if xss == [] then [] else Flatten(xss[..|xss| - 1]) + xss[|xss| - 1]
  }

  // ---------------------------------------------------------------------
  // Appending batch results, stopping at the first failure

  /** The list built so far, extended with one more batch's result. */
  function Append<E>(acc: seq<Vector>, res: Result<seq<Vector>, E>): Result<seq<Vector>, E>
  {
    match res
    case Ok(vs) => Ok(acc + vs)
    case Err(e) => Err(e)
  }

  /** Run `f` on every element of `xs` in order and append the vectors it
      returns; the first error is the result. */
  function Collect<X, E>(xs: seq<X>, f: X -> Result<seq<Vector>, E>): (r: Result<seq<Vector>, E>)
    ensures r.Ok? <==> forall i :: 0 <= i < |xs| ==> f(xs[i]).Ok?
    ensures r.Err? ==> exists i :: 0 <= i < |xs| && f(xs[i]) == Err(r.error)
  {
    if xs == [] then Ok([])
    else
      var init := xs[..|xs| - 1];
      assert forall i :: 0 <= i < |init| ==> init[i] == xs[i];
      match Collect(init, f)
      case Err(e) => Err(e)
      case Ok(acc) => Append(acc, f(xs[|xs| - 1]))
  }

  /** One more element, as the loops take it. */
  lemma CollectStep<X, E>(xs: seq<X>, f: X -> Result<seq<Vector>, E>, k: nat, acc: seq<Vector>)
    requires k < |xs| && Collect(xs[..k], f) == Ok(acc)
    ensures Collect(xs[..k + 1], f) == Append(acc, f(xs[k]))
  {
    assert xs[..k + 1][..k] == xs[..k];
  }

  /** An error stays the result however many elements follow it. */
  lemma {:induction false} CollectErrSticks<X, E>(xs: seq<X>, f: X -> Result<seq<Vector>, E>, k: nat)
    requires k <= |xs| && Collect(xs[..k], f).Err?
    ensures Collect(xs, f) == Collect(xs[..k], f)
    decreases |xs| - k
  {
    if k < |xs| {
      var init := xs[..|xs| - 1];
      assert init[..k] == xs[..k];
      CollectErrSticks(init, f, k);
    } else {
      assert xs[..k] == xs;
    }
  }

  /** The first element whose result is an error decides the result. */
  lemma CollectFailsAt<X, E>(xs: seq<X>, f: X -> Result<seq<Vector>, E>, k: nat, acc: seq<Vector>)
    requires k < |xs| && Collect(xs[..k], f) == Ok(acc) && f(xs[k]).Err?
    ensures Collect(xs, f) == Err(f(xs[k]).error)
  {
    CollectStep(xs, f, k, acc);
    CollectErrSticks(xs, f, k + 1);
  }

  /** Sum of `size` over `xs`. */
  function SumBy<X>(xs: seq<X>, size: X -> nat): nat
  {
    if xs == [] then 0 else SumBy(xs[..|xs| - 1], size) + size(xs[|xs| - 1])
  }

  /** When every element yields `size(x)` vectors that all satisfy `p`, the
      call yields their total number, all satisfying `p`. */
  lemma {:induction false} CollectShape<X, E>(xs: seq<X>, f: X -> Result<seq<Vector>, E>,
                                              size: X -> nat, p: Vector -> bool)
    requires forall i :: 0 <= i < |xs| ==>
      && f(xs[i]).Ok? && |f(xs[i]).value| == size(xs[i])
      && forall v :: v in f(xs[i]).value ==> p(v)
    ensures Collect(xs, f).Ok?
    ensures |Collect(xs, f).value| == SumBy(xs, size)
    ensures forall v :: v in Collect(xs, f).value ==> p(v)
    decreases |xs|
  {
    if xs != [] {
      var init := xs[..|xs| - 1];
      assert forall i :: 0 <= i < |init| ==> init[i] == xs[i];
      CollectShape(init, f, size, p);
    }
  }

  /** Whatever every successful element result keeps, a successful call
      keeps too. */
  lemma {:induction false} CollectKeeps<X, E>(xs: seq<X>, f: X -> Result<seq<Vector>, E>, p: Vector -> bool)
    requires forall i :: 0 <= i < |xs| ==> f(xs[i]).Ok? ==> forall v :: v in f(xs[i]).value ==> p(v)
    requires Collect(xs, f).Ok?
    ensures forall v :: v in Collect(xs, f).value ==> p(v)
    decreases |xs|
  {
    if xs != [] {
      var init := xs[..|xs| - 1];
      assert forall i :: 0 <= i < |init| ==> init[i] == xs[i];
      CollectKeeps(init, f, p);
    }
  }

  /** The vectors each element's result holds, or none for an error. */
  function OkValues<X, E>(xs: seq<X>, f: X -> Result<seq<Vector>, E>): (vss: seq<seq<Vector>>)
    ensures |vss| == |xs|
    ensures forall i :: 0 <= i < |xs| && f(xs[i]).Ok? ==> vss[i] == f(xs[i]).value
  {
    if xs == [] then []
    else
      var init := xs[..|xs| - 1];
      var last := xs[|xs| - 1];
      assert forall i :: 0 <= i < |init| ==> init[i] == xs[i];
      OkValues(init, f) + [if f(last).Ok? then f(last).value else []]
  }

  /** A successful call yields every element's vectors, concatenated in
      input order. */
  lemma {:induction false} CollectFlatten<X, E>(xs: seq<X>, f: X -> Result<seq<Vector>, E>)
    requires Collect(xs, f).Ok?
    ensures Collect(xs, f).value == Flatten(OkValues(xs, f))
    decreases |xs|
  {
    if xs != [] {
      var init := xs[..|xs| - 1];
      var vss := OkValues(xs, f);
      CollectFlatten(init, f);
      assert vss[..|vss| - 1] == OkValues(init, f);
    }
  }

  /** The call succeeds exactly when every element does, yielding their
      vectors in order, and otherwise fails with an element's error. */
  lemma CollectOutcome<X, E>(xs: seq<X>, f: X -> Result<seq<Vector>, E>)
    ensures Collect(xs, f).Ok? <==> forall i :: 0 <= i < |xs| ==> f(xs[i]).Ok?
    ensures Collect(xs, f).Ok? ==> Collect(xs, f).value == Flatten(OkValues(xs, f))
    ensures Collect(xs, f).Err? ==>
      exists i :: 0 <= i < |xs| && f(xs[i]).Err? && Collect(xs, f).error == f(xs[i]).error
  {
    if Collect(xs, f).Ok? {
      CollectFlatten(xs, f);
    }
  }

  function Length<T>(xs: seq<T>): nat
  {
    |xs|
  }

  function One<X>(x: X): nat
  {
    1
  }

  lemma {:induction false} SumByLengthIsFlattenLength<T>(xss: seq<seq<T>>)
    ensures SumBy(xss, Length) == |Flatten(xss)|
    decreases |xss|
  {
    if xss != [] {
      SumByLengthIsFlattenLength(xss[..|xss| - 1]);
    }
  }

  lemma {:induction false} SumByOne<X>(xs: seq<X>)
    ensures SumBy(xs, One) == |xs|
    decreases |xs|
  {
    if xs != [] {
      SumByOne(xs[..|xs| - 1]);
    }
  }

  // ---------------------------------------------------------------------
  // Cutting the input into batches

  /** `[texts[i:i + 25] for i in range(0, len(texts), 25)]`. */
  function Batches<T>(texts: seq<T>): (bs: seq<seq<T>>)
    ensures bs == [] <==> texts == []
    ensures forall k :: 0 <= k < |bs| ==> 1 <= |bs[k]| <= MaxBatchSize
    decreases |texts|
  {
    if texts == [] then []
    else if |texts| <= MaxBatchSize then [texts]
    else [texts[..MaxBatchSize]] + Batches(texts[MaxBatchSize..])
  }

  /** Batch `k` is the slice of the input that starts at `25 * k`, and
      there are as many batches as the loop has steps. */
  lemma {:induction false} BatchAt<T>(texts: seq<T>)
    ensures |Batches(texts)| == (|texts| + MaxBatchSize - 1) / MaxBatchSize
    ensures forall k :: 0 <= k < |Batches(texts)| ==>
      Batches(texts)[k] == texts[MaxBatchSize * k .. Min(MaxBatchSize * k + MaxBatchSize, |texts|)]
    decreases |texts|
  {
    if |texts| > MaxBatchSize {
      var rest := texts[MaxBatchSize..];
      BatchAt(rest);
      var bs := Batches(texts);
      assert bs == [texts[..MaxBatchSize]] + Batches(rest);
      forall k | 0 <= k < |bs|
        ensures bs[k] == texts[MaxBatchSize * k .. Min(MaxBatchSize * k + MaxBatchSize, |texts|)]
      {
        if k > 0 {
          assert bs[k] == Batches(rest)[k - 1];
          assert rest[MaxBatchSize * (k - 1) .. Min(MaxBatchSize * (k - 1) + MaxBatchSize, |rest|)]
              == texts[MaxBatchSize * k .. Min(MaxBatchSize * k + MaxBatchSize, |texts|)];
        }
      }
    }
  }

  /** Every batch holds 1 to 25 texts, and all but the last exactly 25. */
  lemma BatchSizes<T>(texts: seq<T>)
    ensures forall k :: 0 <= k < |Batches(texts)| ==> 1 <= |Batches(texts)[k]| <= MaxBatchSize
    ensures forall k :: 0 <= k < |Batches(texts)| - 1 ==> |Batches(texts)[k]| == MaxBatchSize
  {
    BatchAt(texts);
  }

  /** The batches, put back together, are the input. */
  lemma {:induction false} BatchesFlatten<T>(texts: seq<T>)
    ensures Flatten(Batches(texts)) == texts
    decreases |texts|
  {
    if |texts| > MaxBatchSize {
      var rest := texts[MaxBatchSize..];
      BatchesFlatten(rest);
      FlattenCons(texts[..MaxBatchSize], Batches(rest));
      assert texts == texts[..MaxBatchSize] + rest;
    } else if texts != [] {
      assert Flatten([texts]) == Flatten([texts][..0]) + texts;
    }
  }

  lemma {:induction false} FlattenCons<T>(x: seq<T>, xss: seq<seq<T>>)
    ensures Flatten([x] + xss) == x + Flatten(xss)
    decreases |xss|
  {
    if xss == [] {
      assert [x] + xss == [x];
      assert Flatten([x]) == Flatten([x][..0]) + x;
    } else {
      var all := [x] + xss;
      assert all[..|all| - 1] == [x] + xss[..|xss| - 1];
      FlattenCons(x, xss[..|xss| - 1]);
    }
  }
}
