/** The values a model answer passes through on its way to the answer
    record: JSON values, the Python `json`/`str` primitives (kept abstract)
    and the code-fence clean-up that both the pipeline and the web front end
    apply before a second parse attempt. */
module AnswerFormat {
  import opened Results
  import opened PyText

  /** A JSON value, and the Python value `json.loads` turns it into. Object
      members are looked up by key, as a Python `dict` is. */
  datatype Json =
    | JNull
    | JBool(b: bool)
    | JNumber(literal: string)
    | JString(text: string)
    | JArray(items: seq<Json>)
    | JObject(members: map<string, Json>)

  /** The Python primitives used on answers, left uninterpreted:
      `json.loads` (`None` stands for `JSONDecodeError`), `json.dumps` and
      `str()` on values that are not strings. */
  datatype PyRuntime = PyRuntime(
    loads: string -> Option<Json>,
    dumps: Json -> string,
    strOf: Json -> string)

  /** What the end-to-end properties assume of the JSON library: decoding
      an encoded value gives the value back. */
  ghost predicate DumpsRoundTrips(rt: PyRuntime)
  {
    forall v :: rt.loads(rt.dumps(v)) == Some(v)
  }

  /** One instance of the round trip. Proofs that call this instead of
      unfolding `DumpsRoundTrips` keep its quantifier out of their context. */
  lemma LoadsDumps(rt: PyRuntime, v: Json)
    requires DumpsRoundTrips(rt)
    ensures rt.loads(rt.dumps(v)) == Some(v)
  {
  }

  /** Python's `str(v)`: a string is its own text. */
  function PyStr(rt: PyRuntime, v: Json): string
  {
    if v.JString? then v.text else rt.strOf(v)
  }

  /** `d.get(key, default)`. */
  function Get(members: map<string, Json>, key: string, default: Json): (v: Json)
    ensures key in members ==> v == members[key]
    ensures key !in members ==> v == default
  {
    if key in members then members[key] else default
  }

  const Fence := "```"
  const JsonTag := "json"

  /** End of the match of the first regex alternative, `^```(?:json)?\s*`,
      or 0 when the text does not start with a fence. */
  function FenceHeadEnd(t: string): (h: nat)
    ensures h <= |t|
    ensures !StartsWith(t, Fence) ==> h == 0
    ensures StartsWith(t, Fence) ==>
      var k := if StartsWith(t[3..], JsonTag) then 7 else 3;
      && k <= h
      && (forall i :: k <= i < h ==> IsSpace(t[i]))
      && (h < |t| ==> !IsSpace(t[h]))
  {
    if StartsWith(t, Fence) then
      var k := if StartsWith(t[3..], JsonTag) then 7 else 3;
      k + LeadCount(t[k..], IsSpace)
    else 0
  }

  /** Start of the match of the second alternative, `\s*```$`, searched from
      position `h` on: the earliest position from which only whitespace and a
      final fence remain, or `|t|` when the text does not end with a fence. */
  function FenceTailStart(t: string, h: nat): (e: nat)
    requires h <= |t|
    ensures h <= e <= |t|
    ensures h + 3 <= |t| && EndsWith(t, Fence) ==>
      && e <= |t| - 3
      && (forall i :: e <= i < |t| - 3 ==> IsSpace(t[i]))
      && (h < e ==> !IsSpace(t[e - 1]))
    ensures !(h + 3 <= |t| && EndsWith(t, Fence)) ==> e == |t|
  {
    if h + 3 <= |t| && EndsWith(t, Fence) then
      (|t| - 3) - TrailCount(t[h..|t| - 3], IsSpace)
    else |t|
  }

  /** `re.sub(r'^```(?:json)?\s*|\s*```$', '', t)` on a text `t` that has
      already been stripped (so `$` can only match at the very end). */
  function StripCodeFence(t: string): (r: string)
    ensures |r| <= |t|
    ensures (t == [] || (!IsSpace(t[0]) && !IsSpace(t[|t| - 1]))) && r != [] ==>
      !IsSpace(r[0]) && !IsSpace(r[|r| - 1])
  {
    var h := FenceHeadEnd(t);
    var e := FenceTailStart(t, h);
    CutEnds(t, h, e);
    t[h..e]
  }

  /** Both matches take the whitespace next to them, so a cut of stripped
      text has no whitespace at either end. */
  lemma CutEnds(t: string, h: nat, e: nat)
    requires h <= |t| && h == FenceHeadEnd(t) && e == FenceTailStart(t, h)
    ensures h <= e <= |t|
    ensures (t == [] || (!IsSpace(t[0]) && !IsSpace(t[|t| - 1]))) && t[h..e] != [] ==>
      !IsSpace(t[h..e][0]) && !IsSpace(t[h..e][|t[h..e]| - 1])
  {
    if t != [] && !IsSpace(t[0]) && !IsSpace(t[|t| - 1]) && h < e {
      assert t[h..e][0] == t[h] && t[h..e][e - h - 1] == t[e - 1];
      if !StartsWith(t, Fence) {
        assert h == 0;
      }
      if !(h + 3 <= |t| && EndsWith(t, Fence)) {
        assert e == |t|;
      }
    }
  }

  /** The clean-up both call sites apply: strip, then remove the fences.
      What is left neither begins nor ends with whitespace, and text with no
      fence at either end is only stripped. */
  function CleanFenced(s: string): (r: string)
    ensures r != [] ==> !IsSpace(r[0]) && !IsSpace(r[|r| - 1])
    ensures !StartsWith(Strip(s), Fence) && !EndsWith(Strip(s), Fence) ==> r == Strip(s)
  {
    StripCodeFence(Strip(s))
  }

  /** Text without fence markers at either end passes unchanged. */
  lemma UnfencedUnchanged(t: string)
    requires !StartsWith(t, Fence) && !EndsWith(t, Fence)
    ensures StripCodeFence(t) == t
  {
  }

  /** A fenced block, optionally tagged `json`, gives back its body, provided
      the body does not itself begin or end with whitespace. */
  lemma FencedBodyRecovered(tag: string, body: string)
    requires tag == "" || tag == JsonTag
    requires body != [] ==> !IsSpace(body[0]) && !IsSpace(body[|body| - 1])
    ensures StripCodeFence(Fence + tag + "\n" + body + "\n" + Fence) == body
  {
    if tag == "" {
      assert Fence + tag == Fence;
      FencedBodyUntagged(body);
    } else {
      FencedBodyTagged(body);
    }
  }

  lemma FencedBodyTagged(body: string)
    requires body != [] ==> !IsSpace(body[0]) && !IsSpace(body[|body| - 1])
    ensures StripCodeFence(Fence + JsonTag + "\n" + body + "\n" + Fence) == body
  {
    if body == [] {
      EmptyFencedBodyTagged();
    } else {
      var t := Fence + JsonTag + "\n" + body + "\n" + Fence;
      assert StartsWith(t, Fence) by { assert t[..3] == Fence; }
      assert StartsWith(t[3..], JsonTag) by { assert t[3..][..4] == JsonTag; }
      assert EndsWith(t, Fence) by { assert t[|t| - 3..] == Fence; }
      assert t[7] == '\n' && t[|t| - 4] == '\n';
      assert t[8] == body[0] && t[|t| - 5] == body[|body| - 1];
      assert FenceHeadEnd(t) == 8;
      assert FenceTailStart(t, 8) == |t| - 4;
      assert t[8..|t| - 4] == body;
    }
  }

  lemma EmptyFencedBodyTagged()
    ensures StripCodeFence(Fence + JsonTag + "\n" + [] + "\n" + Fence) == []
  {
    var t := Fence + JsonTag + "\n" + [] + "\n" + Fence;
    assert StartsWith(t, Fence) by { assert t[..3] == Fence; }
    assert StartsWith(t[3..], JsonTag) by { assert t[3..][..4] == JsonTag; }
    assert t[7] == '\n' && t[8] == '\n' && t[9] == '`';
    assert FenceHeadEnd(t) == 9;
  }

  lemma FencedBodyUntagged(body: string)
    requires body != [] ==> !IsSpace(body[0]) && !IsSpace(body[|body| - 1])
    ensures StripCodeFence(Fence + "\n" + body + "\n" + Fence) == body
  {
    if body == [] {
      EmptyFencedBodyUntagged();
    } else {
      var t := Fence + "\n" + body + "\n" + Fence;
      assert StartsWith(t, Fence) by { assert t[..3] == Fence; }
      assert !StartsWith(t[3..], JsonTag) by { assert t[3..][0] == '\n'; }
      assert EndsWith(t, Fence) by { assert t[|t| - 3..] == Fence; }
      assert t[3] == '\n' && t[|t| - 4] == '\n';
      assert t[4] == body[0] && t[|t| - 5] == body[|body| - 1];
      assert FenceHeadEnd(t) == 4;
      assert FenceTailStart(t, 4) == |t| - 4;
      assert t[4..|t| - 4] == body;
    }
  }

  lemma EmptyFencedBodyUntagged()
    ensures StripCodeFence(Fence + "\n" + [] + "\n" + Fence) == []
  {
    var t := Fence + "\n" + [] + "\n" + Fence;
    assert StartsWith(t, Fence) by { assert t[..3] == Fence; }
    assert !StartsWith(t[3..], JsonTag) by { assert t[3..][0] == '\n'; }
    assert t[3] == '\n' && t[4] == '\n' && t[5] == '`';
    assert FenceHeadEnd(t) == 5;
  }

  /** Only an opening fence tagged `json`, as when a completion is cut
      off: the fence, the tag and the line break go, and the body stays. */
  lemma OpeningJsonFenceOnly(body: string)
    requires body != [] && !IsSpace(body[0]) && body[|body| - 1] != '`'
    ensures StripCodeFence(Fence + JsonTag + "\n" + body) == body
  {
    var t := Fence + JsonTag + "\n" + body;
    assert StartsWith(t, Fence) by { assert t[..3] == Fence; }
    assert StartsWith(t[3..], JsonTag) by { assert t[3..][..4] == JsonTag; }
    assert t[7] == '\n' && t[8] == body[0];
    assert FenceHeadEnd(t) == 8;
    assert !EndsWith(t, Fence) by { assert t[|t| - 1] == body[|body| - 1]; }
    assert t[8..] == body;
  }

  /** The same with an untagged opening fence. */
  lemma OpeningFenceOnly(body: string)
    requires body != [] && !IsSpace(body[0]) && body[|body| - 1] != '`'
    ensures StripCodeFence(Fence + "\n" + body) == body
  {
    var t := Fence + "\n" + body;
    assert StartsWith(t, Fence) by { assert t[..3] == Fence; }
    assert !StartsWith(t[3..], JsonTag) by { assert t[3..][0] == '\n'; }
    assert t[3] == '\n' && t[4] == body[0];
    assert FenceHeadEnd(t) == 4;
    assert !EndsWith(t, Fence) by { assert t[|t| - 1] == body[|body| - 1]; }
    assert t[4..] == body;
  }

  /** Fences on the same line as the body, tagged `json`: both go, and the
      body stays when it neither begins nor ends with whitespace. */
  lemma FencesOnOneLine(body: string)
    requires body != [] && !IsSpace(body[0]) && !IsSpace(body[|body| - 1])
    ensures StripCodeFence(Fence + JsonTag + body + Fence) == body
  {
    var t := Fence + JsonTag + body + Fence;
    assert StartsWith(t, Fence) by { assert t[..3] == Fence; }
    assert StartsWith(t[3..], JsonTag) by { assert t[3..][..4] == JsonTag; }
    assert t[7] == body[0];
    var h := FenceHeadEnd(t);
    assert h == 7;
    assert EndsWith(t, Fence) by { assert t[|t| - 3..] == Fence; }
    assert t[|t| - 4] == body[|body| - 1];
    assert t[7..|t| - 3] == body;
  }
}
