/** The web front end's reading of a pipeline answer: it turns whatever
    `answer_single_question` returned into the four displayed fields,
    trying a direct JSON parse, then a parse of the fence-stripped text,
    then keeping the raw text. */
module StreamlitApp {
  import opened Results
  import opened PyText
  import opened AnswerFormat
  import Pipeline

  /** The four fields the page shows. */
  datatype AnswerFields = AnswerFields(
    stepByStepAnalysis: Json,
    reasoningSummary: Json,
    relevantPages: Json,
    finalAnswer: Json)

  const Dash := JString("-")
  const NoPages := JArray([])

  /** `answer_dict`: a string answer is parsed, and becomes `{}` when it is
      not JSON; any other answer is used as it is. */
  function AnswerDict(rt: PyRuntime, answer: Json): (d: Json)
    ensures !answer.JString? ==> d == answer
    ensures answer.JString? && rt.loads(answer.text).None? ==> d == JObject(map[])
    ensures answer.JString? && rt.loads(answer.text).Some? ==> d == rt.loads(answer.text).value
  {
    match answer
    case JString(s) => (match rt.loads(s) case Some(v) => v case None => JObject(map[]))
    case _ => answer
  }

  /** The value of "content" after the parse attempts: a string is parsed
      as it is, then with its code fence removed, and kept as the raw string
      when both fail; a value that is not a string is left alone. */
  function ParsedContent(rt: PyRuntime, content: Json): (c: Json)
    ensures !content.JString? ==> c == content
    ensures content.JString? && rt.loads(content.text).Some? ==> c == rt.loads(content.text).value
    ensures content.JString? && rt.loads(content.text).None? && rt.loads(CleanFenced(content.text)).Some? ==>
      c == rt.loads(CleanFenced(content.text)).value
    ensures content.JString? && rt.loads(content.text).None? && rt.loads(CleanFenced(content.text)).None? ==>
      c == content
  {
    match content
    case JString(s) =>
      (match rt.loads(s)
       case Some(v) => v
       case None =>
         (match rt.loads(CleanFenced(s))
          case Some(v) => v
          case None => content))
    case _ => content
  }

  /** The four fields read from the parsed content: from a dict, each field
      or its default ("-", "-", [], "-"); from any other value, defaults and
      `str(content)` as the final answer. */
  function FieldsOf(rt: PyRuntime, content: Json): (f: AnswerFields)
    ensures content.JObject? ==>
      && f.stepByStepAnalysis == Get(content.members, "step_by_step_analysis", Dash)
      && f.reasoningSummary == Get(content.members, "reasoning_summary", Dash)
      && f.relevantPages == Get(content.members, "relevant_pages", NoPages)
      && f.finalAnswer == Get(content.members, "final_answer", Dash)
    ensures !content.JObject? ==>
      f == AnswerFields(Dash, Dash, NoPages, JString(PyStr(rt, content)))
  {
    match content
    case JObject(d) =>
      AnswerFields(
        Get(d, "step_by_step_analysis", Dash),
        Get(d, "reasoning_summary", Dash),
        Get(d, "relevant_pages", NoPages),
        Get(d, "final_answer", Dash))
    case _ => AnswerFields(Dash, Dash, NoPages, JString(PyStr(rt, content)))
  }

  /** The whole extraction. `None` is the one way it fails: `answer_dict` is
      not a dict, so `answer_dict.get` raises. Otherwise "content" is read
      when present and the dict itself is used when it is not. */
  function ExtractAnswerFields(rt: PyRuntime, answer: Json): (r: Option<AnswerFields>)
    ensures r.Some? <==> AnswerDict(rt, answer).JObject?
    ensures r.Some? && "content" in AnswerDict(rt, answer).members ==>
      r.value == FieldsOf(rt, ParsedContent(rt, AnswerDict(rt, answer).members["content"]))
    ensures r.Some? && "content" !in AnswerDict(rt, answer).members ==>
      r.value == FieldsOf(rt, AnswerDict(rt, answer))
  {
    var d := AnswerDict(rt, answer);
    if !d.JObject? then None
    else
      var content := Get(d.members, "content", d);
      Some(FieldsOf(rt, ParsedContent(rt, content)))
  }

  /** A string answer that is not JSON becomes `{}`, so every field takes
      its default, the final answer included. */
  lemma NonJsonStringAnswerGivesDefaults(rt: PyRuntime, s: string)
    requires rt.loads(s).None?
    ensures ExtractAnswerFields(rt, JString(s)) == Some(AnswerFields(Dash, Dash, NoPages, Dash))
  {
  }

  // ---------------------------------------------------------------------
  // End to end: pipeline normalisation followed by the front end

  /** A dict answer comes through with its own four fields (or their
      defaults). */
  lemma DictAnswerEndToEnd(rt: PyRuntime, m: map<string, Json>)
    requires DumpsRoundTrips(rt)
    ensures ExtractAnswerFields(rt, Pipeline.NormalizeAnswer(rt, JObject(m))) == Some(FieldsOf(rt, JObject(m)))
  {
    Pipeline.NormalizedContentDecodes(rt, JObject(m));
  }

  /** A string answer whose cleaned text parses comes through as the fields
      of the parsed value. */
  lemma JsonTextAnswerEndToEnd(rt: PyRuntime, s: string)
    requires DumpsRoundTrips(rt)
    requires rt.loads(CleanFenced(s)).Some?
    ensures ExtractAnswerFields(rt, Pipeline.NormalizeAnswer(rt, JString(s))) ==
      Some(FieldsOf(rt, rt.loads(CleanFenced(s)).value))
  {
    var n := Pipeline.NormalizeAnswer(rt, JString(s));
    var v := rt.loads(CleanFenced(s)).value;
    assert ParsedContent(rt, n.members["content"]) == v by {
      Pipeline.NormalizedContentDecodes(rt, JString(s));
    }
    assert AnswerDict(rt, n) == n && "content" in n.members;
  }

  /** A string answer that is not JSON even after cleaning comes through as
      the final answer, with its original text, and defaults elsewhere. */
  lemma PlainTextAnswerEndToEnd(rt: PyRuntime, s: string)
    requires DumpsRoundTrips(rt)
    requires rt.loads(CleanFenced(s)).None?
    ensures ExtractAnswerFields(rt, Pipeline.NormalizeAnswer(rt, JString(s))) ==
      Some(AnswerFields(Dash, Dash, NoPages, JString(s)))
  {
    var n := Pipeline.NormalizeAnswer(rt, JString(s));
    var fallback := JObject(map["final_answer" := JString(s)]);
    assert ParsedContent(rt, n.members["content"]) == fallback by {
      Pipeline.NormalizedContentDecodes(rt, JString(s));
    }
    assert FieldsOf(rt, fallback) == AnswerFields(Dash, Dash, NoPages, JString(s)) by {
      var m := fallback.members;
      assert "step_by_step_analysis" !in m && "reasoning_summary" !in m && "relevant_pages" !in m;
      assert m["final_answer"] == JString(s);
    }
    assert AnswerDict(rt, n) == n && "content" in n.members;
  }

  /** The worked example: the plain completion "The answer is 42". */
  lemma TheAnswerIs42(rt: PyRuntime)
    requires DumpsRoundTrips(rt)
    requires rt.loads("The answer is 42").None?
    ensures ExtractAnswerFields(rt, Pipeline.NormalizeAnswer(rt, JString("The answer is 42"))) ==
      Some(AnswerFields(Dash, Dash, NoPages, JString("The answer is 42")))
  {
    var s := "The answer is 42";
    assert s[0] == 'T' && s[|s| - 1] == '2';
    assert s[..3] != Fence && s[|s| - 3..] != Fence;
    CleanFencedIdentity(s);
    PlainTextAnswerEndToEnd(rt, s);
  }

  /** Text without surrounding whitespace or fences is its own cleaned form. */
  lemma CleanFencedIdentity(s: string)
    requires s != [] && !IsSpace(s[0]) && !IsSpace(s[|s| - 1])
    requires !StartsWith(s, Fence) && !EndsWith(s, Fence)
    ensures CleanFenced(s) == s
  {
    assert LeadCount(s, IsSpace) == 0;
    assert s[0..] == s;
    assert TrailCount(s, IsSpace) == 0;
    assert Strip(s) == s;
    UnfencedUnchanged(s);
  }
}
