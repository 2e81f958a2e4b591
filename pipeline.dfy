/** Bookkeeping of the question-answering pipeline: the directory layout a
    run configuration derives, the collision-free naming of answer files,
    the normalisation of a raw model answer into `{"content": ...}`, and the
    company-name lookup in the report metadata rows. */
module Pipeline {
  import opened Results
  import opened PyText
  import opened AnswerFormat

  // ---------------------------------------------------------------------
  // Paths (pathlib.Path), as sequences of components

  datatype Path = Path(parts: seq<string>)

  /** `p / name` for a single component `name`. */
  function Join(p: Path, name: string): (q: Path)
    ensures Parent(q) == p && Name(q) == name
  {
    Path(p.parts + [name])
  }

  /** `p.name`: the last component, or "" for the empty path. */
  function Name(p: Path): string
  {
    if p.parts == [] then "" else p.parts[|p.parts| - 1]
  }

  /** `p.parent`: the path without its last component. */
  function Parent(p: Path): Path
  {
    if p.parts == [] then p else Path(p.parts[..|p.parts| - 1])
  }

  /** `s.rfind(c)`: the last index of `c` in `s`, or -1. */
  function RFind(s: string, c: char): (i: int)
    ensures -1 <= i < |s|
    ensures i >= 0 ==> s[i] == c && forall j :: i < j < |s| ==> s[j] != c
    ensures i == -1 ==> forall j :: 0 <= j < |s| ==> s[j] != c
  {
    if s == [] then -1
    else if s[|s| - 1] == c then |s| - 1
    else RFind(s[..|s| - 1], c)
  }

  /** `p.suffix`: from the last dot of the name, unless that dot is the
      first or the last character of the name. */
  function Suffix(p: Path): (s: string)
    ensures s != [] ==>
      && 2 <= |s| < |Name(p)| && s == Name(p)[|Name(p)| - |s|..]
      && s[0] == '.' && forall j :: 0 < j < |s| ==> s[j] != '.'
    ensures s == [] ==> forall i :: 0 < i < |Name(p)| - 1 && Name(p)[i] == '.' ==>
      exists j :: i < j < |Name(p)| && Name(p)[j] == '.'
  {
    var name := Name(p);
    var i := RFind(name, '.');
    if 0 < i < |name| - 1 then name[i..] else ""
  }

  /** `p.stem`: the name without its suffix. */
  function Stem(p: Path): (s: string)
    ensures |s| <= |Name(p)| && s == Name(p)[..|s|]
    ensures Suffix(p) == [] ==> s == Name(p)
    ensures s != [] || Name(p) == []
  {
    var name := Name(p);
    var i := RFind(name, '.');
    if 0 < i < |name| - 1 then name[..i] else name
  }

  lemma StemSuffixSplitName(p: Path)
    ensures Stem(p) + Suffix(p) == Name(p)
  {
    var name := Name(p);
    var i := RFind(name, '.');
    if 0 < i < |name| - 1 {
      assert name[..i] + name[i..] == name;
    }
  }

  // ---------------------------------------------------------------------
  // PipelineConfig

  /** The paths and directory names a run works with. */
  datatype PipelineConfig = PipelineConfig(
    rootPath: Path,
    subsetPath: Path,
    questionsFilePath: Path,
    pdfReportsDir: Path,
    answersFilePath: Path,
    debugDataPath: Path,
    databasesPath: Path,
    vectorDbDir: Path,
    documentsDir: Path,
    bm25DbPath: Path,
    parsedReportsDirname: string,
    parsedReportsDebugDirname: string,
    mergedReportsDirname: string,
    reportsMarkdownDirname: string,
    parsedReportsPath: Path,
    parsedReportsDebugPath: Path,
    mergedReportsPath: Path,
    reportsMarkdownPath: Path)

  const SerializedSuffix := "_ser_tab"

  /** `PipelineConfig.__init__`. */
  function NewPipelineConfig(root: Path, subsetName: string, questionsFileName: string,
                             pdfReportsDirName: string, serialized: bool, configSuffix: string)
    : (c: PipelineConfig)
    ensures c.rootPath == root
    ensures Parent(c.subsetPath) == root && Name(c.subsetPath) == subsetName
    ensures Parent(c.questionsFilePath) == root && Name(c.questionsFilePath) == questionsFileName
    ensures Parent(c.pdfReportsDir) == root && Name(c.pdfReportsDir) == pdfReportsDirName
    ensures Parent(c.databasesPath) == root && Parent(c.debugDataPath) == root
    ensures Name(c.databasesPath) == "databases" + (if serialized then SerializedSuffix else "")
    ensures Name(c.debugDataPath) == "debug_data"
    ensures c.parsedReportsDirname == "01_parsed_reports"
    ensures c.parsedReportsDebugDirname == "01_parsed_reports_debug"
    ensures c.mergedReportsDirname == "02_merged_reports" + (if serialized then SerializedSuffix else "")
    ensures c.reportsMarkdownDirname == "03_reports_markdown" + (if serialized then SerializedSuffix else "")
    ensures Parent(c.vectorDbDir) == c.databasesPath && Name(c.vectorDbDir) == "vector_dbs"
    ensures Parent(c.documentsDir) == c.databasesPath && Name(c.documentsDir) == "chunked_reports"
    ensures Parent(c.bm25DbPath) == c.databasesPath && Name(c.bm25DbPath) == "bm25_dbs"
    ensures c.answersFilePath == Join(root, "answers" + configSuffix + ".json")
    ensures Parent(c.parsedReportsPath) == c.debugDataPath && Name(c.parsedReportsPath) == c.parsedReportsDirname
    ensures Parent(c.parsedReportsDebugPath) == c.debugDataPath && Name(c.parsedReportsDebugPath) == c.parsedReportsDebugDirname
    ensures Parent(c.mergedReportsPath) == c.debugDataPath && Name(c.mergedReportsPath) == c.mergedReportsDirname
    ensures Parent(c.reportsMarkdownPath) == c.debugDataPath && Name(c.reportsMarkdownPath) == c.reportsMarkdownDirname
  {
    var suffix := if serialized then SerializedSuffix else "";
    var databases := Join(root, "databases" + suffix);
    var debug := Join(root, "debug_data");
    var parsedName := "01_parsed_reports";
    var parsedDebugName := "01_parsed_reports_debug";
    var mergedName := "02_merged_reports" + suffix;
    var markdownName := "03_reports_markdown" + suffix;
    PipelineConfig(
      root,
      Join(root, subsetName),
      Join(root, questionsFileName),
      Join(root, pdfReportsDirName),
      Join(root, "answers" + configSuffix + ".json"),
      debug,
      databases,
      Join(databases, "vector_dbs"),
      Join(databases, "chunked_reports"),
      Join(databases, "bm25_dbs"),
      parsedName,
      parsedDebugName,
      mergedName,
      markdownName,
      Join(debug, parsedName),
      Join(debug, parsedDebugName),
      Join(debug, mergedName),
      Join(debug, markdownName))
  }

  /** Serialised tables add "_ser_tab" to the databases directory and to the
      merged and markdown directory names, and change nothing else: every
      other field is the same, and the paths under the databases and debug
      directories keep their own names. */
  lemma SerializedSuffixOnly(root: Path, subsetName: string, questionsFileName: string,
                             pdfReportsDirName: string, configSuffix: string)
    ensures var plain := NewPipelineConfig(root, subsetName, questionsFileName, pdfReportsDirName, false, configSuffix);
            var ser := NewPipelineConfig(root, subsetName, questionsFileName, pdfReportsDirName, true, configSuffix);
            && Name(ser.databasesPath) == Name(plain.databasesPath) + SerializedSuffix
            && ser.mergedReportsDirname == plain.mergedReportsDirname + SerializedSuffix
            && ser.reportsMarkdownDirname == plain.reportsMarkdownDirname + SerializedSuffix
            && ser == plain.(databasesPath := ser.databasesPath,
                             vectorDbDir := ser.vectorDbDir,
                             documentsDir := ser.documentsDir,
                             bm25DbPath := ser.bm25DbPath,
                             mergedReportsDirname := ser.mergedReportsDirname,
                             reportsMarkdownDirname := ser.reportsMarkdownDirname,
                             mergedReportsPath := ser.mergedReportsPath,
                             reportsMarkdownPath := ser.reportsMarkdownPath)
            && Name(ser.vectorDbDir) == Name(plain.vectorDbDir)
            && Name(ser.documentsDir) == Name(plain.documentsDir)
            && Name(ser.bm25DbPath) == Name(plain.bm25DbPath)
  {
  }

  // ---------------------------------------------------------------------
  // _get_next_available_filename

  /** `parent / f"{stem}_{counter:02d}{suffix}"`. */
  function Numbered(base: Path, counter: nat): (n: Path)
    ensures Parent(n) == Parent(base)
  {
    Join(Parent(base), Stem(base) + "_" + Pad2(counter) + Suffix(base))
  }

  /** A numbered name sits beside the base path and is longer than its
      name by the separator and the counter, so it is never the base name. */
  lemma NumberedShape(base: Path, counter: nat)
    ensures Parent(Numbered(base, counter)) == Parent(base)
    ensures |Name(Numbered(base, counter))| == |Name(base)| + 1 + |Pad2(counter)|
    ensures Name(Numbered(base, counter)) != Name(base)
  {
    StemSuffixSplitName(base);
  }

  /** Different counters never give the same file name. */
  lemma NumberedInjective(base: Path, a: nat, b: nat)
    requires Numbered(base, a) == Numbered(base, b)
    ensures a == b
  {
    var na := Stem(base) + "_" + Pad2(a) + Suffix(base);
    var nb := Stem(base) + "_" + Pad2(b) + Suffix(base);
    assert na == Name(Numbered(base, a)) && nb == Name(Numbered(base, b));
    var lo := |Stem(base)| + 1;
    assert |Pad2(a)| == |Pad2(b)|;
    assert na[lo..lo + |Pad2(a)|] == Pad2(a);
    assert nb[lo..lo + |Pad2(b)|] == Pad2(b);
    Pad2Injective(a, b);
  }

  /** `k` is the smallest counter from 1 on whose numbered name is free. */
  ghost predicate SmallestFreeCounter(existing: set<Path>, base: Path, k: nat)
  {
    k >= 1 && Numbered(base, k) !in existing &&
    forall j :: 1 <= j < k ==> Numbered(base, j) in existing
  }

  /** Every path in `tried` is the numbered name of a counter below `counter`. */
  ghost predicate TriedBelow(base: Path, counter: nat, tried: set<Path>)
  {
    forall q :: q in tried ==> exists j :: 1 <= j < counter && q == Numbered(base, j)
  }

  lemma TriedStep(base: Path, counter: nat, tried: set<Path>)
    requires counter >= 1 && TriedBelow(base, counter, tried)
    ensures Numbered(base, counter) !in tried
    ensures TriedBelow(base, counter + 1, tried + {Numbered(base, counter)})
  {
    var candidate := Numbered(base, counter);
    if candidate in tried {
      var j :| 1 <= j < counter && candidate == Numbered(base, j);
      NumberedInjective(base, j, counter);
    }
  }

  /** The state of the search loop: every counter below `counter` is taken,
      and `tried` holds their names, all of them existing paths. */
  ghost predicate SearchInvariant(existing: set<Path>, base: Path, counter: nat, tried: set<Path>)
  {
    && counter >= 1
    && (forall j :: 1 <= j < counter ==> Numbered(base, j) in existing)
    && tried <= existing && |tried| == counter - 1
    && TriedBelow(base, counter, tried)
  }

  /** A free name found by the loop is the smallest free one, and the loop
      cannot have passed more counters than there are existing paths. */
  lemma SearchFound(existing: set<Path>, base: Path, counter: nat, tried: set<Path>)
    requires SearchInvariant(existing, base, counter, tried)
    requires Numbered(base, counter) !in existing
    ensures SmallestFreeCounter(existing, base, counter) && counter <= |existing| + 1
  {
    SubsetCard(tried, existing);
  }

  /** A taken name moves the loop to the next counter, with one more path
      tried. */
  lemma SearchStep(existing: set<Path>, base: Path, counter: nat, tried: set<Path>)
    requires SearchInvariant(existing, base, counter, tried)
    requires Numbered(base, counter) in existing
    ensures SearchInvariant(existing, base, counter + 1, tried + {Numbered(base, counter)})
    ensures |tried| < |tried + {Numbered(base, counter)}| <= |existing|
  {
    var candidate := Numbered(base, counter);
    TriedStep(base, counter, tried);
    SubsetCard(tried + {candidate}, existing);
    forall j | 1 <= j < counter + 1 ensures Numbered(base, j) in existing {
      if j == counter { assert Numbered(base, j) == candidate; }
    }
  }

  /** `Pipeline._get_next_available_filename`, with the file system given as
      the finite set of paths that exist. */
  method NextAvailableFilename(existing: set<Path>, base: Path) returns (p: Path)
    ensures p !in existing
    ensures base !in existing ==> p == base
    ensures base in existing ==>
      exists k: nat :: SmallestFreeCounter(existing, base, k) && k <= |existing| + 1 && p == Numbered(base, k)
  {
    if base !in existing {
      return base;
    }
    var counter: nat := 1;
    ghost var tried: set<Path> := {};
    while true
      invariant SearchInvariant(existing, base, counter, tried)
      decreases |existing| - |tried|
    {
      var candidate := Numbered(base, counter);
      if candidate !in existing {
        SearchFound(existing, base, counter, tried);
        return candidate;
      }
      SearchStep(existing, base, counter, tried);
      tried := tried + {candidate};
      counter := counter + 1;
    }
  }

  lemma SubsetCard<T>(a: set<T>, b: set<T>)
    requires a <= b
    ensures |a| <= |b|
  {
    assert b == a + (b - a);
  }

  // ---------------------------------------------------------------------
  // answer_single_question: normalising the model answer

  /** The answer record handed to callers: `{"content": text}`. */
  function ContentRecord(text: string): Json
  {
    JObject(map["content" := JString(text)])
  }

  /** The normalisation at the end of `answer_single_question`. A dict is
      serialised whatever keys it has (the two dict branches of the source
      do the same thing). A string is stripped of a code fence and parsed;
      if that fails, the original text becomes `final_answer`. Anything else
      is returned as it came. */
  function NormalizeAnswer(rt: PyRuntime, answer: Json): (r: Json)
    ensures answer.JObject? || answer.JString? ==>
      r.JObject? && r.members.Keys == {"content"} && r.members["content"].JString?
    ensures !(answer.JObject? || answer.JString?) ==> r == answer
  {
    match answer
    case JObject(_) => ContentRecord(rt.dumps(answer))
    case JString(s) =>
      (match rt.loads(CleanFenced(s))
       case Some(parsed) => ContentRecord(rt.dumps(parsed))
       case None => ContentRecord(rt.dumps(JObject(map["final_answer" := JString(s)]))))
    case _ => answer
  }

  /** What the content decodes to, when `json` round-trips: the dict itself;
      the parsed cleaned string; or, for text that is not JSON, an object
      whose only key `final_answer` holds the original, unstripped text. */
  lemma NormalizedContentDecodes(rt: PyRuntime, answer: Json)
    requires DumpsRoundTrips(rt)
    requires answer.JObject? || answer.JString?
    ensures var content := NormalizeAnswer(rt, answer).members["content"].text;
      && (answer.JObject? ==> rt.loads(content) == Some(answer))
      && (answer.JString? && rt.loads(CleanFenced(answer.text)).Some? ==>
            rt.loads(content) == rt.loads(CleanFenced(answer.text)))
      && (answer.JString? && rt.loads(CleanFenced(answer.text)).None? ==>
            rt.loads(content) == Some(JObject(map["final_answer" := answer])))
  {
    match answer
    case JObject(_) =>
      LoadsDumps(rt, answer);
    case JString(s) =>
      match rt.loads(CleanFenced(s))
      case Some(parsed) =>
        LoadsDumps(rt, parsed);
      case None =>
        var fallback := JObject(map["final_answer" := JString(s)]);
        assert NormalizeAnswer(rt, answer) == ContentRecord(rt.dumps(fallback));
        LoadsDumps(rt, fallback);
  }

  // ---------------------------------------------------------------------
  // _create_basic_structure: company name from the metadata rows

  /** A metadata row, its cells already read as text. */
  datatype MetaRow = MetaRow(fileName: string, sha1: string, companyName: string)

  /** `stem in str(row['file_name']) or stem == str(row['sha1'])`. */
  predicate RowMatches(stem: string, row: MetaRow)
  {
    Contains(row.fileName, stem) || stem == row.sha1
  }

  /** Row `i` is the first row that matches `stem`. */
  ghost predicate FirstMatchAt(stem: string, rows: seq<MetaRow>, i: int)
  {
    0 <= i < |rows| && RowMatches(stem, rows[i]) &&
    forall j :: 0 <= j < i ==> !RowMatches(stem, rows[j])
  }

  /** The company name `_create_basic_structure` writes into "metainfo":
      that of the first matching row, or "" when no row matches or there is
      no readable metadata file (`None`). */
  method LookupCompanyName(stem: string, metadata: Option<seq<MetaRow>>) returns (company: string)
    ensures metadata.None? ==> company == ""
    ensures metadata.Some? ==>
      || (exists i :: FirstMatchAt(stem, metadata.value, i) && company == metadata.value[i].companyName)
      || ((forall i :: 0 <= i < |metadata.value| ==> !RowMatches(stem, metadata.value[i])) && company == "")
  {
    company := "";
    if metadata.None? {
      return;
    }
    var rows := metadata.value;
    var i := 0;
    while i < |rows|
      invariant 0 <= i <= |rows|
      invariant forall j :: 0 <= j < i ==> !RowMatches(stem, rows[j])
      invariant company == ""
    {
      if RowMatches(stem, rows[i]) {
        company := rows[i].companyName;
        assert FirstMatchAt(stem, rows, i);
        break;
      }
      i := i + 1;
    }
  }
}
