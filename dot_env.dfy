/** The `.env` file as the two key scripts see it: a list of lines, one of
    which may hold `DASHSCOPE_API_KEY=<key>`. */
module DotEnv {
  import opened Results
  import opened PyText

  const ApiKeyPrefix := "DASHSCOPE_API_KEY="

  /** `line.startswith("DASHSCOPE_API_KEY=")`. */
  predicate IsApiKeyLine(line: string)
  {
    StartsWith(line, ApiKeyPrefix)
  }

  /** The line both scripts write for a key. */
  function ApiKeyLine(key: string): string
  {
    ApiKeyPrefix + key + "\n"
  }

  /** Index of the first key line at or after `from`. */
  function FirstApiKeyLineFrom(lines: seq<string>, from: nat): (r: Option<nat>)
    requires from <= |lines|
    ensures r.Some? ==>
      && from <= r.value < |lines| && IsApiKeyLine(lines[r.value])
      && forall j :: from <= j < r.value ==> !IsApiKeyLine(lines[j])
    ensures r.None? ==> forall j :: from <= j < |lines| ==> !IsApiKeyLine(lines[j])
    decreases |lines| - from
  {
    if from == |lines| then None
    else if IsApiKeyLine(lines[from]) then Some(from)
    else FirstApiKeyLineFrom(lines, from + 1)
  }

  /** Index of the first line of the file that starts with the key prefix. */
  function FirstApiKeyLine(lines: seq<string>): (r: Option<nat>)
    ensures r.Some? ==>
      && r.value < |lines| && IsApiKeyLine(lines[r.value])
      && forall j :: 0 <= j < r.value ==> !IsApiKeyLine(lines[j])
    ensures r.None? ==> forall j :: 0 <= j < |lines| ==> !IsApiKeyLine(lines[j])
  {
    FirstApiKeyLineFrom(lines, 0)
  }

  /** The lines a script starts from: those of the file, or none when the
      file does not exist (`None`). */
  function LinesOf(envFile: Option<seq<string>>): seq<string>
  {
    if envFile.Some? then envFile.value else []
  }
}
