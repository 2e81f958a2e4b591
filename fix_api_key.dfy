/** `check_and_fix_api_key`: find the key line of the `.env` file, read its
    value, accept a key of at least twenty characters, and otherwise put the
    replacement typed at the prompt (a parameter) into that same line. */
module FixApiKey {
  import opened Results
  import opened PyText
  import opened DotEnv

  const MinKeyLength := 20

  /** Index of the first `c` in `s`, if any. */
  function IndexOf(s: string, c: char): (r: Option<nat>)
    ensures r.Some? ==> r.value < |s| && s[r.value] == c && forall j :: 0 <= j < r.value ==> s[j] != c
    ensures r.None? ==> forall j :: 0 <= j < |s| ==> s[j] != c
  {
    if s == [] then None
    else if s[0] == c then Some(0)
    else match IndexOf(s[1..], c)
      case Some(i) => Some(i + 1)
      case None => None
  }

  /** `s.split(c, 1)[1]`: the text after the first `c`, or `None` where
      Python would raise `IndexError` because there is no `c`. */
  function AfterFirst(s: string, c: char): Option<string>
  {
    match IndexOf(s, c)
    case Some(i) => Some(s[i + 1..])
    case None => None
  }

  /** `line.strip().split("=", 1)[1]` for a key line: everything the
      stripped line holds after the prefix, later '=' signs included. */
  function ApiKeyValue(line: string): (v: string)
    requires IsApiKeyLine(line)
    ensures StartsWith(Strip(line), ApiKeyPrefix) && v == Strip(line)[|ApiKeyPrefix|..]
  {
    KeyLineHasEquals(line);
    AfterFirst(Strip(line), '=').value
  }

  /** A key line, once stripped, still starts with the prefix, whose last
      character is its first '='. */
  lemma KeyLineHasEquals(line: string)
    requires IsApiKeyLine(line)
    ensures StartsWith(Strip(line), ApiKeyPrefix)
    ensures AfterFirst(Strip(line), '=') == Some(Strip(line)[|ApiKeyPrefix|..])
  {
    StripKeepsPrefix(line, ApiKeyPrefix);
    var r := Strip(line);
    var p := ApiKeyPrefix;
    assert forall j :: 0 <= j < 17 ==> r[j] == p[j] && p[j] != '=';
    assert r[17] == '=';
    var i := IndexOf(r, '=');
    assert i == Some(17);
  }

  /** The value has no trailing newline or other trailing whitespace. */
  lemma ApiKeyValueShape(line: string)
    requires IsApiKeyLine(line)
    ensures ApiKeyValue(line) != [] ==> !IsSpace(ApiKeyValue(line)[|ApiKeyValue(line)| - 1])
  {
    KeyLineHasEquals(line);
    var r := Strip(line);
    var v := r[|ApiKeyPrefix|..];
    assert ApiKeyValue(line) == v;
    if v != [] {
      assert v[|v| - 1] == r[|r| - 1];
    }
  }

  /** The check. `ok` is what the Python function returns, `written` whether
      it rewrites the file and `lines` the list it ends with; a missing file
      is `None`. */
  method CheckAndFixApiKey(envFile: Option<seq<string>>, replacementInput: string)
    returns (ok: bool, written: bool, lines: seq<string>)
    ensures envFile.None? ==> !ok && !written && lines == []
    ensures envFile.Some? && FirstApiKeyLine(envFile.value).None? ==>
      !ok && !written && lines == envFile.value
    ensures envFile.Some? && FirstApiKeyLine(envFile.value).Some? ==>
      var k := FirstApiKeyLine(envFile.value).value;
      var newKey := Strip(replacementInput);
      && (|ApiKeyValue(envFile.value[k])| >= MinKeyLength ==> ok && !written && lines == envFile.value)
      && (|ApiKeyValue(envFile.value[k])| < MinKeyLength && newKey != [] ==>
            ok && written && lines == envFile.value[k := ApiKeyLine(newKey)])
      && (|ApiKeyValue(envFile.value[k])| < MinKeyLength && newKey == [] ==>
            !ok && !written && lines == envFile.value)
  {
    ok, written, lines := false, false, [];
    if envFile.None? {
      return;
    }
    lines := envFile.value;
    var keyLineIndex: Option<nat> := None;
    var keyValue := "";
    var i := 0;
    while i < |lines|
      invariant 0 <= i <= |lines| && lines == envFile.value
      invariant keyLineIndex.None?
      invariant forall j :: 0 <= j < i ==> !IsApiKeyLine(lines[j])
    {
      if IsApiKeyLine(lines[i]) {
        keyLineIndex := Some(i);
        keyValue := ApiKeyValue(lines[i]);
        assert FirstApiKeyLine(lines) == Some(i);
        break;
      }
      i := i + 1;
    }
    if keyLineIndex.None? {
      return;
    }
    if |keyValue| < MinKeyLength {
      var newKey := Strip(replacementInput);
      if newKey != [] {
        lines := lines[keyLineIndex.value := ApiKeyLine(newKey)];
        ok, written := true, true;
      } else {
        ok := false;
      }
    } else {
      ok := true;
    }
  }
}
