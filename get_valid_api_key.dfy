/** `update_api_key_in_env`: show the current key masked, ask for a new
    one, and write it into the `.env` lines, replacing the first key line or
    appending one. The answers typed at the two prompts are parameters. */
module GetValidApiKey {
  import opened Results
  import opened PyText
  import opened DotEnv

  const ShownPrefixLength := 10

  /** `key[:10] + '*' * (len(key) - 10)`: as long as the key, its first ten
      characters shown and the rest hidden. */
  function MaskKey(key: string): (m: string)
    ensures |m| == |key|
    ensures m[..Min(ShownPrefixLength, |key|)] == key[..Min(ShownPrefixLength, |key|)]
    ensures forall i :: ShownPrefixLength <= i < |m| ==> m[i] == '*'
  {
    var shown := key[..Min(ShownPrefixLength, |key|)];
    var hidden := if |key| > ShownPrefixLength then seq(|key| - ShownPrefixLength, _ => '*') else "";
    shown + hidden
  }

  /** `input(...).strip().lower() == 'y'`. */
  predicate ConfirmsYes(answer: string)
  {
    Strip(answer) == "y" || Strip(answer) == "Y"
  }

  /** Whether the script goes on to write: a non-empty key that starts with
      "sk-", or any other non-empty key once confirmed. */
  predicate AcceptsKey(key: string, confirmation: string)
  {
    key != [] && (StartsWith(key, "sk-") || ConfirmsYes(confirmation))
  }

  /** The confirmation is a single `y`, in either case, with nothing but
      whitespace around it. */
  lemma ConfirmsYesMeans(answer: string)
    ensures ConfirmsYes(answer) <==>
      exists pre, c, post :: IsBlank(pre) && IsBlank(post) && (c == 'y' || c == 'Y') && answer == pre + [c] + post
  {
    if ConfirmsYes(answer) {
      var r := Strip(answer);
      assert r == [r[0]] && (r[0] == 'y' || r[0] == 'Y');
      var pre, post := YesSurroundings(answer);
      assert answer == pre + [r[0]] + post;
    }
    if exists pre, c, post :: IsBlank(pre) && IsBlank(post) && (c == 'y' || c == 'Y') && answer == pre + [c] + post {
      var pre, c, post :| IsBlank(pre) && IsBlank(post) && (c == 'y' || c == 'Y') && answer == pre + [c] + post;
      StripAround(pre, [c], post);
    }
  }

  /** What `strip` cut off either side of the stripped answer. */
  lemma YesSurroundings(answer: string) returns (pre: string, post: string)
    ensures answer == pre + Strip(answer) + post && IsBlank(pre) && IsBlank(post)
  {
    StripWhereDecomposes(answer, IsSpace);
    pre, post :| answer == pre + StripWhere(answer, IsSpace) + post && All(pre, IsSpace) && All(post, IsSpace);
  }

  /** A key starting with "sk-" is taken without asking; any other key only
      when it is non-empty and the answer is a lone `y` or `Y`. */
  lemma AcceptsKeyMeans(key: string, confirmation: string)
    ensures StartsWith(key, "sk-") ==> AcceptsKey(key, confirmation)
    ensures !StartsWith(key, "sk-") ==> (AcceptsKey(key, confirmation) <==>
      && key != []
      && exists pre, c, post :: IsBlank(pre) && IsBlank(post) && (c == 'y' || c == 'Y') && confirmation == pre + [c] + post)
  {
    ConfirmsYesMeans(confirmation);
  }

  /** The update itself. `written` says whether the file is rewritten and
      `envLines` is the list the script ends with. */
  method UpdateApiKeyInEnv(envFile: Option<seq<string>>, keyInput: string, confirmInput: string)
    returns (written: bool, envLines: seq<string>)
    ensures var lines := LinesOf(envFile); var key := Strip(keyInput);
      && (written <==> AcceptsKey(key, confirmInput))
      && (!written ==> envLines == lines)
      && (written && FirstApiKeyLine(lines).Some? ==>
            envLines == lines[FirstApiKeyLine(lines).value := ApiKeyLine(key)])
      && (written && FirstApiKeyLine(lines).None? ==> envLines == lines + [ApiKeyLine(key)])
  {
    envLines := LinesOf(envFile);
    ghost var lines := envLines;
    written := false;
    var newKey := Strip(keyInput);
    if newKey == [] {
      return;
    }
    if !StartsWith(newKey, "sk-") {
      if !ConfirmsYes(confirmInput) {
        return;
      }
    }
    var found := false;
    var i := 0;
    while i < |envLines|
      invariant 0 <= i <= |envLines| == |lines|
      invariant envLines == lines && !found
      invariant forall j :: 0 <= j < i ==> !IsApiKeyLine(lines[j])
    {
      if IsApiKeyLine(envLines[i]) {
        envLines := envLines[i := ApiKeyLine(newKey)];
        found := true;
        assert FirstApiKeyLine(lines) == Some(i);
        break;
      }
      i := i + 1;
    }
    if !found {
      envLines := envLines + [ApiKeyLine(newKey)];
    }
    written := true;
  }

  /** Only the first key line changes; every other line stays as it was. */
  lemma OnlyFirstKeyLineReplaced(lines: seq<string>, key: string, i: int)
    requires FirstApiKeyLine(lines).Some?
    requires 0 <= i < |lines| && i != FirstApiKeyLine(lines).value
    ensures lines[FirstApiKeyLine(lines).value := ApiKeyLine(key)][i] == lines[i]
    ensures IsApiKeyLine(lines[FirstApiKeyLine(lines).value := ApiKeyLine(key)][FirstApiKeyLine(lines).value])
  {
    assert ApiKeyLine(key)[..|ApiKeyPrefix|] == ApiKeyPrefix;
  }
}
