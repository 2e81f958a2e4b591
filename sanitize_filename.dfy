/** `VectorDBIngestor._sanitize_filename`: the report's hash as a file token
    of at most thirty ASCII characters. */
module SanitizeFilename {
  import opened PyText

  const MaxFilenameLength := 30
  const DefaultFilename := "default_filename"

  /** Unicode NFKC normalisation and Unicode `\w`, which depend on the
      Unicode tables. */
  datatype UnicodeTables = UnicodeTables(nfkc: string -> string, isWord: char -> bool)

  predicate IsAscii(c: char)
  {
    c <= '\U{7F}'
  }

  /** ASCII `\w`: a letter, a digit or '_'. */
  predicate IsAsciiWord(c: char)
  {
    ('a' <= c <= 'z') || ('A' <= c <= 'Z') || ('0' <= c <= '9') || c == '_'
  }

  /** What the file token may contain. */
  predicate IsSafe(c: char)
  {
    IsAsciiWord(c) || c == '-' || c == '.'
  }

  predicate IsCjk(c: char)
  {
    '\U{4E00}' <= c <= '\U{9FFF}'
  }

  /** The character class `[\w\-_.一-鿿]`. */
  predicate Kept(t: UnicodeTables, c: char)
  {
    if IsAscii(c) then IsSafe(c) else t.isWord(c) || IsCjk(c)
  }

  /** `re.sub(r'[^\w\-_.一-鿿]', '_', s)`. */
  function ReplaceUnkept(t: UnicodeTables, s: string): (r: string)
    ensures |r| == |s|
    ensures forall i :: 0 <= i < |s| ==> r[i] == (if Kept(t, s[i]) then s[i] else '_')
  {
    seq(|s|, i requires 0 <= i < |s| => if Kept(t, s[i]) then s[i] else '_')
  }

  /** `re.sub(r'[^\x00-\x7F]', '_', s)`. */
  function ReplaceNonAscii(s: string): (r: string)
    ensures |r| == |s|
    ensures forall i :: 0 <= i < |s| ==> r[i] == (if IsAscii(s[i]) then s[i] else '_')
  {
    seq(|s|, i requires 0 <= i < |s| => if IsAscii(s[i]) then s[i] else '_')
  }

  /** `filename[:30]` where Python cuts it. */
  function Cut(s: string): (r: string)
    ensures |r| <= MaxFilenameLength && |r| <= |s| && r == s[..|r|]
    ensures |s| <= MaxFilenameLength ==> r == s
  {
    if |s| > MaxFilenameLength then s[..MaxFilenameLength] else s
  }

  predicate IsUnderscore(c: char)
  {
    c == '_'
  }

  /** The four steps: normalise, replace refused characters, cut, strip
      underscores, replace non-ASCII characters. */
  function Steps(t: UnicodeTables, filename: string): string
  {
    ReplaceNonAscii(StripWhere(Cut(ReplaceUnkept(t, t.nfkc(filename))), IsUnderscore))
  }

  /** The steps, and the fallback when nothing is left. */
  function Sanitize(t: UnicodeTables, filename: string): (r: string)
    ensures 1 <= |r| <= MaxFilenameLength
    ensures forall i :: 0 <= i < |r| ==> IsSafe(r[i])
  {
    var cut := Cut(ReplaceUnkept(t, t.nfkc(filename)));
    CharsAfterSteps(t, cut, StripWhere(cut, IsUnderscore), Steps(t, filename));
    if Steps(t, filename) == [] then DefaultFilename else Steps(t, filename)
  }

  /** A character that survives the class replacement is '_' or, when it
      is ASCII, a safe one; the strip keeps that and the ASCII replacement
      makes every character safe. */
  lemma CharsAfterSteps(t: UnicodeTables, cut: string, stripped: string, ascii: string)
    requires forall i :: 0 <= i < |cut| ==> IsAscii(cut[i]) ==> IsSafe(cut[i])
    requires stripped == StripWhere(cut, IsUnderscore)
    requires ascii == ReplaceNonAscii(stripped)
    ensures forall i :: 0 <= i < |ascii| ==> IsSafe(ascii[i])
  {
    StripWhereDecomposes(cut, IsUnderscore);
    var pre, post :| cut == pre + stripped + post && All(pre, IsUnderscore) && All(post, IsUnderscore);
    forall i | 0 <= i < |stripped| ensures IsAscii(stripped[i]) ==> IsSafe(stripped[i]) {
      assert stripped[i] == cut[|pre| + i];
    }
  }

  /** CJK characters are kept by the class but then become '_' after the
      strip: "中abc" becomes "_abc", with a leading underscore. */
  lemma CjkBecomesUnderscore(t: UnicodeTables)
    requires t.nfkc("中abc") == "中abc"
    ensures Sanitize(t, "中abc") == "_abc"
  {
    var s := "中abc";
    CjkKept(t);
    assert Cut(s) == s;
    StripWhereNoop(s, IsUnderscore);
    CjkReplaced();
    assert Steps(t, s) == "_abc";
  }

  lemma CjkKept(t: UnicodeTables)
    ensures ReplaceUnkept(t, "中abc") == "中abc"
  {
    var s := "中abc";
    assert IsCjk(s[0]);
    var r := ReplaceUnkept(t, s);
    assert r[0] == s[0] && r[1] == s[1] && r[2] == s[2] && r[3] == s[3];
  }

  lemma CjkReplaced()
    ensures ReplaceNonAscii("中abc") == "_abc"
  {
    var r := ReplaceNonAscii("中abc");
    assert r[0] == '_' && r[1] == 'a' && r[2] == 'b' && r[3] == 'c';
  }

  predicate IsHexDigit(c: char)
  {
    ('0' <= c <= '9') || ('a' <= c <= 'f')
  }

  /** A hexadecimal SHA-1 digest loses everything after its 30th digit and
      nothing else. */
  lemma HexDigestIsCut(t: UnicodeTables, sha1: string)
    requires |sha1| == 40 && forall i :: 0 <= i < |sha1| ==> IsHexDigit(sha1[i])
    requires t.nfkc(sha1) == sha1
    ensures Sanitize(t, sha1) == sha1[..MaxFilenameLength]
  {
    KeptUnchanged(t, sha1);
    var cut := sha1[..MaxFilenameLength];
    HexCutSteps(cut);
    assert Steps(t, sha1) == ReplaceNonAscii(StripWhere(Cut(sha1), IsUnderscore));
  }

  /** The last three steps leave a cut hexadecimal digest as it is. */
  lemma HexCutSteps(cut: string)
    requires |cut| == MaxFilenameLength && forall i :: 0 <= i < |cut| ==> IsHexDigit(cut[i])
    ensures ReplaceNonAscii(StripWhere(cut, IsUnderscore)) == cut
  {
    assert IsHexDigit(cut[0]) && IsHexDigit(cut[|cut| - 1]);
    StripWhereNoop(cut, IsUnderscore);
    AsciiUnchanged(cut);
  }

  lemma KeptUnchanged(t: UnicodeTables, s: string)
    requires forall i :: 0 <= i < |s| ==> IsHexDigit(s[i])
    ensures ReplaceUnkept(t, s) == s
  {
    assert forall i :: 0 <= i < |s| ==> Kept(t, s[i]);
  }

  lemma AsciiUnchanged(s: string)
    requires forall i :: 0 <= i < |s| ==> IsHexDigit(s[i])
    ensures ReplaceNonAscii(s) == s
  {
    assert forall i :: 0 <= i < |s| ==> IsAscii(s[i]);
  }

  /** Nothing but underscores and other replaced characters: the fallback. */
  lemma NothingLeftGivesDefault(t: UnicodeTables, filename: string)
    requires forall i :: 0 <= i < |t.nfkc(filename)| ==>
      t.nfkc(filename)[i] == '_' || !Kept(t, t.nfkc(filename)[i])
    ensures Sanitize(t, filename) == DefaultFilename
  {
    var classed := ReplaceUnkept(t, t.nfkc(filename));
    var cut := Cut(classed);
    assert All(cut, IsUnderscore);
    assert Steps(t, filename) == [];
  }
}
