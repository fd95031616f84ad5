/** String helpers of src/utils.ts: `String.prototype.trim` and
    `extractProjectPath`. `readJsonFile` is the `content` field of the
    filesystem snapshot (module Types). */
module Utils {
  import opened Types

  /** The characters `trim` removes: ECMAScript WhiteSpace (tab, vertical
      tab, form feed, space, no-break space, zero-width no-break space and
      the Unicode space separators) and LineTerminator (LF, CR, LS, PS). */
  predicate IsJsWhitespace(c: char) {
    c == '\t' || c == '\U{0B}' || c == '\U{0C}' || c == ' ' || c == '\U{A0}' || c == '\U{FEFF}'
    || c == '\U{1680}' || ('\U{2000}' <= c <= '\U{200A}') || c == '\U{202F}' || c == '\U{205F}'
    || c == '\U{3000}' || c == '\n' || c == '\r' || c == '\U{2028}' || c == '\U{2029}'
  }

  predicate AllWhitespace(s: string) {
    forall i :: 0 <= i < |s| ==> IsJsWhitespace(s[i])
  }

  /** Drops leading whitespace: the result is a suffix of `s`, everything
      dropped is whitespace, and it does not start with whitespace. */
  function TrimStart(s: string): (r: string)
    ensures |r| <= |s| && r == s[|s| - |r|..]
    ensures forall i :: 0 <= i < |s| - |r| ==> IsJsWhitespace(s[i])
    ensures r != [] ==> !IsJsWhitespace(r[0])
    decreases |s|
  {
    if s != [] && IsJsWhitespace(s[0]) then
      var t := s[1..];
      var r := TrimStart(t);
      assert t[|t| - |r|..] == s[|s| - |r|..];
      forall i | 1 <= i < |s| - |r| ensures IsJsWhitespace(s[i]) {
        assert s[i] == t[i - 1];
      }
      r
    else
      s
  }

  /** Drops trailing whitespace: the result is a prefix of `s`, everything
      dropped is whitespace, and it does not end with whitespace. */
  function TrimEnd(s: string): (r: string)
    ensures |r| <= |s| && r == s[..|r|]
    ensures forall i :: |r| <= i < |s| ==> IsJsWhitespace(s[i])
    ensures r != [] ==> !IsJsWhitespace(r[|r| - 1])
    decreases |s|
  {
    if s != [] && IsJsWhitespace(s[|s| - 1]) then
      var t := s[..|s| - 1];
      var r := TrimEnd(t);
      assert t[..|r|] == s[..|r|];
      assert forall i :: |r| <= i < |t| ==> s[i] == t[i];
      r
    else
      s
  }

  /** Where `s.trim()` starts: the length of the leading whitespace. */
  function TrimOffset(s: string): (k: nat)
    ensures k <= |s|
  {
    |s| - |TrimStart(s)|
  }

  /** `s.trim()`: the infix of `s` after its leading whitespace that
      neither starts nor ends with whitespace, with only whitespace on
      either side of it. */
  function Trim(s: string): (r: string)
    ensures TrimOffset(s) + |r| <= |s|
    ensures r == s[TrimOffset(s)..TrimOffset(s) + |r|]
    ensures r != [] ==> !IsJsWhitespace(r[0]) && !IsJsWhitespace(r[|r| - 1])
    ensures forall i :: 0 <= i < TrimOffset(s) ==> IsJsWhitespace(s[i])
    ensures forall i :: TrimOffset(s) + |r| <= i < |s| ==> IsJsWhitespace(s[i])
  {
    var t := TrimStart(s);
    var r := TrimEnd(t);
    PrefixOfSuffix(s, t, r);
    TrimmedTail(s);
    r
  }

  /** A prefix of a suffix of `s` is an infix of `s`. */
  lemma PrefixOfSuffix(s: string, t: string, r: string)
    requires |t| <= |s| && t == s[|s| - |t|..]
    requires |r| <= |t| && r == t[..|r|]
    ensures r == s[|s| - |t|..|s| - |t| + |r|]
  {
    var k := |s| - |t|;
    forall j | 0 <= j < |r| ensures r[j] == s[k + j] {
      assert r[j] == t[j];
    }
  }

  /** What `TrimEnd` drops from `TrimStart(s)` is the whitespace at the end
      of `s`. */
  lemma TrimmedTail(s: string)
    ensures forall i :: |s| - |TrimStart(s)| + |TrimEnd(TrimStart(s))| <= i < |s| ==> IsJsWhitespace(s[i])
  {
    var t := TrimStart(s);
    var k := |s| - |t|;
    forall i | k + |TrimEnd(t)| <= i < |s| ensures IsJsWhitespace(s[i]) {
      assert s[i] == t[i - k];
    }
  }

  /** `s.trim()` is empty exactly when `s` is whitespace only. */
  lemma TrimEmptyIffWhitespace(s: string)
    ensures Trim(s) == [] <==> AllWhitespace(s)
  {
    var r := Trim(s);
    var k := TrimOffset(s);
    if r != [] {
      assert r[0] == s[k];
    }
  }

  /** src/utils.ts:12-16: the trimmed first entry of the directory list,
      when there is one and it is not whitespace only. Later entries are
      never looked at. */
  function ExtractProjectPath(directories: Option<seq<string>>): (r: Option<string>)
    ensures directories.None? || directories.value == [] ==> r.None?
    ensures directories.Some? && directories.value != [] ==>
      (r.Some? <==> !AllWhitespace(directories.value[0]))
    ensures r.Some? ==>
      directories.Some? && directories.value != []
      && r.value == Trim(directories.value[0]) && r.value != ""
  {
    if directories.None? || |directories.value| == 0 then None
    else
      var first := Trim(directories.value[0]);
      TrimEmptyIffWhitespace(directories.value[0]);
      if |first| > 0 then Some(first) else None
  }
}
