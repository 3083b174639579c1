/** The .NET string operations the core relies on: String.IsNullOrWhiteSpace,
    String.Contains, String.ToLowerInvariant and Path.GetExtension. */
module Text {
  import opened Models

  /** Char.IsWhiteSpace, for the ASCII and Latin-1 white-space characters. */
  predicate IsWhiteSpace(c: char) {
    c == ' ' || c == '\t' || c == '\n' || c == '\r' || c == '\U{000B}' || c == '\U{000C}'
    || c == '\U{0085}' || c == '\U{00A0}'
  }

  /** String.IsNullOrWhiteSpace: null, empty, or nothing but white space. */
  predicate IsNullOrWhiteSpace(s: Option<string>) {
    s.None? || forall i :: 0 <= i < |s.value| ==> IsWhiteSpace(s.value[i])
  }

  /** `sub` occurs in `s` starting at index `i`. */
  predicate OccursAt(s: string, sub: string, i: int) {
    0 <= i && i + |sub| <= |s| && s[i..i + |sub|] == sub
  }

  /** String.Contains: `sub` occurs somewhere in `s` (ordinal comparison). */
  predicate Contains(s: string, sub: string) {
    exists i | 0 <= i <= |s| - |sub| :: OccursAt(s, sub, i)
  }

  /** Containment is transitive: a term found inside a found term is found too. */
  lemma ContainsTransitive(a: string, b: string, c: string)
    requires Contains(a, b) && Contains(b, c)
    ensures Contains(a, c)
  {
    var i :| 0 <= i <= |a| - |b| && OccursAt(a, b, i);
    var j :| 0 <= j <= |b| - |c| && OccursAt(b, c, j);
    forall k | 0 <= k < |c|
      ensures a[i + j..i + j + |c|][k] == c[k]
    {
      assert a[i..i + |b|][j + k] == b[j + k];
      assert b[j..j + |c|][k] == c[k];
    }
    assert OccursAt(a, c, i + j);
  }

  /** Char.ToLowerInvariant for the ASCII letters. */
  function LowerChar(c: char): (r: char)
    ensures 'A' <= c <= 'Z' ==> 'a' <= r <= 'z'
    ensures !('A' <= c <= 'Z') ==> r == c
  {
    if 'A' <= c <= 'Z' then (c as int + 32) as char else c
  }

  /** String.ToLowerInvariant, character by character. */
  function ToLowerInvariant(s: string): (r: string)
    ensures |r| == |s|
    ensures forall i :: 0 <= i < |s| ==> r[i] == LowerChar(s[i])
  {
    seq(|s|, i requires 0 <= i < |s| => LowerChar(s[i]))
  }

  /** A directory or volume separator, which ends the file name when scanning backwards. */
  predicate IsSeparator(c: char) {
    c == '/' || c == '\\' || c == ':'
  }

  /** What Path.GetExtension can return when it is not empty: a dot followed by
      at least one character, none of them a dot or a separator. */
  predicate IsExtension(r: string) {
    |r| >= 2 && r[0] == '.' && forall i :: 1 <= i < |r| ==> r[i] != '.' && !IsSeparator(r[i])
  }

  /** Scans `path` backwards from index i - 1 for the dot that starts the extension. */
  function ExtensionBefore(path: string, i: nat): (r: string)
    requires i <= |path|
    requires forall j :: i <= j < |path| ==> path[j] != '.' && !IsSeparator(path[j])
    ensures r == "" || (IsExtension(r) && |r| <= |path| && r == path[|path| - |r|..])
    decreases i
  {
    if i == 0 then ""
    else if path[i - 1] == '.' then (if i == |path| then "" else path[i - 1..])
    else if IsSeparator(path[i - 1]) then ""
    else ExtensionBefore(path, i - 1)
  }

  /** Path.GetExtension: the file name's last dot and what follows it, or the
      empty string when the name has no dot or ends with one. The result is
      always a suffix of the path. */
  function GetExtension(path: string): (r: string)
    ensures r == "" || (IsExtension(r) && |r| <= |path| && r == path[|path| - |r|..])
  {
    ExtensionBefore(path, |path|)
  }

  /** Whatever comes before it, an extension at the end of a path is what
      GetExtension returns for that path. */
  lemma ExtensionOfSuffix(prefix: string, ext: string)
    requires IsExtension(ext)
    ensures GetExtension(prefix + ext) == ext
  {
    var p := prefix + ext;
    ScanFindsExtension(p, prefix, ext, |p|);
  }

  lemma {:induction false} ScanFindsExtension(p: string, prefix: string, ext: string, k: nat)
    requires IsExtension(ext) && p == prefix + ext
    requires |prefix| + 1 <= k <= |p|
    ensures forall j :: k <= j < |p| ==> p[j] != '.' && !IsSeparator(p[j])
    ensures ExtensionBefore(p, k) == ext
    decreases k
  {
    assert forall j :: |prefix| + 1 <= j < |p| ==> p[j] == ext[j - |prefix|];
    if k == |prefix| + 1 {
      assert p[k - 1] == ext[0] == '.';
      assert p[k - 1..] == ext;
    } else {
      ScanFindsExtension(p, prefix, ext, k - 1);
    }
  }
}
