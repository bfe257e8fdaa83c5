/** Character replacement on paths and the trailing-separator helper. */
module Paths {

  import opened Platform

  /** String.Replace(char, char): every occurrence of `oldChar` becomes `newChar`. */
  function ReplaceChar(s: string, oldChar: char, newChar: char): (r: string)
    ensures |r| == |s|
    ensures forall i :: 0 <= i < |s| ==> r[i] == (if s[i] == oldChar then newChar else s[i])
    ensures oldChar != newChar ==> oldChar !in r
  {
    if s == [] then []
    else [if s[0] == oldChar then newChar else s[0]] + ReplaceChar(s[1..], oldChar, newChar)
  }

  lemma {:induction false} ReplaceCharAppend(a: string, b: string, oldChar: char, newChar: char)
    ensures ReplaceChar(a + b, oldChar, newChar) == ReplaceChar(a, oldChar, newChar) + ReplaceChar(b, oldChar, newChar)
  {
    var l, r := ReplaceChar(a + b, oldChar, newChar), ReplaceChar(a, oldChar, newChar) + ReplaceChar(b, oldChar, newChar);
    assert |l| == |r|;
    forall i | 0 <= i < |l| ensures l[i] == r[i] {
      if i < |a| { assert (a + b)[i] == a[i]; } else { assert (a + b)[i] == b[i - |a|]; }
    }
  }

  /** Replacing back undoes a replacement whose target character did not occur before. */
  lemma ReplaceCharUndo(s: string, a: char, b: char)
    requires b !in s
    ensures ReplaceChar(ReplaceChar(s, a, b), b, a) == s
  {
    var r := ReplaceChar(ReplaceChar(s, a, b), b, a);
    forall i | 0 <= i < |s| ensures r[i] == s[i] {
      assert s[i] in s;
    }
  }

  /**
   * The separator rewrite applied to every manifest path after parsing:
   * `path.Replace(Path.AltDirectorySeparatorChar, Path.DirectorySeparatorChar)`.
   */
  function NormalisePath(settings: Settings, path: string): (r: string)
  {
    ReplaceChar(path, settings.altDirectorySeparator, settings.directorySeparator)
  }

  /**
   * The rewrite leaves no alternative separator behind (unless the platform uses
   * the same character for both), keeps the length and every other character.
   */
  lemma NormalisePathSpec(settings: Settings, path: string)
    ensures |NormalisePath(settings, path)| == |path|
    ensures settings.altDirectorySeparator != settings.directorySeparator ==>
              settings.altDirectorySeparator !in NormalisePath(settings, path)
    ensures forall i :: 0 <= i < |path| && path[i] != settings.altDirectorySeparator ==>
              NormalisePath(settings, path)[i] == path[i]
    ensures forall i :: 0 <= i < |path| && path[i] == settings.altDirectorySeparator ==>
              NormalisePath(settings, path)[i] == settings.directorySeparator
  {
  }

  /** Normalising twice is normalising once. */
  lemma NormalisePathIdempotent(settings: Settings, path: string)
    ensures NormalisePath(settings, NormalisePath(settings, path)) == NormalisePath(settings, path)
  {
    var once := NormalisePath(settings, path);
    var twice := NormalisePath(settings, once);
    forall i | 0 <= i < |once| ensures twice[i] == once[i] {
    }
  }

  predicate IsSeparator(settings: Settings, c: char)
  {
    c == settings.directorySeparator || c == settings.altDirectorySeparator
  }

  /**
   * GetPathWithTrailingSeparatorChar: the path unchanged when its last character is
   * either separator, otherwise the path followed by the primary separator. The source
   * reads `path[path.Length - 1]`, so it needs a non-empty path.
   */
  function GetPathWithTrailingSeparatorChar(settings: Settings, path: string): (r: string)
    requires |path| > 0
    ensures |r| > 0 && IsSeparator(settings, r[|r| - 1])
    ensures IsSeparator(settings, path[|path| - 1]) ==> r == path
    ensures !IsSeparator(settings, path[|path| - 1]) ==> r == path + [settings.directorySeparator]
  {
    var trailingChar := path[|path| - 1];
    if !IsSeparator(settings, trailingChar) then path + [settings.directorySeparator] else path
  }

  /** Adding the trailing separator twice adds it once. */
  lemma TrailingSeparatorIdempotent(settings: Settings, path: string)
    requires |path| > 0
    ensures GetPathWithTrailingSeparatorChar(settings, GetPathWithTrailingSeparatorChar(settings, path))
         == GetPathWithTrailingSeparatorChar(settings, path)
  {
  }

  /** The result extends the path by at most one character. */
  lemma TrailingSeparatorExtends(settings: Settings, path: string)
    requires |path| > 0
    ensures var r := GetPathWithTrailingSeparatorChar(settings, path);
            path <= r && |r| <= |path| + 1
  {
  }
}
