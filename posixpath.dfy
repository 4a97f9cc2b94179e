/**
 * `os.path.splitext` with POSIX conventions: the extension starts at the
 * last `.` of the final path component, provided that component has a
 * character other than `.` before it; a leading run of dots (as in
 * `.bashrc`) is part of the root, not an extension.
 */
module PosixPath {
  import opened PyStrings

  /** Some character of `p[lo..hi]` is not a dot. */
  predicate HasNonDot(p: string, lo: int, hi: int)
    requires 0 <= lo <= hi <= |p|
  {
    exists i :: lo <= i < hi && p[i] != '.'
  }

  /** `os.path.splitext(p)`: `(root, ext)`. */
  function SplitExt(p: string): (parts: (string, string))
    ensures parts.0 + parts.1 == p
    ensures parts.1 == [] || (parts.1[0] == '.' && '.' !in parts.1[1..] && '/' !in parts.1)
    ensures parts.1 != [] ==> HasNonDot(parts.0, RFind(parts.0, '/') + 1, |parts.0|)
  {
    var sepIndex := RFind(p, '/');
    var dotIndex := RFind(p, '.');
    if dotIndex > sepIndex && HasNonDot(p, sepIndex + 1, dotIndex) then
      var root, ext := p[..dotIndex], p[dotIndex..];
      assert root + ext == p;
      assert RFind(root, '/') == sepIndex by { RFindPrefix(p, '/', dotIndex); }
      (root, ext)
    else (p, [])
  }

  /** The last occurrence in a prefix that still contains it is the same. */
  lemma RFindPrefix(p: string, c: char, n: int)
    requires RFind(p, c) < n <= |p|
    ensures RFind(p[..n], c) == RFind(p, c)
  {
    var r := RFind(p, c);
    var q := RFind(p[..n], c);
    if r >= 0 {
      assert p[..n][r] == c;
    }
  }

  /** Appending text without `c` does not move the last `c`. */
  lemma RFindAppendAbsent(s: string, t: string, c: char)
    requires c !in t
    ensures RFind(s + t, c) == RFind(s, c)
  {
    var r := RFind(s + t, c);
    var q := RFind(s, c);
    if q >= 0 {
      assert (s + t)[q] == c;
    }
    if r >= 0 {
      assert s[r] == (s + t)[r];
    }
  }

  /** Where the last dot follows the last separator and has a non-dot
      character before it in that component, the split is at that dot. */
  lemma SplitExtAt(p: string, d: int)
    requires 0 <= d < |p| && RFind(p, '.') == d && RFind(p, '/') < d
    requires HasNonDot(p, RFind(p, '/') + 1, d)
    ensures SplitExt(p) == (p[..d], p[d..])
  {
  }

  /** A name `stem.ext` whose stem has, in its last path component, a
      character other than a dot splits into exactly `stem` and `.ext`
      (so `a..wav` gives `a.` and `.wav`). */
  lemma SplitExtOfName(stem: string, ext: string)
    requires '.' !in ext && '/' !in ext
    requires HasNonDot(stem, RFind(stem, '/') + 1, |stem|)
    ensures SplitExt(stem + "." + ext) == (stem, "." + ext)
  {
    var p := stem + "." + ext;
    var d := |stem|;
    AppendAssociative(stem, ".", ext);
    RFindAppendAbsent(stem + ".", ext, '.');
    RFindAppendAbsent(stem, "." + ext, '/');
    var j :| RFind(stem, '/') + 1 <= j < d && stem[j] != '.';
    assert p[j] == stem[j];
    SplitExtAt(p, d);
    assert p[..d] == stem && p[d..] == "." + ext;
  }

  /** `a..wav` splits at its last dot: the root keeps the other one. */
  lemma SplitExtDoubleDot()
    ensures SplitExt("a..wav") == ("a.", ".wav")
  {
    assert "a." + "." + "wav" == "a..wav";
    assert RFind("a.", '/') == -1 && "a."[0] != '.';
    SplitExtOfName("a.", "wav");
  }

  /** A name with no dot has no extension. */
  lemma SplitExtNoDot(p: string)
    requires '.' !in p
    ensures SplitExt(p) == (p, [])
  {
    RFindPresent(p, '.');
  }
}
