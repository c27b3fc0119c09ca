/**
 * The two path functions `DocumentProcessor` relies on, for POSIX paths:
 * `os.path.basename` (the name after the last `/`) and the extension half of
 * `os.path.splitext` (the last `.` of the name and what follows it, unless the dots of
 * the name are all leading dots).
 */
module Paths {
  import opened Wrappers

  /** Position of the last `c` in `s`, if any. */
  function LastIndexOf(s: string, c: char): (r: Option<nat>)
    ensures r.Some? ==> r.value < |s| && s[r.value] == c && c !in s[r.value + 1..]
    ensures r.None? ==> c !in s
  {
    if s == [] then None
    else if s[|s| - 1] == c then Some(|s| - 1)
    else
      var r := LastIndexOf(s[..|s| - 1], c);
      assert s == s[..|s| - 1] + [s[|s| - 1]];
      assert r.Some? ==> s[r.value + 1..] == s[..|s| - 1][r.value + 1..] + [s[|s| - 1]];
      r
  }

  /** Where the last path component starts: just after the last `/`, or at 0. */
  function NameStart(path: string): (b: nat)
    ensures b <= |path| && '/' !in path[b..]
    ensures b == 0 || path[b - 1] == '/'
  {
    match LastIndexOf(path, '/')
    case None => assert path[0..] == path; 0
    case Some(i) => i + 1
  }

  /** `os.path.basename(path)`: everything after the last `/`. */
  function Basename(path: string): (name: string)
    ensures '/' !in name
    ensures exists i :: 0 <= i <= |path| && name == path[i..] && (i == 0 || path[i - 1] == '/')
  {
    path[NameStart(path)..]
  }

  /** `os.path.splitext(path)[1]`. */
  function Extension(path: string): (ext: string)
    ensures ext == [] || (ext[0] == '.' && '.' !in ext[1..] && '/' !in ext)
    ensures |ext| <= |path| && ext == path[|path| - |ext|..]
  {
    var b := NameStart(path);
    var name := path[b..];
    match LastIndexOf(name, '.')
    case None => []
    case Some(d) =>
      if NonDotBefore(name, d) then
        DotSuffix(path, b, d);
        path[b + d..]
      else []
  }

  /** Some character before position `d` of `name` is not a `.`. */
  predicate NonDotBefore(name: string, d: nat) {
    exists i :: 0 <= i < d && i < |name| && name[i] != '.'
  }

  /** The part of a name from a `.` after which no `.` follows is a dotted suffix of the path. */
  lemma DotSuffix(path: string, b: nat, d: nat)
    requires b + d < |path| && path[b..][d] == '.' && '.' !in path[b..][d + 1..] && '/' !in path[b..]
    ensures var ext := path[b + d..];
      ext[0] == '.' && '.' !in ext[1..] && '/' !in ext && ext == path[|path| - |ext|..]
  {
    SuffixOfSuffix(path, b, d);
    SuffixOfSuffix(path, b, d + 1);
  }

  /** A suffix of a suffix is a suffix, and what it holds the outer suffix holds. */
  lemma SuffixOfSuffix(s: string, i: nat, j: nat)
    requires i + j <= |s|
    ensures s[i..][j..] == s[i + j..]
    ensures forall c :: c in s[i + j..] ==> c in s[i..]
  {
    forall c | c in s[i + j..]
      ensures c in s[i..]
    {
      var k :| 0 <= k < |s[i + j..]| && s[i + j..][k] == c;
      assert s[i..][j + k] == c;
    }
  }

  /** A character missing from `s[k..]` is at no position from `k` on. */
  lemma NotInSuffix(s: string, c: char, k: nat)
    requires k <= |s| && c !in s[k..]
    ensures forall j :: k <= j < |s| ==> s[j] != c
  {
    forall j | k <= j < |s|
      ensures s[j] != c
    {
      assert s[j] == s[k..][j - k];
    }
  }

  /** The last `c` of `s` is at `d` when `s[d]` is `c` and no `c` follows it. */
  lemma LastIndexAt(s: string, c: char, d: nat)
    requires d < |s| && s[d] == c && c !in s[d + 1..]
    ensures LastIndexOf(s, c) == Some(d)
  {
    assert s[d] in s;
    var i := LastIndexOf(s, c).value;
    NotInSuffix(s, c, d + 1);
    NotInSuffix(s, c, i + 1);
  }

  /** The basename of a directory followed by a name without `/` is that name. */
  lemma BasenameAfterDirectory(dir: string, name: string)
    requires '/' !in name
    requires dir == [] || dir[|dir| - 1] == '/'
    ensures NameStart(dir + name) == |dir| && Basename(dir + name) == name
  {
    var path := dir + name;
    assert path[|dir|..] == name;
    if dir == [] {
      assert path == name;
    } else {
      assert path[|dir|..] == name;
      LastIndexAt(path, '/', |dir| - 1);
    }
  }

  /** A `.` that comes after a character other than `.`. */
  predicate HasInnerDot(name: string) {
    exists i, j :: 0 <= i < j < |name| && name[i] != '.' && name[j] == '.'
  }

  /**
   * `splitext` finds an extension exactly when the base name has a `.` after a character
   * other than `.`; the extension then starts at the last `.` of the base name. A name without
   * a dot, and one whose dots all lead, has none.
   */
  lemma ExtensionNonEmpty(path: string)
    ensures Extension(path) != [] <==> HasInnerDot(Basename(path))
    ensures var ext := Extension(path);
      ext != [] ==> LastIndexOf(Basename(path), '.') == Some(|Basename(path)| - |ext|)
  {
    var name := path[NameStart(path)..];
    var r := LastIndexOf(name, '.');
    if r.Some? {
      InnerDotBeforeLast(name, r.value);
      ExtensionAtDot(path, r.value);
    }
  }

  /** With the last `.` of the base name at `d`, the extension runs from it when a non-dot precedes it. */
  lemma ExtensionAtDot(path: string, d: nat)
    requires LastIndexOf(path[NameStart(path)..], '.') == Some(d)
    ensures NonDotBefore(path[NameStart(path)..], d) ==> Extension(path) == path[NameStart(path) + d..]
    ensures !NonDotBefore(path[NameStart(path)..], d) ==> Extension(path) == []
    ensures NameStart(path) + d < |path|
  {
  }

  /** A name has an inner dot exactly when a character other than `.` precedes its last `.`. */
  lemma InnerDotBeforeLast(name: string, d: nat)
    requires LastIndexOf(name, '.') == Some(d)
    ensures HasInnerDot(name) <==> NonDotBefore(name, d)
  {
    if HasInnerDot(name) {
      var i, j :| 0 <= i < j < |name| && name[i] != '.' && name[j] == '.';
      NotInSuffix(name, '.', d + 1);
      assert i < d;
    }
  }

  /** The extension is read off the last component: from its last `.`, when a non-dot precedes that `.`. */
  lemma ExtensionFromName(path: string, d: nat)
    requires var name := path[NameStart(path)..];
      LastIndexOf(name, '.') == Some(d) && 0 < d && name[0] != '.'
    ensures Extension(path) == path[NameStart(path)..][d..]
  {
    SuffixOfSuffix(path, NameStart(path), d);
  }

  /** A stem without `/` and a suffix without `/` or `.`, joined by a dot. */
  lemma DottedName(stem: string, suffix: string)
    requires '/' !in stem && '/' !in suffix && '.' !in suffix
    ensures var name := stem + "." + suffix;
      '/' !in name && LastIndexOf(name, '.') == Some(|stem|) && name[|stem|..] == "." + suffix
  {
    var name := stem + "." + suffix;
    assert name[|stem| + 1..] == suffix;
    assert name[|stem|..] == "." + suffix;
    LastIndexAt(name, '.', |stem|);
    forall k | 0 <= k < |name|
      ensures name[k] != '/'
    {
      if k < |stem| {
        assert name[k] == stem[k];
      } else if k > |stem| {
        assert name[k] == suffix[k - |stem| - 1];
      }
    }
  }

  /** A name made of a stem that does not start with `.` and a dotted suffix has that suffix as its extension. */
  lemma ExtensionOfName(dir: string, stem: string, suffix: string)
    requires stem != [] && stem[0] != '.' && '/' !in stem
    requires '/' !in suffix && '.' !in suffix
    requires dir == [] || dir[|dir| - 1] == '/'
    ensures Extension(dir + (stem + "." + suffix)) == "." + suffix
  {
    var name := stem + "." + suffix;
    var path := dir + name;
    DottedName(stem, suffix);
    BasenameAfterDirectory(dir, name);
    assert path[NameStart(path)..] == name;
    assert name[0] == stem[0];
    ExtensionFromName(path, |stem|);
  }
}
