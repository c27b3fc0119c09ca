/**
 * The parts of Python's `str` that the document store and the URL helpers rely on:
 * `isspace`, `strip()`, `split()`, `split(sep)`, `sep.join(parts)`, `lower()`,
 * `find`, `in`, `startswith` and `endswith`.
 */
module Text {
  import opened Wrappers

  /** Python's `str.isspace()` for a single character (the 29 code points Python treats as whitespace). */
  predicate IsSpace(c: char) {
    || ('\t' <= c <= '\r')
    || ('\U{1C}' <= c <= ' ')
    || c == '\U{85}' || c == '\U{A0}' || c == '\U{1680}'
    || ('\U{2000}' <= c <= '\U{200A}')
    || c == '\U{2028}' || c == '\U{2029}' || c == '\U{202F}' || c == '\U{205F}' || c == '\U{3000}'
  }

  /** True when `s` holds nothing but whitespace, that is when `s.strip()` is empty. */
  predicate IsBlank(s: string) {
    forall i :: 0 <= i < |s| ==> IsSpace(s[i])
  }

  /** A token of `str.split()`: non-empty and free of whitespace. */
  predicate IsWord(w: string) {
    w != [] && forall i :: 0 <= i < |w| ==> !IsSpace(w[i])
  }

  /** Number of whitespace characters at the start of `s`. */
  function LeadingSpaces(s: string): (n: nat)
    ensures n <= |s|
  {
    if s == [] || !IsSpace(s[0]) then 0 else 1 + LeadingSpaces(s[1..])
  }

  /** `LeadingSpaces` counts the whole run of whitespace that starts `s`, and no more. */
  lemma {:induction false} LeadingSpacesRun(s: string)
    ensures var n := LeadingSpaces(s);
      && (forall i :: 0 <= i < n ==> IsSpace(s[i]))
      && (n < |s| ==> !IsSpace(s[n]))
  {
    if s != [] && IsSpace(s[0]) {
      LeadingSpacesRun(s[1..]);
    }
  }

  /** Number of whitespace characters at the end of `s`. */
  function TrailingSpaces(s: string): (n: nat)
    ensures n <= |s|
  {
    if s == [] || !IsSpace(s[|s| - 1]) then 0 else 1 + TrailingSpaces(s[..|s| - 1])
  }

  /** `TrailingSpaces` counts the whole run of whitespace that ends `s`, and no more. */
  lemma {:induction false} TrailingSpacesRun(s: string)
    ensures var n := TrailingSpaces(s);
      && (forall i :: |s| - n <= i < |s| ==> IsSpace(s[i]))
      && (n < |s| ==> !IsSpace(s[|s| - 1 - n]))
  {
    if s != [] && IsSpace(s[|s| - 1]) {
      TrailingSpacesRun(s[..|s| - 1]);
    }
  }

  /** Python's `s.strip()`: `s` without its leading and trailing whitespace. */
  function Strip(s: string): string {
    var t := s[LeadingSpaces(s)..];
    t[..|t| - TrailingSpaces(t)]
  }

  /** `s.strip()` is empty exactly for blank text; otherwise it starts and ends with a non-space. */
  lemma StripEnds(s: string)
    ensures var r := Strip(s);
      && (r == [] <==> IsBlank(s))
      && (r != [] ==> !IsSpace(r[0]) && !IsSpace(r[|r| - 1]))
  {
    var a := LeadingSpaces(s);
    var t := s[a..];
    LeadingSpacesRun(s);
    TrailingSpacesRun(t);
    if Strip(s) == [] {
      assert a == |s|;
    }
  }

  /** `s.strip()` is the middle of `s`: only whitespace is cut off on either side. */
  lemma StripCutsOnlySpaces(s: string)
    ensures exists i :: 0 <= i <= |s| - |Strip(s)| && Strip(s) == s[i..i + |Strip(s)|]
                        && IsBlank(s[..i]) && IsBlank(s[i + |Strip(s)|..])
  {
    var a := LeadingSpaces(s);
    var t := s[a..];
    var r := Strip(s);
    LeadingSpacesRun(s);
    TrailingSpacesRun(t);
    assert r == s[a..a + |r|] && IsBlank(s[..a]);
    assert IsBlank(s[a + |r|..]) by {
      assert s[a + |r|..] == t[|r|..];
    }
  }

  /** Length of the run of non-whitespace characters that starts `s`. */
  function WordLength(s: string): (n: nat)
    ensures n <= |s|
    ensures forall i :: 0 <= i < n ==> !IsSpace(s[i])
    ensures n < |s| ==> IsSpace(s[n])
  {
    if s == [] || IsSpace(s[0]) then 0 else 1 + WordLength(s[1..])
  }

  /** Python's `s.split()` with no argument: the maximal runs of non-whitespace, in order. */
  function Words(s: string): (ws: seq<string>)
    ensures forall k :: 0 <= k < |ws| ==> IsWord(ws[k])
    ensures IsBlank(s) <==> ws == []
    decreases |s|
  {
    LeadingSpacesRun(s);
    var a := LeadingSpaces(s);
    var t := s[a..];
    if t == [] then []
    else
      var n := WordLength(t);
      assert !IsSpace(s[a]) && IsWord(t[..n]) by {
        assert t[0] == s[a];
      }
      [t[..n]] + Words(t[n..])
  }

  /** The text `gaps[0] + words[0] + gaps[1] + ... + words[n - 1] + gaps[n]`. */
  function Weave(gaps: seq<string>, words: seq<string>): string
    requires |gaps| == |words| + 1
    decreases |words|
  {
    if words == [] then gaps[0] else gaps[0] + words[0] + Weave(gaps[1..], words[1..])
  }

  /** `n + 1` runs of whitespace that can surround `n` words, the inner ones non-empty. */
  predicate AreGaps(gaps: seq<string>, n: nat) {
    && |gaps| == n + 1
    && (forall k :: 0 <= k < |gaps| ==> IsBlank(gaps[k]))
    && (forall k :: 0 < k < n ==> gaps[k] != [])
  }

  /** The whitespace runs around the words of `s`, as `Words` meets them. */
  function Gaps(s: string): seq<string>
    decreases |s|
  {
    var a := LeadingSpaces(s);
    var t := s[a..];
    if t == [] then [s] else [s[..a]] + Gaps(t[WordLength(t)..])
  }

  /** `s` is its words woven with the runs of whitespace around them. */
  lemma {:induction false} GapsWeave(s: string)
    ensures AreGaps(Gaps(s), |Words(s)|) && Weave(Gaps(s), Words(s)) == s
    decreases |s|
  {
    var a := LeadingSpaces(s);
    var t := s[a..];
    if t == [] {
      LeadingSpacesRun(s);
    } else {
      var r := t[WordLength(t)..];
      GapsWeave(r);
      GapsCons(s);
      GapsHead(r);
      WeaveCons(s[..a], t[..WordLength(t)], r, Gaps(r), Words(r));
    }
  }

  /** One step of `Words` and `Gaps`: the leading whitespace, the first word, and the rest. */
  lemma GapsCons(s: string)
    requires s[LeadingSpaces(s)..] != []
    ensures var a := LeadingSpaces(s);
      var t := s[a..];
      var n := WordLength(t);
      && Gaps(s) == [s[..a]] + Gaps(t[n..]) && Words(s) == [t[..n]] + Words(t[n..])
      && IsBlank(s[..a]) && IsWord(t[..n]) && s == s[..a] + t[..n] + t[n..]
      && (t[n..] == [] || IsSpace(t[n..][0]))
  {
    var a := LeadingSpaces(s);
    var t := s[a..];
    var n := WordLength(t);
    FirstWord(s, a, t, n);
    assert Words(s) == [t[..n]] + Words(t[n..]);
  }

  /** The pieces of `s` around its first word. */
  lemma FirstWord(s: string, a: nat, t: string, n: nat)
    requires a == LeadingSpaces(s) && t == s[a..] && t != [] && n == WordLength(t)
    ensures IsBlank(s[..a]) && IsWord(t[..n]) && s == s[..a] + t[..n] + t[n..]
    ensures t[n..] == [] || IsSpace(t[n..][0])
  {
    LeadingSpacesRun(s);
    assert t[0] == s[a];
  }

  /** The first gap `Gaps` finds in text that starts with whitespace is not empty. */
  lemma GapsHead(r: string)
    requires r == [] || IsSpace(r[0])
    ensures r != [] ==> Gaps(r)[0] != []
  {
    if r != [] {
      assert LeadingSpaces(r) > 0;
    }
  }

  /** A gap and a word in front of a weave that starts with whitespace make a longer weave. */
  lemma WeaveCons(g: string, w: string, r: string, gs: seq<string>, ws: seq<string>)
    requires IsBlank(g) && IsWord(w) && AreGaps(gs, |ws|) && Weave(gs, ws) == r
    requires (r == [] || IsSpace(r[0])) && (r != [] ==> gs[0] != [])
    requires forall k :: 0 <= k < |ws| ==> IsWord(ws[k])
    ensures AreGaps([g] + gs, |ws| + 1) && Weave([g] + gs, [w] + ws) == g + w + r
  {
    assert ([g] + gs)[1..] == gs && ([w] + ws)[1..] == ws;
  }

  /**
   * `s.split()` takes `s` apart: `s` is its words with runs of whitespace between them,
   * non-empty ones between two words.
   */
  lemma WordsSplit(s: string)
    ensures exists gaps :: AreGaps(gaps, |Words(s)|) && Weave(gaps, Words(s)) == s
  {
    GapsWeave(s);
  }

  /** Whitespace followed by a non-space starts with exactly that whitespace. */
  lemma {:induction false} LeadingSpacesOf(g: string, t: string)
    requires IsBlank(g) && (t == [] || !IsSpace(t[0]))
    ensures LeadingSpaces(g + t) == |g|
  {
    if g != [] {
      assert (g + t)[1..] == g[1..] + t;
      LeadingSpacesOf(g[1..], t);
    } else {
      assert g + t == t;
    }
  }

  /** A run of non-spaces followed by a space or by nothing is the whole first word. */
  lemma {:induction false} WordLengthOf(w: string, r: string)
    requires forall i :: 0 <= i < |w| ==> !IsSpace(w[i])
    requires r == [] || IsSpace(r[0])
    ensures WordLength(w + r) == |w|
  {
    if w != [] {
      assert (w + r)[1..] == w[1..] + r;
      WordLengthOf(w[1..], r);
    } else {
      assert w + r == r;
    }
  }

  /** Woven text after its first gap starts with whitespace or is empty. */
  lemma WeaveStart(gaps: seq<string>, words: seq<string>)
    requires |gaps| == |words| + 1 && IsBlank(gaps[0])
    requires words != [] ==> gaps[0] != []
    ensures var s := Weave(gaps, words); s == [] || IsSpace(s[0])
  {
    if words != [] {
      assert Weave(gaps, words)[0] == gaps[0][0];
    }
  }

  /** The words of a text woven from words and whitespace are those words: `Words` is unique. */
  lemma {:induction false} WordsOfWeave(gaps: seq<string>, words: seq<string>)
    requires AreGaps(gaps, |words|)
    requires forall k :: 0 <= k < |words| ==> IsWord(words[k])
    ensures Words(Weave(gaps, words)) == words
    decreases |words|
  {
    if words != [] {
      var r := Weave(gaps[1..], words[1..]);
      assert AreGaps(gaps[1..], |words| - 1);
      WeaveStart(gaps[1..], words[1..]);
      WordsOfWeave(gaps[1..], words[1..]);
      FirstWordOf(gaps[0], words[0], r);
      assert Weave(gaps, words) == gaps[0] + words[0] + r;
      assert words == [words[0]] + words[1..];
    }
  }

  /** Whitespace, a word, and text that starts with whitespace: the word comes first. */
  lemma FirstWordOf(g: string, w: string, r: string)
    requires IsBlank(g) && IsWord(w) && (r == [] || IsSpace(r[0]))
    ensures Words(g + w + r) == [w] + Words(r)
  {
    var s := g + w + r;
    assert s == g + (w + r);
    LeadingSpacesOf(g, w + r);
    var t := s[|g|..];
    assert t == w + r;
    WordLengthOf(w, r);
    assert t[..|w|] == w && t[|w|..] == r;
  }

  /** Python's `sep.join(parts)`. */
  function Join(parts: seq<string>, sep: string): string {
    if |parts| == 0 then []
    else if |parts| == 1 then parts[0]
    else parts[0] + sep + Join(parts[1..], sep)
  }

  /** Python's `str.lower()` for one character, restricted to the ASCII letters. */
  function LowerChar(c: char): char {
    if 'A' <= c <= 'Z' then (c as int + 32) as char else c
  }

  /** Python's `s.lower()`, restricted to the ASCII letters. */
  function Lower(s: string): string {
    seq(|s|, i requires 0 <= i < |s| => LowerChar(s[i]))
  }

  /** `sub` occurs in `s` starting at index `i`. */
  predicate OccursAt(s: string, sub: string, i: int) {
    0 <= i && i + |sub| <= |s| && s[i..i + |sub|] == sub
  }

  /** The first occurrence of `sub` in `s` at or after index `k`. */
  function IndexFrom(s: string, sub: string, k: nat): (r: Option<nat>)
    ensures r.Some? ==> k <= r.value && OccursAt(s, sub, r.value)
    ensures r.Some? ==> forall j :: k <= j < r.value ==> !OccursAt(s, sub, j)
    ensures r.None? ==> forall j :: k <= j ==> !OccursAt(s, sub, j)
    decreases |s| - k
  {
    if k + |sub| > |s| then None
    else if s[k..k + |sub|] == sub then Some(k)
    else IndexFrom(s, sub, k + 1)
  }

  /** Python's `s.find(sub)`, with `None` for -1. */
  function IndexOf(s: string, sub: string): Option<nat> {
    IndexFrom(s, sub, 0)
  }

  /** Python's `sub in s`. */
  predicate Contains(s: string, sub: string) {
    IndexOf(s, sub).Some?
  }

  /** Python's `s.startswith(p)`. */
  predicate StartsWith(s: string, p: string) {
    |p| <= |s| && s[..|p|] == p
  }

  /** Python's `s.endswith(p)`. */
  predicate EndsWith(s: string, p: string) {
    |p| <= |s| && s[|s| - |p|..] == p
  }

  /** Python's `s.split(sep)` for a non-empty separator. */
  function SplitOn(s: string, sep: string): (parts: seq<string>)
    requires sep != []
    ensures |parts| >= 1
    ensures forall k :: 0 <= k < |parts| ==> !Contains(parts[k], sep)
    ensures Join(parts, sep) == s
    decreases |s|
  {
    match IndexOf(s, sep)
    case None => [s]
    case Some(i) =>
      var rest := SplitOn(s[i + |sep|..], sep);
      assert !Contains(s[..i], sep) by {
        forall j | 0 <= j
          ensures !OccursAt(s[..i], sep, j)
        {
          if j + |sep| <= i {
            assert !OccursAt(s, sep, j);
            assert s[..i][j..j + |sep|] == s[j..j + |sep|];
          }
        }
      }
      assert s == s[..i] + sep + s[i + |sep|..] by {
        assert s[i..i + |sep|] == sep;
        assert s == s[..i] + s[i..i + |sep|] + s[i + |sep|..];
      }
      [s[..i]] + rest
  }

  /**
   * `split(sep)` cuts at the leftmost occurrences: each part but the last ends where `sep`
   * first occurs in what is left of the text.
   */
  lemma {:induction false} SplitLeftmost(s: string, sep: string)
    requires sep != []
    ensures var parts := SplitOn(s, sep);
      forall k :: 0 <= k < |parts| - 1 ==> IndexOf(Join(parts[k..], sep), sep) == Some(|parts[k]|)
    decreases |s|
  {
    var parts := SplitOn(s, sep);
    if IndexOf(s, sep).Some? {
      var i := IndexOf(s, sep).value;
      var rest := SplitOn(s[i + |sep|..], sep);
      SplitLeftmost(s[i + |sep|..], sep);
      SplitHead(s, sep, i);
      forall k | 0 <= k < |parts| - 1
        ensures IndexOf(Join(parts[k..], sep), sep) == Some(|parts[k]|)
      {
        if k == 0 {
          assert parts[k..] == parts;
        } else {
          SplitShift(parts, rest, sep, k);
        }
      }
    }
  }

  /** When `sep` first occurs at `i`, the first part of the split is the text before it. */
  lemma SplitHead(s: string, sep: string, i: nat)
    requires sep != [] && IndexOf(s, sep) == Some(i)
    ensures var parts := SplitOn(s, sep);
      && parts == [s[..i]] + SplitOn(s[i + |sep|..], sep)
      && IndexOf(Join(parts, sep), sep) == Some(|parts[0]|)
  {
  }

  /** A cut of the rest of the split is a cut of the whole split, one part further on. */
  lemma SplitShift(parts: seq<string>, rest: seq<string>, sep: string, k: nat)
    requires |parts| == |rest| + 1 && parts[1..] == rest && 1 <= k < |parts| - 1
    requires IndexOf(Join(rest[k - 1..], sep), sep) == Some(|rest[k - 1]|)
    ensures IndexOf(Join(parts[k..], sep), sep) == Some(|parts[k]|)
  {
    assert parts[k..] == rest[k - 1..];
  }

  /** The first part of `s.split(sep)` runs up to the first `sep`, or to the end of `s`. */
  lemma SplitFirstPart(s: string, sep: string)
    requires sep != []
    ensures var p := SplitOn(s, sep)[0];
      && |p| <= |s| && p == s[..|p|]
      && (|p| == |s| || OccursAt(s, sep, |p|))
      && (IndexOf(s, sep).None? ==> p == s)
  {
  }

  /** When `sep` occurs first at `i`, the second part of `s.split(sep)` is the first part of what follows it. */
  lemma SplitSecondPart(s: string, sep: string, i: nat)
    requires sep != [] && IndexOf(s, sep) == Some(i)
    ensures |SplitOn(s, sep)| > 1
    ensures SplitOn(s, sep)[1] == SplitOn(s[i + |sep|..], sep)[0]
  {
  }
}
