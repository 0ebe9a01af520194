/** Python string behaviour the plugin relies on: `str.isspace`, `str.strip`
    and the code-point order used by `list.sort` on strings. */
module Strings {

  /** The characters for which Python 3 `str.isspace()` holds: the ASCII
      controls TAB..CR and FS..US, SPACE, NEL, NBSP, OGHAM SPACE MARK, the
      spaces U+2000..U+200A, the line and paragraph separators, NARROW NBSP,
      MEDIUM MATHEMATICAL SPACE and IDEOGRAPHIC SPACE. */
  const SpaceChars: set<char> := {
      '\U{9}', '\U{A}', '\U{B}', '\U{C}', '\U{D}', '\U{1C}', '\U{1D}', '\U{1E}',
      '\U{1F}', ' ', '\U{85}', '\U{A0}', '\U{1680}', '\U{2000}', '\U{2001}', '\U{2002}',
      '\U{2003}', '\U{2004}', '\U{2005}', '\U{2006}', '\U{2007}', '\U{2008}', '\U{2009}', '\U{200A}',
      '\U{2028}', '\U{2029}', '\U{202F}', '\U{205F}', '\U{3000}'
    }

  /** Python 3 `str.isspace()` for one character. */
  predicate IsSpace(c: char) {
    c in SpaceChars
  }

  /** Every character of `s` is whitespace (vacuously so for ""). */
  predicate AllSpace(s: string) {
    forall i :: 0 <= i < |s| ==> IsSpace(s[i])
  }

  /** `s` without its leading whitespace. */
  function TrimStart(s: string): string {
    if |s| > 0 && IsSpace(s[0]) then TrimStart(s[1..]) else s
  }

  /** `TrimStart` removes a blank prefix and stops at the first non-blank
      character. */
  lemma {:induction false} TrimStartSpec(s: string)
    ensures |TrimStart(s)| <= |s| && TrimStart(s) == s[|s| - |TrimStart(s)|..]
    ensures AllSpace(s[..|s| - |TrimStart(s)|])
    ensures |TrimStart(s)| > 0 ==> !IsSpace(TrimStart(s)[0])
  {
    if |s| > 0 && IsSpace(s[0]) {
      var r := TrimStart(s[1..]);
      TrimStartSpec(s[1..]);
      var removed := s[..|s| - |r|];
      var rest := s[1..][..|s[1..]| - |r|];
      assert removed == [s[0]] + rest;
      forall i | 0 <= i < |removed|
        ensures IsSpace(removed[i])
      {
        if i > 0 {
          assert removed[i] == rest[i - 1];
        }
      }
    }
  }

  /** `s` without its trailing whitespace. */
  function TrimEnd(s: string): string {
    if |s| > 0 && IsSpace(s[|s| - 1]) then TrimEnd(s[..|s| - 1]) else s
  }

  /** `TrimEnd` removes a blank suffix and stops at the last non-blank
      character. */
  lemma {:induction false} TrimEndSpec(s: string)
    ensures |TrimEnd(s)| <= |s| && TrimEnd(s) == s[..|TrimEnd(s)|]
    ensures AllSpace(s[|TrimEnd(s)|..])
    ensures |TrimEnd(s)| > 0 ==> !IsSpace(TrimEnd(s)[|TrimEnd(s)| - 1])
  {
    if |s| > 0 && IsSpace(s[|s| - 1]) {
      var r := TrimEnd(s[..|s| - 1]);
      TrimEndSpec(s[..|s| - 1]);
      var removed := s[|r|..];
      var rest := s[..|s| - 1][|r|..];
      assert removed == rest + [s[|s| - 1]];
      forall i | 0 <= i < |removed|
        ensures IsSpace(removed[i])
      {
        if i < |rest| {
          assert removed[i] == rest[i];
        }
      }
    }
  }

  /** Python `s.strip()`: whitespace removed at both ends. */
  function Strip(s: string): string {
    TrimEnd(TrimStart(s))
  }

  /** What `strip` leaves: the infix of `s` between a blank prefix and a
      blank suffix, with no whitespace at either of its own ends, and empty
      exactly when `s` is blank. */
  lemma StripSpec(s: string)
    ensures exists i, j :: 0 <= i <= j <= |s| && Strip(s) == s[i..j] && AllSpace(s[..i]) && AllSpace(s[j..])
    ensures |Strip(s)| > 0 ==> !IsSpace(Strip(s)[0]) && !IsSpace(Strip(s)[|Strip(s)| - 1])
    ensures Strip(s) == [] <==> AllSpace(s)
  {
    var t := TrimStart(s);
    var r := TrimEnd(t);
    TrimStartSpec(s);
    TrimEndSpec(t);
    var i := |s| - |t|;
    assert r == s[i..i + |r|];
    assert s[i + |r|..] == t[|r|..];
    assert s == s[..i] + t;
  }

  /** A string with no whitespace at either end is its own strip. */
  lemma StripFixed(s: string)
    requires |s| > 0 ==> !IsSpace(s[0]) && !IsSpace(s[|s| - 1])
    ensures Strip(s) == s
  {
    assert TrimStart(s) == s;
    assert TrimEnd(s) == s;
  }

  /** Stripping twice is stripping once. */
  lemma StripIdempotent(s: string)
    ensures Strip(Strip(s)) == Strip(s)
  {
    StripSpec(s);
    StripFixed(Strip(s));
  }

  /** The names a feature loop handles: each entry stripped, blank entries
      dropped, order kept. */
  function NonBlankNames(features: seq<string>): (names: seq<string>)
    ensures |names| <= |features|
    ensures forall n :: n in names ==> n != []
    ensures forall n :: n in names ==> exists i :: 0 <= i < |features| && n == Strip(features[i])
    ensures forall i :: 0 <= i < |features| && Strip(features[i]) != [] ==> Strip(features[i]) in names
  {
    if |features| == 0 then []
    else
      var prefix := features[..|features| - 1];
      var last := Strip(features[|features| - 1]);
      var names := NonBlankNames(prefix) + (if last == [] then [] else [last]);
      assert forall i :: 0 <= i < |prefix| ==> prefix[i] == features[i];
      names
  }

  /** The names of a concatenation are those of its parts, in order; with
      the one-entry case this fixes order and multiplicity. */
  lemma {:induction false} NonBlankNamesAppend(a: seq<string>, b: seq<string>)
    ensures NonBlankNames(a + b) == NonBlankNames(a) + NonBlankNames(b)
    decreases |b|
  {
    if |b| == 0 {
      assert a + b == a;
    } else {
      var b' := b[..|b| - 1];
      var last := Strip(b[|b| - 1]);
      var tail := if last == [] then [] else [last];
      assert (a + b)[..|a + b| - 1] == a + b';
      assert (a + b)[|a + b| - 1] == b[|b| - 1];
      NonBlankNamesAppend(a, b');
      assert NonBlankNames(b) == NonBlankNames(b') + tail;
    }
  }

  /** One entry contributes its strip, or nothing when that is blank. */
  lemma NonBlankNamesSingle(f: string)
    ensures NonBlankNames([f]) == if Strip(f) == [] then [] else [Strip(f)]
  {
    assert [f][..0] == [];
  }

  /** Python's `<=` on str: lexicographic by code point, a prefix first. */
  predicate LexLe(a: string, b: string) {
    |a| == 0 || (|b| > 0 && (a[0] < b[0] || (a[0] == b[0] && LexLe(a[1..], b[1..]))))
  }

  lemma LexLeTotal(a: string, b: string)
    ensures LexLe(a, b) || LexLe(b, a)
  {
  }

  lemma LexLeTransitive(a: string, b: string, c: string)
    requires LexLe(a, b) && LexLe(b, c)
    ensures LexLe(a, c)
  {
  }

  lemma LexLeAntisymmetric(a: string, b: string)
    requires LexLe(a, b) && LexLe(b, a)
    ensures a == b
  {
    if |a| > 0 {
      LexLeAntisymmetric(a[1..], b[1..]);
    }
  }
}
