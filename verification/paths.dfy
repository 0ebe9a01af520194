/** POSIX path handling (`posixpath.splitext`, `posixpath.basename`) and the
    names the plugin derives from the output GeoPackage path. */
module Paths {

  /** Python `s.rfind(c)`: the last index holding `c`, or -1. */
  function RFind(s: string, c: char): (r: int)
    ensures -1 <= r < |s|
    ensures r >= 0 ==> s[r] == c
    ensures forall k :: r < k < |s| ==> s[k] != c
  {
    if |s| == 0 then -1
    else if s[|s| - 1] == c then |s| - 1
    else RFind(s[..|s| - 1], c)
  }

  /** Some index in [lo, hi) of `p` holds a character other than '.'. */
  predicate NonDotBetween(p: string, lo: int, hi: int) {
    exists k :: lo <= k < hi && 0 <= k < |p| && p[k] != '.'
  }

  /** Python `posixpath.splitext(p)`: split at the last '.' of the final path
      component, unless the component holds only dots before that '.' (a
      hidden file such as ".gpkg" has no extension). */
  function SplitExt(p: string): (parts: (string, string))
    ensures parts.0 + parts.1 == p
    ensures parts.1 != [] ==> parts.1[0] == '.'
    ensures forall k :: 0 < k < |parts.1| ==> parts.1[k] != '.' && parts.1[k] != '/'
  {
    var sep := RFind(p, '/');
    var dot := RFind(p, '.');
    if dot > sep && NonDotBetween(p, sep + 1, dot) then
      (p[..dot], p[dot..])
    else
      (p, [])
  }

  /** A well-formed extension: a '.' followed by neither '.' nor '/'. */
  predicate IsExtension(ext: string) {
    |ext| > 0 && ext[0] == '.' && forall k :: 0 < k < |ext| ==> ext[k] != '.' && ext[k] != '/'
  }

  /** Some '.' of the final path component has a character other than '.'
      before it within that component: the condition under which
      `posixpath.splitext` splits off an extension. */
  predicate HasExtension(p: string) {
    exists k :: RFind(p, '/') < k < |p| && p[k] == '.' && NonDotBetween(p, RFind(p, '/') + 1, k)
  }

  /** SplitExt splits exactly when the final component has an extension, and
      then at its last '.'; a leading-dot name such as ".gpkg" and a dot only
      in a directory ("a.b/out") are left whole. */
  lemma SplitExtWhen(p: string)
    ensures SplitExt(p).1 != [] <==> HasExtension(p)
    ensures SplitExt(p).1 != [] ==> |SplitExt(p).0| == RFind(p, '.')
  {
    var sep := RFind(p, '/');
    var dot := RFind(p, '.');
    if HasExtension(p) {
      var k :| sep < k < |p| && p[k] == '.' && NonDotBetween(p, sep + 1, k);
      assert k <= dot;
      var j :| sep + 1 <= j < k && 0 <= j < |p| && p[j] != '.';
      assert NonDotBetween(p, sep + 1, dot);
    }
  }

  /** A hidden file and a dot in a directory name give no extension;
      "out.gpkg" does. */
  lemma SplitExtExamples()
    ensures SplitExt(".gpkg") == (".gpkg", [])
    ensures SplitExt("a.b/out") == ("a.b/out", [])
    ensures SplitExt("out.gpkg") == ("out", ".gpkg")
  {
    var hidden, nested, plain := ".gpkg", "a.b/out", "out.gpkg";
    assert forall k :: 0 <= k < |hidden| ==> hidden[k] != '/';
    RFindLast(hidden, '.', 0);
    RFindLast(nested, '/', 3);
    RFindLast(nested, '.', 1);
    assert forall k :: 0 <= k < |plain| ==> plain[k] != '/';
    RFindLast(plain, '.', 3);
    assert NonDotBetween(plain, 0, 3) by { assert plain[0] != '.'; }
    assert plain[..3] == "out" && plain[3..] == ".gpkg";
  }

  /** Appending an extension to a root whose final component has a character
      other than '.' is undone by SplitExt. */
  lemma SplitExtJoin(root: string, ext: string)
    requires IsExtension(ext)
    requires NonDotBetween(root, RFind(root, '/') + 1, |root|)
    ensures SplitExt(root + ext) == (root, ext)
  {
    var p := root + ext;
    JoinedDots(root, ext);
    var sep := RFind(root, '/');
    var k :| sep + 1 <= k < |root| && 0 <= k < |root| && root[k] != '.';
    assert p[k] == root[k];
    assert NonDotBetween(p, sep + 1, |root|);
    assert p[..|root|] == root;
    assert p[|root|..] == ext;
  }

  /** In `root + ext` the last '.' is the one opening `ext`, and the last
      '/' is the root's. */
  lemma JoinedDots(root: string, ext: string)
    requires IsExtension(ext)
    ensures RFind(root + ext, '.') == |root|
    ensures RFind(root + ext, '/') == RFind(root, '/')
  {
    var p := root + ext;
    assert p[|root|] == '.';
    assert forall k :: |root| <= k < |p| ==> p[k] == ext[k - |root|];
    RFindLast(p, '.', |root|);
    RFindAppend(root, ext, '/');
  }

  /** An index holding `c` with no `c` after it is what RFind returns. */
  lemma RFindLast(s: string, c: char, i: nat)
    requires i < |s| && s[i] == c
    requires forall k :: i < k < |s| ==> s[k] != c
    ensures RFind(s, c) == i
  {
  }

  /** Appending text without `c` leaves the last `c` where it was. */
  lemma RFindAppend(s: string, t: string, c: char)
    requires forall k :: 0 <= k < |t| ==> t[k] != c
    ensures RFind(s + t, c) == RFind(s, c)
    decreases |t|
  {
    if |t| > 0 {
      var st := s + t;
      assert st[..|st| - 1] == s + t[..|t| - 1];
      RFindAppend(s, t[..|t| - 1], c);
    } else {
      assert s + t == s;
    }
  }

  /** Python `posixpath.basename(p)`: what follows the last '/'. */
  function Basename(p: string): (b: string)
    ensures forall k :: 0 <= k < |b| ==> b[k] != '/'
    ensures |b| <= |p| && forall k :: 0 <= k < |b| ==> b[k] == p[|p| - |b| + k]
    ensures |b| < |p| ==> p[|p| - |b| - 1] == '/'
  {
    p[RFind(p, '/') + 1..]
  }

  /** The log file sits next to the output file: same root, extension ".log"
      (`on_output_file_changed` and `start_download`). */
  function LogPath(output: string): string {
    SplitExt(output).0 + ".log"
  }

  /** The log path swaps the output's extension for ".log": "dir/Top10NL.gpkg"
      gives "dir/Top10NL.log". */
  lemma LogPathReplacesExtension(root: string, ext: string)
    requires IsExtension(ext)
    requires NonDotBetween(root, RFind(root, '/') + 1, |root|)
    ensures LogPath(root + ext) == root + ".log"
  {
    SplitExtJoin(root, ext);
  }

  /** An output path with no '.' in its final component simply gets ".log"
      appended, whatever dots its directories hold. */
  lemma LogPathWithoutExtension(output: string)
    requires forall k :: RFind(output, '/') < k < |output| ==> output[k] != '.'
    ensures LogPath(output) == output + ".log"
  {
    SplitExtWhen(output);
  }

  /** The data source of one layer inside the GeoPackage, as OGR addresses it. */
  function LayerSource(output: string, feature: string): string {
    output + "|layername=" + feature
  }

  /** For one output file, the layer source names the feature uniquely. */
  lemma LayerSourceInjective(output: string, a: string, b: string)
    ensures LayerSource(output, a) == LayerSource(output, b) <==> a == b
  {
    var n := |output + "|layername="|;
    if LayerSource(output, a) == LayerSource(output, b) {
      assert LayerSource(output, a)[n..] == a;
      assert LayerSource(output, b)[n..] == b;
    }
  }

  const GroupSuffix: string := " (PDOK-OAPIF-download)"

  /** The layer-tree group that collects the layers of one GeoPackage. */
  function GroupName(output: string): string {
    Basename(output) + GroupSuffix
  }

  /** The group is named after the file name of the output, without its
      directory: "dir/Top10NL.gpkg" gives "Top10NL.gpkg (PDOK-OAPIF-download)". */
  lemma GroupNameOfFile(dir: string, file: string)
    requires forall k :: 0 <= k < |file| ==> file[k] != '/'
    ensures GroupName(dir + "/" + file) == file + GroupSuffix
  {
    var d := dir + "/";
    RFindAppend(d, file, '/');
    assert RFind(d, '/') == |dir|;
    assert (d + file)[|d|..] == file;
  }
}
