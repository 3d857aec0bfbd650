/** The two path classifiers of the publisher: the dotfile filter applied to
    the enumerated site directory, and the test that picks the file types
    gzip-compressed before upload. Both are Ruby regular expressions, whose
    `^` and `$` are LINE anchors: `^` also matches just after a newline and
    `$` also matches just before one. The predicates below follow that
    reading; the lemmas relate them to the plain path reading for names
    without a newline. */
module PathRules {
  import Seqs

  /** `^` matches at position `i`: the start of the string or of a line. */
  predicate LineStart(s: string, i: int)
    requires 0 <= i <= |s|
  {
    i == 0 || s[i - 1] == '\n'
  }

  /** `$` matches at position `i`: the end of the string or of a line. */
  predicate LineEnd(s: string, i: int)
    requires 0 <= i <= |s|
  {
    i == |s| || s[i] == '\n'
  }

  // ---------------------------------------------------------------------
  // Dotfile filter: DOTFILE_REGEX = (\/|^)\..*
  // ---------------------------------------------------------------------

  /** The dotfile pattern matches with its `.` at position `i`. */
  predicate DotAt(s: string, i: int)
    requires 0 <= i < |s|
  {
    s[i] == '.' && (LineStart(s, i) || s[i - 1] == '/')
  }

  /** The language of the dotfile pattern: some `.` right after a `/` or at
      a line start. */
  predicate DotfilePattern(s: string)
  {
    exists i :: 0 <= i < |s| && DotAt(s, i)
  }

  /** The `/`-separated segments of a path; `"a//b/"` has segments
      `"a"`, `""`, `"b"` and `""`. */
  function Segments(s: string): (r: seq<string>)
    ensures |r| >= 1
    ensures forall k :: 0 <= k < |r| ==> '/' !in r[k]
  {
    if |s| == 0 then [""]
    else
      var rest := Segments(s[1..]);
      if s[0] == '/' then [""] + rest
      else [[s[0]] + rest[0]] + rest[1..]
  }

  /** Glues segments back together with `/`. */
  function JoinSegments(segs: seq<string>): (r: string)
    requires |segs| >= 1
  {
    if |segs| == 1 then segs[0] else segs[0] + "/" + JoinSegments(segs[1..])
  }

  /** Splitting a path into segments loses nothing. */
  lemma {:induction false} SegmentsRoundTrip(s: string)
    ensures JoinSegments(Segments(s)) == s
  {
    if |s| > 0 {
      var rest := Segments(s[1..]);
      SegmentsRoundTrip(s[1..]);
      if s[0] == '/' {
        assert ([""] + rest)[1..] == rest;
      } else {
        var segs := [[s[0]] + rest[0]] + rest[1..];
        if |rest| > 1 {
          assert segs[1..] == rest[1..];
          assert JoinSegments(rest) == rest[0] + "/" + JoinSegments(rest[1..]);
        }
        assert s == [s[0]] + s[1..];
      }
    }
  }

  predicate StartsWithDot(seg: string)
  {
    |seg| > 0 && seg[0] == '.'
  }

  /** Some segment of the path names a hidden entry. */
  predicate HasDotSegment(s: string)
  {
    exists k :: 0 <= k < |Segments(s)| && StartsWithDot(Segments(s)[k])
  }

  lemma FirstSegmentDot(s: string)
    ensures StartsWithDot(Segments(s)[0]) <==> |s| > 0 && s[0] == '.'
  {
  }

  /** A segment after the first starts with `.`. */
  predicate LaterDotSegment(s: string)
  {
    exists k :: 1 <= k < |Segments(s)| && StartsWithDot(Segments(s)[k])
  }

  /** Some `.` directly follows a `/`. */
  predicate DotAfterSlash(s: string)
  {
    exists i :: 1 <= i < |s| && s[i] == '.' && s[i - 1] == '/'
  }

  lemma DotAfterSlashCons(s: string)
    requires |s| > 0
    ensures DotAfterSlash(s) <==> (|s| > 1 && s[0] == '/' && s[1] == '.') || DotAfterSlash(s[1..])
  {
    var t := s[1..];
    if DotAfterSlash(s) {
      var i :| 1 <= i < |s| && s[i] == '.' && s[i - 1] == '/';
      if i > 1 {
        assert t[i - 1] == '.' && t[i - 2] == '/';
      }
    }
    if DotAfterSlash(t) {
      var i :| 1 <= i < |t| && t[i] == '.' && t[i - 1] == '/';
      assert s[i + 1] == '.' && s[i] == '/';
    }
  }

  lemma LaterDotSegmentCons(s: string)
    requires |s| > 0
    ensures LaterDotSegment(s) <==>
      if s[0] == '/' then StartsWithDot(Segments(s[1..])[0]) || LaterDotSegment(s[1..])
      else LaterDotSegment(s[1..])
  {
    var rest := Segments(s[1..]);
    if s[0] == '/' {
      assert Segments(s)[1..] == rest;
      if LaterDotSegment(s[1..]) {
        var k :| 1 <= k < |rest| && StartsWithDot(rest[k]);
        assert StartsWithDot(Segments(s)[k + 1]);
      }
      if LaterDotSegment(s) {
        var k :| 1 <= k < |Segments(s)| && StartsWithDot(Segments(s)[k]);
        assert StartsWithDot(rest[k - 1]);
      }
    } else {
      assert Segments(s)[1..] == rest[1..];
      if LaterDotSegment(s[1..]) {
        var k :| 1 <= k < |rest| && StartsWithDot(rest[k]);
        assert StartsWithDot(Segments(s)[k]);
      }
    }
  }

  /** A segment after the first starts with `.` exactly when some `.` follows a `/`. */
  lemma {:induction false} LaterSegmentDot(s: string)
    ensures LaterDotSegment(s) <==> DotAfterSlash(s)
  {
    if |s| > 0 {
      LaterSegmentDot(s[1..]);
      FirstSegmentDot(s[1..]);
      DotAfterSlashCons(s);
      LaterDotSegmentCons(s);
    }
  }

  /** For a path without a newline, the dotfile pattern matches exactly when
      some `/`-separated segment begins with `.`: `.env` and `a/.hidden/b.txt`
      match, `a/b.txt` and `a.b/c` do not. */
  lemma DotfileIsDotSegment(s: string)
    requires '\n' !in s
    ensures DotfilePattern(s) <==> HasDotSegment(s)
  {
    FirstSegmentDot(s);
    LaterSegmentDot(s);
    if DotfilePattern(s) {
      var i :| 0 <= i < |s| && DotAt(s, i);
      if i > 0 {
        assert s[i - 1] != '\n';
      }
    }
    if HasDotSegment(s) {
      var k :| 0 <= k < |Segments(s)| && StartsWithDot(Segments(s)[k]);
      if k == 0 {
        assert DotAt(s, 0);
      } else {
        assert LaterDotSegment(s);
        var i :| 1 <= i < |s| && s[i] == '.' && s[i - 1] == '/';
        assert DotAt(s, i);
      }
    }
  }

  /** `file.match(DOTFILE_REGEX)` is truthy. A path that starts with `.`
      always matches; one without a newline matches exactly when one of its
      segments is hidden. */
  function MatchesDotfile(s: string): (r: bool)
    ensures |s| > 0 && s[0] == '.' ==> r
    ensures '\n' !in s ==> (r <==> HasDotSegment(s))
  {
    assert |s| > 0 && s[0] == '.' ==> DotAt(s, 0);
    if '\n' !in s then DotfileIsDotSegment(s); DotfilePattern(s) else DotfilePattern(s)
  }

  /** The local inventory keeps an enumerated path exactly when it is not a
      directory and does not match the dotfile pattern. */
  predicate IsLocalFile(path: string, isDirectory: string -> bool)
  {
    !isDirectory(path) && !MatchesDotfile(path)
  }

  /** `local_files`: the enumeration with directories and dotfiles rejected,
      in enumeration order. */
  function LocalFiles(found: seq<string>, isDirectory: string -> bool): (r: seq<string>)
    ensures forall p :: p in r <==> p in found && !isDirectory(p) && !MatchesDotfile(p)
    ensures forall p :: p in r ==> multiset(r)[p] == multiset(found)[p]
  {
    Seqs.Filter(found, p => IsLocalFile(p, isDirectory))
  }

  /** Hidden paths never reach the local inventory. */
  lemma HiddenPathsExcluded(found: seq<string>, isDirectory: string -> bool)
    ensures ".env" !in LocalFiles(found, isDirectory)
    ensures "a/.hidden/b.txt" !in LocalFiles(found, isDirectory)
  {
    assert DotAt(".env", 0);
    assert DotAt("a/.hidden/b.txt", 2);
  }

  // ---------------------------------------------------------------------
  // Compressible types: GZIP_REGEX = \.html$|\.css$|\.js$|\.json$|\.svg$
  // ---------------------------------------------------------------------

  const CompressibleExtensions: seq<string> := [".html", ".css", ".js", ".json", ".svg"]

  /** One alternative of the pattern matches with `ext` starting at `j`. */
  predicate ExtensionAt(s: string, ext: string, j: int)
  {
    0 <= j && j + |ext| <= |s| && s[j..j + |ext|] == ext && LineEnd(s, j + |ext|)
  }

  /** The language of the compressible-type pattern: one of the extensions
      followed by a line end. */
  predicate GzipPattern(filename: string)
  {
    exists e, j :: e in CompressibleExtensions && 0 <= j <= |filename| && ExtensionAt(filename, e, j)
  }

  predicate EndsWith(s: string, suffix: string)
  {
    |suffix| <= |s| && s[|s| - |suffix|..] == suffix
  }

  predicate HasCompressibleSuffix(filename: string)
  {
    EndsWith(filename, ".html") || EndsWith(filename, ".css") || EndsWith(filename, ".js")
    || EndsWith(filename, ".json") || EndsWith(filename, ".svg")
  }

  /** A name ending in one of the extensions matches, newline or not. */
  lemma SuffixMatches(filename: string)
    ensures HasCompressibleSuffix(filename) ==> GzipPattern(filename)
  {
    if EndsWith(filename, ".html") {
      ExtensionAtEnd(filename, ".html");
    } else if EndsWith(filename, ".css") {
      ExtensionAtEnd(filename, ".css");
    } else if EndsWith(filename, ".js") {
      ExtensionAtEnd(filename, ".js");
    } else if EndsWith(filename, ".json") {
      ExtensionAtEnd(filename, ".json");
    } else if EndsWith(filename, ".svg") {
      ExtensionAtEnd(filename, ".svg");
    }
  }

  lemma ExtensionAtEnd(filename: string, e: string)
    requires e in CompressibleExtensions && EndsWith(filename, e)
    ensures GzipPattern(filename)
  {
    assert ExtensionAt(filename, e, |filename| - |e|);
  }

  /** For a name without a newline, the pattern is a suffix test over the
      five extensions. */
  lemma CompressIsSuffixTest(filename: string)
    requires '\n' !in filename
    ensures GzipPattern(filename) <==> HasCompressibleSuffix(filename)
  {
    if GzipPattern(filename) {
      var e, j :| e in CompressibleExtensions && 0 <= j <= |filename| && ExtensionAt(filename, e, j);
      assert EndsWith(filename, e);
    }
    SuffixMatches(filename);
  }

  /** `should_compress_file?(filename)`. A name ending in `.html`, `.css`,
      `.js`, `.json` or `.svg` is always compressed; a name without a
      newline is compressed only then. */
  function ShouldCompress(filename: string): (r: bool)
    ensures HasCompressibleSuffix(filename) ==> r
    ensures '\n' !in filename ==> (r <==> HasCompressibleSuffix(filename))
  {
    SuffixMatches(filename);
    if '\n' !in filename then CompressIsSuffixTest(filename); GzipPattern(filename)
    else GzipPattern(filename)
  }
}
