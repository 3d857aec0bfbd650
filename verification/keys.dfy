/** Mapping between remote object keys and local file names, and the etag
    normalisation. The publisher uploads `name` under `"#{prefix}/#{name}"`
    and maps a listed key back with `key.gsub("#{prefix}/", "")`, which
    removes EVERY occurrence of `prefix/`, not only a leading one. */
module Keys {
  import Seqs

  /** `pat` occurs in `s` starting at position `i`. */
  predicate OccursAt(pat: string, s: string, i: int)
  {
    0 <= i && i + |pat| <= |s| && s[i..i + |pat|] == pat
  }

  predicate Occurs(pat: string, s: string)
  {
    exists i :: 0 <= i <= |s| && OccursAt(pat, s, i)
  }

  /** An occurrence in the tail is an occurrence in the whole, one further on. */
  lemma OccursTail(pat: string, s: string)
    requires |s| > 0
    ensures Occurs(pat, s) <==> OccursAt(pat, s, 0) || Occurs(pat, s[1..])
  {
    if Occurs(pat, s) {
      var i :| 0 <= i <= |s| && OccursAt(pat, s, i);
      if i > 0 {
        assert s[1..][i - 1..i - 1 + |pat|] == s[i..i + |pat|];
        assert OccursAt(pat, s[1..], i - 1);
      }
    }
    if Occurs(pat, s[1..]) {
      var i :| 0 <= i <= |s[1..]| && OccursAt(pat, s[1..], i);
      assert s[1..][i..i + |pat|] == s[i + 1..i + 1 + |pat|];
      assert OccursAt(pat, s, i + 1);
    }
  }

  /** `s.gsub(pat, "")`: scanning left to right, each occurrence found is
      removed and the scan resumes after it; text brought together by a
      removal is not searched again. */
  function RemoveAll(s: string, pat: string): (r: string)
    requires |pat| > 0
    ensures |r| <= |s|
    ensures |s| < |pat| ==> r == s
    decreases |s|
  {
    if |s| < |pat| then s
    else if s[..|pat|] == pat then RemoveAll(s[|pat|..], pat)
    else [s[0]] + RemoveAll(s[1..], pat)
  }

  /** `gsub` leaves a string unchanged exactly when the pattern does not
      occur in it; otherwise the string gets shorter. */
  lemma {:induction false} RemoveAllUnchanged(s: string, pat: string)
    requires |pat| > 0
    ensures RemoveAll(s, pat) == s <==> !Occurs(pat, s)
    decreases |s|
  {
    if |s| < |pat| {
    } else if s[..|pat|] == pat {
      assert OccursAt(pat, s, 0);
    } else {
      OccursTail(pat, s);
      RemoveAllUnchanged(s[1..], pat);
      assert !OccursAt(pat, s, 0);
      assert s == [s[0]] + s[1..];
    }
  }

  /** A pattern whose first character is absent does not occur. */
  lemma FirstCharAbsent(pat: string, s: string)
    requires |pat| > 0 && pat[0] !in s
    ensures !Occurs(pat, s)
  {
    forall i | 0 <= i <= |s|
      ensures !OccursAt(pat, s, i)
    {
      if i + |pat| <= |s| {
        assert s[i..i + |pat|][0] == s[i];
      }
    }
  }

  /** The remote key a local file is uploaded to and deleted from: the
      prefix, a `/`, and the name. Mapped back with the `gsub` of the
      listing, the key gives the name exactly when the name does not itself
      contain `prefix/`. */
  function RemoteKey(prefix: string, name: string): (r: string)
    ensures |r| == |prefix| + 1 + |name|
    ensures r[..|prefix| + 1] == prefix + "/" && r[|prefix| + 1..] == name
    ensures LocalName(prefix, r) == name <==> !Occurs(prefix + "/", name)
  {
    RemoveAllFront(prefix + "/", name);
    RemoveAllUnchanged(name, prefix + "/");
    prefix + "/" + name
  }

  /** The local name a listed remote key is compared under. A key is taken
      verbatim as a name exactly when it contains no `prefix/` at all,
      wherever the key starts. */
  function LocalName(prefix: string, key: string): (r: string)
    ensures |r| <= |key|
    ensures r == key <==> !Occurs(prefix + "/", key)
  {
    RemoveAllUnchanged(key, prefix + "/");
    RemoveAll(key, prefix + "/")
  }

  /** Key round trip: a name that does not itself contain `prefix/` comes
      back unchanged from its upload key. */
  lemma KeyRoundTrip(prefix: string, name: string)
    requires !Occurs(prefix + "/", name)
    ensures LocalName(prefix, RemoteKey(prefix, name)) == name
  {
    var pat := prefix + "/";
    assert RemoteKey(prefix, name) == pat + name;
    assert (pat + name)[..|pat|] == pat;
    assert (pat + name)[|pat|..] == name;
    RemoveAllUnchanged(name, pat);
  }

  /** The other direction: a listed key of the form `prefix/rest`, with no
      further `prefix/` in `rest`, is deleted or overwritten under the very
      key it was listed under. */
  lemma NameRoundTrip(prefix: string, key: string)
    requires |prefix| + 1 <= |key| && key[..|prefix| + 1] == prefix + "/"
    requires !Occurs(prefix + "/", key[|prefix| + 1..])
    ensures RemoteKey(prefix, LocalName(prefix, key)) == key
  {
    var rest := key[|prefix| + 1..];
    assert key == (prefix + "/") + rest;
    KeyRoundTrip(prefix, rest);
  }

  /** On keys `prefix/rest` whose `rest` is free of `prefix/`, the key to
      name mapping is injective: two such keys compared under the same name
      are the same key. */
  lemma LocalNameInjective(prefix: string, a: string, b: string)
    requires !Occurs(prefix + "/", a) && !Occurs(prefix + "/", b)
    requires LocalName(prefix, RemoteKey(prefix, a)) == LocalName(prefix, RemoteKey(prefix, b))
    ensures RemoteKey(prefix, a) == RemoteKey(prefix, b)
  {
    KeyRoundTrip(prefix, a);
    KeyRoundTrip(prefix, b);
  }

  /** Off those keys it is not: `prefix/name` and `prefix/prefix/name` are
      two different keys compared under the one name `name`. */
  lemma TwoKeysOneName(prefix: string, name: string)
    requires !Occurs(prefix + "/", name)
    ensures RemoteKey(prefix, name) != RemoteKey(prefix, RemoteKey(prefix, name))
    ensures LocalName(prefix, RemoteKey(prefix, RemoteKey(prefix, name))) == name
    ensures LocalName(prefix, RemoteKey(prefix, name)) == name
  {
    var pat := prefix + "/";
    KeyRoundTrip(prefix, name);
    assert RemoteKey(prefix, RemoteKey(prefix, name)) == pat + (pat + name);
    RemoveAllFront(pat, pat + name);
    RemoveAllFront(pat, name);
  }

  /** A leading character that cannot start the pattern is kept. */
  lemma RemoveAllHead(c: char, rest: string, pat: string)
    requires |pat| > 0 && c != pat[0]
    ensures RemoveAll([c] + rest, pat) == [c] + RemoveAll(rest, pat)
  {
    assert ([c] + rest)[1..] == rest;
    if |[c] + rest| < |pat| {
      assert RemoveAll(rest, pat) == rest;
    }
  }

  /** A leading occurrence of the pattern is dropped. */
  lemma RemoveAllFront(pat: string, rest: string)
    requires |pat| > 0
    ensures RemoveAll(pat + rest, pat) == RemoveAll(rest, pat)
  {
    assert (pat + rest)[..|pat|] == pat;
    assert (pat + rest)[|pat|..] == rest;
  }

  /** A stretch free of the pattern's first character is kept verbatim. */
  lemma {:induction false} RemoveAllKeepsFreeStretch(a: string, rest: string, pat: string)
    requires |pat| > 0 && pat[0] !in a
    ensures RemoveAll(a + rest, pat) == a + RemoveAll(rest, pat)
  {
    if |a| > 0 {
      var tail := a[1..] + rest;
      var done := RemoveAll(rest, pat);
      assert RemoveAll(a + rest, pat) == [a[0]] + RemoveAll(tail, pat) by {
        assert a + rest == [a[0]] + tail;
        RemoveAllHead(a[0], tail, pat);
      }
      assert RemoveAll(tail, pat) == a[1..] + done by {
        RemoveAllKeepsFreeStretch(a[1..], rest, pat);
      }
      assert a + done == [a[0]] + (a[1..] + done);
    } else {
      assert a + rest == rest;
    }
  }

  /** A name that repeats the prefix as an inner directory does not survive
      the round trip: when `dir` does not contain the prefix's first
      character, `dir/prefix/file` is compared as `dir/file`. With prefix
      `site`, the file `blog/site/x.html` is uploaded to
      `site/blog/site/x.html`, which is compared as `blog/x.html`. */
  lemma InnerPrefixCollapses(prefix: string, dir: string, file: string)
    requires |prefix| > 0 && prefix[0] != '/' && prefix[0] !in dir
    requires !Occurs(prefix + "/", file)
    ensures LocalName(prefix, RemoteKey(prefix, dir + "/" + prefix + "/" + file)) == dir + "/" + file
  {
    var pat := prefix + "/";
    var name := dir + "/" + prefix + "/" + file;
    assert RemoteKey(prefix, name) == pat + ((dir + "/") + (pat + file));
    RemoveAllFront(pat, (dir + "/") + (pat + file));
    assert pat[0] !in dir + "/";
    RemoveAllKeepsFreeStretch(dir + "/", pat + file, pat);
    RemoveAllFront(pat, file);
    RemoveAllUnchanged(file, pat);
  }

  predicate NotQuote(c: char)
  {
    c != '"'
  }

  /** Removing a one-character pattern filters out that character. */
  lemma {:induction false} RemoveQuotesIsFilter(etag: string)
    ensures RemoveAll(etag, "\"") == Seqs.Filter(etag, NotQuote)
  {
    if |etag| > 0 {
      RemoveQuotesIsFilter(etag[1..]);
      assert etag[..1] == [etag[0]];
    }
  }

  /** `etag.gsub("\"", "")`: every double quote removed, every other
      character kept with its multiplicity. */
  function StripQuotes(etag: string): (r: string)
    ensures '"' !in r
    ensures forall c :: c != '"' ==> multiset(r)[c] == multiset(etag)[c]
  {
    RemoveQuotesIsFilter(etag);
    RemoveAll(etag, "\"")
  }

  /** An etag without quotes is its own normal form. */
  lemma {:induction false} StripQuotesUnquoted(etag: string)
    requires '"' !in etag
    ensures StripQuotes(etag) == etag
  {
    FirstCharAbsent("\"", etag);
    RemoveAllUnchanged(etag, "\"");
  }

  /** Stripping quotes twice is stripping them once. */
  lemma StripQuotesIdempotent(etag: string)
    ensures StripQuotes(StripQuotes(etag)) == StripQuotes(etag)
  {
    StripQuotesUnquoted(StripQuotes(etag));
  }

  /** `gsub` can leave the pattern behind: with a one-letter prefix `c`,
      the key `cc//` loses the `c/` in its middle and becomes `c/`, whose
      upload key is `c/c/`. */
  lemma DoubledLeadCollapses(c: char)
    requires c != '/'
    ensures LocalName([c], [c, c, '/', '/']) == [c, '/']
    ensures RemoteKey([c], [c, '/']) == [c, '/', c, '/']
  {
    var pat := [c] + "/";
    var key := [c, c, '/', '/'];
    assert key[..|pat|][1] == c != '/' == pat[1];
    assert key == [c] + (pat + "/");
    RemoveAllFront(pat, "/");
    assert RemoveAll([c] + (pat + "/"), pat) == [c] + RemoveAll(pat + "/", pat);
  }
}
