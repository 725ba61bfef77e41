/** File-name handling shared by the client and the server: lower-casing,
    `split(sep)` followed by taking the last piece, and prefix/suffix tests. */
module Names {

  /** Lower-cases one ASCII letter; every other character is kept. */
  function LowerChar(c: char): char
  {
    if 'A' <= c <= 'Z' then (c as int + 32) as char else c
  }

  /** JavaScript `toLowerCase()` / Python `lower()`, restricted to ASCII letters. */
  function Lower(s: string): (r: string)
    ensures |r| == |s|
  {
    if s == [] then [] else [LowerChar(s[0])] + Lower(s[1..])
  }

  predicate StartsWith(s: string, prefix: string)
  {
    |prefix| <= |s| && s[..|prefix|] == prefix
  }

  predicate EndsWith(s: string, suffix: string)
  {
    |suffix| <= |s| && s[|s| - |suffix|..] == suffix
  }

  /** The last piece of `s.split(sep)`: the text after the last `sep`, or all
      of `s` when it holds no `sep`. It is the longest suffix of `s` free of
      `sep`. */
  function AfterLast(s: string, sep: char): (r: string)
    ensures sep !in r
    ensures EndsWith(s, r)
    ensures |r| < |s| ==> s[|s| - |r| - 1] == sep
  {
    if s == [] then []
    else if s[|s| - 1] == sep then []
    else AfterLast(s[..|s| - 1], sep) + [s[|s| - 1]]
  }

  /** A file name's extension as both the client (`name.split(".").pop()
      .toLowerCase()`) and the server (`filename.split(".")[-1].lower()`)
      compute it. */
  function Extension(name: string): string
  {
    Lower(AfterLast(name, '.'))
  }

  /** The three facts in AfterLast's contract determine its result. */
  lemma AfterLastUnique(s: string, sep: char, t: string)
    requires sep !in t && EndsWith(s, t)
    requires |t| < |s| ==> s[|s| - |t| - 1] == sep
    ensures AfterLast(s, sep) == t
  {
  }

  /** A name without the separator is its own last piece. */
  lemma AfterLastWithoutSeparator(s: string, sep: char)
    requires sep !in s
    ensures AfterLast(s, sep) == s
  {
    AfterLastUnique(s, sep, s);
  }

  /** `stem.ext` has extension `ext` (lower-cased) whenever `ext` holds no dot. */
  lemma ExtensionOfDottedName(stem: string, ext: string)
    requires '.' !in ext
    ensures AfterLast(stem + "." + ext, '.') == ext
    ensures Extension(stem + "." + ext) == Lower(ext)
  {
    var s := stem + "." + ext;
    assert s[|s| - |ext|..] == ext;
    AfterLastUnique(s, '.', ext);
  }

  lemma {:induction false} LowerAppend(a: string, b: string)
    ensures Lower(a + b) == Lower(a) + Lower(b)
  {
    if a != [] {
      assert (a + b)[1..] == a[1..] + b;
      LowerAppend(a[1..], b);
    } else {
      assert a + b == b;
    }
  }

  lemma {:induction false} LowerIdempotent(s: string)
    ensures Lower(Lower(s)) == Lower(s)
  {
    if s != [] {
      LowerIdempotent(s[1..]);
    }
  }

  /** Lower-casing commutes with taking the last piece, because lower-casing
      never creates or destroys the separator. */
  lemma {:induction false} AfterLastLower(s: string, sep: char)
    requires LowerChar(sep) == sep
    requires forall c :: LowerChar(c) == sep ==> c == sep
    ensures AfterLast(Lower(s), sep) == Lower(AfterLast(s, sep))
  {
    if s != [] {
      var init := s[..|s| - 1];
      assert s == init + [s[|s| - 1]];
      LowerAppend(init, [s[|s| - 1]]);
      assert Lower(s)[..|s| - 1] == Lower(init);
      if s[|s| - 1] != sep {
        AfterLastLower(init, sep);
        LowerAppend(AfterLast(init, sep), [s[|s| - 1]]);
      }
    }
  }

  /** The extension does not depend on the case of the name: `photo.DNG`,
      `PHOTO.dng` and `photo.dng` all have extension `dng`. */
  lemma ExtensionIgnoresCase(name: string)
    ensures Extension(Lower(name)) == Extension(name)
  {
    AfterLastLower(name, '.');
    LowerIdempotent(AfterLast(name, '.'));
  }

  lemma {:induction false} LowerAt(s: string, i: nat)
    requires i < |s|
    ensures Lower(s)[i] == LowerChar(s[i])
  {
    if i > 0 {
      LowerAt(s[1..], i - 1);
    }
  }

  /** Lower-casing neither adds nor removes dots. */
  lemma LowerKeepsDots(s: string)
    ensures '.' in Lower(s) <==> '.' in s
  {
    if '.' in s {
      var k :| 0 <= k < |s| && s[k] == '.';
      LowerAt(s, k);
    }
    if '.' in Lower(s) {
      var k :| 0 <= k < |Lower(s)| && Lower(s)[k] == '.';
      LowerAt(s, k);
    }
  }

  /** For a dot-free `e`, a name ends with "." + e exactly when it has a dot
      and its last dot-separated piece is `e`. */
  lemma DottedSuffixIffLastPiece(s: string, e: string)
    requires '.' !in e
    ensures EndsWith(s, "." + e) <==> '.' in s && AfterLast(s, '.') == e
  {
    if EndsWith(s, "." + e) {
      var stem := s[..|s| - |e| - 1];
      assert s == stem + "." + e;
      ExtensionOfDottedName(stem, e);
      assert s[|s| - |e| - 1] == '.';
    }
    if '.' in s && AfterLast(s, '.') == e {
      assert |e| < |s| by {
        if |e| == |s| {
          // e would be all of s, dot included
          assert false;
        }
      }
      assert s[|s| - |e| - 1..] == "." + e;
    }
  }

  lemma EndsWithAppend(a: string, b: string)
    ensures EndsWith(a + b, b)
  {
    assert (a + b)[|a + b| - |b|..] == b;
  }
}
