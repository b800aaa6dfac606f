/**
 * URL handling on the way to a response: the clean-up of the request URL
 * before any handler sees it, and the fallback of the directory handler from
 * a request URL to the longest registered directory above it.
 */
module RequestUrls {

  datatype Option<T> = None | Some(value: T)

  // ---------------------------------------------------------------------
  // Cleaning the request URL

  predicate IsStripChar(c: char) {
    c == ' ' || c == '/'
  }

  /**
   * The request URL with its leading blanks and slashes dropped, stopping
   * early so that at least one character of a non-empty URL is left.
   */
  function Stripped(url: string): (r: string)
    ensures |r| <= |url| && r == url[|url| - |r|..]
    ensures forall i :: 0 <= i < |url| - |r| ==> IsStripChar(url[i])
    ensures |r| < 2 || !IsStripChar(r[0])
    ensures url != "" ==> r != ""
    decreases |url|
  {
    if |url| >= 2 && IsStripChar(url[0]) then Stripped(url[1..]) else url
  }

  /** The loop that drops the first character while the URL is long enough and starts with ' ' or '/'. */
  method StripRequestUrl(url: string) returns (r: string)
    ensures r == Stripped(url)
  {
    r := url;
    while |r| >= 2 && IsStripChar(r[0])
      invariant Stripped(r) == Stripped(url)
      decreases |r|
    {
      r := r[1..];
    }
  }

  /** Stripping an already stripped URL changes nothing. */
  lemma StrippedIdempotent(url: string)
    ensures Stripped(Stripped(url)) == Stripped(url)
  {
  }

  // ---------------------------------------------------------------------
  // Directory prefixes

  predicate EndsWithSlash(s: string) {
    |s| > 0 && s[|s| - 1] == '/'
  }

  /** The key looked up first: the URL itself if it names a directory, else the URL with '/' appended. */
  function DirectoryKey(s: string): string {
    if EndsWithSlash(s) then s else s + "/"
  }

  /**
   * The longest proper prefix of s that ends in '/', or "" when s has no
   * '/' before its last character.
   */
  function ParentPrefix(s: string): (r: string)
    ensures s != "" ==> |r| < |s|
    ensures |r| <= |s| && r == s[..|r|]
    ensures r == "" || EndsWithSlash(r)
    ensures r != "" ==> s[|r| - 1] == '/'
    ensures forall k :: |r| <= k < |s| - 1 ==> s[k] != '/'
    decreases |s|
  {
    if |s| <= 1 then ""
    else if s[|s| - 2] == '/' then s[..|s| - 1]
    else ParentPrefix(s[..|s| - 1])
  }

  /** The text after the matched prefix, with its leading slashes dropped. */
  function TrimSlashes(s: string): (r: string)
    ensures |r| <= |s| && r == s[|s| - |r|..]
    ensures forall i :: 0 <= i < |s| - |r| ==> s[i] == '/'
    ensures r == "" || r[0] != '/'
    decreases |s|
  {
    if s != [] && s[0] == '/' then TrimSlashes(s[1..]) else s
  }

  // ---------------------------------------------------------------------
  // The fallback walk as written

  /** One pass of the backward scan that starts at the last character. */
  function StepAsWritten(s: string): string {
    if EndsWithSlash(s) then s else ParentPrefix(s)
  }

  /**
   * The scan as written: from the last character down, cut after the first
   * '/' met, or give "" once index 0 is passed without one. A string that
   * already ends in '/' is cut after its own last character, that is, kept.
   */
  method ScanAsWritten(s: string) returns (r: string)
    ensures r == StepAsWritten(s)
    ensures EndsWithSlash(s) ==> r == s
  {
    r := s;
    var i := |s| - 1;
    while i >= 0
      invariant -1 <= i <= |s| - 1
      invariant s != "" ==> i >= 0
      invariant forall k :: i < k < |s| ==> s[k] != '/'
    {
      if s[i] == '/' {
        assert i == |s| - 1 || ParentPrefix(s) == s[..i + 1];
        return s[..i + 1];
      }
      if i == 0 {
        return "";
      }
      i := i - 1;
    }
  }

  /** The state of the as-written walk after n passes. */
  function IterateAsWritten(s: string, n: nat): string
    decreases n
  {
    if n == 0 then s else IterateAsWritten(StepAsWritten(s), n - 1)
  }

  /** Once the candidate ends in '/', no number of passes moves it. */
  lemma {:induction false} StallsOnSlash(s: string, n: nat)
    requires EndsWithSlash(s)
    ensures IterateAsWritten(s, n) == s
    decreases n
  {
    if n > 0 {
      StallsOnSlash(s, n - 1);
    }
  }

  /**
   * Request "a/b" with neither "a/b/" nor "a/" registered: the first lookup
   * misses, the first pass yields "a/", and every later pass yields "a/"
   * again, a non-empty miss, so the loop's exit test never holds.
   */
  lemma DirectoryWalkAsWrittenHangs<H>(table: map<string, H>)
    requires "a/b/" !in table && "a/" !in table
    ensures DirectoryKey("a/b") !in table
    ensures forall n: nat :: n >= 1 ==> IterateAsWritten("a/b", n) == "a/"
  {
    assert DirectoryKey("a/b") == "a/b/";
    assert ParentPrefix("a/b") == "a/b"[..2] == "a/";
    forall n: nat | n >= 1
      ensures IterateAsWritten("a/b", n) == "a/"
    {
      StallsOnSlash("a/", n - 1);
    }
  }

  // ---------------------------------------------------------------------
  // The fallback walk, corrected

  /** The backward scan started at the second-to-last character, so a trailing '/' is skipped. */
  method ParentDirectory(s: string) returns (r: string)
    ensures r == ParentPrefix(s)
  {
    var i := |s| - 2;
    while i >= 0
      invariant -2 <= i <= |s| - 2
      invariant forall k :: 0 <= k && i < k <= |s| - 2 ==> s[k] != '/'
    {
      if s[i] == '/' {
        return s[..i + 1];
      }
      i := i - 1;
    }
    return "";
  }

  /**
   * The directory a non-empty candidate falls back to: the longest proper
   * prefix ending in '/' that is registered, or "" when none is.
   */
  function Walk<H>(s: string, table: map<string, H>): (p: string)
    requires s != ""
    ensures |p| < |s| && p == s[..|p|]
    ensures p == "" || (EndsWithSlash(p) && p in table)
    ensures forall n :: |p| < n < |s| && s[n - 1] == '/' ==> s[..n] !in table
    decreases |s|
  {
    var parent := ParentPrefix(s);
    if parent in table || parent == "" then parent
    else
      var p := Walk(parent, table);
      assert forall n :: |p| < n <= |parent| ==> s[..n] == parent[..n];
      p
  }

  /** The leading '/' dropped (corrected: one character, not the rest of the string). */
  function StripSlash(s: string): (r: string)
    ensures s != "" && s[0] == '/' ==> r == s[1..]
    ensures s == "" || s[0] != '/' ==> r == s
  {
    if s != "" && s[0] == '/' then s[1..] else s
  }

  /** Remove(0) as written: everything from index 0 on goes, leaving "". */
  function StripSlashAsWritten(s: string): (r: string)
    ensures s != "" && s[0] == '/' ==> r == ""
    ensures s == "" || s[0] != '/' ==> r == s
  {
    if s != "" && s[0] == '/' then "" else s
  }

  /** "/a" loses its whole text under Remove(0) while the corrected strip keeps "a". */
  lemma StripSlashAsWrittenLosesUrl()
    ensures StripSlashAsWritten("/a") == "" && StripSlash("/a") == "a"
  {
  }

  /**
   * On URLs that went through the request-URL clean-up the two strips agree:
   * a cleaned URL starts with '/' only when it is "/" itself.
   */
  lemma StripSlashAgreesAfterCleanUp(url: string)
    ensures StripSlashAsWritten(Stripped(url)) == StripSlash(Stripped(url))
  {
  }

  /**
   * The directory handler's choice of registered directory function for a
   * request URL, with the corrected strip and scan. `table` holds the
   * registered directory URLs; a missing key is the null the map's indexer
   * hands out. `subUrl` is what the function is called with: the request URL
   * after the matched directory, leading slashes trimmed.
   */
  method GetResponseFunction<H>(url: string, table: map<string, H>) returns (response: Option<H>, subUrl: string)
    ensures var start := StripSlash(url);
      if DirectoryKey(start) in table then
        response == Some(table[DirectoryKey(start)]) && subUrl == ""
      else if start == "" then
        response == None && subUrl == ""
      else
        var p := Walk(start, table);
        |p| <= |url| &&
        response == (if p in table then Some(table[p]) else None) &&
        subUrl == TrimSlashes(url[|p|..])
  {
    var bestUrlMatch := StripSlash(url);
    var key := DirectoryKey(bestUrlMatch);
    if key in table || bestUrlMatch == "" {
      response := if key in table then Some(table[key]) else None;
      return response, "";
    }
    ghost var start := bestUrlMatch;
    while true
      invariant bestUrlMatch != "" && Walk(bestUrlMatch, table) == Walk(start, table)
      decreases |bestUrlMatch|
    {
      var parent := ParentDirectory(bestUrlMatch);
      bestUrlMatch := parent;
      if bestUrlMatch in table || bestUrlMatch == "" {
        break;
      }
    }
    response := if bestUrlMatch in table then Some(table[bestUrlMatch]) else None;
    subUrl := TrimSlashes(url[|bestUrlMatch|..]);
  }
}
