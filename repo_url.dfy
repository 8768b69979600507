/**
 * What RepoHandler derives from a repository's git URL: the display name (`toString`), the
 * short name (`toString(true)`), the ordering of repositories (`compareTo`), and the GitHub
 * owner/repository recogniser `OWNER_REPO`, used with `Matcher.matches()` (whole string):
 *   (?:https?://github\.com/|git@github.com:)([\w-]+)/([\w-]+)(?:/.*|\.git)?
 * The dot in the `git@github.com:` alternative is not escaped, so it accepts any character
 * except a line terminator there.
 */
module RepoUrl {
  import opened Wrappers
  import opened JavaString
  import opened LocalePattern

  // ----- toString() -----

  /**
   * `toString()`: the URL from just after its first "://" up to the last '.' when it ends in
   * ".git"; when those bounds are out of order or out of range, `substring` throws and the
   * whole URL is returned. Either way the display name is a piece of the URL.
   */
  function DisplayName(url: string): (d: string)
    ensures exists i :: OccursAt(url, d, i)
  {
    var end := if EndsWith(url, ".git") then LastIndexOf(url, '.') else |url|;
    var start := IndexOf(url, "://") + 3;
    if 0 <= start <= end <= |url| then
      assert OccursAt(url, url[start..end], start);
      url[start..end]
    else
      assert OccursAt(url, url, 0);
      url
  }

  /** The usual case: a scheme, "://", and a body; the display name is the body without ".git". */
  lemma DisplayNameStripsScheme(scheme: string, body: string)
    requires forall i :: 0 <= i < |scheme| ==> !OccursAt(scheme + "://" + body, "://", i)
    ensures DisplayName(scheme + "://" + body) ==
      if EndsWith(body, ".git") then body[..|body| - 4] else body
  {
    var url := scheme + "://" + body;
    assert OccursAt(url, "://", |scheme|) by { assert url[|scheme|..|scheme| + 3] == "://"; }
    IndexOfFirst(url, "://", |scheme|);
    GitSuffixOfBody(scheme, body);
    if EndsWith(body, ".git") {
      LastDotOfGit(url);
      assert url[|scheme| + 3..|url| - 4] == body[..|body| - 4];
    } else {
      assert url[|scheme| + 3..] == body;
    }
  }

  /** The URL ends in ".git" exactly when its body does: ".git" cannot reach back into "://". */
  lemma GitSuffixOfBody(scheme: string, body: string)
    ensures EndsWith(scheme + "://" + body, ".git") <==> EndsWith(body, ".git")
  {
    var url := scheme + "://" + body;
    if |body| >= 4 {
      assert url[|url| - 4..] == body[|body| - 4..];
    } else if |url| >= 4 {
      // the last four characters include the '/' at index |scheme| + 2, and ".git" holds none
      var k := |scheme| + 2 - (|url| - 4);
      assert url[|scheme| + 2] == '/';
      assert url[|url| - 4..][k] == '/';
      assert ".git"[k] != '/';
    }
  }

  lemma LastDotOfGit(url: string)
    requires EndsWith(url, ".git")
    ensures LastIndexOf(url, '.') == |url| - 4
  {
    assert url[|url| - 4..][0] == '.';
    assert forall i :: |url| - 4 < i < |url| ==> url[i] == url[|url| - 4..][i - (|url| - 4)];
  }

  /**
   * A URL with no "://" (an SSH address such as git@host:owner/repo) loses its first two
   * characters: `indexOf` gives -1 and the display starts at index 2. A ".git" suffix is still
   * cut off; when that leaves the end before index 2, `substring` throws and the URL is shown whole.
   */
  lemma DisplayNameWithoutScheme(url: string)
    requires forall i :: !OccursAt(url, "://", i)
    ensures EndsWith(url, ".git") && 6 <= |url| ==> DisplayName(url) == url[2..|url| - 4]
    ensures EndsWith(url, ".git") && |url| < 6 ==> DisplayName(url) == url
    ensures !EndsWith(url, ".git") && 2 <= |url| ==> DisplayName(url) == url[2..]
    ensures !EndsWith(url, ".git") && |url| < 2 ==> DisplayName(url) == url
  {
    if EndsWith(url, ".git") {
      LastDotOfGit(url);
    }
  }

  /** A URL and the same URL with ".git" appended are displayed alike. */
  lemma DisplayNameIgnoresGitSuffix(scheme: string, body: string)
    requires forall i :: 0 <= i < |scheme| ==> !OccursAt(scheme + "://" + body, "://", i)
    requires !EndsWith(body, ".git")
    ensures DisplayName(scheme + "://" + body + ".git") == DisplayName(scheme + "://" + body)
  {
    var url := scheme + "://" + body + ".git";
    assert url == scheme + "://" + (body + ".git");
    forall i | 0 <= i < |scheme| ensures !OccursAt(scheme + "://" + (body + ".git"), "://", i) {
      if i + 3 <= |scheme + "://" + body| {
        assert url[i..i + 3] == (scheme + "://" + body)[i..i + 3];
      }
      assert !OccursAt(scheme + "://" + body, "://", i);
    }
    DisplayNameStripsScheme(scheme, body + ".git");
    DisplayNameStripsScheme(scheme, body);
    assert (body + ".git")[..|body|] == body;
  }

  // ----- toString(true) -----

  /**
   * `toString(true)`: the display name after its last '/'. The result is a '/'-free suffix that
   * is either the whole name or starts right after a '/', so it is the longest '/'-free suffix.
   */
  function ShortName(url: string): (r: string)
    ensures forall k :: 0 <= k < |r| ==> r[k] != '/'
    ensures EndsWith(DisplayName(url), r)
    ensures '/' !in DisplayName(url) ==> r == DisplayName(url)
    ensures '/' in DisplayName(url) ==>
      |r| < |DisplayName(url)| && DisplayName(url)[|DisplayName(url)| - |r| - 1] == '/'
  {
    var d := DisplayName(url);
    var r := AfterLast(d, '/');
    assert EndsWith(d, r) by { assert r == d[|d| - |r|..]; }
    r
  }

  // ----- compareTo -----

  /**
   * `compareTo`: repositories are ordered by the Java string order of their display names, and
   * compare equal exactly when they are displayed alike.
   */
  function CompareRepos(a: string, b: string): (c: int)
    ensures c == 0 <==> DisplayName(a) == DisplayName(b)
  {
    CompareToZero(DisplayName(a), DisplayName(b));
    CompareTo(DisplayName(a), DisplayName(b))
  }

  /** The order is antisymmetric and transitive, as `Comparable` requires. */
  lemma CompareReposOrder(a: string, b: string, c: string)
    ensures CompareRepos(b, a) == -CompareRepos(a, b)
    ensures CompareRepos(a, b) <= 0 && CompareRepos(b, c) <= 0 ==> CompareRepos(a, c) <= 0
  {
    var da, db, dc := Utf16(DisplayName(a)), Utf16(DisplayName(b)), Utf16(DisplayName(c));
    CompareUnitsAntisymmetric(da, db);
    if CompareRepos(a, b) <= 0 && CompareRepos(b, c) <= 0 {
      CompareUnitsTransitive(da, db, dc);
    }
  }

  // ----- OWNER_REPO -----

  const HTTPS_PREFIX := "https://github.com/"
  const HTTP_PREFIX := "http://github.com/"

  /** `git@github.com:` with its unescaped dot: any character but a line terminator at index 10. */
  predicate IsSshPrefix(p: string) {
    |p| == 15 && p[..10] == "git@github" && !IsLineTerminator(p[10]) && p[11..] == "com:"
  }

  /** The strings the non-capturing prefix group accepts. */
  predicate IsPrefix(p: string) {
    p == HTTPS_PREFIX || p == HTTP_PREFIX || IsSshPrefix(p)
  }

  /** The strings the optional trailing group `(?:/.*|\.git)?` accepts. */
  predicate IsTail(t: string) {
    t == "" || t == ".git" || (|t| >= 1 && t[0] == '/' && forall k | 1 <= k < |t| :: !IsLineTerminator(t[k]))
  }

  /** Length of the accepted prefix `url` starts with, 0 when there is none. */
  function PrefixLength(url: string): (n: nat)
    ensures n == 0 || (n <= |url| && IsPrefix(url[..n]))
  {
    if |url| >= 19 && url[..19] == HTTPS_PREFIX then 19
    else if |url| >= 18 && url[..18] == HTTP_PREFIX then 18
    else if |url| >= 15 && IsSshPrefix(url[..15]) then 15
    else 0
  }

  /**
   * `OWNER_REPO.matcher(url).matches()` with its two groups. Each group is a maximal run of
   * `[\w-]`: the owner must be followed by '/', and the repository by a tail that starts with
   * '/' or '.' or is empty, so no backtracking into a shorter run can succeed.
   */
  function OwnerRepo(url: string): (r: Option<(string, string)>)
    ensures r.Some? ==> IsPrefix(url[..PrefixLength(url)])
    ensures r.Some? ==> IsLocaleName(r.value.0) && IsLocaleName(r.value.1)
  {
    var n := PrefixLength(url);
    if n == 0 then None else GroupsFrom(url, n)
  }

  /** The two groups and the tail, matched from index `n` to the end of `url`. */
  function GroupsFrom(url: string, n: nat): (r: Option<(string, string)>)
    requires n <= |url|
    ensures r.Some? ==> IsLocaleName(r.value.0) && IsLocaleName(r.value.1)
  {
    var oe := LocaleRunEnd(url, n);
    if oe == n || oe == |url| || url[oe] != '/' then None
    else
      var re := LocaleRunEnd(url, oe + 1);
      if re == oe + 1 || !IsTail(url[re..]) then None
      else Some((url[n..oe], url[oe + 1..re]))
  }

  /** `isGitHubRepository()`. */
  predicate IsGitHubRepository(url: string) {
    OwnerRepo(url).Some?
  }

  datatype Failure = NotAGitHubUrl

  /** `toOwnerRepo()`: "owner/repo", or the `InvalidObjectException` as an error. */
  function ToOwnerRepo(url: string): (r: Result<string, Failure>)
    ensures r.Ok? <==> IsGitHubRepository(url)
  {
    match OwnerRepo(url)
    case Some((o, rp)) => Ok(o + "/" + rp)
    case None => Err(NotAGitHubUrl)
  }

  lemma PrefixLengthOf(p: string, rest: string)
    requires IsPrefix(p)
    ensures PrefixLength(p + rest) == |p|
  {
    var url := p + rest;
    assert url[..|p|] == p;
    if p == HTTP_PREFIX {
      assert url[4] == ':';
    } else if IsSshPrefix(p) {
      assert url[0] == 'g';
      assert url[..15] == p;
    }
  }

  lemma GroupsFromComplete(p: string, owner: string, repo: string, t: string)
    requires IsLocaleName(owner) && IsLocaleName(repo) && IsTail(t)
    ensures GroupsFrom(p + owner + "/" + repo + t, |p|) == Some((owner, repo))
  {
    var url := p + owner + "/" + repo + t;
    var n, oe, re := |p|, |p| + |owner|, |p| + |owner| + 1 + |repo|;
    assert url[n..oe] == owner;
    assert url[oe] == '/';
    RunEndsAt(url, n, oe);
    assert url[oe + 1..re] == repo;
    assert url[re..] == t;
    if t != [] { assert url[re] == t[0]; }
    RunEndsAt(url, oe + 1, re);
  }

  /** Every URL of the form prefix, owner, '/', repository, tail is recognised, with those groups. */
  lemma OwnerRepoComplete(p: string, owner: string, repo: string, t: string)
    requires IsPrefix(p) && IsLocaleName(owner) && IsLocaleName(repo) && IsTail(t)
    ensures OwnerRepo(p + owner + "/" + repo + t) == Some((owner, repo))
  {
    var url := p + owner + "/" + repo + t;
    assert url == p + (owner + "/" + repo + t);
    PrefixLengthOf(p, owner + "/" + repo + t);
    assert PrefixLength(url) == |p| && |p| != 0;
    GroupsFromComplete(p, owner, repo, t);
    assert OwnerRepo(url) == GroupsFrom(url, |p|);
  }

  lemma GroupsFromSound(url: string, n: nat)
    requires n <= |url| && GroupsFrom(url, n).Some?
    ensures var g := GroupsFrom(url, n).value;
      var t := url[n + |g.0| + 1 + |g.1|..];
      && IsLocaleName(g.0) && IsLocaleName(g.1) && IsTail(t)
      && url[n..] == g.0 + "/" + g.1 + t
  {
    var oe := LocaleRunEnd(url, n);
    var re := LocaleRunEnd(url, oe + 1);
    assert url[n..] == url[n..oe] + [url[oe]] + url[oe + 1..re] + url[re..];
  }

  /** Every recognised URL has that form, the groups being the owner and the repository. */
  lemma OwnerRepoSound(url: string)
    requires OwnerRepo(url).Some?
    ensures var g := OwnerRepo(url).value;
      var n := PrefixLength(url);
      var t := url[n + |g.0| + 1 + |g.1|..];
      && IsPrefix(url[..n]) && IsLocaleName(g.0) && IsLocaleName(g.1) && IsTail(t)
      && url[n..] == g.0 + "/" + g.1 + t
  {
    var n := PrefixLength(url);
    assert OwnerRepo(url) == GroupsFrom(url, n);
    GroupsFromSound(url, n);
  }

  /** `toOwnerRepo` of the canonical https URL of a recognised repository gives it back. */
  lemma ToOwnerRepoCanonical(url: string)
    requires IsGitHubRepository(url)
    ensures ToOwnerRepo(HTTPS_PREFIX + ToOwnerRepo(url).value) == ToOwnerRepo(url)
  {
    var n := PrefixLength(url);
    var g := GroupsFrom(url, n).value;
    assert OwnerRepo(url) == Some(g);
    GroupsFromSound(url, n);
    var s := g.0 + "/" + g.1;
    assert ToOwnerRepo(url) == Ok(s);
    assert HTTPS_PREFIX + s == HTTPS_PREFIX + g.0 + "/" + g.1 + "";
    OwnerRepoComplete(HTTPS_PREFIX, g.0, g.1, "");
  }

  /** The unescaped dot: an SSH address with any character in place of the dot is recognised. */
  lemma SshDotMatchesAnyCharacter(c: char, owner: string, repo: string)
    requires !IsLineTerminator(c) && IsLocaleName(owner) && IsLocaleName(repo)
    ensures ToOwnerRepo("git@github" + [c] + "com:" + owner + "/" + repo + ".git") == Ok(owner + "/" + repo)
  {
    var p := "git@github" + [c] + "com:";
    assert p[..10] == "git@github" && p[10] == c && p[11..] == "com:";
    OwnerRepoComplete(p, owner, repo, ".git");
  }
}
