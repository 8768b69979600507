/**
 * The locale path pattern of RepoHandler, matched with `Matcher.find()` (unanchored, leftmost
 * start) against a file's absolute path:
 *   AnyXml:     res/values(?:-([\w-]+))?/.+?\.xml       (public constructor)
 *   StringsXml: res/values(?:-([\w-]+))?/strings\.xml   (constructor from a root directory)
 * A hand-written recogniser decides, for every start index, whether the pattern matches there
 * and with which capture group; `RouteOf` takes the leftmost start that matches.
 */
module LocalePattern {

  datatype PatternKind = AnyXml | StringsXml

  /** Outcome of routing one found path: no match, a default-locale file, or a file of locale `name`. */
  datatype Route = Skip | DefaultLocale | Locale(name: string)

  /** Java's `\w` without UNICODE_CHARACTER_CLASS: [a-zA-Z_0-9]. */
  predicate IsWordChar(c: char) {
    ('a' <= c <= 'z') || ('A' <= c <= 'Z') || ('0' <= c <= '9') || c == '_'
  }

  /** The character class `[\w-]`. */
  predicate IsLocaleChar(c: char) {
    IsWordChar(c) || c == '-'
  }

  /** The characters Java's `.` does not match without DOTALL. */
  predicate IsLineTerminator(c: char) {
    c == '\n' || c == '\r' || c == '\U{85}' || c == '\U{2028}' || c == '\U{2029}'
  }

  /** A nonempty run of `[\w-]`: what the capture group can hold. */
  predicate IsLocaleName(l: string) {
    |l| > 0 && forall m :: 0 <= m < |l| ==> IsLocaleChar(l[m])
  }

  /** End of the maximal run of `[\w-]` characters starting at `i`. */
  function LocaleRunEnd(s: string, i: nat): (e: nat)
    requires i <= |s|
    ensures i <= e <= |s|
    ensures forall m :: i <= m < e ==> IsLocaleChar(s[m])
    ensures e < |s| ==> !IsLocaleChar(s[e])
    decreases |s| - i
  {
    if i == |s| || !IsLocaleChar(s[i]) then i else LocaleRunEnd(s, i + 1)
  }

  /** The run of `[\w-]` starting at `i` ends at `e` when `s[i..e]` is such a run and `s[e]` is not. */
  lemma {:induction false} RunEndsAt(s: string, i: nat, e: nat)
    requires i <= e <= |s|
    requires forall m :: i <= m < e ==> IsLocaleChar(s[m])
    requires e == |s| || !IsLocaleChar(s[e])
    ensures LocaleRunEnd(s, i) == e
    decreases e - i
  {
    if i < e {
      RunEndsAt(s, i + 1, e);
    }
  }

  /** `s[q..j]` holds no line terminator and ".xml" follows it. */
  predicate XmlEndsAt(s: string, q: nat, j: nat)
    requires q <= j <= |s| - 4
  {
    s[j..j + 4] == ".xml" && forall m | q <= m < j :: !IsLineTerminator(s[m])
  }

  /** Does the part after `values[-L]/` match from index `q`? */
  predicate TailAt(kind: PatternKind, s: string, q: nat)
    requires q <= |s|
  {
    match kind
    case AnyXml =>
      // `.+?\.xml`: at least one non-terminator character, then ".xml"
      exists j | q + 1 <= j <= |s| - 4 :: XmlEndsAt(s, q, j)
    case StringsXml =>
      q + 11 <= |s| && s[q..q + 11] == "strings.xml"
  }

  /** The literal `res/values` that every match begins with occurs at index `p`. */
  predicate LiteralAt(s: string, p: nat) {
    p + 10 <= |s| && s[p..p + 10] == "res/values"
  }

  /** The result of trying the pattern at start index `p` (Skip when it does not match there). */
  function MatchAt(kind: PatternKind, s: string, p: nat): (r: Route)
    requires p <= |s|
    ensures r.Locale? ==> IsLocaleName(r.name)
  {
    if !LiteralAt(s, p) then Skip
    else if p + 10 < |s| && s[p + 10] == '-' then
      // the greedy group takes the whole run of [\w-]; a shorter run cannot be followed by '/'
      var e := LocaleRunEnd(s, p + 11);
      if e > p + 11 && e < |s| && s[e] == '/' && TailAt(kind, s, e + 1) then Locale(s[p + 11..e]) else Skip
    else if p + 10 < |s| && s[p + 10] == '/' && TailAt(kind, s, p + 11) then DefaultLocale
    else Skip
  }

  function FindFrom(kind: PatternKind, s: string, p: nat): (r: Route)
    requires p <= |s|
    ensures r.Locale? ==> IsLocaleName(r.name)
    decreases |s| - p
  {
    var r := MatchAt(kind, s, p);
    if r != Skip || p == |s| then r else FindFrom(kind, s, p + 1)
  }

  /** `m.find()` followed by `m.group(1)`: the route of a found path; a locale is a run of `[\w-]`. */
  function RouteOf(kind: PatternKind, path: string): (r: Route)
    ensures r.Locale? ==> IsLocaleName(r.name)
  {
    FindFrom(kind, path, 0)
  }

  // ----- the pattern, stated declaratively -----

  /** `res/values/` followed by the tail, starting at `p`. */
  ghost predicate PlainMatch(kind: PatternKind, s: string, p: nat) {
    p + 11 <= |s| && s[p..p + 11] == "res/values/" && TailAt(kind, s, p + 11)
  }

  /** `res/values-L/` followed by the tail, starting at `p`, with `L` a run of [\w-]. */
  ghost predicate GroupMatch(kind: PatternKind, s: string, p: nat, l: string) {
    IsLocaleName(l) && p + 12 + |l| <= |s| && s[p..p + 12 + |l|] == "res/values-" + l + "/"
    && TailAt(kind, s, p + 12 + |l|)
  }

  /** At a given start, the recogniser reports the default locale exactly when the plain form matches. */
  lemma MatchAtDefault(kind: PatternKind, s: string, p: nat)
    requires p <= |s|
    ensures MatchAt(kind, s, p) == DefaultLocale <==> PlainMatch(kind, s, p)
  {
    if PlainMatch(kind, s, p) {
      assert s[p..p + 10] == s[p..p + 11][..10];
      assert s[p + 10] == s[p..p + 11][10];
    }
    if MatchAt(kind, s, p) == DefaultLocale {
      assert s[p..p + 11] == s[p..p + 10] + [s[p + 10]];
    }
  }

  /**
   * At a given start, the recogniser reports locale `l` exactly when `res/values-l/` matches
   * there: the capture group is unique.
   */
  lemma MatchAtLocale(kind: PatternKind, s: string, p: nat, l: string)
    requires p <= |s|
    ensures MatchAt(kind, s, p) == Locale(l) <==> GroupMatch(kind, s, p, l)
  {
    if GroupMatch(kind, s, p, l) { GroupMatchIsFound(kind, s, p, l); }
    if MatchAt(kind, s, p) == Locale(l) { FoundIsGroupMatch(kind, s, p, l); }
  }

  lemma GroupMatchIsFound(kind: PatternKind, s: string, p: nat, l: string)
    requires p <= |s| && GroupMatch(kind, s, p, l)
    ensures MatchAt(kind, s, p) == Locale(l)
  {
    var n := p + 12 + |l|;
    var w := s[p..n];
    assert w == "res/values-" + l + "/";
    assert s[p..p + 10] == w[..10] == "res/values";
    assert s[p + 10] == w[10] == '-';
    assert s[n - 1] == w[|w| - 1] == '/';
    forall m | 0 <= m < |l| ensures s[p + 11 + m] == l[m] {
      assert s[p + 11 + m] == w[11 + m];
    }
    RunEndsAt(s, p + 11, n - 1);
    assert s[p + 11..n - 1] == l;
  }

  lemma FoundIsGroupMatch(kind: PatternKind, s: string, p: nat, l: string)
    requires p <= |s| && MatchAt(kind, s, p) == Locale(l)
    ensures GroupMatch(kind, s, p, l)
  {
    var n := p + 12 + |l|;
    var e := LocaleRunEnd(s, p + 11);
    assert s[p..p + 10] == "res/values" && s[p + 10] == '-';
    assert l == s[p + 11..e] && s[e] == '/' && e == n - 1;
    forall m | 0 <= m < |l| ensures IsLocaleChar(l[m]) {
      assert l[m] == s[p + 11 + m];
    }
    var w := "res/values-" + l + "/";
    forall i | 0 <= i < |w| ensures s[p..n][i] == w[i] {
      if i < 10 {
        assert s[p..n][i] == s[p..p + 10][i];
      } else if 11 <= i < 11 + |l| {
        assert w[i] == l[i - 11];
      }
    }
    assert s[p..n] == w;
  }

  /** No match can start at a character other than 'r'. */
  lemma NoMatchAt(kind: PatternKind, s: string, p: nat)
    requires p < |s| && s[p] != 'r'
    ensures MatchAt(kind, s, p) == Skip
  {
    if p + 10 <= |s| { assert s[p..p + 10][0] == s[p]; }
  }

  lemma FindFromLeftmost(kind: PatternKind, s: string, p: nat)
    requires p <= |s|
    ensures var r := FindFrom(kind, s, p);
      && (r == Skip <==> forall q :: p <= q <= |s| ==> MatchAt(kind, s, q) == Skip)
      && (r != Skip ==> exists q :: p <= q <= |s| && MatchAt(kind, s, q) == r &&
                                    forall q' :: p <= q' < q ==> MatchAt(kind, s, q') == Skip)
  {
    FindFromSkip(kind, s, p);
    if FindFrom(kind, s, p) != Skip {
      FindFromWitness(kind, s, p);
    }
  }

  lemma {:induction false} FindFromSkip(kind: PatternKind, s: string, p: nat)
    requires p <= |s|
    ensures FindFrom(kind, s, p) == Skip <==> forall q :: p <= q <= |s| ==> MatchAt(kind, s, q) == Skip
    decreases |s| - p
  {
    if MatchAt(kind, s, p) == Skip && p < |s| {
      FindFromSkip(kind, s, p + 1);
    }
  }

  lemma {:induction false} FindFromWitness(kind: PatternKind, s: string, p: nat)
    requires p <= |s| && FindFrom(kind, s, p) != Skip
    ensures exists q :: p <= q <= |s| && MatchAt(kind, s, q) == FindFrom(kind, s, p) &&
                        forall q' :: p <= q' < q ==> MatchAt(kind, s, q') == Skip
    decreases |s| - p
  {
    if MatchAt(kind, s, p) == Skip && p < |s| {
      FindFromWitness(kind, s, p + 1);
      var q :| p + 1 <= q <= |s| && MatchAt(kind, s, q) == FindFrom(kind, s, p + 1) &&
               forall q' :: p + 1 <= q' < q ==> MatchAt(kind, s, q') == Skip;
      assert forall q' :: p <= q' < q ==> MatchAt(kind, s, q') == Skip;
    } else {
      assert MatchAt(kind, s, p) == FindFrom(kind, s, p);
    }
  }

  /**
   * `find()` semantics: a path is skipped exactly when the pattern matches at no index; otherwise
   * its route is what the pattern yields at the leftmost index where it matches.
   */
  lemma RouteIsLeftmostMatch(kind: PatternKind, path: string)
    ensures RouteOf(kind, path) == Skip <==> forall q :: 0 <= q <= |path| ==> MatchAt(kind, path, q) == Skip
    ensures RouteOf(kind, path) != Skip ==>
      exists q :: 0 <= q <= |path| && MatchAt(kind, path, q) == RouteOf(kind, path) &&
                  forall q' :: 0 <= q' < q ==> MatchAt(kind, path, q') == Skip
  {
    FindFromLeftmost(kind, path, 0);
  }

  /** Wherever the strict `strings.xml` pattern matches, the loose one matches with the same group. */
  lemma StrictMatchIsLooseMatch(s: string, p: nat)
    requires p <= |s| && MatchAt(StringsXml, s, p) != Skip
    ensures MatchAt(AnyXml, s, p) == MatchAt(StringsXml, s, p)
  {
    forall q: nat | q <= |s| && TailAt(StringsXml, s, q) ensures TailAt(AnyXml, s, q) {
      var j := q + 7;
      assert s[j..j + 4] == s[q..q + 11][7..11] == ".xml";
      forall m | q <= m < j ensures !IsLineTerminator(s[m]) {
        assert s[m] == s[q..q + 11][m - q];
      }
      assert XmlEndsAt(s, q, j);
    }
  }

  /** A translated file under `res/values-es/` routes to locale "es" under both patterns. */
  lemma RouteSpanishStrings(kind: PatternKind)
    ensures RouteOf(kind, "/tmp/" + "res/values-" + "es" + "/strings.xml") == Locale("es")
  {
    var dir := "/tmp/";
    forall i | 0 <= i < |dir| ensures !LiteralAt(dir + "res/values", i) {
      assert (dir + "res/values")[i..i + 10][0] == dir[i] != 'r';
    }
    assert IsLocaleChar('e') && IsLocaleChar('s');
    RouteOfStringsFile(kind, dir, "es");
  }

  /**
   * A `strings.xml` directly under `res/values-L/` routes to locale L under both patterns,
   * provided no occurrence of `res/values` starts inside the directories above it (one that
   * did would be an earlier start, and `find()` could report it instead).
   */
  lemma RouteOfStringsFile(kind: PatternKind, dir: string, l: string)
    requires forall i :: 0 <= i < |dir| ==> !LiteralAt(dir + "res/values", i)
    requires IsLocaleName(l)
    ensures RouteOf(kind, dir + "res/values-" + l + "/strings.xml") == Locale(l)
  {
    var s := dir + "res/values-" + l + "/strings.xml";
    var p := |dir|;
    var n := p + 12 + |l|;
    assert s[p..n] == "res/values-" + l + "/";
    assert s[n..] == "strings.xml";
    StringsFileTail(kind, s, n);
    assert GroupMatch(kind, s, p, l);
    GroupMatchIsFound(kind, s, p, l);
    assert s[..p + 10] == dir + "res/values";
    NoMatchInPrefix(kind, s, dir + "res/values", p);
    FindFromReaches(kind, s, 0, p);
  }

  /** No match starts before index `p` when `s` begins with `w` and no `res/values` starts in `w` before `p`. */
  lemma NoMatchInPrefix(kind: PatternKind, s: string, w: string, p: nat)
    requires p + 10 <= |w| <= |s| && s[..|w|] == w
    requires forall i :: 0 <= i < p ==> !LiteralAt(w, i)
    ensures forall q :: 0 <= q < p ==> MatchAt(kind, s, q) == Skip
  {
    forall q | 0 <= q < p ensures MatchAt(kind, s, q) == Skip {
      assert !LiteralAt(w, q);
      assert s[q..q + 10] == w[q..q + 10];
    }
  }

  /** A path ending in `strings.xml` right after the directory satisfies the tail of both patterns. */
  lemma StringsFileTail(kind: PatternKind, s: string, q: nat)
    requires q <= |s| && s[q..] == "strings.xml"
    ensures TailAt(kind, s, q)
  {
    assert s[q..q + 11] == s[q..];
    if kind == AnyXml {
      forall m | q <= m < q + 7 ensures !IsLineTerminator(s[m]) {
        assert s[m] == "strings.xml"[m - q];
      }
      assert s[q + 7..q + 11] == ".xml";
      assert XmlEndsAt(s, q, q + 7);
    }
  }

  /** `find()` passes over starts where nothing matches. */
  lemma {:induction false} FindFromReaches(kind: PatternKind, s: string, p: nat, q: nat)
    requires p <= q <= |s|
    requires forall i :: p <= i < q ==> MatchAt(kind, s, i) == Skip
    ensures FindFrom(kind, s, p) == FindFrom(kind, s, q)
    decreases q - p
  {
    if p < q {
      FindFromReaches(kind, s, p + 1, q);
    }
  }

  /** An `arrays.xml` default file is found by the loose pattern only. */
  lemma RouteDefaultArrays()
    ensures RouteOf(AnyXml, "res/values/arrays.xml") == DefaultLocale
    ensures RouteOf(StringsXml, "res/values/arrays.xml") == Skip
  {
    var s := "res/values/" + "arrays" + ".xml";
    assert s == "res/values/arrays.xml";
    assert PlainMatch(AnyXml, s, 0) by {
      assert s[0..11] == "res/values/";
      assert s[17..21] == ".xml";
      assert XmlEndsAt(s, 11, 17);
    }
    MatchAtDefault(AnyXml, s, 0);
    forall q | 0 <= q <= |s| ensures MatchAt(StringsXml, s, q) == Skip {
      if q == 0 {
        assert s[11] == 'a';
        assert !TailAt(StringsXml, s, 11) by {
          assert s[11..21][0] == 'a';
        }
      } else if q < |s| && s[q] != 'r' {
        NoMatchAt(StringsXml, s, q);
      } else if q < |s| {
        assert q == 12 || q == 13;
      }
    }
    RouteIsLeftmostMatch(StringsXml, s);
  }
}
