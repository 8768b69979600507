/**
 * The list of locale names a repository keeps (`mLocales`): `loadLocales` sorts it with a
 * comparator on the display names of the locales (`LocaleString.getDisplay`, a parameter here)
 * compared with `String.compareTo`; `deleteLocale` removes one entry with `ArrayList.remove`.
 */
module LocaleList {
  import opened JavaString

  /** The comparator of loadLocales: at most zero when `a` may come before `b`. */
  predicate Before(display: string -> string, a: string, b: string) {
    CompareTo(display(a), display(b)) <= 0
  }

  predicate Sorted(display: string -> string, s: seq<string>) {
    forall i, j :: 0 <= i < j < |s| ==> Before(display, s[i], s[j])
  }

  /** The comparator is a total preorder: total and transitive. */
  lemma BeforeTotalPreorder(display: string -> string, a: string, b: string, c: string)
    ensures Before(display, a, b) || Before(display, b, a)
    ensures Before(display, a, b) && Before(display, b, c) ==> Before(display, a, c)
  {
    var ua, ub, uc := Utf16(display(a)), Utf16(display(b)), Utf16(display(c));
    CompareUnitsAntisymmetric(ua, ub);
    if Before(display, a, b) && Before(display, b, c) {
      CompareUnitsTransitive(ua, ub, uc);
    }
  }

  /** Inserts `x` into a sorted list after every entry that does not come after it. */
  function Insert(display: string -> string, x: string, s: seq<string>): (r: seq<string>)
    requires Sorted(display, s)
    ensures multiset(r) == multiset(s) + multiset{x}
    ensures Sorted(display, r)
  {
    if s == [] then [x]
    else if !Before(display, s[0], x) then
      InsertFront(display, x, s);
      [x] + s
    else
      SortedTail(display, s);
      var rest := Insert(display, x, s[1..]);
      InsertBehind(display, x, s, rest);
      assert multiset([s[0]] + rest) == multiset{s[0]} + multiset(s[1..]) + multiset{x};
      assert s == [s[0]] + s[1..];
      [s[0]] + rest
  }

  lemma SortedTail(display: string -> string, s: seq<string>)
    requires s != [] && Sorted(display, s)
    ensures Sorted(display, s[1..])
  {
    forall i, j | 0 <= i < j < |s[1..]| ensures Before(display, s[1..][i], s[1..][j]) {
      assert s[1..][i] == s[i + 1] && s[1..][j] == s[j + 1];
    }
  }

  lemma InsertFront(display: string -> string, x: string, s: seq<string>)
    requires s != [] && Sorted(display, s) && !Before(display, s[0], x)
    ensures Sorted(display, [x] + s)
  {
    var r := [x] + s;
    forall i, j | 0 <= i < j < |r| ensures Before(display, r[i], r[j]) {
      if i == 0 {
        BeforeTotalPreorder(display, x, s[0], r[j]);
      }
    }
  }

  lemma InsertBehind(display: string -> string, x: string, s: seq<string>, rest: seq<string>)
    requires s != [] && Sorted(display, s) && Before(display, s[0], x)
    requires multiset(rest) == multiset(s[1..]) + multiset{x}
    requires Sorted(display, rest)
    ensures Sorted(display, [s[0]] + rest)
  {
    forall j | 0 <= j < |rest| ensures Before(display, s[0], rest[j]) {
      var y := rest[j];
      assert y in multiset(rest);
      if y != x {
        HeadBeforeTail(display, s, y);
      }
    }
    ConsSorted(display, s[0], rest);
  }

  /** In a sorted list the head comes before every entry of the tail. */
  lemma HeadBeforeTail(display: string -> string, s: seq<string>, y: string)
    requires s != [] && Sorted(display, s) && y in multiset(s[1..])
    ensures Before(display, s[0], y)
  {
    var k :| 0 <= k < |s[1..]| && s[1..][k] == y;
    assert s[k + 1] == y;
  }

  /** `Collections.sort(mLocales, comparator)`: a sorted permutation. */
  function SortByDisplay(display: string -> string, s: seq<string>): (r: seq<string>)
    ensures multiset(r) == multiset(s)
    ensures Sorted(display, r)
  {
    if s == [] then []
    else
      assert s == [s[0]] + s[1..];
      Insert(display, s[0], SortByDisplay(display, s[1..]))
  }

  /** Sorting keeps the length and the entries. */
  lemma SortKeepsEntries(display: string -> string, s: seq<string>)
    ensures |SortByDisplay(display, s)| == |s|
    ensures forall x :: x in SortByDisplay(display, s) <==> x in s
  {
    var r := SortByDisplay(display, s);
    assert |multiset(r)| == |multiset(s)|;
    forall x ensures x in r <==> x in s {
      assert x in r <==> x in multiset(r);
      assert x in s <==> x in multiset(s);
    }
  }

  /** `ArrayList.indexOf(Object)` on a list that holds `x`: the position of its first occurrence. */
  function FirstIndex(s: seq<string>, x: string): (k: nat)
    requires x in s
    ensures k < |s| && s[k] == x
    ensures forall j :: 0 <= j < k ==> s[j] != x
  {
    if s[0] == x then 0 else 1 + FirstIndex(s[1..], x)
  }

  /** `ArrayList.remove(Object)`: drops the first occurrence of `x`, if there is one. */
  function RemoveFirst(s: seq<string>, x: string): (r: seq<string>)
    ensures multiset(r) == multiset(s) - multiset{x}
    ensures x !in s ==> r == s
    ensures x in s ==> |r| == |s| - 1
  {
    if s == [] then s
    else if s[0] == x then
      assert s == [x] + s[1..];
      s[1..]
    else
      assert s == [s[0]] + s[1..];
      [s[0]] + RemoveFirst(s[1..], x)
  }

  /** The entry removed is the first occurrence of `x`; the others keep their order. */
  lemma {:induction false} RemoveFirstSplice(s: seq<string>, x: string)
    requires x in s
    ensures RemoveFirst(s, x) == s[..FirstIndex(s, x)] + s[FirstIndex(s, x) + 1..]
  {
    if s[0] == x {
      RemoveFirstHead(s, x);
    } else {
      var i := FirstIndex(s, x);
      assert s[1..][i - 1] == x;
      var k := FirstIndex(s[1..], x);
      assert i == k + 1;
      var rest := RemoveFirst(s[1..], x);
      assert RemoveFirst(s, x) == [s[0]] + rest;
      assert rest == s[1..][..k] + s[1..][k + 1..] by { RemoveFirstSplice(s[1..], x); }
      SpliceCons(s, k, rest);
    }
  }

  lemma RemoveFirstHead(s: seq<string>, x: string)
    requires s != [] && s[0] == x
    ensures FirstIndex(s, x) == 0 && RemoveFirst(s, x) == s[..0] + s[1..]
  {
    assert s[..0] + s[1..] == s[1..];
  }

  lemma SpliceCons(s: seq<string>, k: nat, rest: seq<string>)
    requires k + 1 < |s| && rest == s[1..][..k] + s[1..][k + 1..]
    ensures [s[0]] + rest == s[..k + 1] + s[k + 2..]
  {
    assert s[..k + 1] == [s[0]] + s[1..][..k];
    assert s[k + 2..] == s[1..][k + 1..];
  }

  /** Removing an entry keeps the remaining ones in their order, so a sorted list stays sorted. */
  lemma {:induction false} RemoveFirstKeepsSorted(display: string -> string, s: seq<string>, x: string)
    requires Sorted(display, s)
    ensures Sorted(display, RemoveFirst(s, x))
  {
    if s != [] && s[0] != x {
      SortedTail(display, s);
      RemoveFirstKeepsSorted(display, s[1..], x);
      var rest := RemoveFirst(s[1..], x);
      forall j | 0 <= j < |rest| ensures Before(display, s[0], rest[j]) {
        assert rest[j] in multiset(rest);
        HeadBeforeTail(display, s, rest[j]);
      }
      ConsSorted(display, s[0], rest);
    }
  }

  lemma ConsSorted(display: string -> string, h: string, rest: seq<string>)
    requires Sorted(display, rest)
    requires forall j :: 0 <= j < |rest| ==> Before(display, h, rest[j])
    ensures Sorted(display, [h] + rest)
  {
    var r := [h] + rest;
    forall i, j | 0 <= i < j < |r| ensures Before(display, r[i], r[j]) {
      assert r[j] == rest[j - 1];
      if i > 0 {
        assert r[i] == rest[i - 1];
      }
    }
  }
}
