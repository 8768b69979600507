/**
 * Insertion-ordered maps keyed by strings, written as sequences of bindings.
 * A resource store (id -> tag) and a directory (file name -> file) are both of this shape:
 * lookups find a key, `Put` inserts a new key at the end or replaces an existing key in place.
 */
module OrderedMap {
  import opened Wrappers

  datatype Binding<V> = Binding(key: string, value: V)

  /** No key occurs twice. */
  predicate UniqueKeys<V>(s: seq<Binding<V>>) {
    forall i, j :: 0 <= i < j < |s| ==> s[i].key != s[j].key
  }

  function Keys<V>(s: seq<Binding<V>>): set<string> {
    set i | 0 <= i < |s| :: s[i].key
  }

  /** The value bound to `k` (its first binding), if any. */
  function Find<V>(s: seq<Binding<V>>, k: string): (r: Option<V>)
    ensures r.Some? <==> k in Keys(s)
    ensures r.Some? ==> Binding(k, r.value) in s
  {
    if s == [] then None
    else if s[0].key == k then Some(s[0].value)
    else
      KeysCons(s[0], s[1..]);
      assert s == [s[0]] + s[1..];
      Find(s[1..], k)
  }

  lemma KeysCons<V>(b: Binding<V>, s: seq<Binding<V>>)
    ensures Keys([b] + s) == {b.key} + Keys(s)
  {
    var t := [b] + s;
    forall x | x in Keys(t) ensures x in {b.key} + Keys(s) {
      var i :| 0 <= i < |t| && t[i].key == x;
      if i > 0 { assert s[i - 1].key == x; }
    }
    forall x | x in Keys(s) ensures x in Keys(t) {
      var i :| 0 <= i < |s| && s[i].key == x;
      assert t[i + 1].key == x;
    }
    assert t[0].key == b.key;
  }

  /**
   * Insert-or-replace: a new key is appended at the end, an existing key keeps its
   * position and gets the new value; no other key is affected.
   */
  function Put<V>(s: seq<Binding<V>>, k: string, v: V): (r: seq<Binding<V>>)
    ensures Find(r, k) == Some(v)
    ensures forall k' :: k' != k ==> Find(r, k') == Find(s, k')
    ensures Keys(r) == Keys(s) + {k}
    ensures UniqueKeys(s) ==> UniqueKeys(r)
    ensures k in Keys(s) ==> |r| == |s|
    ensures k !in Keys(s) ==> r == s + [Binding(k, v)]
  {
    if s == [] then
      KeysCons(Binding(k, v), []);
      [Binding(k, v)]
    else if s[0].key == k then
      PutFront(s, k, v);
      [Binding(k, v)] + s[1..]
    else
      var rest := Put(s[1..], k, v);
      FindBehind(s, k, v, rest);
      ShapeBehind(s, k, v, rest);
      [s[0]] + rest
  }

  /** The position of the first binding of `k`. */
  function KeyIndex<V>(s: seq<Binding<V>>, k: string): (i: nat)
    requires k in Keys(s)
    ensures i < |s| && s[i].key == k
    ensures forall j :: 0 <= j < i ==> s[j].key != k
  {
    if s[0].key == k then 0
    else
      KeysCons(s[0], s[1..]);
      assert s == [s[0]] + s[1..];
      1 + KeyIndex(s[1..], k)
  }

  /** Putting an existing key overwrites its first binding where it stands. */
  lemma {:induction false} PutReplacesInPlace<V>(s: seq<Binding<V>>, k: string, v: V)
    requires k in Keys(s)
    ensures Put(s, k, v) == s[KeyIndex(s, k) := Binding(k, v)]
  {
    if s[0].key == k {
      assert KeyIndex(s, k) == 0 && Put(s, k, v) == [Binding(k, v)] + s[1..];
    } else {
      KeysCons(s[0], s[1..]);
      assert k in Keys(s[1..]);
      var i := KeyIndex(s[1..], k);
      assert KeyIndex(s, k) == i + 1 && Put(s, k, v) == [s[0]] + Put(s[1..], k, v);
      PutReplacesInPlace(s[1..], k, v);
      UpdateBehind(s, i, Binding(k, v));
    }
  }

  lemma UpdateBehind<V>(s: seq<Binding<V>>, i: nat, b: Binding<V>)
    requires i + 1 < |s|
    ensures [s[0]] + s[1..][i := b] == s[i + 1 := b]
  {
  }

  lemma PutFront<V>(s: seq<Binding<V>>, k: string, v: V)
    requires s != [] && s[0].key == k
    ensures var r := [Binding(k, v)] + s[1..];
      && Find(r, k) == Some(v)
      && (forall k' :: k' != k ==> Find(r, k') == Find(s, k'))
      && Keys(r) == Keys(s) + {k}
      && (UniqueKeys(s) ==> UniqueKeys(r))
      && |r| == |s|
  {
    KeysCons(s[0], s[1..]);
    KeysCons(Binding(k, v), s[1..]);
    assert s == [s[0]] + s[1..];
    var r := [Binding(k, v)] + s[1..];
    assert r[1..] == s[1..];
    forall k' | k' != k ensures Find(r, k') == Find(s, k') {
    }
    if UniqueKeys(s) {
      forall i, j | 0 <= i < j < |r| ensures r[i].key != r[j].key {
        assert r[j] == s[j];
        if i > 0 { assert r[i] == s[i]; }
      }
    }
  }

  lemma ShapeBehind<V>(s: seq<Binding<V>>, k: string, v: V, rest: seq<Binding<V>>)
    requires s != [] && s[0].key != k
    requires Keys(rest) == Keys(s[1..]) + {k}
    requires UniqueKeys(s[1..]) ==> UniqueKeys(rest)
    requires k in Keys(s[1..]) ==> |rest| == |s[1..]|
    requires k !in Keys(s[1..]) ==> rest == s[1..] + [Binding(k, v)]
    ensures var r := [s[0]] + rest;
      && Keys(r) == Keys(s) + {k}
      && (UniqueKeys(s) ==> UniqueKeys(r))
      && (k in Keys(s) ==> |r| == |s|)
      && (k !in Keys(s) ==> r == s + [Binding(k, v)])
  {
    KeysCons(s[0], s[1..]);
    KeysCons(s[0], rest);
    assert s == [s[0]] + s[1..];
    ConsUnique(s, rest);
    if k !in Keys(s) {
      ConsSnoc(s, Binding(k, v), rest);
    }
  }

  lemma FindBehind<V>(s: seq<Binding<V>>, k: string, v: V, rest: seq<Binding<V>>)
    requires s != [] && s[0].key != k
    requires Find(rest, k) == Some(v)
    requires forall k' :: k' != k ==> Find(rest, k') == Find(s[1..], k')
    ensures var r := [s[0]] + rest;
      && Find(r, k) == Some(v)
      && (forall k' :: k' != k ==> Find(r, k') == Find(s, k'))
  {
    var r := [s[0]] + rest;
    assert r[0] == s[0] && r[1..] == rest;
  }

  lemma ConsSnoc<V>(s: seq<Binding<V>>, b: Binding<V>, rest: seq<Binding<V>>)
    requires s != [] && rest == s[1..] + [b]
    ensures [s[0]] + rest == s + [b]
  {
    assert s == [s[0]] + s[1..];
  }

  lemma ConsUnique<V>(s: seq<Binding<V>>, rest: seq<Binding<V>>)
    requires s != [] && s[0].key !in Keys(rest) - Keys(s[1..])
    requires UniqueKeys(s[1..]) ==> UniqueKeys(rest)
    ensures UniqueKeys(s) ==> UniqueKeys([s[0]] + rest)
  {
    if UniqueKeys(s) {
      assert UniqueKeys(s[1..]);
      HeadNotInTail(s);
      var r := [s[0]] + rest;
      forall i, j | 0 <= i < j < |r| ensures r[i].key != r[j].key {
        assert r[j] == rest[j - 1];
        if i == 0 { assert r[j].key in Keys(rest); }
        else { assert r[i] == rest[i - 1]; }
      }
    }
  }

  /** Drops every binding of `k`; no other key is affected. */
  function Remove<V>(s: seq<Binding<V>>, k: string): (r: seq<Binding<V>>)
    ensures Find(r, k) == None
    ensures forall k' :: k' != k ==> Find(r, k') == Find(s, k')
    ensures Keys(r) == Keys(s) - {k}
    ensures UniqueKeys(s) ==> UniqueKeys(r)
  {
    if s == [] then s
    else
      var rest := Remove(s[1..], k);
      KeysCons(s[0], s[1..]);
      assert s == [s[0]] + s[1..];
      if s[0].key == k then
        assert UniqueKeys(s) ==> UniqueKeys(s[1..]);
        rest
      else
        KeysCons(s[0], rest);
        assert ([s[0]] + rest)[1..] == rest;
        assert UniqueKeys(s) ==> UniqueKeys([s[0]] + rest) by {
          if UniqueKeys(s) {
            assert UniqueKeys(s[1..]);
            HeadNotInTail(s);
            var t := [s[0]] + rest;
            forall i, j | 0 <= i < j < |t| ensures t[i].key != t[j].key {
              if i == 0 { assert t[j].key in Keys(rest) by { assert rest[j - 1] == t[j]; } }
              else { assert t[i] == rest[i - 1] && t[j] == rest[j - 1]; }
            }
          }
        }
        [s[0]] + rest
  }

  lemma HeadNotInTail<V>(s: seq<Binding<V>>)
    requires s != [] && UniqueKeys(s)
    ensures s[0].key !in Keys(s[1..])
  {
    forall i | 0 <= i < |s[1..]| ensures s[1..][i].key != s[0].key {
      assert s[1..][i] == s[i + 1];
    }
  }

  /** A map with unique keys has exactly as many bindings as keys. */
  lemma {:induction false} UniqueKeysCount<V>(s: seq<Binding<V>>)
    requires UniqueKeys(s)
    ensures |Keys(s)| == |s|
  {
    if s != [] {
      assert s == [s[0]] + s[1..];
      KeysCons(s[0], s[1..]);
      assert UniqueKeys(s[1..]);
      UniqueKeysCount(s[1..]);
      HeadNotInTail(s);
    }
  }

  /** Removing an absent key changes nothing. */
  lemma {:induction false} RemoveAbsent<V>(s: seq<Binding<V>>, k: string)
    requires k !in Keys(s)
    ensures Remove(s, k) == s
  {
    if s != [] {
      KeysCons(s[0], s[1..]);
      assert s == [s[0]] + s[1..];
      RemoveAbsent(s[1..], k);
    }
  }

  /** With unique keys, removing the first key drops exactly the first binding. */
  lemma RemoveHead<V>(s: seq<Binding<V>>)
    requires s != [] && UniqueKeys(s)
    ensures Remove(s, s[0].key) == s[1..]
  {
    HeadNotInTail(s);
    RemoveAbsent(s[1..], s[0].key);
  }
}
