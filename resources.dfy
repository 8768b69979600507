/**
 * The resource store of one locale (`Resources` / `ResTag`): an insertion-ordered map from
 * string id to a tag carrying its content and its "modified since fetched" flag, and the
 * merge that `RepoHandler.copyResources` performs when a fetched file meets the saved store.
 */
module Resources {
  import opened Wrappers
  import opened OrderedMap

  /** Content of one entry and whether the user changed it since it was last fetched. */
  datatype Tag = Tag(content: string, modified: bool)

  /** A `ResTag`: the binding's key is the entry id. */
  type ResTag = Binding<Tag>

  /** A `Resources` store, iterated in insertion order. */
  type Store = seq<ResTag>

  predicate IsEmpty(s: Store) {
    |s| == 0
  }

  /** `Resources.wasModified(id)`: the entry exists and carries the modified flag. */
  predicate WasModified(s: Store, id: string) {
    match Find(s, id)
    case Some(t) => t.modified
    case None => false
  }

  /** `Resources.wasModified()`: some entry carries the modified flag. */
  predicate AnyModified(s: Store) {
    exists i :: 0 <= i < |s| && s[i].value.modified
  }

  /** `Resources.addTag`: insert-or-replace by id. */
  function AddTag(s: Store, rt: ResTag): Store {
    Put(s, rt.key, rt.value)
  }

  /** No fetched tag carries the modified flag (a file freshly taken from upstream). */
  predicate Unmodified(s: Store) {
    forall i :: 0 <= i < |s| ==> !s[i].value.modified
  }

  /** One iteration of the merge loop of copyResources (RepoHandler.java:352-365). */
  function MergeStep(cur: Store, rt: ResTag, keepChanges: bool): Store {
    if keepChanges && WasModified(cur, rt.key) then cur else AddTag(cur, rt)
  }

  /** The store after merging every tag of `fetched`, in order, into `saved`. */
  function MergeTags(saved: Store, fetched: Store, keepChanges: bool): Store
    decreases |fetched|
  {
    if fetched == [] then saved
    else MergeStep(MergeTags(saved, fetched[..|fetched| - 1], keepChanges), fetched[|fetched| - 1], keepChanges)
  }

  /** The tag of the last binding of `id` in `s`, if any. */
  function LastDef(s: Store, id: string): (r: Option<Tag>)
    ensures r.Some? <==> id in Keys(s)
  {
    if s == [] then None
    else if s[|s| - 1].key == id then Some(s[|s| - 1].value)
    else
      var r := LastDef(s[..|s| - 1], id);
      assert Keys(s) == Keys(s[..|s| - 1]) + {s[|s| - 1].key} by {
        assert forall i :: 0 <= i < |s| - 1 ==> s[..|s| - 1][i] == s[i];
      }
      r
  }

  /** The loop of copyResources that merges one fetched file into the saved store. */
  method MergeInto(saved: Store, fetched: Store, keepChanges: bool) returns (merged: Store)
    ensures merged == MergeTags(saved, fetched, keepChanges)
  {
    merged := saved;
    for i := 0 to |fetched|
      invariant merged == MergeTags(saved, fetched[..i], keepChanges)
    {
      var rt := fetched[i];
      assert fetched[..i + 1][..i] == fetched[..i];
      assert MergeTags(saved, fetched[..i + 1], keepChanges) == MergeStep(merged, rt, keepChanges);
      if keepChanges {
        if !WasModified(merged, rt.key) {
          merged := AddTag(merged, rt);
        }
      } else {
        merged := AddTag(merged, rt);
      }
    }
    assert fetched[..|fetched|] == fetched;
  }

  lemma KeysSnoc(s: Store)
    requires s != []
    ensures Keys(s) == Keys(s[..|s| - 1]) + {s[|s| - 1].key}
  {
    assert forall i :: 0 <= i < |s| - 1 ==> s[..|s| - 1][i] == s[i];
  }

  /** A merge adds exactly the fetched ids to the store (a skipped id is already there). */
  lemma {:induction false} MergeKeys(saved: Store, fetched: Store, keepChanges: bool)
    ensures Keys(MergeTags(saved, fetched, keepChanges)) == Keys(saved) + Keys(fetched)
    decreases |fetched|
  {
    if fetched != [] {
      MergeKeys(saved, fetched[..|fetched| - 1], keepChanges);
      KeysSnoc(fetched);
    }
  }

  /** Merging keeps ids unique. */
  lemma {:induction false} MergeKeepsUnique(saved: Store, fetched: Store, keepChanges: bool)
    requires UniqueKeys(saved)
    ensures UniqueKeys(MergeTags(saved, fetched, keepChanges))
    decreases |fetched|
  {
    if fetched != [] {
      MergeKeepsUnique(saved, fetched[..|fetched| - 1], keepChanges);
    }
  }

  /** Keep-changes policy: an entry the user modified keeps its tag whatever was fetched. */
  lemma {:induction false} KeepChangesPreservesModified(saved: Store, fetched: Store, id: string)
    requires WasModified(saved, id)
    ensures Find(MergeTags(saved, fetched, true), id) == Find(saved, id)
    decreases |fetched|
  {
    if fetched != [] {
      KeepChangesPreservesModified(saved, fetched[..|fetched| - 1], id);
    }
  }

  /** Take-upstream policy: every fetched id ends up with the tag of its last fetched binding. */
  lemma {:induction false} TakeUpstreamLastWins(saved: Store, fetched: Store, id: string)
    ensures Find(MergeTags(saved, fetched, false), id) ==
      if id in Keys(fetched) then LastDef(fetched, id) else Find(saved, id)
    decreases |fetched|
  {
    if fetched != [] {
      var init := fetched[..|fetched| - 1];
      TakeUpstreamLastWins(saved, init, id);
      KeysSnoc(fetched);
    }
  }

  /**
   * Keep-changes policy on an unmodified entry, when the fetched file carries no
   * modified flags: the entry is updated exactly as under take-upstream.
   */
  lemma {:induction false} KeepChangesTakesFresh(saved: Store, fetched: Store, id: string)
    requires Unmodified(fetched) && !WasModified(saved, id)
    ensures Find(MergeTags(saved, fetched, true), id) ==
      if id in Keys(fetched) then LastDef(fetched, id) else Find(saved, id)
    decreases |fetched|
  {
    if fetched != [] {
      var init := fetched[..|fetched| - 1];
      assert Unmodified(init) by {
        forall i | 0 <= i < |init| ensures !init[i].value.modified { assert init[i] == fetched[i]; }
      }
      KeepChangesTakesFresh(saved, init, id);
      KeysSnoc(fetched);
      var cur := MergeTags(saved, init, true);
      assert !WasModified(cur, id) by {
        if id in Keys(init) {
          var t := LastDef(init, id);
          LastDefIn(init, id);
          assert Binding(id, t.value) in init;
        }
      }
    }
  }

  lemma {:induction false} LastDefIn(s: Store, id: string)
    requires id in Keys(s)
    ensures Binding(id, LastDef(s, id).value) in s
    decreases |s|
  {
    if s[|s| - 1].key != id {
      KeysSnoc(s);
      LastDefIn(s[..|s| - 1], id);
    }
  }

  lemma MergeTagsSnoc(s: Store, f: Store, x: ResTag, keepChanges: bool)
    ensures MergeTags(s, f + [x], keepChanges) == MergeStep(MergeTags(s, f, keepChanges), x, keepChanges)
  {
    assert (f + [x])[..|f|] == f;
  }

  /**
   * Merging two fetched files one after the other, each reading back the result of the
   * previous one, is merging their concatenation.
   */
  lemma {:induction false} MergeTagsAppend(s: Store, a: Store, b: Store, keepChanges: bool)
    ensures MergeTags(s, a + b, keepChanges) == MergeTags(MergeTags(s, a, keepChanges), b, keepChanges)
    decreases |b|
  {
    if b == [] {
      assert a + b == a;
    } else {
      var binit, x := b[..|b| - 1], b[|b| - 1];
      assert b == binit + [x];
      assert a + b == (a + binit) + [x];
      MergeTagsAppend(s, a, binit, keepChanges);
      calc {
        MergeTags(s, a + b, keepChanges);
        { MergeTagsSnoc(s, a + binit, x, keepChanges); }
        MergeStep(MergeTags(s, a + binit, keepChanges), x, keepChanges);
        MergeStep(MergeTags(MergeTags(s, a, keepChanges), binit, keepChanges), x, keepChanges);
        { MergeTagsSnoc(MergeTags(s, a, keepChanges), binit, x, keepChanges); }
        MergeTags(MergeTags(s, a, keepChanges), b, keepChanges);
      }
    }
  }
}
