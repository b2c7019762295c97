/** A Python dictionary filled entry by entry, later entries replacing
    earlier ones with the same key. */
module Dicts {
  import opened Wrappers

  /** The dictionary built from the entries that are present, in order. */
  function Build<V>(entries: seq<Option<(string, V)>>): map<string, V> {
    if entries == [] then map[]
    else
      var n := |entries| - 1;
      var m := Build(entries[..n]);
      match entries[n]
      case Some((k, v)) => m[k := v]
      case None => m
  }

  /** Entry `i` is present and has key `key`. */
  predicate Keyed<V>(entries: seq<Option<(string, V)>>, i: nat, key: string)
    requires i < |entries|
  {
    entries[i].Some? && entries[i].value.0 == key
  }

  /** A key is present exactly when some entry has it. */
  lemma {:induction false} BuildKeys<V>(entries: seq<Option<(string, V)>>, key: string)
    ensures key in Build(entries) <==> exists i :: 0 <= i < |entries| && Keyed(entries, i, key)
  {
    if entries != [] {
      var n := |entries| - 1;
      var init := entries[..n];
      BuildKeys(init, key);
      var m := Build(init);
      assert key in Build(entries) <==> key in m || Keyed(entries, n, key);
      if exists i :: 0 <= i < n && Keyed(init, i, key) {
        var i :| 0 <= i < n && Keyed(init, i, key);
        assert init[i] == entries[i];
        assert Keyed(entries, i, key);
      }
      if exists i :: 0 <= i < |entries| && Keyed(entries, i, key) {
        var i :| 0 <= i < |entries| && Keyed(entries, i, key);
        if i < n {
          assert init[i] == entries[i];
          assert Keyed(init, i, key);
        }
      }
    }
  }

  /** A key maps to the value of the last entry that has it. */
  lemma {:induction false} BuildLast<V>(entries: seq<Option<(string, V)>>, key: string, i: nat)
    requires i < |entries| && Keyed(entries, i, key)
    requires forall j :: i < j < |entries| ==> !Keyed(entries, j, key)
    ensures key in Build(entries) && Build(entries)[key] == entries[i].value.1
  {
    var n := |entries| - 1;
    if i < n {
      var init := entries[..n];
      assert init[i] == entries[i];
      forall j | i < j < n
        ensures !Keyed(init, j, key)
      {
        assert init[j] == entries[j];
        assert !Keyed(entries, j, key);
      }
      BuildLast(init, key, i);
      assert !Keyed(entries, n, key);
    }
  }

  /** One more entry updates its key, or changes nothing when absent. */
  lemma BuildSnoc<V>(entries: seq<Option<(string, V)>>, e: Option<(string, V)>)
    ensures Build(entries + [e]) == match e case Some((k, v)) => Build(entries)[k := v] case None => Build(entries)
  {
    assert (entries + [e])[..|entries|] == entries;
  }
}
