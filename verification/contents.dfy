/** The map a tree stands for, read off its in-order walk, and how that map changes when one
    entry is added to, replaced in, or removed from a sorted walk. */
module Contents {
  import opened Trees

  /** The map an entry sequence denotes; a later entry for a repeated key wins. */
  function MapOf<V>(es: seq<Entry<V>>): map<int, V>
  {
    if |es| == 0 then map[]
    else MapOf(es[..|es| - 1])[es[|es| - 1].key := es[|es| - 1].value]
  }

  /** The key/value map stored in a tree. */
  function Content<V>(t: Tree<V>): map<int, V>
  {
    MapOf(Entries(t))
  }

  /** A key is mapped exactly when some entry carries it. */
  lemma {:induction false} MapOfKeys<V>(es: seq<Entry<V>>)
    ensures forall k :: k in MapOf(es) <==> k in KeysOf(es)
    decreases |es|
  {
    if |es| > 0 {
      var init := es[..|es| - 1];
      MapOfKeys(init);
      forall k ensures k in KeysOf(init) ==> k in KeysOf(es) {
        if k in KeysOf(init) {
          var i :| 0 <= i < |init| && KeysOf(init)[i] == k;
          assert KeysOf(es)[i] == k;
        }
      }
      forall k ensures k in KeysOf(es) ==> k in KeysOf(init) || k == es[|es| - 1].key {
        if k in KeysOf(es) {
          var i :| 0 <= i < |es| && KeysOf(es)[i] == k;
          if i < |es| - 1 {
            assert KeysOf(init)[i] == k;
          }
        }
      }
    }
  }

  /** In a sorted walk every entry's key maps to that entry's value. */
  lemma {:induction false} MapOfAscending<V>(es: seq<Entry<V>>, i: int)
    requires Ascending(es) && 0 <= i < |es|
    ensures es[i].key in MapOf(es) && MapOf(es)[es[i].key] == es[i].value
    decreases |es|
  {
    if i < |es| - 1 {
      var init := es[..|es| - 1];
      assert init[i] == es[i];
      MapOfAscending(init, i);
    }
  }

  /** A sorted walk has as many distinct keys as entries. */
  lemma {:induction false} MapOfCardinality<V>(es: seq<Entry<V>>)
    requires Ascending(es)
    ensures |MapOf(es)| == |es|
    decreases |es|
  {
    if |es| > 0 {
      var init := es[..|es| - 1];
      var last := es[|es| - 1];
      MapOfCardinality(init);
      MapOfKeys(init);
      forall i | 0 <= i < |init| ensures KeysOf(init)[i] != last.key {
        assert es[i] == init[i];
      }
      assert last.key !in MapOf(init);
    }
  }

  /** The map of a concatenation is the union of the maps, the second one winning. */
  lemma {:induction false} MapOfAppend<V>(a: seq<Entry<V>>, b: seq<Entry<V>>)
    ensures MapOf(a + b) == MapOf(a) + MapOf(b)
    decreases |b|
  {
    if |b| > 0 {
      var binit := b[..|b| - 1];
      var last := b[|b| - 1];
      assert (a + b)[..|a + b| - 1] == a + binit;
      MapOfAppend(a, binit);
      assert MapOf(a + b) == (MapOf(a) + MapOf(binit))[last.key := last.value];
      assert MapOf(b) == MapOf(binit)[last.key := last.value];
      var m, n := MapOf(a), MapOf(binit);
      assert (m + n)[last.key := last.value] == m + n[last.key := last.value];
    } else {
      assert a + b == a;
    }
  }

  /** Splitting a sorted walk around one entry. */
  lemma AscendingSplit<V>(a: seq<Entry<V>>, e: Entry<V>, b: seq<Entry<V>>)
    requires Ascending(a + [e] + b)
    ensures AllBelow(a, e.key) && AllAbove(b, e.key) && Ascending(a + b)
  {
    var s := a + [e] + b;
    assert s[|a|] == e;
    forall i | 0 <= i < |a| ensures a[i].key < e.key {
      assert s[i] == a[i];
    }
    forall i | 0 <= i < |b| ensures e.key < b[i].key {
      assert s[|a| + 1 + i] == b[i];
    }
    var t := a + b;
    forall i, j | 0 <= i < j < |t| ensures t[i].key < t[j].key {
      var i' := if i < |a| then i else i + 1;
      var j' := if j < |a| then j else j + 1;
      assert t[i] == s[i'] && t[j] == s[j'];
    }
  }

  /** Putting an entry between two parts it separates keeps the walk sorted. */
  lemma AscendingInsert<V>(a: seq<Entry<V>>, e: Entry<V>, b: seq<Entry<V>>)
    requires Ascending(a + b) && AllBelow(a, e.key) && AllAbove(b, e.key)
    ensures Ascending(a + [e] + b)
  {
    var s := a + [e] + b;
    var t := a + b;
    forall i, j | 0 <= i < j < |s| ensures s[i].key < s[j].key {
      if i < |a| && j < |a| {
        assert s[i] == t[i] && s[j] == t[j];
      } else if i < |a| && j == |a| {
        assert s[i] == a[i];
      } else if i < |a| {
        assert s[i] == t[i] && s[j] == t[j - 1];
      } else if i == |a| {
        assert s[j] == b[j - |a| - 1];
      } else {
        assert s[i] == t[i - 1] && s[j] == t[j - 1];
      }
    }
  }

  /** Changing the value of one entry keeps the walk sorted. */
  lemma AscendingReplace<V>(a: seq<Entry<V>>, k: int, v0: V, v: V, b: seq<Entry<V>>)
    requires Ascending(a + [Entry(k, v0)] + b)
    ensures Ascending(a + [Entry(k, v)] + b)
  {
    var s := a + [Entry(k, v0)] + b;
    var t := a + [Entry(k, v)] + b;
    assert forall i :: 0 <= i < |t| ==> t[i].key == s[i].key;
  }

  /** Adding an entry for a key absent from `b` updates the map at that key. */
  lemma MapInsert<V>(a: seq<Entry<V>>, k: int, v: V, b: seq<Entry<V>>)
    requires AllAbove(b, k)
    ensures MapOf(a + [Entry(k, v)] + b) == MapOf(a + b)[k := v]
  {
    MapOfAppend(a + [Entry(k, v)], b);
    MapOfAppend(a, b);
    assert (a + [Entry(k, v)])[..|a|] == a;
    MapOfKeys(b);
    assert k !in KeysOf(b);
  }

  /** Replacing the value of the entry for `k` updates the map at `k`. */
  lemma MapReplace<V>(a: seq<Entry<V>>, k: int, v0: V, v: V, b: seq<Entry<V>>)
    requires AllAbove(b, k)
    ensures MapOf(a + [Entry(k, v)] + b) == MapOf(a + [Entry(k, v0)] + b)[k := v]
  {
    MapInsert(a, k, v, b);
    MapInsert(a, k, v0, b);
  }

  /** Dropping the only entry for `k` removes `k` from the map. */
  lemma MapRemove<V>(a: seq<Entry<V>>, k: int, v0: V, b: seq<Entry<V>>)
    requires AllBelow(a, k) && AllAbove(b, k)
    ensures MapOf(a + b) == MapOf(a + [Entry(k, v0)] + b) - {k}
  {
    MapInsert(a, k, v0, b);
    MapOfKeys(a + b);
    forall i | 0 <= i < |a + b| ensures KeysOf(a + b)[i] != k {
      if i < |a| {
        assert (a + b)[i] == a[i];
      } else {
        assert (a + b)[i] == b[i - |a|];
      }
    }
    assert k !in KeysOf(a + b);
  }
}
