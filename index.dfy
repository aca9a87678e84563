/**
 * Grouping of names by key, as a dictionary from each key to the list of
 * the names that carry it, in order.
 */
module Index {
  import opened Text

  /** The names among the first `n` whose key is `key`, in order. */
  function Group<K(==)>(keys: seq<K>, names: seq<string>, n: nat, key: K): seq<string>
    requires n <= |keys| == |names|
  {
    if n == 0 then []
    else Group(keys, names, n - 1, key) + (if keys[n - 1] == key then [names[n - 1]] else [])
  }

  lemma {:induction false} GroupMembers<K>(keys: seq<K>, names: seq<string>, n: nat, key: K, v: string)
    requires n <= |keys| == |names|
    ensures v in Group(keys, names, n, key) <==> exists k :: 0 <= k < n && keys[k] == key && names[k] == v
  {
    if n > 0 {
      GroupMembers(keys, names, n - 1, key, v);
    }
  }

  function IndexGet<K>(index: map<K, seq<string>>, key: K): seq<string>
  {
    if key in index then index[key] else []
  }

  /** The dictionary the source builds from the first `n` entries: each name appended to the list of its key. */
  function IndexUpTo<K>(keys: seq<K>, names: seq<string>, n: nat): map<K, seq<string>>
    requires n <= |keys| == |names|
  {
    if n == 0 then map[]
    else
      var index := IndexUpTo(keys, names, n - 1);
      index[keys[n - 1] := IndexGet(index, keys[n - 1]) + [names[n - 1]]]
  }

  /** Each key of the dictionary lists exactly the names with that key, in order; a key no entry has lists none. */
  lemma {:induction false} IndexGroups<K>(keys: seq<K>, names: seq<string>, n: nat, key: K)
    requires n <= |keys| == |names|
    ensures IndexGet(IndexUpTo(keys, names, n), key) == Group(keys, names, n, key)
  {
    if n > 0 {
      IndexGroups(keys, names, n - 1, key);
    }
  }

  /** The names among the first `n` whose flag is set, in order. */
  function Selected(flags: seq<bool>, names: seq<string>, n: nat): seq<string>
    requires n <= |flags| == |names|
  {
    if n == 0 then []
    else Selected(flags, names, n - 1) + (if flags[n - 1] then [names[n - 1]] else [])
  }

  lemma {:induction false} SelectedMembers(flags: seq<bool>, names: seq<string>, n: nat, v: string)
    requires n <= |flags| == |names|
    ensures v in Selected(flags, names, n) <==> exists j :: 0 <= j < n && flags[j] && names[j] == v
  {
    if n > 0 {
      SelectedMembers(flags, names, n - 1, v);
    }
  }

  lemma {:induction false} DedupFromSnoc<T>(s: seq<T>, x: T, seen: set<T>)
    ensures DedupFrom(s + [x], seen) == DedupFrom(s, seen) + (if x in s || x in seen then [] else [x])
  {
    if s == [] {
      assert s + [x] == [x];
      assert [x][1..] == [];
    } else {
      assert (s + [x])[1..] == s[1..] + [x];
      if s[0] in seen {
        DedupFromSnoc(s[1..], x, seen);
      } else {
        DedupFromSnoc(s[1..], x, seen + {s[0]});
      }
    }
  }

  /** Appending to a list whose elements are exactly `seen` extends its first occurrences by the new one, if new. */
  lemma DedupSnoc<T>(s: seq<T>, x: T, seen: set<T>)
    requires forall v :: v in seen <==> v in s
    ensures Dedup(s + [x]) == Dedup(s) + (if x in seen then [] else [x])
    ensures forall v :: v in seen + {x} <==> v in s + [x]
  {
    DedupFromSnoc(s, x, {});
  }

  /**
   * One step of collecting the selected names once each, in order of
   * first occurrence, with `seen` holding the names collected so far.
   */
  method AppendFirst(results: seq<string>, seen: set<string>, keep: bool, name: string,
                     ghost flags: seq<bool>, ghost names: seq<string>, ghost j: nat)
    returns (results': seq<string>, seen': set<string>)
    requires j < |flags| == |names| && flags[j] == keep && names[j] == name
    requires results == Dedup(Selected(flags, names, j))
    requires forall v :: v in seen <==> v in Selected(flags, names, j)
    ensures results' == Dedup(Selected(flags, names, j + 1))
    ensures forall v :: v in seen' <==> v in Selected(flags, names, j + 1)
  {
    results', seen' := results, seen;
    ghost var before := Selected(flags, names, j);
    if keep {
      assert Selected(flags, names, j + 1) == before + [name];
      DedupSnoc(before, name, seen);
      if name !in seen {
        results' := results + [name];
        seen' := seen + {name};
      }
    } else {
      assert Selected(flags, names, j + 1) == before;
    }
  }

  /** The first loop of the source: appends each name to the list of its key, the keys computed beforehand. */
  method IndexByKey<K>(keys: seq<K>, names: seq<string>) returns (index: map<K, seq<string>>)
    requires |keys| == |names|
    ensures index == IndexUpTo(keys, names, |keys|)
  {
    index := map[];
    for i := 0 to |keys|
      invariant index == IndexUpTo(keys, names, i)
    {
      index := index[keys[i] := IndexGet(index, keys[i]) + [names[i]]];
    }
  }

  /** Entry `j` is marked and an entry with the same key has another name. */
  predicate RepeatedAt<K(==)>(keys: seq<K>, names: seq<string>, marked: seq<bool>, j: nat)
    requires j < |keys| == |names| == |marked|
  {
    marked[j] && exists k :: 0 <= k < |keys| && keys[k] == keys[j] && names[k] != names[j]
  }

  /** Whether each entry is marked and repeated, in order. */
  function RepeatedFlags<K(==)>(keys: seq<K>, names: seq<string>, marked: seq<bool>): (r: seq<bool>)
    requires |keys| == |names| == |marked|
    ensures |r| == |keys| && forall j :: 0 <= j < |keys| ==> r[j] == RepeatedAt(keys, names, marked, j)
  {
    seq(|keys|, j requires 0 <= j < |keys| => RepeatedAt(keys, names, marked, j))
  }

  /** `any(v != name for v in variants)`. */
  predicate HasOther(variants: seq<string>, name: string)
  {
    exists v :: v in variants && v != name
  }

  /** The test the second loop applies to entry `j`, with the index built by the first. */
  method RepeatedByIndex<K(==)>(keys: seq<K>, names: seq<string>, marked: seq<bool>, j: nat, index: map<K, seq<string>>)
    returns (keep: bool)
    requires j < |keys| == |names| == |marked|
    requires index == IndexUpTo(keys, names, |keys|)
    ensures keep == RepeatedAt(keys, names, marked, j)
  {
    keep := false;
    if marked[j] {
      var variants := IndexGet(index, keys[j]);
      keep := HasOther(variants, names[j]);
      IndexGroups(keys, names, |keys|, keys[j]);
      if keep {
        var v :| v in variants && v != names[j];
        GroupMembers(keys, names, |keys|, keys[j], v);
      } else {
        forall k | 0 <= k < |keys| && keys[k] == keys[j]
          ensures names[k] == names[j]
        {
          GroupMembers(keys, names, |keys|, keys[j], names[k]);
        }
      }
    }
  }

  /** The marked names that share their key with another name, each once, in order of first occurrence. */
  method SelectRepeated<K(==)>(keys: seq<K>, names: seq<string>, marked: seq<bool>) returns (results: seq<string>)
    requires |keys| == |names| == |marked|
    ensures results == Dedup(Selected(RepeatedFlags(keys, names, marked), names, |keys|))
  {
    var index := IndexByKey(keys, names);
    ghost var flags := RepeatedFlags(keys, names, marked);
    results := [];
    var seen: set<string> := {};
    for j := 0 to |keys|
      invariant results == Dedup(Selected(flags, names, j))
      invariant forall v :: v in seen <==> v in Selected(flags, names, j)
    {
      var keep := RepeatedByIndex(keys, names, marked, j, index);
      results, seen := AppendFirst(results, seen, keep, names[j], flags, names, j);
    }
  }

  // ---------------------------------------------------------------------------
  // Sets of values by key

  function SetIndexGet<K, V>(index: map<K, set<V>>, key: K): set<V>
  {
    if key in index then index[key] else {}
  }

  /** The dictionary of sets built from the first `n` entries: each value added to the set of its key. */
  function SetIndexUpTo<K, V>(keys: seq<K>, values: seq<V>, n: nat): map<K, set<V>>
    requires n <= |keys| == |values|
  {
    if n == 0 then map[]
    else
      var index := SetIndexUpTo(keys, values, n - 1);
      index[keys[n - 1] := SetIndexGet(index, keys[n - 1]) + {values[n - 1]}]
  }

  /** The set of a key holds exactly the values of the entries with that key. */
  lemma {:induction false} SetIndexMembers<K, V>(keys: seq<K>, values: seq<V>, n: nat, key: K, v: V)
    requires n <= |keys| == |values|
    ensures v in SetIndexGet(SetIndexUpTo(keys, values, n), key)
            <==> exists k :: 0 <= k < n && keys[k] == key && values[k] == v
  {
    if n > 0 {
      SetIndexMembers(keys, values, n - 1, key, v);
    }
  }

  /** Adds each value to the set of its key, in order. */
  method SetIndexByKey<K, V>(keys: seq<K>, values: seq<V>) returns (index: map<K, set<V>>)
    requires |keys| == |values|
    ensures index == SetIndexUpTo(keys, values, |keys|)
  {
    index := map[];
    for i := 0 to |keys|
      invariant index == SetIndexUpTo(keys, values, i)
    {
      index := index[keys[i] := SetIndexGet(index, keys[i]) + {values[i]}];
    }
  }

  /** A set with two different members has more than one. */
  lemma TwoMembers<V>(s: set<V>, a: V, b: V)
    requires a in s && b in s && a != b
    ensures |s| > 1
  {
    var rest := s - {a};
    assert s == rest + {a};
    assert b in rest;
  }
}
