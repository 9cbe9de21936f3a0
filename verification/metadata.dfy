/**
 * The metadata dictionary and the dictionaries built from it. The stored
 * dictionary compares keys exactly; the one a write operation builds from the
 * caller's metadata compares them ignoring case, so that a key there stands
 * for every spelling that folds to it.
 */
module MetadataMaps {
  import opened Wrappers
  import opened Text

  /** A `Dictionary<string, string>`: keys are never null, values may be. */
  type Metadata = map<string, NString>

  /** No two keys compare equal ignoring case: what an ignore-case dictionary can hold. */
  predicate FoldUnique(m: Metadata) {
    forall a, b :: a in m && b in m && Fold(a) == Fold(b) ==> a == b
  }

  /** Some key of `m` is a spelling of the folded name `f`. */
  ghost predicate HasFold(m: Metadata, f: string) {
    exists k :: k in m && Fold(k) == f
  }

  /** `List<string>.Contains(name, ignoreCaseComparer)` over the protected names. */
  predicate IsProtected(protectedNames: seq<string>, name: string) {
    exists q :: q in protectedNames && Fold(q) == Fold(name)
  }

  /** No stored key is a different spelling of a protected name. */
  ghost predicate NoShadow(m: Metadata, protectedNames: seq<string>) {
    forall k, q :: k in m && q in protectedNames && Fold(k) == Fold(q) ==> k == q
  }

  /**
   * `r` is `d` after `d[key] = v` on a dictionary that compares keys ignoring
   * case: keys stay unique up to case, at most `key` itself is added, some
   * spelling of `key` is present, every key that folds like `key` holds `v`,
   * and every other entry is left alone.
   */
  ghost predicate Upserted(d: Metadata, key: string, v: NString, r: Metadata) {
    && FoldUnique(r)
    && d.Keys <= r.Keys <= d.Keys + {key}
    && HasFold(r, Fold(key))
    && (forall k :: k in r && Fold(k) == Fold(key) ==> r[k] == v)
    && (forall k :: k in d && Fold(k) != Fold(key) ==> r[k] == d[k])
  }

  lemma UpsertExisting(d: Metadata, k: string, key: string, v: NString)
    requires FoldUnique(d) && k in d && Fold(k) == Fold(key)
    ensures Upserted(d, key, v, d[k := v])
  {
    assert d[k := v].Keys == d.Keys;
    assert k in d[k := v];
  }

  lemma UpsertNew(d: Metadata, key: string, v: NString)
    requires FoldUnique(d) && forall k :: k in d ==> Fold(k) != Fold(key)
    ensures Upserted(d, key, v, d[key := v])
  {
    assert key in d[key := v];
  }

  /**
   * `d[key] = v` on a dictionary that compares keys ignoring case: the value of
   * the key that folds like `key` is replaced and that key keeps its spelling;
   * if there is none, `key` is added.
   */
  function SetIgnoreCase(d: Metadata, key: string, v: NString): (r: Metadata)
    requires FoldUnique(d)
    ensures Upserted(d, key, v, r)
  {
    if exists k :: k in d && Fold(k) == Fold(key) then
      var k :| k in d && Fold(k) == Fold(key);
      UpsertExisting(d, k, key, v);
      d[k := v]
    else
      UpsertNew(d, key, v);
      d[key := v]
  }

  /** Some stored key of the same case-folded spelling holds `v`. */
  ghost predicate StoredValue(stored: Metadata, key: string, v: NString) {
    exists s :: s in stored && Fold(s) == Fold(key) && stored[s] == v
  }

  /**
   * `result` is the caller's metadata overlaid with every stored entry: an
   * ignore-case dictionary holding every caller key in its own spelling and
   * every stored key up to case, and nothing else; a caller value survives
   * only where no stored key folds like it, and everywhere else the value is
   * a stored one.
   */
  ghost predicate Merged(caller: Metadata, stored: Metadata, result: Metadata) {
    && FoldUnique(result)
    && caller.Keys <= result.Keys <= caller.Keys + stored.Keys
    && (forall s {:trigger HasFold(result, Fold(s))} :: s in stored ==> HasFold(result, Fold(s)))
    && (forall k :: k in caller && !HasFold(stored, Fold(k)) ==> result[k] == caller[k])
    && (forall k {:trigger result[k]} :: k in result && HasFold(stored, Fold(k)) ==> StoredValue(stored, k, result[k]))
  }

  /** Before any stored entry is overlaid, the copy of the caller's metadata is merged with nothing. */
  lemma MergedStart(caller: Metadata)
    requires FoldUnique(caller)
    ensures Merged(caller, map[], caller)
  {
  }

  lemma MergedStepCovers(caller: Metadata, stored: Metadata, data: Metadata, key: string, v: NString)
    requires Merged(caller, stored, data)
    ensures var stored', data' := stored[key := v], SetIgnoreCase(data, key, v);
      forall s :: s in stored' ==> HasFold(data', Fold(s))
  {
    var stored', data' := stored[key := v], SetIgnoreCase(data, key, v);
    forall s | s in stored'
      ensures HasFold(data', Fold(s))
    {
      if s != key {
        assert HasFold(data, Fold(s));
        var k :| k in data && Fold(k) == Fold(s);
        assert k in data';
      }
    }
  }

  lemma MergedStepCaller(caller: Metadata, stored: Metadata, data: Metadata, key: string, v: NString)
    requires Merged(caller, stored, data)
    ensures var stored', data' := stored[key := v], SetIgnoreCase(data, key, v);
      forall k :: k in caller && !HasFold(stored', Fold(k)) ==> data'[k] == caller[k]
  {
    var stored', data' := stored[key := v], SetIgnoreCase(data, key, v);
    forall k | k in caller && !HasFold(stored', Fold(k))
      ensures data'[k] == caller[k]
    {
      assert key in stored';
      forall s | s in stored
        ensures Fold(s) != Fold(k)
      {
        assert s in stored';
      }
    }
  }

  lemma StoredStepSame(caller: Metadata, stored: Metadata, data: Metadata, key: string, v: NString, k: string)
    requires Merged(caller, stored, data)
    requires k in SetIgnoreCase(data, key, v) && Fold(k) == Fold(key)
    ensures StoredValue(stored[key := v], k, SetIgnoreCase(data, key, v)[k])
  {
    assert key in stored[key := v];
  }

  lemma UpsertOtherKey(d: Metadata, key: string, v: NString, r: Metadata, k: string)
    requires Upserted(d, key, v, r)
    requires k in r && Fold(k) != Fold(key)
    ensures k in d && r[k] == d[k]
  {
  }

  lemma HasFoldOther(stored: Metadata, key: string, v: NString, f: string)
    requires HasFold(stored[key := v], f) && f != Fold(key)
    ensures HasFold(stored, f)
  {
    var s :| s in stored[key := v] && Fold(s) == f;
    assert s in stored;
  }

  lemma StoredValueGrow(stored: Metadata, key: string, v: NString, k: string, x: NString)
    requires key !in stored && StoredValue(stored, k, x)
    ensures StoredValue(stored[key := v], k, x)
  {
    var s :| s in stored && Fold(s) == Fold(k) && stored[s] == x;
    assert s in stored[key := v] && stored[key := v][s] == x;
  }

  lemma StoredStepOther(caller: Metadata, stored: Metadata, data: Metadata, key: string, v: NString, k: string)
    requires Merged(caller, stored, data)
    requires key !in stored
    requires k in SetIgnoreCase(data, key, v) && Fold(k) != Fold(key)
    requires HasFold(stored[key := v], Fold(k))
    ensures StoredValue(stored[key := v], k, SetIgnoreCase(data, key, v)[k])
  {
    var data' := SetIgnoreCase(data, key, v);
    UpsertOtherKey(data, key, v, data', k);
    HasFoldOther(stored, key, v, Fold(k));
    assert StoredValue(stored, k, data[k]);
    StoredValueGrow(stored, key, v, k, data[k]);
  }

  lemma MergedStepStored(caller: Metadata, stored: Metadata, data: Metadata, key: string, v: NString)
    requires Merged(caller, stored, data)
    requires key !in stored
    ensures var stored', data' := stored[key := v], SetIgnoreCase(data, key, v);
      forall k :: k in data' && HasFold(stored', Fold(k)) ==> StoredValue(stored', k, data'[k])
  {
    var stored', data' := stored[key := v], SetIgnoreCase(data, key, v);
    forall k | k in data' && HasFold(stored', Fold(k))
      ensures StoredValue(stored', k, data'[k])
    {
      if Fold(k) == Fold(key) {
        StoredStepSame(caller, stored, data, key, v, k);
      } else {
        StoredStepOther(caller, stored, data, key, v, k);
      }
    }
  }

  /** Overlaying one more stored entry keeps the merge relation. */
  lemma MergedStep(caller: Metadata, stored: Metadata, data: Metadata, key: string, v: NString)
    requires Merged(caller, stored, data)
    requires key !in stored
    ensures Merged(caller, stored[key := v], SetIgnoreCase(data, key, v))
  {
    MergedStepCovers(caller, stored, data, key, v);
    MergedStepCaller(caller, stored, data, key, v);
    MergedStepStored(caller, stored, data, key, v);
  }

  /** The stored keys are split into those still pending and those already copied, with their stored values. */
  ghost predicate CopiedFrom(stored: Metadata, pending: set<string>, copied: Metadata) {
    && pending !! copied.Keys && pending + copied.Keys == stored.Keys
    && (forall k :: k in copied ==> copied[k] == stored[k])
  }

  lemma CopiedStep(stored: Metadata, pending: set<string>, copied: Metadata, key: string)
    requires CopiedFrom(stored, pending, copied) && key in pending
    ensures key !in copied && key in stored
    ensures CopiedFrom(stored, pending - {key}, copied[key := stored[key]])
  {
  }

  lemma CopiedAll(stored: Metadata, copied: Metadata)
    requires CopiedFrom(stored, {}, copied)
    ensures copied == stored
  {
  }

  /** Where the stored keys spell a name only one way, the stored value is what is sent. */
  lemma StoredWins(caller: Metadata, stored: Metadata, result: Metadata, s: string)
    requires Merged(caller, stored, result)
    requires s in stored
    requires forall s' :: s' in stored && Fold(s') == Fold(s) ==> s' == s
    ensures HasFold(result, Fold(s))
    ensures forall k :: k in result && Fold(k) == Fold(s) ==> result[k] == stored[s]
  {
    forall k | k in result && Fold(k) == Fold(s)
      ensures result[k] == stored[s]
    {
      assert HasFold(stored, Fold(k));
    }
  }

  /** With no caller entries and no case-variant stored keys, the merge sends the stored metadata as is. */
  lemma MergedEmptyCaller(stored: Metadata, result: Metadata)
    requires FoldUnique(stored)
    requires Merged(map[], stored, result)
    ensures result == stored
  {
    forall k | k in stored
      ensures k in result && result[k] == stored[k]
    {
      assert HasFold(result, Fold(k));
      var r :| r in result && Fold(r) == Fold(k);
      assert r in stored;
      assert HasFold(stored, Fold(k));
    }
    assert result.Keys == stored.Keys;
  }

  /** Writing a key that is not protected, in any spelling, leaves the protected entries and the no-shadow property alone. */
  lemma UpdateUnprotected(m: Metadata, protectedNames: seq<string>, key: string, v: NString)
    requires NoShadow(m, protectedNames)
    requires !IsProtected(protectedNames, key)
    ensures NoShadow(m[key := v], protectedNames)
    ensures forall q :: q in protectedNames && q in m ==> q in m[key := v] && m[key := v][q] == m[q]
    ensures KeepProtected(m[key := v], protectedNames) == KeepProtected(m, protectedNames)
  {
    assert key !in protectedNames;
  }

  /** What `ResetMetadata` keeps: the entries whose key is, spelled exactly, a protected name. */
  function KeepProtected(m: Metadata, protectedNames: seq<string>): (r: Metadata)
    ensures forall k :: k in r <==> k in m && k in protectedNames
    ensures forall k :: k in r ==> r[k] == m[k]
  {
    map k | k in m && k in protectedNames :: m[k]
  }

  /** A second reset changes nothing. */
  lemma KeepProtectedIdempotent(m: Metadata, protectedNames: seq<string>)
    ensures KeepProtected(KeepProtected(m, protectedNames), protectedNames) == KeepProtected(m, protectedNames)
  {
  }

  /** When every protected name is stored, a reset keeps exactly those entries, values untouched. */
  lemma KeepProtectedExact(m: Metadata, protectedNames: seq<string>)
    requires forall q :: q in protectedNames ==> q in m
    ensures KeepProtected(m, protectedNames).Keys == set q | q in protectedNames
    ensures forall q :: q in protectedNames ==> KeepProtected(m, protectedNames)[q] == m[q]
  {
  }

  /**
   * The exact-spelling test of a reset removes precisely the keys the
   * ignore-case test of `AddMetadata` lets callers write, provided no key is
   * another spelling of a protected name.
   */
  lemma KeepProtectedMatchesIgnoreCase(m: Metadata, protectedNames: seq<string>)
    requires NoShadow(m, protectedNames)
    ensures forall k :: k in m ==> (k in KeepProtected(m, protectedNames) <==> IsProtected(protectedNames, k))
  {
    forall k | k in m
      ensures k in KeepProtected(m, protectedNames) <==> IsProtected(protectedNames, k)
    {
      if IsProtected(protectedNames, k) {
        var q :| q in protectedNames && Fold(q) == Fold(k);
        assert k == q;
      }
    }
  }
}
