/** Configuration inheritance: a node's own configuration laid over the
    already merged configuration of its parent (PHP's
    `array_replace_recursive($parent, $own)`). */
module ConfigMerge {
  import opened Values

  /** The value the merge stores at a key whose base value is `b` and
      whose replacement value is `v`: two arrays are merged key by key,
      in every other case the replacement wins. */
  function MergeValue(b: Option<Value>, v: Value): Value
    decreases v, if v.Arr? then |v.entries| + 1 else 0
  {
    if b.Some? && b.value.Arr? && v.Arr? then Arr(ReplaceFrom(b.value.entries, v, 0)) else v
  }

  /** `array_replace_recursive` restricted to the entries of `repl` from
      position `i` on, written into `base` in iteration order. */
  function ReplaceFrom(base: Entries, repl: Value, i: nat): Entries
    requires repl.Arr? && i <= |repl.entries|
    decreases repl, |repl.entries| - i
  {
    if i == |repl.entries| then base
    else ReplaceFrom(WriteEntry(base, repl.entries[i].0, repl.entries[i].1), repl, i + 1)
  }

  /** One iteration of `array_replace_recursive`: writes the merged value
      of replacement entry (k, v) into `base`. */
  function WriteEntry(base: Entries, k: string, v: Value): Entries
    decreases v, if v.Arr? then |v.entries| + 2 else 1
  {
    Put(base, k, MergeValue(Get(base, k), v))
  }

  /** `array_replace_recursive(base, repl)`: every entry of `repl` is
      written into `base`, merging recursively where both sides hold an
      array. */
  function ReplaceRecursive(base: Entries, repl: Entries): Entries {
    ReplaceFrom(base, Arr(repl), 0)
  }

  /** The constructor's `mergeWithParent`: an empty parent leaves the own
      configuration, an empty own configuration takes the parent's, and
      otherwise the two are merged with the own values winning. */
  function MergeWithParent(own: Entries, parent: Entries): Entries {
    if parent == [] then own
    else if own == [] then parent
    else ReplaceRecursive(parent, own)
  }

  /** A key not among `repl.entries[i..]` keeps its base value. */
  lemma {:induction false} ReplaceFromAbsent(base: Entries, repl: Value, i: nat, k: string)
    requires repl.Arr? && i <= |repl.entries|
    requires k !in Keys(repl.entries)[i..]
    ensures Get(ReplaceFrom(base, repl, i), k) == Get(base, k)
    decreases |repl.entries| - i
  {
    if i < |repl.entries| {
      var ki := repl.entries[i].0;
      assert Keys(repl.entries)[i..][0] == ki;
      assert Keys(repl.entries)[i + 1..] == Keys(repl.entries)[i..][1..];
      PutSpec(base, ki, MergeValue(Get(base, ki), repl.entries[i].1));
      ReplaceFromAbsent(WriteEntry(base, ki, repl.entries[i].1), repl, i + 1, k);
    }
  }

  /** With unique keys, the key at position i does not occur after it. */
  lemma KeyNotLater(es: Entries, i: nat)
    requires i < |es| && UniqueKeys(es)
    ensures es[i].0 !in Keys(es)[i + 1..]
  {
    var later := Keys(es)[i + 1..];
    forall m | 0 <= m < |later| ensures later[m] != es[i].0 {
      assert later[m] == es[i + 1 + m].0;
    }
  }

  /** The key at position `j >= i` ends up holding its merged value. */
  lemma {:induction false} ReplaceFromPresent(base: Entries, repl: Value, i: nat, j: nat)
    requires repl.Arr? && i <= j < |repl.entries| && UniqueKeys(repl.entries)
    ensures Get(ReplaceFrom(base, repl, i), repl.entries[j].0) ==
      Some(MergeValue(Get(base, repl.entries[j].0), repl.entries[j].1))
    decreases |repl.entries| - i
  {
    var es := repl.entries;
    var ki := es[i].0;
    var base' := WriteEntry(base, ki, es[i].1);
    assert ReplaceFrom(base, repl, i) == ReplaceFrom(base', repl, i + 1);
    PutSpec(base, ki, MergeValue(Get(base, ki), es[i].1));
    if i == j {
      KeyNotLater(es, i);
      ReplaceFromAbsent(base', repl, i + 1, ki);
    } else {
      assert Get(base', es[j].0) == Get(base, es[j].0);
      ReplaceFromPresent(base', repl, i + 1, j);
    }
  }

  /** Merge precedence, one level deep: keys only in the parent keep the
      parent's value, the child's value wins at a shared key unless both
      values are arrays, and two arrays at a shared key are merged
      recursively. */
  lemma ReplaceLookup(base: Entries, repl: Entries, k: string)
    requires UniqueKeys(repl)
    ensures Get(repl, k).None? ==> Get(ReplaceRecursive(base, repl), k) == Get(base, k)
    ensures Get(repl, k).Some? && !(Get(repl, k).value.Arr? && Get(base, k).Some? && Get(base, k).value.Arr?) ==>
      Get(ReplaceRecursive(base, repl), k) == Get(repl, k)
    ensures Get(repl, k).Some? && Get(repl, k).value.Arr? && Get(base, k).Some? && Get(base, k).value.Arr? ==>
      Get(ReplaceRecursive(base, repl), k) ==
        Some(Arr(ReplaceRecursive(Get(base, k).value.entries, Get(repl, k).value.entries)))
  {
    match IndexOf(Keys(repl), k)
    case None =>
      assert Keys(repl)[0..] == Keys(repl);
      ReplaceFromAbsent(base, Arr(repl), 0, k);
    case Some(j) =>
      ReplaceFromPresent(base, Arr(repl), 0, j);
  }

  /** Replacing the entries of an array into the array's own prefix
      rebuilds the array. */
  lemma {:induction false} ReplaceFromPrefix(repl: Entries, i: nat)
    requires i <= |repl| && UniqueKeys(repl)
    ensures ReplaceFrom(repl[..i], Arr(repl), i) == repl
    decreases |repl| - i
  {
    if i == |repl| {
      assert repl[..i] == repl;
    } else {
      var ki := repl[i].0;
      assert ki !in Keys(repl[..i]) by {
        forall m | 0 <= m < i ensures Keys(repl[..i])[m] != ki {
          assert repl[..i][m] == repl[m];
        }
      }
      assert WriteEntry(repl[..i], ki, repl[i].1) == repl[..i + 1];
      ReplaceFromPrefix(repl, i + 1);
    }
  }

  /** Merge identity: merging into an empty parent yields the own
      configuration unchanged. */
  lemma ReplaceIntoEmpty(repl: Entries)
    requires UniqueKeys(repl)
    ensures ReplaceRecursive([], repl) == repl
  {
    assert repl[..0] == [];
    ReplaceFromPrefix(repl, 0);
  }

  /** The two early returns of `mergeWithParent` agree with
      `array_replace_recursive`: the constructor always stores
      `array_replace_recursive($parent, $own)`, and both identities hold. */
  lemma MergeWithParentIsReplace(own: Entries, parent: Entries)
    requires UniqueKeys(own)
    ensures MergeWithParent(own, parent) == ReplaceRecursive(parent, own)
    ensures MergeWithParent(own, []) == own
    ensures MergeWithParent([], parent) == parent
  {
    ReplaceIntoEmpty(own);
  }

  /** The keys of `ks` that are not in `seen`, in the order of `ks`. */
  function NewKeys(ks: seq<string>, seen: seq<string>): seq<string> {
    if ks == [] then []
    else if ks[0] in seen then NewKeys(ks[1..], seen)
    else [ks[0]] + NewKeys(ks[1..], seen)
  }

  /** NewKeys keeps exactly the keys of `ks` not in `seen`. */
  lemma {:induction false} NewKeysMembers(ks: seq<string>, seen: seq<string>)
    ensures forall k :: k in NewKeys(ks, seen) <==> k in ks && k !in seen
  {
    if ks != [] {
      NewKeysMembers(ks[1..], seen);
      assert forall k :: k in ks <==> k == ks[0] || k in ks[1..];
    }
  }

  /** Marking as seen a key that does not occur changes nothing. */
  lemma {:induction false} NewKeysIgnoresAbsent(ks: seq<string>, seen: seq<string>, x: string)
    requires x !in ks
    ensures NewKeys(ks, seen + [x]) == NewKeys(ks, seen)
  {
    if ks != [] {
      assert ks[0] in seen + [x] <==> ks[0] in seen;
      NewKeysIgnoresAbsent(ks[1..], seen, x);
    }
  }

  /** One step of the key order: writing key `ks[i]` into an array with
      keys `kb` gives keys `kb'`. */
  lemma NewKeysStep(kb: seq<string>, kb': seq<string>, ks: seq<string>, i: nat)
    requires i < |ks| && ks[i] !in ks[i + 1..]
    requires ks[i] in kb ==> kb' == kb
    requires ks[i] !in kb ==> kb' == kb + [ks[i]]
    ensures kb' + NewKeys(ks[i + 1..], kb') == kb + NewKeys(ks[i..], kb)
  {
    assert ks[i..][1..] == ks[i + 1..];
    if ks[i] !in kb {
      NewKeysIgnoresAbsent(ks[i + 1..], kb, ks[i]);
    }
  }

  /** Writing an entry keeps the keys, appending the key when it is new. */
  lemma WriteEntryKeys(base: Entries, k: string, v: Value)
    ensures Keys(WriteEntry(base, k, v)) == if k in Keys(base) then Keys(base) else Keys(base) + [k]
  {
    PutSpec(base, k, MergeValue(Get(base, k), v));
  }

  lemma {:induction false} ReplaceFromKeys(base: Entries, repl: Value, i: nat)
    requires repl.Arr? && i <= |repl.entries| && UniqueKeys(repl.entries)
    ensures Keys(ReplaceFrom(base, repl, i)) == Keys(base) + NewKeys(Keys(repl.entries)[i..], Keys(base))
    decreases |repl.entries| - i
  {
    var es := repl.entries;
    if i == |es| {
      assert Keys(es)[i..] == [];
    } else {
      var ki := es[i].0;
      var base' := WriteEntry(base, ki, es[i].1);
      assert ReplaceFrom(base, repl, i) == ReplaceFrom(base', repl, i + 1);
      WriteEntryKeys(base, ki, es[i].1);
      ReplaceFromKeys(base', repl, i + 1);
      KeyNotLater(es, i);
      NewKeysStep(Keys(base), Keys(base'), Keys(es), i);
    }
  }

  /** Key order of a merge: the parent's keys first, in the parent's
      order, then the keys only the child has, in the child's order. */
  lemma ReplaceKeys(base: Entries, repl: Entries)
    requires UniqueKeys(repl)
    ensures Keys(ReplaceRecursive(base, repl)) == Keys(base) + NewKeys(Keys(repl), Keys(base))
  {
    ReplaceFromKeys(base, Arr(repl), 0);
    assert Keys(repl)[0..] == Keys(repl);
  }

  lemma {:induction false} MergeValueWellFormed(b: Option<Value>, v: Value)
    requires b.Some? ==> WellFormed(b.value)
    requires WellFormed(v)
    ensures WellFormed(MergeValue(b, v))
    decreases v, if v.Arr? then |v.entries| + 1 else 0
  {
    if b.Some? && b.value.Arr? && v.Arr? {
      ReplaceFromWellFormed(b.value.entries, v, 0);
    }
  }

  lemma {:induction false} ReplaceFromWellFormed(base: Entries, repl: Value, i: nat)
    requires repl.Arr? && i <= |repl.entries|
    requires WellFormed(Arr(base)) && WellFormed(repl)
    ensures WellFormed(Arr(ReplaceFrom(base, repl, i)))
    decreases repl, |repl.entries| - i
  {
    if i < |repl.entries| {
      var ki := repl.entries[i].0;
      var b := Get(base, ki);
      if b.Some? {
        GetWellFormed(base, ki);
      }
      MergeValueWellFormed(b, repl.entries[i].1);
      var base' := WriteEntry(base, ki, repl.entries[i].1);
      PutSpec(base, ki, MergeValue(b, repl.entries[i].1));
      assert WellFormed(Arr(base'));
      ReplaceFromWellFormed(base', repl, i + 1);
    }
  }

  /** The merge of two PHP arrays is again a PHP array: unique keys at
      every level. */
  lemma ReplaceWellFormed(base: Entries, repl: Entries)
    requires WellFormed(Arr(base)) && WellFormed(Arr(repl))
    ensures WellFormed(Arr(ReplaceRecursive(base, repl)))
  {
    ReplaceFromWellFormed(base, Arr(repl), 0);
  }

  /** Merge precedence at any depth: wherever the child's configuration
      holds a scalar, the merged configuration holds that same scalar. */
  lemma {:induction false} ChildScalarWinsAtPath(base: Entries, repl: Entries, path: seq<string>, s: string)
    requires WellFormed(Arr(repl))
    requires GetPath(Arr(repl), path) == Some(Scalar(s))
    ensures GetPath(Arr(ReplaceRecursive(base, repl)), path) == Some(Scalar(s))
    decreases path
  {
    var k := path[0];
    var rv := Get(repl, k).value;
    ReplaceLookup(base, repl, k);
    if rv.Arr? {
      var b := Get(base, k);
      if b.Some? && b.value.Arr? {
        GetWellFormed(repl, k);
        ChildScalarWinsAtPath(b.value.entries, rv.entries, path[1..], s);
      }
    }
  }
}
