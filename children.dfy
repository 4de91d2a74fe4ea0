/** `getChildren`: the raw child configurations of a node. */
module ChildResolver {
  import opened Values
  import opened Errors
  import opened Kinds
  import opened ConfigMerge

  /** The node declares children: a non-empty value under its key. */
  predicate HasChildren(config: Entries, key: string) {
    Get(config, key).Some? && !IsEmpty(Get(config, key).value)
  }

  /** No children is not an error, whatever the children class; declared
      children need a non-empty, registered children class, and are then
      returned exactly as configured, unmerged. */
  function GetChildren(config: Entries, kind: Kind, reg: Registry): (r: Result<Option<Value>, ConfigError>)
    ensures r == Ok(None) <==> !HasChildren(config, kind.childrenKey)
    ensures r.Err? <==> HasChildren(config, kind.childrenKey) && (kind.childrenClass == "" || kind.childrenClass !in reg)
    ensures r.Err? ==> r.error == if kind.childrenClass == "" then NoChildrenClass else UnknownChildrenClass(kind.childrenClass)
    ensures r.Ok? && r.value.Some? ==>
      Get(config, kind.childrenKey) == r.value && !IsEmpty(r.value.value) && kind.childrenClass in reg
  {
    match Get(config, kind.childrenKey)
    case None => Ok(None)
    case Some(children) =>
      if IsEmpty(children) then Ok(None)
      else if kind.childrenClass == "" then Err(NoChildrenClass)
      else if kind.childrenClass !in reg then Err(UnknownChildrenClass(kind.childrenClass))
      else Ok(Some(children))
  }

  /** What `foreach` visits: the entries of an array, nothing for a
      scalar or `null`. */
  function ChildEntries(children: Value): Entries {
    if children.Arr? then children.entries else []
  }

  /** `$config['name'] = $name` on a child's raw configuration. PHP turns
      `null` into an empty array first; a scalar cannot take an offset, and
      the constructor's `array` parameter refuses it. */
  function ChildConfig(name: string, raw: Value): Result<Entries, ConfigError> {
    if raw.Scalar? then Err(ChildNotArray(name)) else Ok(Put(ChildEntries(raw), "name", Scalar(name)))
  }

  /** A child's own configuration: an error exactly for a scalar; for
      `null` or an empty array, just its key as `name`; for an array, its raw entries with
      `name` set to its key and every other key unchanged. */
  lemma ChildConfigSpec(name: string, raw: Value)
    ensures ChildConfig(name, raw).Err? <==> raw.Scalar?
    ensures ChildConfig(name, raw).Err? ==> ChildConfig(name, raw).error == ChildNotArray(name)
    ensures raw == Null || raw == Arr([]) ==> ChildConfig(name, raw).value == [("name", Scalar(name))]
    ensures !raw.Scalar? ==> Get(ChildConfig(name, raw).value, "name") == Some(Scalar(name))
    ensures raw.Arr? ==> forall k :: k != "name" ==> Get(ChildConfig(name, raw).value, k) == Get(raw.entries, k)
    ensures raw.Arr? && UniqueKeys(raw.entries) ==> UniqueKeys(ChildConfig(name, raw).value)
  {
    if !raw.Scalar? {
      var es := ChildEntries(raw);
      assert es == [] ==> Keys(es) == [];
      PutSpec(es, "name", Scalar(name));
    }
  }

  /** A child's merged configuration carries its key as `name`, whatever
      `name` the child or its ancestors configured. */
  lemma ChildNameIsKey(name: string, raw: Value, parent: Entries)
    requires !raw.Scalar? && (raw.Arr? ==> UniqueKeys(raw.entries))
    ensures Field(MergeWithParent(ChildConfig(name, raw).value, parent), "name") == name
  {
    var own := ChildConfig(name, raw).value;
    ChildConfigSpec(name, raw);
    MergeWithParentIsReplace(own, parent);
    ReplaceLookup(parent, own, "name");
  }

  /** An empty child under a children entry that holds only it inherits
      that entry: the merge keeps every key but `name` from the parent. */
  lemma EmptyChildInherits(config: Entries, key: string, name: string)
    requires key != "name" && Get(config, key) == Some(Arr([(name, Arr([]))]))
    ensures ChildConfig(name, Arr([])) == Ok([("name", Scalar(name))])
    ensures Get(MergeWithParent([("name", Scalar(name))], config), key) == Get(config, key)
  {
    ChildConfigSpec(name, Arr([]));
    var own := [("name", Scalar(name))];
    MergeWithParentIsReplace(own, config);
    ReplaceLookup(config, own, key);
  }
}
