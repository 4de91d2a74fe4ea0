/** Class `Runnable`: a node built from its own configuration and its
    parent's, whose `run` and `listChildren` build one child object per
    declared child and recurse into it. */
module Runner {
  import opened Seqs
  import opened Values
  import opened Errors
  import opened Kinds
  import opened ConfigMerge
  import opened TargetFilter
  import opened ChildResolver
  import opened Execution
  import opened Lister

  /** `Runnable::OPTION_KEY_TEST_ONLY`: the option, passed down unchanged,
      that tells overriding subclasses to do a dry run. */
  const TestOnlyOption := "test"

  /** The notification transport (`Email`): it records what it is asked
      to send. */
  class Outbox {
    ghost var sent: seq<Notification>

    constructor ()
      ensures sent == []
    {
      sent := [];
    }

    /** `(new Email($config))->send($body)`. */
    method Send(config: Entries, body: string)
      modifies this
      ensures sent == old(sent) + [Notification(config, body)]
    {
      sent := sent + [Notification(config, body)];
    }
  }

  class Runnable {
    /** The classes that exist, replacing PHP's class table. */
    const registry: Registry
    /** The class this object is an instance of. */
    const className: string
    /** The protected properties that class declares. */
    const kind: Kind
    /** `$this->config`: the merged configuration. */
    const config: Entries

    ghost predicate Valid() {
      className in registry && kind == registry[className]
    }

    /** `new $className($own, $parentConfig)`. */
    constructor (registry: Registry, className: string, own: Entries, parentConfig: Entries)
      requires className in registry
      ensures Valid() && this.registry == registry && this.className == className
      ensures config == MergeWithParent(own, parentConfig)
    {
      this.registry := registry;
      this.className := className;
      this.kind := registry[className];
      this.config := MergeWithParent(own, parentConfig);
    }

    /** `run($options)`: the output is that of RunNode, and the outbox
        receives exactly the notifications RunNode sends, even when an
        error ends the run. */
    method Run(options: Entries, leaf: LeafAction, outbox: Outbox, fuel: nat) returns (r: Result<string, ConfigError>)
      requires Valid()
      modifies outbox
      ensures old(outbox.sent) <= outbox.sent
      ensures RunNode(registry, className, config, options, leaf, fuel) == Trace(r, outbox.sent[|old(outbox.sent)|..])
      decreases fuel, 1
    {
      ghost var start := outbox.sent;
      assert outbox.sent[|start|..] == [];
      if kind.overridesRun {
        r := Ok(leaf(className, config, options));
        return;
      }
      var inTarget := IsInTarget(config, kind.targetCheck);
      if inTarget.Err? {
        r := Err(inTarget.error);
        return;
      }
      if !inTarget.value {
        r := Ok("");
        return;
      }
      var children := GetChildren(config, kind, registry);
      if children.Err? {
        r := Err(children.error);
        return;
      }
      if children.value.None? {
        r := Ok("");
        return;
      }
      if fuel == 0 {
        r := Err(OutOfFuel);
        return;
      }
      var aggregate := RunEach(ChildEntries(children.value.value), options, leaf, outbox, fuel - 1);
      if aggregate.Err? {
        r := Err(aggregate.error);
        return;
      }
      if kind.sendEmail && aggregate.value.hasOutput {
        outbox.Send(config, aggregate.value.text);
      }
      r := Ok(aggregate.value.text);
    }

    /** The `foreach` of `run`: builds and runs each child in turn,
        appending a block for every child with output, and stops at the
        first error. Every notification the children send lands in the
        outbox, even when a later child fails. */
    method RunEach(entries: Entries, options: Entries, leaf: LeafAction, outbox: Outbox, fuel: nat)
      returns (r: Result<Acc, ConfigError>)
      requires Valid() && kind.childrenClass in registry
      modifies outbox
      ensures old(outbox.sent) <= outbox.sent
      ensures RunChildren(registry, kind, config, entries, options, leaf, fuel) == Trace(r, outbox.sent[|old(outbox.sent)|..])
      decreases fuel + 1, 0
    {
      ghost var start := outbox.sent;
      var result := "";
      var hasOutput := false;
      var i := 0;
      assert entries[..0] == [];
      while i < |entries|
        invariant 0 <= i <= |entries|
        invariant start <= outbox.sent
        invariant RunChildren(registry, kind, config, entries[..i], options, leaf, fuel) ==
                  Trace(Ok(Acc(result, hasOutput)), outbox.sent[|start|..])
      {
        var (name, raw) := entries[i];
        ghost var before := outbox.sent;
        var own := ChildConfig(name, raw);
        var output: Result<string, ConfigError>;
        if own.Err? {
          output := Err(own.error);
        } else {
          var child := new Runnable(registry, kind.childrenClass, own.value, config);
          output := child.Run(options, leaf, outbox, fuel);
        }
        assert RunChild(registry, kind, config, entries[i], options, leaf, fuel) ==
               Trace(output, outbox.sent[|before|..]);
        RunChildrenNext(registry, kind, config, entries, options, leaf, fuel, i, Acc(result, hasOutput),
                        before[|start|..], output, outbox.sent[|before|..]);
        SplitAfter(start, before, outbox.sent);
        if output.Err? {
          r := Err(output.error);
          return;
        }
        if output.value != "" {
          hasOutput := true;
          result := result + Block(ShortName(kind.childrenClass), name, output.value);
        }
        i := i + 1;
      }
      assert entries[..i] == entries;
      r := Ok(Acc(result, hasOutput));
    }

    /** `listChildren()`: exactly ListNode. */
    method ListChildren(fuel: nat) returns (r: Result<Listing, ConfigError>)
      requires Valid()
      ensures r == ListNode(registry, className, config, fuel)
      decreases fuel, 1
    {
      var heading := Field(config, "type") + ":" + Field(config, "name");
      var children := GetChildren(config, kind, registry);
      if children.Err? {
        r := Err(children.error);
      } else if children.value.None? {
        r := Ok(Listing(heading, []));
      } else if fuel == 0 {
        r := Err(OutOfFuel);
      } else {
        var items := ListEach(ChildEntries(children.value.value), fuel - 1);
        r := if items.Ok? then Ok(Listing(heading, items.value)) else Err(items.error);
      }
    }

    /** The `foreach` of `listChildren`: builds each child and appends its
        listing. */
    method ListEach(entries: Entries, fuel: nat) returns (r: Result<seq<Listing>, ConfigError>)
      requires Valid() && kind.childrenClass in registry
      ensures r == ListItems(registry, kind, config, entries, fuel)
      decreases fuel + 1, 0
    {
      var items: seq<Listing> := [];
      var i := 0;
      assert entries[..0] == [];
      while i < |entries|
        invariant 0 <= i <= |entries|
        invariant ListItems(registry, kind, config, entries[..i], fuel) == Ok(items)
      {
        var (name, raw) := entries[i];
        var own := ChildConfig(name, raw);
        if own.Err? {
          ListItemsFail(registry, kind, config, entries, fuel, i);
          return Err(own.error);
        }
        var child := new Runnable(registry, kind.childrenClass, own.value, config);
        var childResult := child.ListChildren(fuel);
        assert ListChild(registry, kind, config, entries[i], fuel) == childResult;
        if childResult.Err? {
          ListItemsFail(registry, kind, config, entries, fuel, i);
          return Err(childResult.error);
        }
        ListItemsStep(registry, kind, config, entries, fuel, i, childResult.value);
        items := items + [childResult.value];
        i := i + 1;
      }
      assert entries[..i] == entries;
      r := Ok(items);
    }
  }
}
