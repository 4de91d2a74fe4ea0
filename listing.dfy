/** `listChildren`: the inventory of a runnable tree, stated as functions
    of the configuration. It resolves children exactly as `run` does but
    never consults the target. */
module Lister {
  import opened Seqs
  import opened Values
  import opened Errors
  import opened Kinds
  import opened ConfigMerge
  import opened ChildResolver

  /** `array($label => array($child1, $child2, ...))`: the one key of a
      listing and the listings of the children under it. */
  datatype Listing = Listing(key: string, items: seq<Listing>)

  /** `type:name` of a node. */
  function Label(config: Entries): string {
    Field(config, "type") + ":" + Field(config, "name")
  }

  /** `listChildren` on a node of class `cls` with merged configuration
      `config`; `fuel` bounds the depth of nesting. */
  function ListNode(reg: Registry, cls: string, config: Entries, fuel: nat): Result<Listing, ConfigError>
    requires cls in reg
    decreases fuel, 0, 0
  {
    var kind := reg[cls];
    match GetChildren(config, kind, reg)
    case Err(e) => Err(e)
    case Ok(None) => Ok(Listing(Label(config), []))
    case Ok(Some(children)) =>
      if fuel == 0 then Err(OutOfFuel)
      else
        match ListItems(reg, kind, config, ChildEntries(children), fuel - 1)
        case Err(e) => Err(e)
        case Ok(items) => Ok(Listing(Label(config), items))
  }

  /** The loop of `listChildren`: every child's listing, in declaration
      order. A listing always holds its label key, so the source's
      `!empty($childResult)` test never skips a child. */
  function ListItems(reg: Registry, kind: Kind, config: Entries, children: Entries, fuel: nat): Result<seq<Listing>, ConfigError>
    requires kind.childrenClass in reg
    decreases fuel, 1, |children|
  {
    if children == [] then Ok([])
    else
      match ListItems(reg, kind, config, children[..|children| - 1], fuel)
      case Err(e) => Err(e)
      case Ok(items) =>
        match ListChild(reg, kind, config, children[|children| - 1], fuel)
        case Err(e) => Err(e)
        case Ok(item) => Ok(items + [item])
  }

  /** The listing of one child: its key set as `name`, merged with the
      parent's configuration, listed as a node of the children class. */
  function ListChild(reg: Registry, kind: Kind, config: Entries, child: (string, Value), fuel: nat): Result<Listing, ConfigError>
    requires kind.childrenClass in reg
    decreases fuel, 1, 0
  {
    match ChildConfig(child.0, child.1)
    case Err(e) => Err(e)
    case Ok(own) => ListNode(reg, kind.childrenClass, MergeWithParent(own, config), fuel)
  }

  /** The bound only cuts the listing short: a listing that did not reach
      it is the same under any larger bound, so with enough fuel
      `ListNode` is the unbounded `listChildren`. */
  lemma {:induction false} ListNodeFuel(reg: Registry, cls: string, config: Entries, fuel: nat, more: nat)
    requires cls in reg && fuel <= more
    requires ListNode(reg, cls, config, fuel) != Err(OutOfFuel)
    ensures ListNode(reg, cls, config, more) == ListNode(reg, cls, config, fuel)
    decreases fuel, 0, 1
  {
    if DeclaresChildren(reg, cls, config) {
      LoopWithinBound(reg, cls, config, fuel);
      ListChildrenFuel(reg, cls, config, fuel, more);
    } else {
      NodeListsNoChildren(reg, cls, config, fuel);
      NodeListsNoChildren(reg, cls, config, more);
    }
  }

  /** `ListNodeFuel` for a node that declares children: its loop lists
      alike under both bounds. */
  lemma {:induction false} ListChildrenFuel(reg: Registry, cls: string, config: Entries, fuel: nat, more: nat)
    requires cls in reg && 0 < fuel <= more && DeclaresChildren(reg, cls, config)
    requires ListItems(reg, reg[cls], config, ChildEntries(GetChildren(config, reg[cls], reg).value.value), fuel - 1) != Err(OutOfFuel)
    ensures ListNode(reg, cls, config, more) == ListNode(reg, cls, config, fuel)
    decreases fuel, 0, 0
  {
    var children := ChildEntries(GetChildren(config, reg[cls], reg).value.value);
    ListItemsFuel(reg, reg[cls], config, children, fuel - 1, more - 1);
    NodeListsAlike(reg, cls, config, fuel, more);
  }

  /** A node with declared children that listed within its bound ran its
      loop within the bound one lower. */
  lemma LoopWithinBound(reg: Registry, cls: string, config: Entries, fuel: nat)
    requires cls in reg && DeclaresChildren(reg, cls, config)
    requires ListNode(reg, cls, config, fuel) != Err(OutOfFuel)
    ensures fuel > 0
    ensures ListItems(reg, reg[cls], config, ChildEntries(GetChildren(config, reg[cls], reg).value.value), fuel - 1) != Err(OutOfFuel)
  {
    NodeListsChildren(reg, cls, config, fuel);
  }

  /** The node's loop is reached: its children resolve to a declared
      entry. */
  predicate DeclaresChildren(reg: Registry, cls: string, config: Entries)
    requires cls in reg
  {
    GetChildren(config, reg[cls], reg).Ok? && GetChildren(config, reg[cls], reg).value.Some?
  }

  /** A node with declared children lists alike under two bounds when its
      loop does. */
  lemma NodeListsAlike(reg: Registry, cls: string, config: Entries, fuel: nat, more: nat)
    requires cls in reg && DeclaresChildren(reg, cls, config) && 0 < fuel && 0 < more
    requires var children := ChildEntries(GetChildren(config, reg[cls], reg).value.value);
      ListItems(reg, reg[cls], config, children, more - 1) == ListItems(reg, reg[cls], config, children, fuel - 1)
    ensures ListNode(reg, cls, config, more) == ListNode(reg, cls, config, fuel)
  {
    NodeListsChildren(reg, cls, config, fuel);
    NodeListsChildren(reg, cls, config, more);
  }

  /** A node without declared children lists the same at every bound. */
  lemma NodeListsNoChildren(reg: Registry, cls: string, config: Entries, fuel: nat)
    requires cls in reg && !DeclaresChildren(reg, cls, config)
    ensures ListNode(reg, cls, config, fuel) == ListNode(reg, cls, config, 0)
  {
  }

  /** A node with declared children has no listing at bound 0, and
      otherwise labels what its loop, one bound lower, returns. */
  lemma NodeListsChildren(reg: Registry, cls: string, config: Entries, fuel: nat)
    requires cls in reg && DeclaresChildren(reg, cls, config)
    ensures var children := ChildEntries(GetChildren(config, reg[cls], reg).value.value);
      if fuel == 0 then ListNode(reg, cls, config, fuel) == Err(OutOfFuel)
      else
        ListNode(reg, cls, config, fuel) ==
          match ListItems(reg, reg[cls], config, children, fuel - 1)
          case Err(e) => Err(e)
          case Ok(items) => Ok(Listing(Label(config), items))
  {
  }

  lemma {:induction false} ListItemsFuel(reg: Registry, kind: Kind, config: Entries, children: Entries, fuel: nat, more: nat)
    requires kind.childrenClass in reg && fuel <= more
    requires ListItems(reg, kind, config, children, fuel) != Err(OutOfFuel)
    ensures ListItems(reg, kind, config, children, more) == ListItems(reg, kind, config, children, fuel)
    decreases fuel, 1, |children|
  {
    if children != [] {
      var front := children[..|children| - 1];
      ListItemsFuel(reg, kind, config, front, fuel, more);
      if ListItems(reg, kind, config, front, fuel).Ok? {
        ListChildFuel(reg, kind, config, children[|children| - 1], fuel, more);
      }
    }
  }

  lemma {:induction false} ListChildFuel(reg: Registry, kind: Kind, config: Entries, child: (string, Value), fuel: nat, more: nat)
    requires kind.childrenClass in reg && fuel <= more
    requires ListChild(reg, kind, config, child, fuel) != Err(OutOfFuel)
    ensures ListChild(reg, kind, config, child, more) == ListChild(reg, kind, config, child, fuel)
    decreases fuel, 1, 0
  {
    var own := ChildConfig(child.0, child.1);
    if own.Ok? {
      ListNodeFuel(reg, kind.childrenClass, MergeWithParent(own.value, config), fuel, more);
    }
  }

  /** Two registries that agree on the classes and on how each class finds
      and builds its children; they may differ in target checking, mail
      and overridden `run`s. */
  predicate SameChildren(reg: Registry, reg': Registry) {
    reg.Keys == reg'.Keys &&
    forall c :: c in reg ==> reg[c].childrenClass == reg'[c].childrenClass && reg[c].childrenKey == reg'[c].childrenKey
  }

  /** The registry with target checking switched on or off for every
      class. */
  function WithTargetCheck(reg: Registry, on: bool): (r: Registry)
    ensures SameChildren(reg, r)
    ensures forall c :: c in r ==> r[c].targetCheck == on
  {
    map c | c in reg :: reg[c].(targetCheck := on)
  }

  /** Listing depends on nothing but the children settings: in particular
      it never applies target filtering. */
  lemma {:induction false} ListingIgnoresTargets(reg: Registry, reg': Registry, cls: string, config: Entries, fuel: nat)
    requires SameChildren(reg, reg') && cls in reg
    ensures ListNode(reg, cls, config, fuel) == ListNode(reg', cls, config, fuel)
    decreases fuel, 0, 0
  {
    if fuel > 0 {
      var ch := GetChildren(config, reg[cls], reg);
      assert ch == GetChildren(config, reg'[cls], reg');
      if ch.Ok? && ch.value.Some? {
        ItemsIgnoreTargets(reg, reg', reg[cls], reg'[cls], config, ChildEntries(ch.value.value), fuel - 1);
      }
    }
  }

  lemma {:induction false} ItemsIgnoreTargets(reg: Registry, reg': Registry, kind: Kind, kind': Kind,
                                              config: Entries, children: Entries, fuel: nat)
    requires SameChildren(reg, reg') && kind.childrenClass in reg
    requires kind.childrenClass == kind'.childrenClass && kind.childrenKey == kind'.childrenKey
    ensures ListItems(reg, kind, config, children, fuel) == ListItems(reg', kind', config, children, fuel)
    decreases fuel, 1, |children|
  {
    if children != [] {
      ItemsIgnoreTargets(reg, reg', kind, kind', config, children[..|children| - 1], fuel);
      var own := ChildConfig(children[|children| - 1].0, children[|children| - 1].1);
      if own.Ok? {
        ListingIgnoresTargets(reg, reg', kind.childrenClass, MergeWithParent(own.value, config), fuel);
      }
    }
  }

  /** The listing of a node holds one item per declared child, in
      declaration order: the listing of that child, whose key is the
      label of the child's merged configuration (and whose `name` is the
      child's key, by ChildResolver.ChildNameIsKey). */
  lemma {:induction false} ItemsCoverChildren(reg: Registry, kind: Kind, config: Entries, children: Entries, fuel: nat)
    requires kind.childrenClass in reg
    requires ListItems(reg, kind, config, children, fuel).Ok?
    ensures var items := ListItems(reg, kind, config, children, fuel).value;
      |items| == |children| &&
      forall i :: 0 <= i < |children| ==> ListChild(reg, kind, config, children[i], fuel) == Ok(items[i])
    decreases |children|
  {
    if children != [] {
      var n := |children| - 1;
      var front := children[..n];
      var prev := ListItems(reg, kind, config, front, fuel);
      var last := ListChild(reg, kind, config, children[n], fuel);
      assert prev.Ok? && last.Ok?;
      ItemsCoverChildren(reg, kind, config, front, fuel);
      var items := prev.value + [last.value];
      assert ListItems(reg, kind, config, children, fuel).value == items;
      forall i | 0 <= i < |children|
        ensures ListChild(reg, kind, config, children[i], fuel) == Ok(items[i])
      {
        if i < n {
          assert front[i] == children[i] && items[i] == prev.value[i];
        } else {
          assert i == n && items[i] == last.value;
        }
      }
    }
  }

  /** The shape of a listing: its one key is the node's `type:name`; it
      lists nothing when the node declares no children, and otherwise one
      item per declared child, in declaration order, each the listing of
      that child. */
  lemma ListingShape(reg: Registry, cls: string, config: Entries, fuel: nat)
    requires cls in reg && ListNode(reg, cls, config, fuel).Ok?
    ensures ListNode(reg, cls, config, fuel).value.key == Label(config)
    ensures !HasChildren(config, reg[cls].childrenKey) ==> ListNode(reg, cls, config, fuel).value.items == []
    ensures HasChildren(config, reg[cls].childrenKey) ==>
      var children := ChildEntries(GetChildren(config, reg[cls], reg).value.value);
      var items := ListNode(reg, cls, config, fuel).value.items;
      fuel > 0 && |items| == |children| &&
      forall i :: 0 <= i < |children| ==> ListChild(reg, reg[cls], config, children[i], fuel - 1) == Ok(items[i])
  {
    var ch := GetChildren(config, reg[cls], reg);
    if ch.Ok? && ch.value.Some? && fuel > 0 {
      ItemsCoverChildren(reg, reg[cls], config, ChildEntries(ch.value.value), fuel - 1);
    }
  }

  /** A listed child is labelled with its own key as its name, whatever
      `name` it or its ancestors configured. */
  lemma ListedChildName(reg: Registry, kind: Kind, config: Entries, child: (string, Value), fuel: nat)
    requires kind.childrenClass in reg && ListChild(reg, kind, config, child, fuel).Ok?
    requires child.1.Arr? ==> UniqueKeys(child.1.entries)
    ensures !child.1.Scalar?
    ensures ListChild(reg, kind, config, child, fuel).value.key ==
      Field(MergeWithParent(ChildConfig(child.0, child.1).value, config), "type") + ":" + child.0
  {
    ChildNameIsKey(child.0, child.1, config);
  }

  /** Why listing needs a bound: a class whose children are of the same
      class, under the same key, and whose children entry holds exactly
      one child with an empty configuration, never finishes, since the
      child inherits the parent's children entry through the merge. */
  lemma {:induction false} SelfNestingNeverEnds(reg: Registry, cls: string, config: Entries, name: string, fuel: nat)
    requires cls in reg && cls != "" && reg[cls].childrenClass == cls && reg[cls].childrenKey != "name"
    requires Get(config, reg[cls].childrenKey) == Some(Arr([(name, Arr([]))]))
    ensures ListNode(reg, cls, config, fuel) == Err(OutOfFuel)
    decreases fuel
  {
    if fuel > 0 {
      var key := reg[cls].childrenKey;
      var child := (name, Arr([]));
      var own := [("name", Scalar(name))];
      EmptyChildInherits(config, key, name);
      SelfNestingNeverEnds(reg, cls, MergeWithParent(own, config), name, fuel - 1);
      assert ListChild(reg, reg[cls], config, child, fuel - 1) == Err(OutOfFuel);
      assert [child][..0] == [];
      assert ListItems(reg, reg[cls], config, [child], fuel - 1) == Err(OutOfFuel);
      assert GetChildren(config, reg[cls], reg) == Ok(Some(Arr([child])));
    }
  }

  /** Once listing has failed on a prefix of the children, it fails with
      that error: later children are not listed. */
  lemma {:induction false} ListErrorEndsLoop(reg: Registry, kind: Kind, config: Entries, children: Entries, fuel: nat, j: nat)
    requires kind.childrenClass in reg && j <= |children|
    requires ListItems(reg, kind, config, children[..j], fuel).Err?
    ensures ListItems(reg, kind, config, children, fuel) == ListItems(reg, kind, config, children[..j], fuel)
    decreases |children|
  {
    if j == |children| {
      assert children[..j] == children;
    } else {
      var front := children[..|children| - 1];
      assert children[..j] == front[..j];
      ListErrorEndsLoop(reg, kind, config, front, fuel, j);
    }
  }

  /** One iteration of the listing loop. */
  lemma ListItemsStep(reg: Registry, kind: Kind, config: Entries, children: Entries, fuel: nat, i: nat, item: Listing)
    requires kind.childrenClass in reg && i < |children|
    requires ListChild(reg, kind, config, children[i], fuel) == Ok(item)
    ensures ListItems(reg, kind, config, children[..i + 1], fuel) ==
      match ListItems(reg, kind, config, children[..i], fuel)
      case Err(e) => Err(e)
      case Ok(items) => Ok(items + [item])
  {
    PrefixStep(children, i);
  }

  /** A failing child ends the listing loop with its error. */
  lemma ListItemsFail(reg: Registry, kind: Kind, config: Entries, children: Entries, fuel: nat, i: nat)
    requires kind.childrenClass in reg && i < |children|
    requires ListItems(reg, kind, config, children[..i], fuel).Ok?
    requires ListChild(reg, kind, config, children[i], fuel).Err?
    ensures ListItems(reg, kind, config, children, fuel) == Err(ListChild(reg, kind, config, children[i], fuel).error)
  {
    PrefixStep(children, i);
    ListErrorEndsLoop(reg, kind, config, children, fuel, i + 1);
  }
}
