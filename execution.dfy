/** `run`: the depth-first execution of a runnable tree, stated as
    functions of the configuration. The methods of class `Runnable` are
    proved to compute exactly these. */
module Execution {
  import opened Seqs
  import opened Values
  import opened Errors
  import opened Kinds
  import opened ConfigMerge
  import opened TargetFilter
  import opened ChildResolver

  /** One notification: the configuration the mailer is built from and
      the text it sends. */
  datatype Notification = Notification(config: Entries, body: string)

  /** What a traversal produced, and the notifications it sent on the way,
      including those sent before an error ended it. */
  datatype Trace<T> = Trace(result: Result<T, ConfigError>, sent: seq<Notification>)

  /** The loop state of `run`: the aggregate text and `$hasOutput`. */
  datatype Acc = Acc(text: string, hasOutput: bool)

  /** The `run` of a subclass that overrides it: from its class name, its
      merged configuration and the options, its output. */
  type LeafAction = (string, Entries, Entries) -> string

  /** The report block for one child with output. */
  function Block(shortClass: string, name: string, output: string): string {
    "Processing " + shortClass + " " + name + "\n" + output + "\n"
  }

  /** `run` on a node of class `cls` whose merged configuration is
      `config`; `fuel` bounds the depth of nesting. */
  function RunNode(reg: Registry, cls: string, config: Entries, options: Entries, leaf: LeafAction, fuel: nat): Trace<string>
    requires cls in reg
    decreases fuel, 0, 0
  {
    var kind := reg[cls];
    if kind.overridesRun then Trace(Ok(leaf(cls, config, options)), [])
    else
      match IsInTarget(config, kind.targetCheck)
      case Err(e) => Trace(Err(e), [])
      case Ok(inTarget) =>
        if !inTarget then Trace(Ok(""), [])
        else
          match GetChildren(config, kind, reg)
          case Err(e) => Trace(Err(e), [])
          case Ok(None) => Trace(Ok(""), [])
          case Ok(Some(children)) =>
            if fuel == 0 then Trace(Err(OutOfFuel), [])
            else
              var t := RunChildren(reg, kind, config, ChildEntries(children), options, leaf, fuel - 1);
              match t.result
              case Err(e) => Trace(Err(e), t.sent)
              case Ok(acc) =>
                Trace(Ok(acc.text), t.sent + if kind.sendEmail && acc.hasOutput then [Notification(config, acc.text)] else [])
  }

  /** The loop of `run` over `children`, in declaration order: each child
      gets its key as `name`, is merged with the parent's configuration
      and run; children with output add a block to the aggregate. */
  function RunChildren(reg: Registry, kind: Kind, config: Entries, children: Entries, options: Entries,
                       leaf: LeafAction, fuel: nat): Trace<Acc>
    requires kind.childrenClass in reg
    decreases fuel, 1, |children|
  {
    if children == [] then Trace(Ok(Acc("", false)), [])
    else
      var prev := RunChildren(reg, kind, config, children[..|children| - 1], options, leaf, fuel);
      match prev.result
      case Err(_) => prev
      case Ok(acc) =>
        var (name, _) := children[|children| - 1];
        var child := RunChild(reg, kind, config, children[|children| - 1], options, leaf, fuel);
        var sent := prev.sent + child.sent;
        match child.result
        case Err(e) => Trace(Err(e), sent)
        case Ok(output) =>
          if output != "" then Trace(Ok(Acc(acc.text + Block(ShortName(kind.childrenClass), name, output), true)), sent)
          else Trace(Ok(acc), sent)
  }

  /** One child of the loop: its key set as `name`, merged with the
      parent's configuration, run as a node of the children class. */
  function RunChild(reg: Registry, kind: Kind, config: Entries, child: (string, Value), options: Entries,
                    leaf: LeafAction, fuel: nat): Trace<string>
    requires kind.childrenClass in reg
    decreases fuel, 1, 0
  {
    match ChildConfig(child.0, child.1)
    case Err(e) => Trace(Err(e), [])
    case Ok(own) => RunNode(reg, kind.childrenClass, MergeWithParent(own, config), options, leaf, fuel)
  }

  /** A node outside the target produces no output, sends nothing, and
      never gets as far as resolving its children, so it raises none of
      their errors whatever the registry says. */
  lemma FilteredNodeIsInert(reg: Registry, cls: string, config: Entries, options: Entries, leaf: LeafAction, fuel: nat)
    requires cls in reg && !reg[cls].overridesRun
    requires IsInTarget(config, reg[cls].targetCheck) == Ok(false)
    ensures forall reg': Registry | cls in reg' && reg'[cls] == reg[cls] ::
      RunNode(reg', cls, config, options, leaf, fuel) == Trace(Ok(""), [])
  {
  }

  /** A target error ends `run` before any child is resolved or run. */
  lemma TargetErrorStopsRun(reg: Registry, cls: string, config: Entries, options: Entries, leaf: LeafAction, fuel: nat)
    requires cls in reg && !reg[cls].overridesRun
    requires IsInTarget(config, reg[cls].targetCheck).Err?
    ensures RunNode(reg, cls, config, options, leaf, fuel) ==
      Trace(Err(IsInTarget(config, reg[cls].targetCheck).error), [])
  {
  }

  /** A node without declared children has no output and sends nothing. */
  lemma NoChildrenNoOutput(reg: Registry, cls: string, config: Entries, options: Entries, leaf: LeafAction, fuel: nat)
    requires cls in reg && !reg[cls].overridesRun
    requires !HasChildren(config, reg[cls].childrenKey)
    requires IsInTarget(config, reg[cls].targetCheck).Ok?
    ensures RunNode(reg, cls, config, options, leaf, fuel) == Trace(Ok(""), [])
  {
  }

  /** Why `run` needs a bound: a class without target checking whose
      children are of the same class, under the same key, and whose
      children entry holds exactly one child with an empty configuration,
      never finishes, since the child inherits the parent's children entry
      through the merge. */
  lemma {:induction false} SelfNestingNeverEnds(reg: Registry, cls: string, config: Entries, name: string,
                                                options: Entries, leaf: LeafAction, fuel: nat)
    requires cls in reg && cls != "" && reg[cls].childrenClass == cls && reg[cls].childrenKey != "name"
    requires !reg[cls].overridesRun && !reg[cls].targetCheck
    requires Get(config, reg[cls].childrenKey) == Some(Arr([(name, Arr([]))]))
    ensures RunNode(reg, cls, config, options, leaf, fuel) == Trace(Err(OutOfFuel), [])
    decreases fuel
  {
    if fuel > 0 {
      var key := reg[cls].childrenKey;
      var child := (name, Arr([]));
      var own := [("name", Scalar(name))];
      EmptyChildInherits(config, key, name);
      SelfNestingNeverEnds(reg, cls, MergeWithParent(own, config), name, options, leaf, fuel - 1);
      assert RunChild(reg, reg[cls], config, child, options, leaf, fuel - 1) == Trace(Err(OutOfFuel), []);
      assert [child][..0] == [];
      assert RunChildren(reg, reg[cls], config, [child], options, leaf, fuel - 1) == Trace(Err(OutOfFuel), []);
      assert GetChildren(config, reg[cls], reg) == Ok(Some(Arr([child])));
    }
  }

  /** The bound only cuts the run short: a run that did not reach it gives
      the same output and notifications under any larger bound, so with
      enough fuel `RunNode` is the unbounded `run`. */
  lemma {:induction false} RunNodeFuel(reg: Registry, cls: string, config: Entries, options: Entries,
                                       leaf: LeafAction, fuel: nat, more: nat)
    requires cls in reg && fuel <= more
    requires RunNode(reg, cls, config, options, leaf, fuel).result != Err(OutOfFuel)
    ensures RunNode(reg, cls, config, options, leaf, more) == RunNode(reg, cls, config, options, leaf, fuel)
    decreases fuel, 0, 0
  {
    if ReachesChildren(reg, cls, config) {
      var kind := reg[cls];
      var children := ChildEntries(GetChildren(config, kind, reg).value.value);
      NodeRunsChildren(reg, cls, config, options, leaf, fuel);
      RunChildrenFuel(reg, kind, config, children, options, leaf, fuel - 1, more - 1);
      NodeRunsChildren(reg, cls, config, options, leaf, more);
    } else {
      NodeStopsEarly(reg, cls, config, options, leaf, fuel);
      NodeStopsEarly(reg, cls, config, options, leaf, more);
    }
  }

  /** Whether `run` on the node gets as far as its loop over children. */
  predicate ReachesChildren(reg: Registry, cls: string, config: Entries)
    requires cls in reg
  {
    !reg[cls].overridesRun && IsInTarget(config, reg[cls].targetCheck) == Ok(true) &&
    GetChildren(config, reg[cls], reg).Ok? && GetChildren(config, reg[cls], reg).value.Some?
  }

  /** A node that never reaches its loop runs alike under every bound. */
  lemma NodeStopsEarly(reg: Registry, cls: string, config: Entries, options: Entries, leaf: LeafAction, fuel: nat)
    requires cls in reg && !ReachesChildren(reg, cls, config)
    ensures RunNode(reg, cls, config, options, leaf, fuel) == RunNode(reg, cls, config, options, leaf, 0)
  {
  }

  /** A node that reaches its loop runs out of fuel at bound 0, and
      otherwise finishes what its loop, one bound lower, returns. */
  lemma NodeRunsChildren(reg: Registry, cls: string, config: Entries, options: Entries, leaf: LeafAction, fuel: nat)
    requires cls in reg && ReachesChildren(reg, cls, config)
    ensures var kind := reg[cls];
      var children := ChildEntries(GetChildren(config, kind, reg).value.value);
      if fuel == 0 then RunNode(reg, cls, config, options, leaf, fuel) == Trace(Err(OutOfFuel), [])
      else
        var t := RunChildren(reg, kind, config, children, options, leaf, fuel - 1);
        RunNode(reg, cls, config, options, leaf, fuel) ==
          match t.result
          case Err(e) => Trace(Err(e), t.sent)
          case Ok(acc) => Trace(Ok(acc.text), t.sent + if kind.sendEmail && acc.hasOutput then [Notification(config, acc.text)] else [])
  {
  }

  lemma {:induction false} RunChildrenFuel(reg: Registry, kind: Kind, config: Entries, children: Entries,
                                           options: Entries, leaf: LeafAction, fuel: nat, more: nat)
    requires kind.childrenClass in reg && fuel <= more
    requires RunChildren(reg, kind, config, children, options, leaf, fuel).result != Err(OutOfFuel)
    ensures RunChildren(reg, kind, config, children, options, leaf, more) ==
            RunChildren(reg, kind, config, children, options, leaf, fuel)
    decreases fuel, 1, |children|
  {
    if children != [] {
      var front := children[..|children| - 1];
      var last := children[|children| - 1];
      RunChildrenFuel(reg, kind, config, front, options, leaf, fuel, more);
      if RunChildren(reg, kind, config, front, options, leaf, fuel).result.Ok? {
        RunChildFuel(reg, kind, config, last, options, leaf, fuel, more);
      }
    }
  }

  lemma {:induction false} RunChildFuel(reg: Registry, kind: Kind, config: Entries, child: (string, Value),
                                        options: Entries, leaf: LeafAction, fuel: nat, more: nat)
    requires kind.childrenClass in reg && fuel <= more
    requires RunChild(reg, kind, config, child, options, leaf, fuel).result != Err(OutOfFuel)
    ensures RunChild(reg, kind, config, child, options, leaf, more) == RunChild(reg, kind, config, child, options, leaf, fuel)
    decreases fuel, 1, 0
  {
    var own := ChildConfig(child.0, child.1);
    if own.Ok? {
      RunNodeFuel(reg, kind.childrenClass, MergeWithParent(own.value, config), options, leaf, fuel, more);
    }
  }

  /** `$hasOutput` is set exactly when the aggregate is non-empty. */
  lemma {:induction false} HasOutputIffText(reg: Registry, kind: Kind, config: Entries, children: Entries,
                                            options: Entries, leaf: LeafAction, fuel: nat)
    requires kind.childrenClass in reg
    requires RunChildren(reg, kind, config, children, options, leaf, fuel).result.Ok?
    ensures var acc := RunChildren(reg, kind, config, children, options, leaf, fuel).result.value;
      acc.hasOutput <==> acc.text != ""
    decreases |children|
  {
    if children != [] {
      HasOutputIffText(reg, kind, config, children[..|children| - 1], options, leaf, fuel);
    }
  }

  /** Once the loop has failed on a prefix of the children, `run` fails
      with that error: later children are not visited. */
  lemma {:induction false} ErrorEndsLoop(reg: Registry, kind: Kind, config: Entries, children: Entries,
                                         options: Entries, leaf: LeafAction, fuel: nat, j: nat)
    requires kind.childrenClass in reg && j <= |children|
    requires RunChildren(reg, kind, config, children[..j], options, leaf, fuel).result.Err?
    ensures RunChildren(reg, kind, config, children, options, leaf, fuel) ==
            RunChildren(reg, kind, config, children[..j], options, leaf, fuel)
    decreases |children|
  {
    if j == |children| {
      assert children[..j] == children;
    } else {
      var front := children[..|children| - 1];
      assert children[..j] == front[..j];
      ErrorEndsLoop(reg, kind, config, front, options, leaf, fuel, j);
    }
  }

  /** One iteration of the loop of `run`: given the state after the first
      i children and what child i returned and sent, a failing child ends
      the whole loop with its error, and otherwise the state after i + 1
      children holds its block when its output is non-empty. */
  lemma RunChildrenNext(reg: Registry, kind: Kind, config: Entries, children: Entries, options: Entries,
                        leaf: LeafAction, fuel: nat, i: nat, acc: Acc, before: seq<Notification>,
                        out: Result<string, ConfigError>, sent: seq<Notification>)
    requires kind.childrenClass in reg && i < |children|
    requires RunChildren(reg, kind, config, children[..i], options, leaf, fuel) == Trace(Ok(acc), before)
    requires RunChild(reg, kind, config, children[i], options, leaf, fuel) == Trace(out, sent)
    ensures out.Err? ==> RunChildren(reg, kind, config, children, options, leaf, fuel) == Trace(Err(out.error), before + sent)
    ensures out.Ok? && out.value != "" ==>
      RunChildren(reg, kind, config, children[..i + 1], options, leaf, fuel) ==
      Trace(Ok(Acc(acc.text + Block(ShortName(kind.childrenClass), children[i].0, out.value), true)), before + sent)
    ensures out.Ok? && out.value == "" ==>
      RunChildren(reg, kind, config, children[..i + 1], options, leaf, fuel) == Trace(Ok(acc), before + sent)
  {
    PrefixStep(children, i);
    if out.Err? {
      ErrorEndsLoop(reg, kind, config, children, options, leaf, fuel, i + 1);
    }
  }

  /** Aggregation order: the aggregate over the first j children is a
      prefix of the whole aggregate, and so are their notifications; a
      block of an earlier child therefore precedes that of a later one. */
  lemma {:induction false} AggregateExtends(reg: Registry, kind: Kind, config: Entries, children: Entries,
                                            options: Entries, leaf: LeafAction, fuel: nat, j: nat)
    requires kind.childrenClass in reg && j <= |children|
    requires RunChildren(reg, kind, config, children, options, leaf, fuel).result.Ok?
    ensures var p := RunChildren(reg, kind, config, children[..j], options, leaf, fuel);
      var t := RunChildren(reg, kind, config, children, options, leaf, fuel);
      p.result.Ok? && p.result.value.text <= t.result.value.text && p.sent <= t.sent
    decreases |children|
  {
    if j == |children| {
      assert children[..j] == children;
    } else {
      var front := children[..|children| - 1];
      assert children[..j] == front[..j];
      AggregateExtends(reg, kind, config, front, options, leaf, fuel, j);
    }
  }

  /** What each child's own run returns and sends, in declaration order. */
  function ChildTraces(reg: Registry, kind: Kind, config: Entries, children: Entries, options: Entries,
                       leaf: LeafAction, fuel: nat): (ts: seq<Trace<string>>)
    requires kind.childrenClass in reg
    ensures |ts| == |children|
    decreases |children|
  {
    if children == [] then []
    else ChildTraces(reg, kind, config, children[..|children| - 1], options, leaf, fuel)
         + [RunChild(reg, kind, config, children[|children| - 1], options, leaf, fuel)]
  }

  /** The report read child by child, first child first: the block of each
      child whose output is non-empty, nothing for the others. */
  function Blocks(short: string, children: Entries, outs: seq<string>): string
    requires |outs| == |children|
    decreases |children|
  {
    if children == [] then ""
    else (if outs[0] != "" then Block(short, children[0].0, outs[0]) else "")
         + Blocks(short, children[1..], outs[1..])
  }

  /** The notifications of all children, first child first. */
  function AllSent(ts: seq<Trace<string>>): seq<Notification> {
    if ts == [] then [] else ts[0].sent + AllSent(ts[1..])
  }

  /** The outputs of traces that all ended without error. */
  function Outputs(ts: seq<Trace<string>>): (outs: seq<string>)
    requires forall t <- ts :: t.result.Ok?
    ensures |outs| == |ts|
  {
    if ts == [] then [] else [ts[0].result.value] + Outputs(ts[1..])
  }

  lemma {:induction false} BlocksAppend(short: string, children: Entries, outs: seq<string>,
                                        child: (string, Value), out: string)
    requires |outs| == |children|
    ensures Blocks(short, children + [child], outs + [out]) ==
            Blocks(short, children, outs) + (if out != "" then Block(short, child.0, out) else "")
    decreases |children|
  {
    var cs := children + [child];
    var os := outs + [out];
    if children == [] {
      assert cs[1..] == [] && os[1..] == [];
    } else {
      assert cs[0] == children[0] && cs[1..] == children[1..] + [child];
      assert os[0] == outs[0] && os[1..] == outs[1..] + [out];
      BlocksAppend(short, children[1..], outs[1..], child, out);
      var head := if outs[0] != "" then Block(short, children[0].0, outs[0]) else "";
      ConcatAssoc(head, Blocks(short, children[1..], outs[1..]), if out != "" then Block(short, child.0, out) else "");
    }
  }

  lemma {:induction false} AllSentAppend(ts: seq<Trace<string>>, t: Trace<string>)
    ensures AllSent(ts + [t]) == AllSent(ts) + t.sent
  {
    var all := ts + [t];
    if ts == [] {
      assert all[1..] == [];
    } else {
      assert all[0] == ts[0] && all[1..] == ts[1..] + [t];
      AllSentAppend(ts[1..], t);
      ConcatAssoc(ts[0].sent, AllSent(ts[1..]), t.sent);
    }
  }

  lemma {:induction false} OutputsAppend(ts: seq<Trace<string>>, t: Trace<string>)
    requires forall u <- ts :: u.result.Ok?
    requires t.result.Ok?
    ensures Outputs(ts + [t]) == Outputs(ts) + [t.result.value]
  {
    var all := ts + [t];
    if ts == [] {
      assert all[1..] == [];
    } else {
      assert all[0] == ts[0] && all[1..] == ts[1..] + [t];
      OutputsAppend(ts[1..], t);
    }
  }

  /** Child i's trace is what its own run returns and sends. */
  lemma {:induction false} ChildTracesAt(reg: Registry, kind: Kind, config: Entries, children: Entries,
                                         options: Entries, leaf: LeafAction, fuel: nat)
    requires kind.childrenClass in reg
    ensures forall i :: 0 <= i < |children| ==>
      ChildTraces(reg, kind, config, children, options, leaf, fuel)[i] == RunChild(reg, kind, config, children[i], options, leaf, fuel)
    decreases |children|
  {
    if children != [] {
      var n := |children| - 1;
      var front := children[..n];
      ChildTracesAt(reg, kind, config, front, options, leaf, fuel);
      forall i | 0 <= i < n
        ensures ChildTraces(reg, kind, config, children, options, leaf, fuel)[i] ==
                RunChild(reg, kind, config, children[i], options, leaf, fuel)
      {
        assert children[i] == front[i];
      }
    }
  }

  /** A loop that ended without error ran every child without error. */
  lemma {:induction false} ChildrenRanOk(reg: Registry, kind: Kind, config: Entries, children: Entries,
                                         options: Entries, leaf: LeafAction, fuel: nat)
    requires kind.childrenClass in reg
    requires RunChildren(reg, kind, config, children, options, leaf, fuel).result.Ok?
    ensures forall t <- ChildTraces(reg, kind, config, children, options, leaf, fuel) :: t.result.Ok?
    decreases |children|
  {
    if children != [] {
      var n := |children| - 1;
      ChildrenRanOk(reg, kind, config, children[..n], options, leaf, fuel);
      assert RunChild(reg, kind, config, children[n], options, leaf, fuel).result.Ok?;
    }
  }

  /** A loop that ended without error sent its children's notifications. */
  lemma {:induction false} SentOfTraces(reg: Registry, kind: Kind, config: Entries, children: Entries,
                                        options: Entries, leaf: LeafAction, fuel: nat)
    requires kind.childrenClass in reg
    requires RunChildren(reg, kind, config, children, options, leaf, fuel).result.Ok?
    ensures RunChildren(reg, kind, config, children, options, leaf, fuel).sent ==
            AllSent(ChildTraces(reg, kind, config, children, options, leaf, fuel))
    decreases |children|
  {
    if children != [] {
      var n := |children| - 1;
      var front := children[..n];
      var last := RunChild(reg, kind, config, children[n], options, leaf, fuel);
      assert RunChildren(reg, kind, config, children, options, leaf, fuel).sent ==
             RunChildren(reg, kind, config, front, options, leaf, fuel).sent + last.sent;
      SentOfTraces(reg, kind, config, front, options, leaf, fuel);
      AllSentAppend(ChildTraces(reg, kind, config, front, options, leaf, fuel), last);
    }
  }

  /** A loop that ended without error reported the blocks of its children. */
  lemma {:induction false} TextOfTraces(reg: Registry, kind: Kind, config: Entries, children: Entries,
                                        options: Entries, leaf: LeafAction, fuel: nat)
    requires kind.childrenClass in reg
    requires RunChildren(reg, kind, config, children, options, leaf, fuel).result.Ok?
    requires forall t <- ChildTraces(reg, kind, config, children, options, leaf, fuel) :: t.result.Ok?
    ensures RunChildren(reg, kind, config, children, options, leaf, fuel).result.value.text ==
            Blocks(ShortName(kind.childrenClass), children, Outputs(ChildTraces(reg, kind, config, children, options, leaf, fuel)))
    decreases |children|
  {
    if children != [] {
      var n := |children| - 1;
      var front := children[..n];
      var last := RunChild(reg, kind, config, children[n], options, leaf, fuel);
      var ts := ChildTraces(reg, kind, config, front, options, leaf, fuel);
      var text := RunChildren(reg, kind, config, front, options, leaf, fuel).result.value.text;
      if last.result.value == "" {
        assert text + "" == text;
      }
      forall u | u in ts
        ensures u.result.Ok?
      {
        assert u in ts + [last];
      }
      TextOfTraces(reg, kind, config, front, options, leaf, fuel);
      OutputsAppend(ts, last);
      FrontLast(children);
      BlocksAppend(ShortName(kind.childrenClass), front, Outputs(ts), children[n], last.result.value);
    }
  }

  /** The report of the loop, read child by child: when the loop ends
      without error, every child ran without error; the report is the
      concatenation, in declaration order, of the block of each child with
      non-empty output, that output being what the child's own run
      returned; and the notifications are the children's, in the same
      order. */
  lemma ReportIsBlocks(reg: Registry, kind: Kind, config: Entries, children: Entries,
                       options: Entries, leaf: LeafAction, fuel: nat)
    requires kind.childrenClass in reg
    ensures var ts := ChildTraces(reg, kind, config, children, options, leaf, fuel);
      forall i :: 0 <= i < |children| ==> ts[i] == RunChild(reg, kind, config, children[i], options, leaf, fuel)
    ensures var t := RunChildren(reg, kind, config, children, options, leaf, fuel);
      var ts := ChildTraces(reg, kind, config, children, options, leaf, fuel);
      t.result.Ok? ==>
        (forall u <- ts :: u.result.Ok?) &&
        t.result.value.text == Blocks(ShortName(kind.childrenClass), children, Outputs(ts)) &&
        t.sent == AllSent(ts)
  {
    ChildTracesAt(reg, kind, config, children, options, leaf, fuel);
    if RunChildren(reg, kind, config, children, options, leaf, fuel).result.Ok? {
      ChildrenRanOk(reg, kind, config, children, options, leaf, fuel);
      SentOfTraces(reg, kind, config, children, options, leaf, fuel);
      TextOfTraces(reg, kind, config, children, options, leaf, fuel);
    }
  }

  /** Notification: when the children were run without error, the node
      returns the full aggregate and sends it exactly once, after its
      children's notifications, iff it sends mail and the aggregate is
      non-empty. */
  lemma NotifyExactlyOnOutput(reg: Registry, cls: string, config: Entries, options: Entries, leaf: LeafAction, fuel: nat)
    requires cls in reg && !reg[cls].overridesRun && fuel > 0
    requires IsInTarget(config, reg[cls].targetCheck) == Ok(true)
    requires GetChildren(config, reg[cls], reg).Ok? && GetChildren(config, reg[cls], reg).value.Some?
    requires RunChildren(reg, reg[cls], config, ChildEntries(GetChildren(config, reg[cls], reg).value.value),
                         options, leaf, fuel - 1).result.Ok?
    ensures var t := RunChildren(reg, reg[cls], config, ChildEntries(GetChildren(config, reg[cls], reg).value.value),
                                 options, leaf, fuel - 1);
      var out := t.result.value.text;
      RunNode(reg, cls, config, options, leaf, fuel) ==
        Trace(Ok(out), t.sent + if reg[cls].sendEmail && out != "" then [Notification(config, out)] else [])
  {
    HasOutputIffText(reg, reg[cls], config, ChildEntries(GetChildren(config, reg[cls], reg).value.value),
                     options, leaf, fuel - 1);
  }

  /** No notification is ever sent with an empty payload, at any depth. */
  lemma {:induction false} NotificationsCarryOutput(reg: Registry, cls: string, config: Entries, options: Entries,
                                                    leaf: LeafAction, fuel: nat)
    requires cls in reg
    ensures forall n <- RunNode(reg, cls, config, options, leaf, fuel).sent :: n.body != ""
    decreases fuel, 0, 0
  {
    var kind := reg[cls];
    if !kind.overridesRun && IsInTarget(config, kind.targetCheck) == Ok(true) && fuel > 0 {
      var ch := GetChildren(config, kind, reg);
      if ch.Ok? && ch.value.Some? {
        var children := ChildEntries(ch.value.value);
        ChildrenNotificationsCarryOutput(reg, kind, config, children, options, leaf, fuel - 1);
        var t := RunChildren(reg, kind, config, children, options, leaf, fuel - 1);
        if t.result.Ok? {
          HasOutputIffText(reg, kind, config, children, options, leaf, fuel - 1);
        }
      }
    }
  }

  lemma {:induction false} ChildrenNotificationsCarryOutput(reg: Registry, kind: Kind, config: Entries, children: Entries,
                                                            options: Entries, leaf: LeafAction, fuel: nat)
    requires kind.childrenClass in reg
    ensures forall n <- RunChildren(reg, kind, config, children, options, leaf, fuel).sent :: n.body != ""
    decreases fuel, 1, |children|
  {
    if children != [] {
      var front := children[..|children| - 1];
      ChildrenNotificationsCarryOutput(reg, kind, config, front, options, leaf, fuel);
      var own := ChildConfig(children[|children| - 1].0, children[|children| - 1].1);
      if own.Ok? {
        NotificationsCarryOutput(reg, kind.childrenClass, MergeWithParent(own.value, config), options, leaf, fuel);
      }
    }
  }
}
