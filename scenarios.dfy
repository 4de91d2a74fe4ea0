/** How `run` and `listChildren` relate on the same tree, and a worked
    run of a two-level tree. */
module Scenarios {
  import opened Values
  import opened Errors
  import opened Kinds
  import opened ConfigMerge
  import opened TargetFilter
  import opened ChildResolver
  import opened Execution
  import opened Lister

  /** Listing and filtering diverge: a node outside the target runs to
      nothing, yet lists exactly as it would if target checking were
      switched off everywhere, when it would pass. */
  lemma FilteredButListed(reg: Registry, cls: string, config: Entries, options: Entries, leaf: LeafAction, fuel: nat)
    requires cls in reg && !reg[cls].overridesRun
    requires IsInTarget(config, reg[cls].targetCheck) == Ok(false)
    ensures RunNode(reg, cls, config, options, leaf, fuel) == Trace(Ok(""), [])
    ensures IsInTarget(config, WithTargetCheck(reg, false)[cls].targetCheck) == Ok(true)
    ensures ListNode(reg, cls, config, fuel) == ListNode(WithTargetCheck(reg, false), cls, config, fuel)
  {
    FilteredNodeIsInert(reg, cls, config, options, leaf, fuel);
    ListingIgnoresTargets(reg, WithTargetCheck(reg, false), cls, config, fuel);
  }

  /** A group that mails its report, holding one server `web` whose own
      `run` reports "OK". */
  const Group := Kind("Server", "children", false, true, false)
  const Server := Kind("", "children", false, false, true)
  const Reg: Registry := map["Group" := Group, "Server" := Server]
  const Web: (string, Value) := ("web", Arr([("type", Scalar("server"))]))
  const Root: Entries := [("type", Scalar("group")), ("name", Scalar("root")), ("children", Arr([Web]))]

  /** The server's own `run`. */
  const ReportOK: LeafAction := (cls, config, options) => "OK"

  /** The group's report. */
  const Report := "Processing Server web\nOK\n"

  /** The group finds its one child. */
  lemma RootChildren()
    ensures GetChildren(Root, Group, Reg) == Ok(Some(Arr([Web])))
  {
    assert Keys(Root) == ["type", "name", "children"];
    assert IndexOf(Keys(Root), "children") == Some(2);
  }

  /** The server, built from `web`, runs its own `run`. */
  lemma WebRunsOK(options: Entries)
    ensures RunChild(Reg, Group, Root, Web, options, ReportOK, 0) == Trace(Ok("OK"), [])
  {
    ChildConfigSpec(Web.0, Web.1);
    var merged := MergeWithParent(ChildConfig(Web.0, Web.1).value, Root);
    assert RunNode(Reg, "Server", merged, options, ReportOK, 0) == Trace(Ok("OK"), []);
  }

  /** The block for `web` is the whole report. */
  lemma WebBlock()
    ensures [] + Block("Server", Web.0, "OK") == Report
  {
    assert "Processing " + "Server" == "Processing Server";
    assert "Processing Server" + " " + "web" == "Processing Server web";
    assert "Processing Server web" + "\n" + "OK" + "\n" == Report;
  }

  /** The loop over the group's children yields one block. */
  lemma WebReports(options: Entries)
    ensures RunChildren(Reg, Group, Root, [Web], options, ReportOK, 0) == Trace(Ok(Acc(Report, true)), [])
  {
    WebRunsOK(options);
    assert [Web][..0] == [];
    RunChildrenNext(Reg, Group, Root, [Web], options, ReportOK, 0, 0, Acc("", false), [], Ok("OK"), []);
    ShortNameOfPlain(Group.childrenClass);
    WebBlock();
    assert [Web][..1] == [Web];
  }

  /** The group reports one block for `web` and mails it once. */
  lemma GroupRunsServer(options: Entries)
    ensures RunNode(Reg, "Group", Root, options, ReportOK, 1) == Trace(Ok(Report), [Notification(Root, Report)])
  {
    RootChildren();
    WebReports(options);
  }

  /** A child with no settings (`web: ~` in YAML, PHP's `null`) is built
      with just its key as `name` and runs like any other child. */
  lemma NullChildRuns(options: Entries)
    ensures RunChild(Reg, Group, Root, ("web", Null), options, ReportOK, 0) == Trace(Ok("OK"), [])
  {
    ChildConfigSpec("web", Null);
    var merged := MergeWithParent(ChildConfig("web", Null).value, Root);
    assert RunNode(Reg, "Server", merged, options, ReportOK, 0) == Trace(Ok("OK"), []);
  }
}
