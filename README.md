# Runnable: a verified model of the deployment-task runner

The runner is a tree of named *runnables* (a group holds servers, a server
holds applications, and so on). Each node is built from its own
configuration and its parent's already merged configuration. Its `run`
does four things:

- it skips the node when a target whitelist excludes it;
- it builds one child object per declared child and runs each in turn;
- it joins the children's outputs into a report;
- it optionally mails that report.

Its `listChildren` walks the same tree into a nested `type:name`
inventory, without ever consulting the whitelist.

This project models the abstract class `Runnable`
(`lib/Deploy/Runnable/Runnable.php`) in Dafny and proves what its code
promises.

- `values.dfy` (`Values`): PHP arrays as ordered association lists,
  `Null | Scalar(text) | Arr(entries)`. It covers lookup (`Get`), assignment
  (`Put`, with its properties in `PutSpec`), `empty()` (`IsEmpty`),
  `isset` (`IsSet`), and reading a string field (`Field`).
- `merge.dfy` (`ConfigMerge`): the constructor's `mergeWithParent` and the
  `array_replace_recursive` it calls. This covers precedence, identities,
  recursion at any depth, key order and well-formedness.
- `target.dfy` (`TargetFilter`): `isInTarget` as a three-way outcome: pass,
  filtered, or one of three configuration errors.
- `children.dfy` (`ChildResolver`): `getChildren`, and the `name`
  assignment each child's configuration receives.
- `kinds.dfy` (`Kinds`): the per-class protected properties (`Kind`). It
  also holds the registry that replaces PHP's class table, and the short
  class name used in the report.
- `errors.dfy` (`Errors`): the exceptions the class raises, with their
  texts.
- `execution.dfy` (`Execution`): `run` as functions of the configuration,
  together with the lemmas about them:
  - the filtered subtree is inert;
  - the report's format and order;
  - a notification is sent exactly once, if and only if mail is on and
    there is output.
- `listing.dfy` (`Lister`): `listChildren` as functions, and the lemmas
  about them: targets are ignored, and the shape of the listing.
- `runnable.dfy` (`Runner`): the class itself. `Runnable` has `Run`,
  `RunEach`, `ListChildren` and `ListEach`. Their loops build child
  objects with `new` and call into them, and each method is proved to
  compute exactly the function of `execution.dfy` or `listing.dfy`. The
  mailer is an `Outbox` object whose ghost log records every notification
  sent.
- `scenarios.dfy` (`Scenarios`): the run/list divergence on one tree, and a
  worked run of a group holding one server, also with the server given as
  `null`.
- `seqs.dfy` (`Seqs`): general facts about sequences used by the proofs.

The recursion of `run` and `listChildren` has no bound in the source, and
it does not always end. A child inherits its parent's children entry
whenever it declares none, so a self-nesting class can recurse forever
(`SelfNestingNeverEnds` exhibits one such configuration). The model therefore
carries a nesting bound (`fuel`) and reports `OutOfFuel` when the bound is
exceeded.

Three details of the code fix the model's constants and formats:

- The whitelist is read from the configuration key `_target`, the class
  constant `CONFIG_KEY_TARGET` (`Runnable.php:6`).
- Mail is switched on by the class property `$sendEmail` (`Runnable.php:15`,
  checked by the `if` at line 111).
- A child with output adds the block `"Processing <Class> <name>\n" + output +
  "\n"` to the report (`Runnable.php:105-107`). In the worked example the
  report is therefore `"Processing Server web\nOK\n"`.

## Model

| member | source | states |
|---|---|---|
| Values.PutSpec | lib/Deploy/Runnable/Runnable.php:99 | A PHP array assignment does four things. The key then holds the value, and every other key keeps its value. A new key is appended last while an existing key keeps its place, so keys stay unique. No entry but the written one is new. |
| Values.IndexOf | lib/Deploy/Runnable/Runnable.php:46-50 | Key lookup finds nothing exactly when the key is absent. Otherwise it finds the first position holding the key. |
| Values.Field | lib/Deploy/Runnable/Runnable.php:54 | A field holding a scalar reads as that scalar's text. An absent field, or one holding an array, reads as "". |
| Values.FieldOfPut | lib/Deploy/Runnable/Runnable.php:99 | After a string is assigned to a key, the field reads back as that string, and every other field reads as before. |
| ConfigMerge.ReplaceLookup | lib/Deploy/Runnable/Runnable.php:35 | `array_replace_recursive`, one level deep. A key only in the parent keeps the parent's value. At a shared key the child's value wins unless both are arrays. Two arrays are merged recursively. |
| ConfigMerge.ChildScalarWinsAtPath | lib/Deploy/Runnable/Runnable.php:35 | Wherever the child's configuration holds a scalar, at any depth, the merge holds that same scalar. |
| ConfigMerge.ReplaceIntoEmpty | lib/Deploy/Runnable/Runnable.php:35 | Merging into an empty parent rebuilds the child's configuration unchanged. |
| ConfigMerge.MergeWithParentIsReplace | lib/Deploy/Runnable/Runnable.php:22-35 | An empty parent leaves the own configuration. An empty own configuration takes the parent's. Both early returns agree with `array_replace_recursive`. |
| ConfigMerge.ReplaceKeys | lib/Deploy/Runnable/Runnable.php:35 | Key order of the merge: the parent's keys first, in the parent's order. Then come the keys only the child has, in the child's order. |
| ConfigMerge.NewKeysMembers | lib/Deploy/Runnable/Runnable.php:35 | The keys appended by the merge are exactly the child's keys that the parent lacks. |
| ConfigMerge.ReplaceWellFormed | lib/Deploy/Runnable/Runnable.php:35 | The merge of two arrays with unique keys at every level again has unique keys at every level. |
| TargetFilter.IsInTarget | lib/Deploy/Runnable/Runnable.php:38-63 | With target checking off every node passes, whatever its configuration. With it on: a missing or `null` `_target` (not `isset`), a scalar `_target`, or an absent or empty `_target[type]` each give their own error. Otherwise the result is whether `name` is listed. |
| ChildResolver.GetChildren | lib/Deploy/Runnable/Runnable.php:65-83 | No children or empty children give nothing and no error, whatever the children class. Declared children with an empty children class are an error. So are declared children with an unregistered class. Otherwise the raw, unmerged children value is returned. |
| ChildResolver.ChildConfigSpec | lib/Deploy/Runnable/Runnable.php:98-100 | A child's configuration gets `name` set to its key, and every other key keeps its value. A `null` (or empty) child configuration becomes an array holding only `name`. Only a scalar child configuration is refused, since a scalar cannot take the `name` offset or be passed as the constructor's `array`. |
| ChildResolver.ChildNameIsKey | lib/Deploy/Runnable/Runnable.php:99-100 | After the merge with the parent, a child's `name` is its key, whatever `name` the child or its ancestors set. |
| Kinds.ShortName | lib/Deploy/Runnable/Runnable.php:104 | The short class name is the part of the class name after its last backslash. |
| Kinds.ShortNameOfPlain | lib/Deploy/Runnable/Runnable.php:104 | A class name without a namespace is its own short name. |
| Execution.FilteredNodeIsInert | lib/Deploy/Runnable/Runnable.php:88-90 | A node outside the target gives empty output and sends nothing. Its children are not resolved, so no children-class error can arise, whatever the registry holds. |
| Execution.TargetErrorStopsRun | lib/Deploy/Runnable/Runnable.php:88 | A target error ends `run` before any child is resolved or run. |
| Execution.NoChildrenNoOutput | lib/Deploy/Runnable/Runnable.php:92-95 | A node without declared children gives empty output and sends nothing. |
| Execution.SelfNestingNeverEnds | lib/Deploy/Runnable/Runnable.php:98-101 | A class without target checking whose children share its class and key never finishes `run` when its children entry holds exactly one child, with an empty configuration. The child inherits the parent's children entry, so every level repeats the same step. |
| Execution.RunNodeFuel | lib/Deploy/Runnable/Runnable.php:85-117 | The nesting bound only cuts `run` short. A run that did not end in `OutOfFuel` gives the same output and notifications under every larger bound, so with enough fuel the model is the unbounded `run`. |
| Execution.HasOutputIffText | lib/Deploy/Runnable/Runnable.php:97-108 | `$hasOutput` is set exactly when the report is non-empty. |
| Execution.ReportIsBlocks | lib/Deploy/Runnable/Runnable.php:97-109 | When the loop of `run` ends without error, every child ran without error. The report is then the concatenation, in declaration order, of one block per child with non-empty output: `"Processing " + short class + " " + name + "\n" + output + "\n"`, where the output is that child's own `run`. Children without output add nothing. The notifications sent are the children's, in the same order. |
| Execution.ErrorEndsLoop | lib/Deploy/Runnable/Runnable.php:98-101 | Once a child has failed, `run` fails with that error and later children are not visited. |
| Execution.AggregateExtends | lib/Deploy/Runnable/Runnable.php:98-109 | The report after the first j children is a prefix of the whole report, and so are their notifications. Blocks appear in declaration order. |
| Execution.NotifyExactlyOnOutput | lib/Deploy/Runnable/Runnable.php:111-116 | After its children the node returns the whole report. It sends that report once, after the children's notifications, exactly when `$sendEmail` holds and the report is non-empty. |
| Execution.NotificationsCarryOutput | lib/Deploy/Runnable/Runnable.php:111-113 | No notification at any depth has an empty payload. |
| Lister.ListingShape | lib/Deploy/Runnable/Runnable.php:119-140 | A listing has the single key `type:name`. It is empty without declared children. Otherwise it has one item per declared child, in declaration order, each that child's listing. |
| Lister.ItemsCoverChildren | lib/Deploy/Runnable/Runnable.php:130-137 | The listing loop appends every child's listing, in declaration order, one per child. |
| Lister.ListedChildName | lib/Deploy/Runnable/Runnable.php:122 | A listed child's key is its merged `type`, then ":", then its own key as its name. |
| Lister.ListingIgnoresTargets | lib/Deploy/Runnable/Runnable.php:119-140 | The listing depends only on how classes find and build their children. Target checking, mail and overridden `run`s change nothing. |
| Lister.SelfNestingNeverEnds | lib/Deploy/Runnable/Runnable.php:130-133 | `listChildren` never finishes on a class whose children share its class and key when its children entry holds exactly one child, with an empty configuration. Target checking plays no part here. |
| Lister.ListNodeFuel | lib/Deploy/Runnable/Runnable.php:119-140 | The nesting bound only cuts `listChildren` short. A listing that did not end in `OutOfFuel` is the same under every larger bound. |
| Lister.ListErrorEndsLoop | lib/Deploy/Runnable/Runnable.php:130-137 | Once a child's listing has failed, the listing fails with that error. |
| Lister.ListItemsFail | lib/Deploy/Runnable/Runnable.php:132-133 | A failing child ends the listing with its error. |
| Runner.Outbox.Send | lib/Deploy/Runnable/Runnable.php:112-113 | Sending appends exactly one notification, built from the configuration and carrying the body. |
| Runner.Runnable.constructor | lib/Deploy/Runnable/Runnable.php:17-20 | The object's configuration is its own configuration merged with its parent's. |
| Runner.Runnable.Run | lib/Deploy/Runnable/Runnable.php:85-117 | `run` returns exactly what `Execution.RunNode` computes. The outbox receives exactly that run's notifications, even when an error ends it. |
| Runner.Runnable.RunEach | lib/Deploy/Runnable/Runnable.php:97-109 | The `foreach` of `run` builds and runs each child in order. Its report and notifications are exactly those of `Execution.RunChildren`. |
| Runner.Runnable.ListChildren | lib/Deploy/Runnable/Runnable.php:119-140 | `listChildren` returns exactly what `Lister.ListNode` computes. |
| Runner.Runnable.ListEach | lib/Deploy/Runnable/Runnable.php:130-137 | The `foreach` of `listChildren` returns exactly what `Lister.ListItems` computes. |
| Scenarios.FilteredButListed | lib/Deploy/Runnable/Runnable.php:88-90 | A node outside the target runs to nothing. Its listing is the same as with target checking off everywhere, where it passes. |
| Scenarios.GroupRunsServer | lib/Deploy/Runnable/Runnable.php:97-116 | A mailing group with one server `web` reporting "OK" returns "Processing Server web\nOK\n" and sends it once. |
| Scenarios.NullChildRuns | lib/Deploy/Runnable/Runnable.php:97-101 | A child given as `null` (`web: ~`) is built with its key as `name` and runs like any other child, reporting its own output. |

## Left out

- Email delivery: `new Email($config)` and `send` (lines 112-113) are an external transport. The model records each notification, meaning the configuration and the body, in the `Outbox`'s ghost log.
- PHP's class table: `class_exists` and `new $this->childrenClass` (lines 76, 100 and 132) become a registry from class name to `Kind`. A class exists exactly when it is registered.
- Concrete subclasses: they are represented by their `Kind`. A subclass that overrides `run` is represented by an abstract `LeafAction` from class name, configuration and options to output.
- The `test` option: it is only passed down. The model gives it as the constant `TestOnlyOption` and passes options through untouched.
- PHP loose typing:
  - `in_array` compares strings exactly, so a `null` in a whitelist does not list the name "".
  - An output counts when it is not "". The string "0" counts as output here, although PHP treats it as none.
  - `null` and `''` returns are both "".
  - `empty()` (`Values.IsEmpty`) holds only for "" and the empty array, while PHP's `empty()` also holds for the string "0". So `_target[type] = "0"` (line 54) is a scalar whitelist listing no name here, giving `Ok(false)`, not the `EmptyTarget` error. `children = "0"` (line 68) counts as declared children, and `childrenClass = "0"` (line 72) is a class name, not the `NoChildrenClass` error.
  - A missing or non-scalar `type` or `name` reads as "".
- Integer array keys: all keys are strings.
- Unbounded recursion: `Execution.RunNode` and `Lister.ListNode` take a nesting bound and give `OutOfFuel` past it, where PHP would recurse until the stack is exhausted. Any result other than `OutOfFuel` does not depend on the bound (`RunNodeFuel`, `ListNodeFuel`).
- A scalar child configuration (a string, a number or `true`): it is the `ChildNotArray` error. PHP also fails there, either at the offset write on line 99 or with a `TypeError` from the constructor's `array` parameter on line 100, depending on the PHP version and the scalar. The message text `Errors.Message` gives it is the model's own.
- ChildResolver.ChildConfigSpec: booleans are held as their string forms, so a `false` child configuration is `Scalar("")` and refused as `ChildNotArray`. PHP turns `false` into an array at line 99, like `null` (deprecated since PHP 8.1), and runs the child. PHP before 7.1 did the same for the empty string. Elsewhere `false` and "" behave alike: both are `empty()`, and both are a set but non-array `_target`.
- A non-empty scalar `_target[type]`: `TargetFilter.IsInTarget` treats it as a whitelist that lists no name and gives `Ok(false)`. In PHP 7, `in_array` on a string warns and returns null, so the node is skipped as well. In PHP 8 it throws a `TypeError` at line 58, which the model does not raise.
- The `iRunnable` interface is not part of this model. Only the two public operations of `Runnable` are modelled.
