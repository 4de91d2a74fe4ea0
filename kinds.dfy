/** Runnable kinds: what a concrete subclass of `Runnable` fixes through
    its protected properties, and the registry that replaces PHP's class
    table. */
module Kinds {

  /** The per-class settings of a runnable: the class its children are
      built with, the configuration key holding them, whether target
      checking is mandatory, whether a notification is sent, and whether
      the subclass replaces `run` with an action of its own. */
  datatype Kind = Kind(
    childrenClass: string,
    childrenKey: string,
    targetCheck: bool,
    sendEmail: bool,
    overridesRun: bool)

  /** Class name to kind; a class exists exactly when it is registered. */
  type Registry = map<string, Kind>

  /** The defaults the base class declares. */
  const BaseKind := Kind("Runnable", "children", false, false, false)

  /** `array_pop(explode('\\', cls))`: the class name without its
      namespace, i.e. the longest suffix free of backslashes. */
  function ShortName(cls: string): (r: string)
    ensures '\\' !in r
    ensures |r| <= |cls| && r == cls[|cls| - |r|..]
    ensures |r| < |cls| ==> cls[|cls| - |r| - 1] == '\\'
  {
    if cls == [] then []
    else if cls[|cls| - 1] == '\\' then []
    else
      var r := ShortName(cls[..|cls| - 1]) + [cls[|cls| - 1]];
      assert cls[..|cls| - 1][|cls| - |r|..] + [cls[|cls| - 1]] == cls[|cls| - |r|..];
      r
  }

  /** A class name outside any namespace is its own short name. */
  lemma ShortNameOfPlain(cls: string)
    requires '\\' !in cls
    ensures ShortName(cls) == cls
  {
    assert cls[0..] == cls;
  }
}
