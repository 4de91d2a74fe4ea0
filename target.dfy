/** `isInTarget`: whether a node takes part in the current run. */
module TargetFilter {
  import opened Values
  import opened Errors

  /** `Runnable::CONFIG_KEY_TARGET`: where the whitelist lives. */
  const TargetKey := "_target"

  /** The whitelist for the node's type: `_target[type]` when `_target` is
      an array holding a non-empty entry for that type. */
  function Whitelist(config: Entries): Option<Value> {
    match Get(config, TargetKey)
    case Some(Arr(t)) =>
      (match Get(t, Field(config, "type"))
       case Some(allowed) => if IsEmpty(allowed) then None else Some(allowed)
       case None => None)
    case _ => None
  }

  /** `in_array($name, $allowed)` with string equality; a whitelist that
      is a scalar lists no name. */
  predicate Listed(name: string, allowed: Value) {
    allowed.Arr? && Scalar(name) in Vals(allowed.entries)
  }

  /** Without target checking every node passes; with it, a missing or
      malformed whitelist is an error and a valid one decides by the
      node's name. */
  function IsInTarget(config: Entries, targetCheck: bool): (r: Result<bool, ConfigError>)
    ensures !targetCheck ==> r == Ok(true)
    ensures r.Err? <==> targetCheck && Whitelist(config).None?
    ensures targetCheck && Whitelist(config).Some? ==> r == Ok(Listed(Field(config, "name"), Whitelist(config).value))
    ensures r.Err? && !IsSet(config, TargetKey) ==> r.error == MissingTarget
    ensures r.Err? && Get(config, TargetKey).Some? && Get(config, TargetKey).value.Scalar? ==> r.error == InvalidTarget
    ensures r.Err? && Get(config, TargetKey).Some? && Get(config, TargetKey).value.Arr? ==>
      r.error == EmptyTarget(Field(config, "type"))
  {
    if !targetCheck then Ok(true)
    else
      match Get(config, TargetKey)
      case None => Err(MissingTarget)
      case Some(Null) => Err(MissingTarget)
      case Some(Scalar(_)) => Err(InvalidTarget)
      case Some(Arr(target)) =>
        var nodeType := Field(config, "type");
        match Get(target, nodeType)
        case None => Err(EmptyTarget(nodeType))
        case Some(allowed) =>
          if IsEmpty(allowed) then Err(EmptyTarget(nodeType))
          else Ok(Listed(Field(config, "name"), allowed))
  }
}
