/** The configuration errors of the runner. The first five are the
    `RuntimeException`s the source throws. The model adds two:
    `ChildNotArray` stands for the error PHP raises when a child's
    configuration is a scalar (its message text is the model's own),
    and `OutOfFuel` marks the model's nesting bound. */
module Errors {

  datatype ConfigError =
    | MissingTarget                      // target checking on, no `_target`
    | InvalidTarget                      // `_target` is not an array
    | EmptyTarget(nodeType: string)      // `_target[type]` absent or empty
    | NoChildrenClass                    // children exist, no children class
    | UnknownChildrenClass(cls: string)  // children class not registered
    | ChildNotArray(name: string)        // a child's configuration is a scalar
    | OutOfFuel                          // the model's nesting bound was reached

  /** The exception text for each error. */
  function Message(e: ConfigError): string {
    match e
    case MissingTarget => "Target checking is required, but no target is set"
    case InvalidTarget => "Target checking is required, but target definition is invalid"
    case EmptyTarget(t) => "Target checking is required, but target definition is empty for " + t
    case NoChildrenClass => "No childrenClass given, while children exist"
    case UnknownChildrenClass(c) => "Given childrenClass [" + c + "] does not exist"
    case ChildNotArray(n) => "Configuration of child [" + n + "] is not an array"
    case OutOfFuel => "Nesting exceeds the bound given to the traversal"
  }
}
