/** Names, tokens, tasks, validation states and errors shared by both lineages of the engine. */
module Common {
  import opened Wrappers

  /** A class, identified by its name (`Type.name`). */
  type ClassId = string

  /** A process is versioned: `{name, version}`. */
  datatype ProcessName = ProcessName(name: string, version: string)

  /** `formatProcessName`: name and version joined by an underscore; the global store's key. */
  function FormatProcessName(pn: ProcessName): (key: string)
    ensures |key| == |pn.name| + 1 + |pn.version|
    ensures key[..|pn.name|] == pn.name && key[|pn.name|] == '_' && key[|pn.name| + 1..] == pn.version
  {
    pn.name + "_" + pn.version
  }

  /** A DI token: a string, or a class standing for itself. */
  datatype Token = Named(name: string) | OfType(cls: ClassId)

  /** `tokenToString`: a string token is itself, a class token is the class name. */
  function TokenToString(t: Token): string {
    match t
    case Named(n) => n
    case OfType(c) => c
  }

  /** `ValidationState`: `{valid: 'true'}` or `{valid: 'false', errorMessage?}`. */
  datatype ValidationState = Valid | Invalid(errorMessage: Option<string>)

  /** `ITask`: id, current status, owning process and business payload. */
  datatype Task<P> = Task(id: string, status: string, processName: ProcessName, payload: P)

  /** Every error the engine throws, by the exception class or message constant it uses. */
  datatype Error =
      // graph
    | NodeNotExist
    | NodeHasBeenAdded
    | EdgeHasBeenAdded
    | GraphEmptyOrderedDfs
      // DI container
    | TypeExists
    | UnknownContextError
    | TokenDoesNotExist(token: Token)
    | TypeDoesNotExist
    | DependencyTooDeep
      // process
    | DecoratorIsRequired(typeName: string, decorator: string)
    | CommandNotFound(command: string)
    | StepNotFound(status: string)
    | UpdateMethodNotImplemented(status: string)
    | UnknownErrorException
    | NotCallable(member: string)
      // application
    | TaskNotFound(taskId: string)
    | Validation(taskId: string, message: string)
    | CommandValidation(command: string, errorMessage: Option<string>)
      // `throw new Error(message)` with a plain message
    | Thrown(message: string)

  /** The `message` of each error, character for character. */
  function Message(e: Error): string {
    match e
    case NodeNotExist => "There is no a node in the graph with such value."
    case NodeHasBeenAdded => "Node has existed yet."
    case EdgeHasBeenAdded => "Edge has existed yet"
    case GraphEmptyOrderedDfs => "Could not traverse orderly empty graph"
    case TypeExists => "Type exists in current context"
    case UnknownContextError => "Unknown Error"
    case TokenDoesNotExist(t) => "Token \"" + TokenToString(t) + "\" doesn't exist in current context"
    case TypeDoesNotExist => "Type doesn't exist in current context"
    case DependencyTooDeep => "Maximum call stack size exceeded"
    case DecoratorIsRequired(t, d) => "Type " + t + " is required @" + d + " decorator."
    case CommandNotFound(c) => "\"" + c + "\" command not found."
    case StepNotFound(s) => "\"" + s + "\" command not found."
    case UpdateMethodNotImplemented(s) => "The update task method is not implemented for status \"" + s + "\"."
    case UnknownErrorException => "Unknown Error. This is most likely a bug."
    case NotCallable(m) => m + " is not a function"
    case TaskNotFound(id) => "Task with id \"" + id + "\" not found"
    case Validation(id, m) => "Task " + id + " validation error. " + m
    case CommandValidation(c, m) =>
      var text := "\"" + c + "\" command validation failed.";
      if m.Some? && m.value != "" then text + " " + m.value else text
    case Thrown(m) => m
  }

  /**
   * `StepNotFoundException` reuses the wording of `CommandNotFoundException`, so
   * a missing step and a missing command of the same name read identically.
   */
  lemma StepNotFoundReadsAsCommandNotFound(s: string)
    ensures Message(StepNotFound(s)) == Message(CommandNotFound(s))
    ensures StepNotFound(s) != CommandNotFound(s)
  {
  }

  /**
   * A command validation message is the bare sentence when the validator
   * gives no text or an empty one (the two read the same), and the
   * sentence, one space and the text otherwise.
   */
  lemma CommandValidationMessage(c: string, m: string)
    ensures Message(CommandValidation(c, None)) == Message(CommandValidation(c, Some("")))
    ensures Message(CommandValidation(c, None)) == "\"" + c + "\" command validation failed."
    ensures m != "" ==> Message(CommandValidation(c, Some(m))) == Message(CommandValidation(c, None)) + " " + m
  {
  }
}
