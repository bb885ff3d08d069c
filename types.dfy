/** The values that travel between the parser, the registry and its callers
  * (the `types` package), and the errors the command pipeline reports. */
module Types {
  import opened Wrappers

  /** A window, identified by its X window id. */
  type ClientId = nat

  /** The kind of a command: any string, of which four are routed. */
  type CommandType = string

  const ActionType: CommandType := "ACTION"
  const SetType: CommandType := "SET"
  const QueryType: CommandType := "QUERY"
  const ForType: CommandType := "FOR"

  datatype Command = Command(kind: CommandType, name: string, args: seq<string>)

  /** The bound an argument-count error names: one exact count, or a range. */
  datatype ArgBound = Exactly(count: nat) | Between(lo: nat, hi: nat)

  /** The errors of the daemon and of the command parser. */
  datatype Error =
    | UnknownCommandType
    | CommandNotExists
    | IncorrectNumberOfArgs(got: nat, expected: ArgBound)
    | LayoutNotFound(layout: string)
    | ClientIdParse(arg: string)
    | ClientNotFound(arg: string)
    | WorkspaceNumberParse(arg: string)
    | WorkspaceNumberOutOfRange(arg: string)
    | Joined(errors: seq<Error>)
    | TooFewArguments(kind: string)
    | UnknownCommand(kind: string, name: string)

  /** What executing one command gives back: messages, and an error or none. */
  datatype CommandResult = CommandResult(messages: seq<string>, err: Option<Error>)
}
