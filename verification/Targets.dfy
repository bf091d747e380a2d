/** Debugger targets and the resources they resolve against. */
module Targets {

  /** `Relative` stands for the selectors that name no resource of their own. */
  datatype Target =
    | Thread(threadId: string)
    | Session(sessionId: string)
    | Group(groupId: string)
    | SessionSet(sessionIds: seq<string>)
    | Multiple(targets: seq<Target>)
    | Broadcast
    | Relative
    | NoSelector
}
