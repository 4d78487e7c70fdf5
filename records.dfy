/** The event records of a session and the length caps applied when a
    record is exported with `to_dict`. Timestamps are integer offsets in
    seconds; `to_dict`'s ISO-8601 rendering of them is not modelled. */
module Records {
  import opened Text

  datatype Option<T> = None | Some(value: T)

  datatype ToolUsage = ToolUsage(
    toolName: string,
    timestamp: int,
    arguments: map<string, string>,
    result: string,
    success: bool,
    durationMs: int,
    category: string)

  datatype FileModification = FileModification(
    filePath: string,
    modificationType: string,
    timestamp: int,
    beforeSnippet: string,
    afterSnippet: string,
    linesAdded: int,
    linesRemoved: int,
    toolUsed: string)

  datatype Decision = Decision(
    decisionId: string,
    description: string,
    timestamp: int,
    category: string,
    rationale: string,
    alternativesConsidered: seq<string>,
    relatedFiles: seq<string>,
    outcome: string)

  datatype ErrorSolution = ErrorSolution(
    errorId: string,
    errorType: string,
    errorMessage: string,
    timestamp: int,
    solution: string,
    solutionSteps: seq<string>,
    effective: bool,
    recurred: bool,
    relatedTools: seq<string>)

  datatype Milestone = Milestone(
    milestoneId: string,
    title: string,
    timestamp: int,
    description: string,
    impact: string,
    relatedDecisions: seq<string>)

  /** Aggregate counts of a session; the duration is whole seconds. */
  datatype SessionMetrics = SessionMetrics(
    durationSeconds: int,
    totalToolCalls: nat,
    successfulToolCalls: nat,
    filesCreated: nat,
    filesEdited: nat,
    filesDeleted: nat,
    totalLinesAdded: int,
    totalLinesRemoved: int,
    errorsEncountered: nat,
    errorsResolved: nat,
    decisionsMade: nat,
    milestonesAchieved: nat,
    uniqueFilesTouched: nat)

  /** `SessionMetrics()`: every field zero. */
  const DefaultMetrics := SessionMetrics(0, 0, 0, 0, 0, 0, 0, 0, 0, 0, 0, 0, 0)

  const ResultCap: nat := 200
  const SnippetCap: nat := 500
  const MessageCap: nat := 500

  /** `ToolUsage.to_dict`: the exported result keeps at most 200 characters,
      as a prefix of the original; every other field is exported as is. */
  function ToolUsageToDict(u: ToolUsage): (d: ToolUsage)
    ensures |d.result| <= ResultCap && d.result <= u.result
    ensures |u.result| <= ResultCap ==> d == u
    ensures |u.result| > ResultCap ==> d.result == u.result[..ResultCap]
    ensures d.(result := u.result) == u
  {
    u.(result := Truncate(u.result, ResultCap))
  }

  /** `FileModification.to_dict`: both snippets are capped at 500 characters. */
  function FileModificationToDict(m: FileModification): (d: FileModification)
    ensures |d.beforeSnippet| <= SnippetCap && d.beforeSnippet <= m.beforeSnippet
    ensures |d.afterSnippet| <= SnippetCap && d.afterSnippet <= m.afterSnippet
    ensures |m.beforeSnippet| <= SnippetCap && |m.afterSnippet| <= SnippetCap ==> d == m
    ensures |m.beforeSnippet| > SnippetCap ==> d.beforeSnippet == m.beforeSnippet[..SnippetCap]
    ensures |m.afterSnippet| > SnippetCap ==> d.afterSnippet == m.afterSnippet[..SnippetCap]
    ensures d.(beforeSnippet := m.beforeSnippet, afterSnippet := m.afterSnippet) == m
  {
    m.(beforeSnippet := Truncate(m.beforeSnippet, SnippetCap),
       afterSnippet := Truncate(m.afterSnippet, SnippetCap))
  }

  /** `ErrorSolution.to_dict`: the message is capped at 500 characters. */
  function ErrorSolutionToDict(e: ErrorSolution): (d: ErrorSolution)
    ensures |d.errorMessage| <= MessageCap && d.errorMessage <= e.errorMessage
    ensures |e.errorMessage| <= MessageCap ==> d == e
    ensures |e.errorMessage| > MessageCap ==> d.errorMessage == e.errorMessage[..MessageCap]
    ensures d.(errorMessage := e.errorMessage) == e
  {
    e.(errorMessage := Truncate(e.errorMessage, MessageCap))
  }
}
