/** `SessionDocGen`: the records of one documented session, gathered from logs
    and diffs by the three parsers, plus entries added by hand, and the
    metrics computed from them. Report rendering itself is not modelled: a
    report request resolves to the renderer it selects and the name and
    metrics it renders with. */
module Session {
  import opened Ids
  import opened Records
  import opened ToolParsing
  import opened FileParsing
  import opened DecisionParsing
  import opened Metrics

  datatype Result<T> = Success(value: T) | Failure(error: string)

  /** The three renderers of `ReportGenerator`. */
  datatype ReportFormat = Markdown | Json | PlainText

  /** The names `generate_report` accepts. */
  const AcceptedFormats: set<string> := {"markdown", "md", "json", "text", "txt"}

  /** The renderer a format name selects, if any. */
  function FormatOf(format: string): (r: Option<ReportFormat>)
    ensures r.None? <==> format !in AcceptedFormats
  {
    if format == "markdown" || format == "md" then Some(Markdown)
    else if format == "json" then Some(Json)
    else if format == "text" || format == "txt" then Some(PlainText)
    else None
  }

  /** The name the error message offers for each renderer. */
  function FormatName(f: ReportFormat): string {
    match f
    case Markdown => "markdown"
    case Json => "json"
    case PlainText => "text"
  }

  /** Every renderer is reached by its own name, and a name reaches only the
      renderer it stands for or its short form. */
  lemma FormatNameRoundTrip(f: ReportFormat, format: string)
    ensures FormatOf(FormatName(f)) == Some(f)
    ensures FormatOf(format) == Some(f) ==>
      format == FormatName(f) || (f == Markdown && format == "md") || (f == PlainText && format == "txt")
  {
  }

  /** The `ValueError` message for an unknown format. */
  function UnknownFormat(format: string): string {
    "Unknown format: " + format + ". Use 'markdown', 'json', or 'text'"
  }

  /** What `generate_report` hands to the renderer it selects. */
  datatype Report = Report(format: ReportFormat, name: string, metrics: SessionMetrics)

  /** What `get_summary` returns. */
  datatype Summary = Summary(
    sessionName: string,
    durationSeconds: int,
    toolCalls: nat,
    filesTouched: nat,
    errors: nat,
    errorsResolved: nat,
    decisions: nat,
    milestones: nat)

  /** Milestones numbered MS_0001, MS_0002, ... in list order. */
  predicate NumberedMilestones(mls: seq<Milestone>) {
    forall k :: 0 <= k < |mls| ==> mls[k].milestoneId == Label("MS_", k + 1)
  }

  /** Numbered milestones never share an identifier. */
  lemma NumberedMilestonesDistinct(mls: seq<Milestone>)
    requires NumberedMilestones(mls)
    ensures forall i, j :: 0 <= i < j < |mls| ==> mls[i].milestoneId != mls[j].milestoneId
  {
    forall i, j | 0 <= i < j < |mls| ensures mls[i].milestoneId != mls[j].milestoneId {
      LabelInjective("MS_", i + 1, j + 1);
    }
  }

  /** The tool calls of a log carry no arguments, so every modification
      `load_content` derives from them has the path "unknown". */
  lemma LoadedModsUnknownPaths(names: seq<string>, base: int, fileExists: string -> bool)
    ensures var ms := ModsFromUsages(Usages(names, base), fileExists);
      forall k :: 0 <= k < |ms| ==> ms[k].filePath == "unknown"
  {
    var us := Usages(names, base);
    forall k | 0 <= k < |us| ensures us[k].arguments == map[] {
      UsageAt(names, base, k);
    }
    NoArgumentsUnknownPaths(us, fileExists);
  }

  class SessionDocGen {
    const toolParser: ToolUsageParser
    const fileParser: FileModificationParser
    const decisionParser: DecisionParser

    var toolUsages: seq<ToolUsage>
    var fileModifications: seq<FileModification>
    var errors: seq<ErrorSolution>
    var decisions: seq<Decision>
    var milestones: seq<Milestone>
    var metrics: SessionMetrics

    var sessionName: string
    var startTime: Option<int>
    var endTime: Option<int>

    constructor ()
      ensures fresh(toolParser) && fresh(fileParser) && fresh(decisionParser)
      ensures toolParser.errorCounter == 0 && decisionParser.decisionCounter == 0
      ensures toolUsages == [] && fileModifications == [] && errors == [] && decisions == [] && milestones == []
      ensures metrics == DefaultMetrics
      ensures sessionName == "Session" && startTime.None? && endTime.None?
    {
      toolParser := new ToolUsageParser();
      fileParser := new FileModificationParser();
      decisionParser := new DecisionParser();
      toolUsages := [];
      fileModifications := [];
      errors := [];
      decisions := [];
      milestones := [];
      metrics := DefaultMetrics;
      sessionName := "Session";
      startTime := None;
      endTime := None;
    }

    /** `load_content`: the tool calls, errors, derived modifications and
        decisions of the log are appended; nothing already held changes.
        `baseTime` and `now` stand for the clock readings of the parse;
        `fileExists` for `os.path.exists`. */
    method LoadContent(content: string, pm: PatternMatches, fileExists: string -> bool, baseTime: int, now: int)
      modifies this, toolParser, fileParser, decisionParser
      ensures toolUsages == old(toolUsages) + Usages(ToolCallNames(content, pm), baseTime)
      ensures errors == old(errors) + ErrorRecords(ErrorTexts(content, pm), old(toolParser.errorCounter), now)
      ensures fileModifications ==
        old(fileModifications) + ModsFromUsages(Usages(ToolCallNames(content, pm), baseTime), fileExists)
      ensures decisions == old(decisions) + DecisionRecords(DecisionTexts(content), old(decisionParser.decisionCounter), now)
      ensures toolParser.errorCounter == old(toolParser.errorCounter) + |ErrorTexts(content, pm)|
      ensures decisionParser.decisionCounter == old(decisionParser.decisionCounter) + |DecisionTexts(content)|
      ensures milestones == old(milestones) && metrics == old(metrics)
      ensures sessionName == old(sessionName) && startTime == old(startTime) && endTime == old(endTime)
    {
      LoadToolCalls(content, pm, fileExists, baseTime, now);
      LoadDecisions(content, now);
    }

    /** The tool-call half of `load_content`: tool calls and errors, then the
        modifications derived from those tool calls. */
    method LoadToolCalls(content: string, pm: PatternMatches, fileExists: string -> bool, baseTime: int, now: int)
      modifies this, toolParser, fileParser
      ensures toolUsages == old(toolUsages) + Usages(ToolCallNames(content, pm), baseTime)
      ensures errors == old(errors) + ErrorRecords(ErrorTexts(content, pm), old(toolParser.errorCounter), now)
      ensures fileModifications ==
        old(fileModifications) + ModsFromUsages(Usages(ToolCallNames(content, pm), baseTime), fileExists)
      ensures toolParser.errorCounter == old(toolParser.errorCounter) + |ErrorTexts(content, pm)|
      ensures decisions == old(decisions) && milestones == old(milestones) && metrics == old(metrics)
      ensures sessionName == old(sessionName) && startTime == old(startTime) && endTime == old(endTime)
    {
      var usages, errs := toolParser.ParseContent(content, pm, baseTime, now);
      toolUsages := toolUsages + usages;
      errors := errors + errs;
      LoadModifications(usages, fileExists);
    }

    /** The modifications `parse_from_tool_usages` derives from `usages` are
        appended; nothing else changes. */
    method LoadModifications(usages: seq<ToolUsage>, fileExists: string -> bool)
      modifies this, fileParser
      ensures fileModifications == old(fileModifications) + ModsFromUsages(usages, fileExists)
      ensures toolUsages == old(toolUsages) && errors == old(errors) && decisions == old(decisions)
      ensures milestones == old(milestones) && metrics == old(metrics)
      ensures sessionName == old(sessionName) && startTime == old(startTime) && endTime == old(endTime)
    {
      var mods := fileParser.ParseFromToolUsages(usages, fileExists);
      fileModifications := fileModifications + mods;
    }

    /** The decision half of `load_content`. */
    method LoadDecisions(content: string, now: int)
      modifies this, decisionParser
      ensures decisions == old(decisions) + DecisionRecords(DecisionTexts(content), old(decisionParser.decisionCounter), now)
      ensures decisionParser.decisionCounter == old(decisionParser.decisionCounter) + |DecisionTexts(content)|
      ensures toolUsages == old(toolUsages) && errors == old(errors) && fileModifications == old(fileModifications)
      ensures milestones == old(milestones) && metrics == old(metrics)
      ensures sessionName == old(sessionName) && startTime == old(startTime) && endTime == old(endTime)
    {
      var ds := decisionParser.ParseContent(content, now);
      decisions := decisions + ds;
    }

    /** `load_git_diff`: one modification per file section of the diff is
        appended; nothing else changes. */
    method LoadGitDiff(diff: string, now: int)
      modifies this, fileParser
      ensures fileModifications == old(fileModifications) + GitDiffMods(diff, now)
      ensures toolUsages == old(toolUsages) && errors == old(errors) && decisions == old(decisions)
      ensures milestones == old(milestones) && metrics == old(metrics)
      ensures sessionName == old(sessionName) && startTime == old(startTime) && endTime == old(endTime)
    {
      var mods := fileParser.ParseFromGitDiff(diff, now);
      fileModifications := fileModifications + mods;
    }

    /** `add_milestone`: the identifier numbers the milestone after those
        already held; a missing timestamp is `now`. */
    method AddMilestone(title: string, description: string, impact: string, timestamp: Option<int>, now: int)
      returns (id: string)
      modifies this
      ensures id == Label("MS_", |old(milestones)| + 1)
      ensures milestones == old(milestones) +
        [Milestone(id, title, if timestamp.Some? then timestamp.value else now, description, impact, [])]
      ensures NumberedMilestones(old(milestones)) ==> NumberedMilestones(milestones)
      ensures toolUsages == old(toolUsages) && fileModifications == old(fileModifications)
      ensures errors == old(errors) && decisions == old(decisions) && metrics == old(metrics)
      ensures sessionName == old(sessionName) && startTime == old(startTime) && endTime == old(endTime)
    {
      id := Label("MS_", |milestones| + 1);
      var stamp := if timestamp.Some? then timestamp.value else now;
      milestones := milestones + [Milestone(id, title, stamp, description, impact, [])];
    }

    /** `add_decision`: the identifier is the number of decisions already
        held plus one, so it can repeat one the decision parser issued. */
    method AddDecision(description: string, category: string, rationale: string, timestamp: Option<int>, now: int)
      returns (id: string)
      modifies this
      ensures id == Label("DEC_", |old(decisions)| + 1)
      ensures decisions == old(decisions) +
        [Decision(id, description, if timestamp.Some? then timestamp.value else now, category, rationale, [], [], "")]
      ensures toolUsages == old(toolUsages) && fileModifications == old(fileModifications)
      ensures errors == old(errors) && milestones == old(milestones) && metrics == old(metrics)
      ensures sessionName == old(sessionName) && startTime == old(startTime) && endTime == old(endTime)
    {
      id := Label("DEC_", |decisions| + 1);
      var stamp := if timestamp.Some? then timestamp.value else now;
      decisions := decisions + [Decision(id, description, stamp, category, rationale, [], [], "")];
    }

    /** `add_error_solution`: numbered like `add_decision`, stamped `now`. */
    method AddErrorSolution(message: string, errorType: string, solution: string, effective: bool, now: int)
      returns (id: string)
      modifies this
      ensures id == Label("ERR_", |old(errors)| + 1)
      ensures errors == old(errors) + [ErrorSolution(id, errorType, message, now, solution, [], effective, false, [])]
      ensures toolUsages == old(toolUsages) && fileModifications == old(fileModifications)
      ensures decisions == old(decisions) && milestones == old(milestones) && metrics == old(metrics)
      ensures sessionName == old(sessionName) && startTime == old(startTime) && endTime == old(endTime)
    {
      id := Label("ERR_", |errors| + 1);
      errors := errors + [ErrorSolution(id, errorType, message, now, solution, [], effective, false, [])];
    }

    /** `calculate_metrics`: the metrics of everything held now. */
    method CalculateMetrics() returns (m: SessionMetrics)
      modifies this
      ensures metrics == MetricsOf(toolUsages, fileModifications, errors, decisions, milestones, startTime, endTime)
      ensures m == metrics
      ensures toolUsages == old(toolUsages) && fileModifications == old(fileModifications)
      ensures errors == old(errors) && decisions == old(decisions) && milestones == old(milestones)
      ensures sessionName == old(sessionName) && startTime == old(startTime) && endTime == old(endTime)
    {
      metrics := Calculate(toolUsages, fileModifications, errors, decisions, milestones, startTime, endTime);
      m := metrics;
    }

    /** The metrics are computed only while none have been computed for a
        session that has tool calls; otherwise the stored ones are kept. */
    method RefreshMetrics()
      modifies this
      ensures metrics ==
        if old(metrics).totalToolCalls == 0 && toolUsages != [] then
          MetricsOf(toolUsages, fileModifications, errors, decisions, milestones, startTime, endTime)
        else old(metrics)
      ensures toolUsages == old(toolUsages) && fileModifications == old(fileModifications)
      ensures errors == old(errors) && decisions == old(decisions) && milestones == old(milestones)
      ensures sessionName == old(sessionName) && startTime == old(startTime) && endTime == old(endTime)
    {
      if metrics.totalToolCalls == 0 && toolUsages != [] {
        var _ := CalculateMetrics();
      }
    }

    /** `generate_report`: after the metrics refresh, an accepted format
        selects its renderer, given the requested name when it is non-empty
        and the session's name otherwise; any other format is an error. */
    method GenerateReport(format: string, name: Option<string>) returns (r: Result<Report>)
      modifies this
      ensures metrics ==
        if old(metrics).totalToolCalls == 0 && toolUsages != [] then
          MetricsOf(toolUsages, fileModifications, errors, decisions, milestones, startTime, endTime)
        else old(metrics)
      ensures FormatOf(format).None? ==> r == Failure(UnknownFormat(format))
      ensures FormatOf(format).Some? ==>
        r == Success(Report(FormatOf(format).value,
                            if name.Some? && name.value != "" then name.value else sessionName,
                            metrics))
      ensures toolUsages == old(toolUsages) && fileModifications == old(fileModifications)
      ensures errors == old(errors) && decisions == old(decisions) && milestones == old(milestones)
      ensures sessionName == old(sessionName) && startTime == old(startTime) && endTime == old(endTime)
    {
      RefreshMetrics();
      var shown := if name.Some? && name.value != "" then name.value else sessionName;
      var f := FormatOf(format);
      if f.Some? {
        r := Success(Report(f.value, shown, metrics));
      } else {
        r := Failure(UnknownFormat(format));
      }
    }

    /** `get_summary`: the same refresh, then a digest of the metrics. */
    method GetSummary() returns (s: Summary)
      modifies this
      ensures metrics ==
        if old(metrics).totalToolCalls == 0 && toolUsages != [] then
          MetricsOf(toolUsages, fileModifications, errors, decisions, milestones, startTime, endTime)
        else old(metrics)
      ensures s == Summary(sessionName, metrics.durationSeconds, metrics.totalToolCalls, metrics.uniqueFilesTouched,
                           metrics.errorsEncountered, metrics.errorsResolved, metrics.decisionsMade,
                           metrics.milestonesAchieved)
      ensures toolUsages == old(toolUsages) && fileModifications == old(fileModifications)
      ensures errors == old(errors) && decisions == old(decisions) && milestones == old(milestones)
      ensures sessionName == old(sessionName) && startTime == old(startTime) && endTime == old(endTime)
    {
      RefreshMetrics();
      s := Summary(sessionName, metrics.durationSeconds, metrics.totalToolCalls, metrics.uniqueFilesTouched,
                   metrics.errorsEncountered, metrics.errorsResolved, metrics.decisionsMade,
                   metrics.milestonesAchieved);
    }

    /** `reset`: the five lists, the metrics, the name and the bounds return
        to their initial values; the parsers, and so their counters, are
        left as they are. */
    method Reset()
      modifies this
      ensures toolUsages == [] && fileModifications == [] && errors == [] && decisions == [] && milestones == []
      ensures metrics == DefaultMetrics
      ensures sessionName == "Session" && startTime.None? && endTime.None?
      ensures toolParser.errorCounter == old(toolParser.errorCounter)
      ensures decisionParser.decisionCounter == old(decisionParser.decisionCounter)
    {
      toolUsages := [];
      fileModifications := [];
      errors := [];
      decisions := [];
      milestones := [];
      metrics := DefaultMetrics;
      sessionName := "Session";
      startTime := None;
      endTime := None;
    }
  }
}
