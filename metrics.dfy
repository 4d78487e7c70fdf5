/** `MetricsCalculator.calculate`: the counts and sums of a session, the number
    of distinct paths it touched and its duration in whole seconds. */
module Metrics {
  import opened Records

  /** The number of tool calls that succeeded. */
  function Successes(us: seq<ToolUsage>): (n: nat)
    ensures n <= |us|
    ensures n == |us| <==> forall k :: 0 <= k < |us| ==> us[k].success
  {
    if us == [] then 0
    else
      var n := Successes(us[1..]) + (if us[0].success then 1 else 0);
      assert forall k :: 1 <= k < |us| ==> us[k] == us[1..][k - 1];
      n
  }

  /** The number of modifications of kind `kind`. */
  function OfType(ms: seq<FileModification>, kind: string): (n: nat)
    ensures n <= |ms|
    ensures n == 0 <==> forall k :: 0 <= k < |ms| ==> ms[k].modificationType != kind
  {
    if ms == [] then 0
    else
      var n := OfType(ms[1..], kind) + (if ms[0].modificationType == kind then 1 else 0);
      assert forall k :: 1 <= k < |ms| ==> ms[k] == ms[1..][k - 1];
      n
  }

  /** The created, edited and deleted records together are at most all of them. */
  lemma {:induction false} KindsBound(ms: seq<FileModification>)
    ensures OfType(ms, "created") + OfType(ms, "edited") + OfType(ms, "deleted") <= |ms|
  {
    if ms != [] {
      KindsBound(ms[1..]);
    }
  }

  /** The lines added over all modifications. */
  function LinesAdded(ms: seq<FileModification>): (n: int)
    ensures (forall k :: 0 <= k < |ms| ==> ms[k].linesAdded >= 0) ==> n >= 0
  {
    if ms == [] then 0
    else
      assert forall k :: 1 <= k < |ms| ==> ms[k] == ms[1..][k - 1];
      ms[0].linesAdded + LinesAdded(ms[1..])
  }

  /** The lines removed over all modifications. */
  function LinesRemoved(ms: seq<FileModification>): (n: int)
    ensures (forall k :: 0 <= k < |ms| ==> ms[k].linesRemoved >= 0) ==> n >= 0
  {
    if ms == [] then 0
    else
      assert forall k :: 1 <= k < |ms| ==> ms[k] == ms[1..][k - 1];
      ms[0].linesRemoved + LinesRemoved(ms[1..])
  }

  /** Sums of lines are additive over a split of the records. */
  lemma {:induction false} LinesAppend(a: seq<FileModification>, b: seq<FileModification>)
    ensures LinesAdded(a + b) == LinesAdded(a) + LinesAdded(b)
    ensures LinesRemoved(a + b) == LinesRemoved(a) + LinesRemoved(b)
  {
    if a != [] {
      LinesAppend(a[1..], b);
      assert (a + b)[0] == a[0] && (a + b)[1..] == a[1..] + b;
    } else {
      assert a + b == b;
    }
  }

  /** The number of errors marked effective. */
  function Resolved(es: seq<ErrorSolution>): (n: nat)
    ensures n <= |es|
    ensures n == 0 <==> forall k :: 0 <= k < |es| ==> !es[k].effective
  {
    if es == [] then 0
    else
      var n := Resolved(es[1..]) + (if es[0].effective then 1 else 0);
      assert forall k :: 1 <= k < |es| ==> es[k] == es[1..][k - 1];
      n
  }

  /** The distinct paths of the records, gathered first to last. */
  function FilePaths(ms: seq<FileModification>): (ps: set<string>)
    ensures |ps| <= |ms|
  {
    if ms == [] then {} else FilePaths(ms[..|ms| - 1]) + {ms[|ms| - 1].filePath}
  }

  /** A path is gathered exactly when some record names it. */
  lemma {:induction false} InFilePaths(ms: seq<FileModification>, p: string)
    ensures p in FilePaths(ms) <==> exists k :: 0 <= k < |ms| && ms[k].filePath == p
  {
    if ms != [] {
      var init := ms[..|ms| - 1];
      InFilePaths(init, p);
      if exists k :: 0 <= k < |ms| && ms[k].filePath == p {
        var k :| 0 <= k < |ms| && ms[k].filePath == p;
        if k < |init| {
          assert init[k] == ms[k];
        }
      }
      if exists k :: 0 <= k < |init| && init[k].filePath == p {
        var k :| 0 <= k < |init| && init[k].filePath == p;
        assert ms[k] == init[k];
      }
    }
  }

  /** Records that name any path touch at least one. */
  lemma FilePathsNonEmpty(ms: seq<FileModification>)
    ensures ms != [] ==> |FilePaths(ms)| >= 1
  {
    if ms != [] {
      InFilePaths(ms, ms[0].filePath);
    }
  }

  /** The earliest timestamp of a non-empty list of tool calls. */
  function MinTimestamp(us: seq<ToolUsage>): (t: int)
    requires us != []
    ensures exists k :: 0 <= k < |us| && us[k].timestamp == t
    ensures forall k :: 0 <= k < |us| ==> t <= us[k].timestamp
  {
    if |us| == 1 then us[0].timestamp
    else
      var m := MinTimestamp(us[1..]);
      assert forall k :: 1 <= k < |us| ==> us[k] == us[1..][k - 1];
      if us[0].timestamp <= m then us[0].timestamp else m
  }

  /** The latest timestamp of a non-empty list of tool calls. */
  function MaxTimestamp(us: seq<ToolUsage>): (t: int)
    requires us != []
    ensures exists k :: 0 <= k < |us| && us[k].timestamp == t
    ensures forall k :: 0 <= k < |us| ==> us[k].timestamp <= t
  {
    if |us| == 1 then us[0].timestamp
    else
      var m := MaxTimestamp(us[1..]);
      assert forall k :: 1 <= k < |us| ==> us[k] == us[1..][k - 1];
      if us[0].timestamp >= m then us[0].timestamp else m
  }

  /** Explicit bounds win; otherwise the span from the first to the last tool
      call; otherwise zero. */
  function Duration(us: seq<ToolUsage>, start: Option<int>, end: Option<int>): (d: int)
    ensures start.Some? && end.Some? ==> d == end.value - start.value
    ensures (start.None? || end.None?) ==> d >= 0
    ensures (start.None? || end.None?) ==>
      forall i, j :: 0 <= i < |us| && 0 <= j < |us| ==> us[i].timestamp - us[j].timestamp <= d
    ensures (start.None? || end.None?) && us != [] ==>
      exists i, j :: 0 <= i < |us| && 0 <= j < |us| && us[i].timestamp - us[j].timestamp == d
    ensures (start.None? || end.None?) && us == [] ==> d == 0
  {
    if start.Some? && end.Some? then end.value - start.value
    else if us != [] then MaxTimestamp(us) - MinTimestamp(us)
    else 0
  }

  /** What `calculate` returns for these records and session bounds. */
  function MetricsOf(us: seq<ToolUsage>, ms: seq<FileModification>, es: seq<ErrorSolution>,
                     ds: seq<Decision>, mls: seq<Milestone>, start: Option<int>, end: Option<int>): (r: SessionMetrics)
    ensures r.totalToolCalls == |us| && r.successfulToolCalls <= r.totalToolCalls
    ensures r.filesCreated + r.filesEdited + r.filesDeleted <= |ms|
    ensures r.uniqueFilesTouched <= |ms| && (ms != [] ==> r.uniqueFilesTouched >= 1)
    ensures r.errorsEncountered == |es| && r.errorsResolved <= r.errorsEncountered
    ensures r.decisionsMade == |ds| && r.milestonesAchieved == |mls|
    ensures us == [] && ms == [] && es == [] && ds == [] && mls == [] && (start.None? || end.None?) ==>
      r == DefaultMetrics
  {
    KindsBound(ms);
    FilePathsNonEmpty(ms);
    SessionMetrics(
      Duration(us, start, end),
      |us|, Successes(us),
      OfType(ms, "created"), OfType(ms, "edited"), OfType(ms, "deleted"),
      LinesAdded(ms), LinesRemoved(ms),
      |es|, Resolved(es),
      |ds|, |mls|,
      |FilePaths(ms)|)
  }

  /** `calculate`: the distinct paths are gathered in a loop, one record at
      a time. */
  method Calculate(us: seq<ToolUsage>, ms: seq<FileModification>, es: seq<ErrorSolution>,
                   ds: seq<Decision>, mls: seq<Milestone>, start: Option<int>, end: Option<int>)
    returns (r: SessionMetrics)
    ensures r == MetricsOf(us, ms, es, ds, mls, start, end)
  {
    var uniqueFiles: set<string> := {};
    for i := 0 to |ms|
      invariant uniqueFiles == FilePaths(ms[..i])
    {
      assert ms[..i + 1][..i] == ms[..i];
      uniqueFiles := uniqueFiles + {ms[i].filePath};
    }
    assert ms[..|ms|] == ms;
    r := SessionMetrics(
      Duration(us, start, end),
      |us|, Successes(us),
      OfType(ms, "created"), OfType(ms, "edited"), OfType(ms, "deleted"),
      LinesAdded(ms), LinesRemoved(ms),
      |es|, Resolved(es),
      |ds|, |mls|,
      |uniqueFiles|);
  }
}
