/** `FileModificationParser`: file modifications derived from the tool calls
    of a session, or read from the patch text `git diff` prints ("diff --git
    a/X b/Y" headers, each followed by unified-diff lines). */
module FileParsing {
  import opened Text
  import opened Records

  /** `arguments.get(key, "unknown")`. */
  function ArgOrUnknown(args: map<string, string>, key: string): string {
    if key in args then args[key] else "unknown"
  }

  /** The modification one tool call stands for, if any: write creates or
      edits `file_path` depending on whether it already exists, search_replace
      edits `file_path`, delete_file deletes `target_file`; every other tool
      is skipped. */
  function ModFromUsage(u: ToolUsage, fileExists: string -> bool): (m: Option<FileModification>)
    ensures m.Some? <==> u.toolName in {"write", "search_replace", "delete_file"}
    ensures m.Some? ==> m.value.toolUsed == u.toolName && m.value.timestamp == u.timestamp
    ensures m.Some? ==> m.value.linesAdded == 0 && m.value.linesRemoved == 0
    ensures m.Some? && u.toolName == "delete_file" ==>
      m.value.filePath == ArgOrUnknown(u.arguments, "target_file") && m.value.modificationType == "deleted"
    ensures m.Some? && u.toolName == "search_replace" ==>
      m.value.filePath == ArgOrUnknown(u.arguments, "file_path") && m.value.modificationType == "edited"
    ensures m.Some? && u.toolName == "write" ==>
      m.value.filePath == ArgOrUnknown(u.arguments, "file_path") &&
      m.value.modificationType == (if fileExists(m.value.filePath) then "edited" else "created")
  {
    if u.toolName == "write" then
      var path := ArgOrUnknown(u.arguments, "file_path");
      Some(FileModification(path, if !fileExists(path) then "created" else "edited", u.timestamp, "", "", 0, 0, "write"))
    else if u.toolName == "search_replace" then
      var path := ArgOrUnknown(u.arguments, "file_path");
      Some(FileModification(path, "edited", u.timestamp, "", "", 0, 0, "search_replace"))
    else if u.toolName == "delete_file" then
      var path := ArgOrUnknown(u.arguments, "target_file");
      Some(FileModification(path, "deleted", u.timestamp, "", "", 0, 0, "delete_file"))
    else None
  }

  /** `parse_from_tool_usages`: the modifications of the calls, in call order. */
  function ModsFromUsages(us: seq<ToolUsage>, fileExists: string -> bool): (ms: seq<FileModification>)
    ensures |ms| <= |us|
  {
    if us == [] then []
    else
      var init := ModsFromUsages(us[..|us| - 1], fileExists);
      match ModFromUsage(us[|us| - 1], fileExists)
      case Some(m) => init + [m]
      case None => init
  }

  /** Deriving from two stretches of calls is deriving from each and
      concatenating: the output keeps the order of the calls. */
  lemma {:induction false} ModsFromUsagesAppend(a: seq<ToolUsage>, b: seq<ToolUsage>, fileExists: string -> bool)
    ensures ModsFromUsages(a + b, fileExists) == ModsFromUsages(a, fileExists) + ModsFromUsages(b, fileExists)
    decreases |b|
  {
    if b == [] {
      assert a + b == a;
    } else {
      var b' := b[..|b| - 1];
      assert (a + b)[..|a + b| - 1] == a + b';
      assert (a + b)[|a + b| - 1] == b[|b| - 1];
      ModsFromUsagesAppend(a, b', fileExists);
    }
  }

  /** Calls that carry no arguments yield modifications of the path "unknown". */
  lemma {:induction false} NoArgumentsUnknownPaths(us: seq<ToolUsage>, fileExists: string -> bool)
    requires forall k :: 0 <= k < |us| ==> us[k].arguments == map[]
    ensures forall k :: 0 <= k < |ModsFromUsages(us, fileExists)| ==> ModsFromUsages(us, fileExists)[k].filePath == "unknown"
  {
    if us != [] {
      NoArgumentsUnknownPaths(us[..|us| - 1], fileExists);
    }
  }

  /** `^diff --git a/(.+?) b/(.+?)$` on one line: the b-side path, which
      starts after the first " b/" that has at least one character before it
      and at least one after it. */
  function DiffHeader(line: string): Option<string> {
    if |line| < 14 || line[..13] != "diff --git a/" then None
    else
      var r := line[13..];
      var k := FirstBSide(r, 1);
      if k == |r| then None else Some(r[k + 3..])
  }

  /** A recognised header is "diff --git a/" followed by a non-empty a-side,
      " b/" and the non-empty path returned. */
  lemma DiffHeaderShape(line: string)
    requires DiffHeader(line).Some?
    ensures var p := DiffHeader(line).value;
      |p| >= 1 && exists a :: |a| >= 1 && line == HeaderText(a, p)
  {
    var r := line[13..];
    var k := FirstBSide(r, 1);
    assert line == line[..13] + r;
    assert r == r[..k] + r[k..k + 3] + r[k + 3..];
    assert line == HeaderText(r[..k], r[k + 3..]);
  }

  /** " b/" occurs at `j` with at least one character after it. */
  predicate BSideAt(r: string, j: int) {
    0 <= j && j + 3 < |r| && r[j..j + 3] == " b/"
  }

  /** The first position `k >= from` at which " b/" occurs with at least one
      character after it, or `|r|` when there is none. */
  function FirstBSide(r: string, from: nat): (k: nat)
    requires from <= |r|
    ensures from <= k <= |r|
    ensures k < |r| ==> BSideAt(r, k)
    ensures forall j :: from <= j < k ==> !BSideAt(r, j)
    decreases |r| - from
  {
    if from + 3 >= |r| then |r|
    else if r[from..from + 3] == " b/" then from
    else FirstBSide(r, from + 1)
  }

  /** The header `git diff` prints for a file whose a-side is `a` and b-side `b`. */
  function HeaderText(a: string, b: string): string {
    "diff --git a/" + a + " b/" + b
  }

  /** Reading a header back gives its b-side, provided the a-side does not
      itself contain " b/". */
  lemma HeaderRoundTrip(a: string, b: string)
    requires |a| >= 1 && |b| >= 1
    requires forall j :: !OccursAt(a, " b/", j)
    ensures DiffHeader(HeaderText(a, b)) == Some(b)
  {
    var line := HeaderText(a, b);
    var r := a + " b/" + b;
    assert line[..13] == "diff --git a/";
    assert line[13..] == r;
    assert r[|a|..|a| + 3] == " b/";
    forall j | 1 <= j < |a| ensures !BSideAt(r, j) {
      if j + 3 <= |a| {
        assert r[j..j + 3] == a[j..j + 3];
        assert !OccursAt(a, " b/", j);
      } else if j + 1 == |a| {
        assert r[j + 1] == ' ';
      } else {
        assert r[j + 2] == ' ';
      }
    }
    FirstBSideIs(r, 1, |a|);
    assert r[|a| + 3..] == b;
  }

  lemma {:induction false} FirstBSideIs(r: string, from: nat, k: nat)
    requires from <= k && BSideAt(r, k)
    requires forall j :: from <= j < k ==> !BSideAt(r, j)
    ensures FirstBSide(r, from) == k
    decreases k - from
  {
    if from < k {
      FirstBSideIs(r, from + 1, k);
    }
  }

  /** `^\+(?!\+\+)`: a line that starts with "+" but not with "+++". */
  predicate IsAdded(line: string) {
    |line| >= 1 && line[0] == '+' && !(|line| >= 3 && line[1] == '+' && line[2] == '+')
  }

  /** `^-(?!--)`: a line that starts with "-" but not with "---". */
  predicate IsRemoved(line: string) {
    |line| >= 1 && line[0] == '-' && !(|line| >= 3 && line[1] == '-' && line[2] == '-')
  }

  /** The record of one file section. */
  function GitRecord(path: string, added: nat, removed: nat, now: int): FileModification {
    FileModification(path, "edited", now, "", "", added, removed, "git")
  }

  /** How `parse_from_git_diff` reads one line: a header (with its b-side
      path), else an added line, else a removed line, else anything else. */
  datatype LineKind = HeaderLine(path: string) | AddedLine | RemovedLine | OtherLine

  function Kind(line: string): (k: LineKind)
    ensures k.HeaderLine? <==> DiffHeader(line).Some?
    ensures k.HeaderLine? ==> k.path == DiffHeader(line).value
    ensures k == AddedLine <==> DiffHeader(line).None? && IsAdded(line)
    ensures k == RemovedLine <==> DiffHeader(line).None? && IsRemoved(line) && !IsAdded(line)
  {
    match DiffHeader(line)
    case Some(p) => HeaderLine(p)
    case None =>
      if IsAdded(line) then AddedLine
      else if IsRemoved(line) then RemovedLine
      else OtherLine
  }

  function Kinds(lines: seq<string>): (ks: seq<LineKind>)
    ensures |ks| == |lines| && forall k :: 0 <= k < |lines| ==> ks[k] == Kind(lines[k])
  {
    seq(|lines|, k requires 0 <= k < |lines| => Kind(lines[k]))
  }

  /** The accumulator of `parse_from_git_diff`: the file of the section being
      read, its counts so far, and the records already emitted. */
  datatype DiffState = DiffState(current: Option<string>, added: nat, removed: nat, mods: seq<FileModification>)

  const InitialDiffState := DiffState(None, 0, 0, [])

  /** The records emitted so far plus that of the open section, if any. */
  function Flush(st: DiffState, now: int): seq<FileModification> {
    st.mods + (if st.current.Some? then [GitRecord(st.current.value, st.added, st.removed, now)] else [])
  }

  /** One line: a header closes the open section and opens a new one; inside
      a section an added or removed line is counted; anything else, and
      every line before the first header, is ignored. */
  function Step(st: DiffState, k: LineKind, now: int): DiffState {
    match k
    case HeaderLine(p) => DiffState(Some(p), 0, 0, Flush(st, now))
    case AddedLine => if st.current.Some? then st.(added := st.added + 1) else st
    case RemovedLine => if st.current.Some? then st.(removed := st.removed + 1) else st
    case OtherLine => st
  }

  /** The state after reading `ks` from `st`. */
  function Run(ks: seq<LineKind>, st: DiffState, now: int): DiffState
    decreases |ks|
  {
    if ks == [] then st else Run(ks[1..], Step(st, ks[0], now), now)
  }

  /** `parse_from_git_diff`: read every line of the text, then close the
      last section. */
  function GitDiffMods(diff: string, now: int): seq<FileModification> {
    Flush(Run(Kinds(SplitOn(diff, {'\n'})), InitialDiffState, now), now)
  }

  // Reference definition: the text cut into sections, one per header.

  /** Index of the first header line, or `|ks|`. */
  function FirstHeader(ks: seq<LineKind>): (i: nat)
    ensures i <= |ks|
    ensures i < |ks| ==> ks[i].HeaderLine?
    ensures forall k :: 0 <= k < i ==> !ks[k].HeaderLine?
  {
    if ks == [] || ks[0].HeaderLine? then 0 else 1 + FirstHeader(ks[1..])
  }

  function CountAdded(ks: seq<LineKind>): nat {
    if ks == [] then 0 else (if ks[0] == AddedLine then 1 else 0) + CountAdded(ks[1..])
  }

  function CountRemoved(ks: seq<LineKind>): nat {
    if ks == [] then 0 else (if ks[0] == RemovedLine then 1 else 0) + CountRemoved(ks[1..])
  }

  /** One record per header, in order: its b-side path, and the added and
      removed lines between it and the next header (or the end). Lines
      before the first header belong to no record. */
  function Sections(ks: seq<LineKind>, now: int): seq<FileModification>
    decreases |ks|
  {
    var i := FirstHeader(ks);
    if i == |ks| then []
    else
      var body := ks[i + 1..];
      var j := FirstHeader(body);
      [GitRecord(ks[i].path, CountAdded(body[..j]), CountRemoved(body[..j]), now)] + Sections(body[j..], now)
  }

  /** A leading non-header line does not change the sections. */
  lemma SectionsSkip(ks: seq<LineKind>, now: int)
    requires |ks| >= 1 && !ks[0].HeaderLine?
    ensures Sections(ks, now) == Sections(ks[1..], now)
  {
    var i := FirstHeader(ks);
    if i < |ks| {
      assert ks[i + 1..] == ks[1..][i..];
      assert ks[i] == ks[1..][i - 1];
    }
  }

  lemma CountsStep(ks: seq<LineKind>, j: nat)
    requires 1 <= j <= |ks|
    ensures CountAdded(ks[..j]) == (if ks[0] == AddedLine then 1 else 0) + CountAdded(ks[1..][..j - 1])
    ensures CountRemoved(ks[..j]) == (if ks[0] == RemovedLine then 1 else 0) + CountRemoved(ks[1..][..j - 1])
  {
    assert ks[..j][1..] == ks[1..][..j - 1];
  }

  /** What the accumulator should emit from state `st` on `ks`: the records
      already emitted; then, if a section is open, that section completed
      with the counts of the lines up to the next header; then the sections
      of the rest. */
  function Expected(ks: seq<LineKind>, st: DiffState, now: int): seq<FileModification> {
    if st.current.None? then st.mods + Sections(ks, now)
    else
      var j := FirstHeader(ks);
      Completed(st.mods, st.current.value, st.added + CountAdded(ks[..j]), st.removed + CountRemoved(ks[..j]), ks[j..], now)
  }

  /** The records `mods`, then the section of `path` with its final counts,
      then the sections of `rest`. */
  function Completed(mods: seq<FileModification>, path: string, added: nat, removed: nat,
                     rest: seq<LineKind>, now: int): seq<FileModification> {
    mods + [GitRecord(path, added, removed, now)] + Sections(rest, now)
  }

  /** A header line closes the open section, if any, and opens its own. */
  lemma ExpectedAtHeader(ks: seq<LineKind>, st: DiffState, now: int)
    requires |ks| >= 1 && ks[0].HeaderLine?
    ensures Expected(ks, st, now) == Expected(ks[1..], Step(st, ks[0], now), now)
  {
    var body := ks[1..];
    var j := FirstHeader(body);
    var rec := GitRecord(ks[0].path, CountAdded(body[..j]), CountRemoved(body[..j]), now);
    var rest := Sections(body[j..], now);
    assert FirstHeader(ks) == 0;
    assert Sections(ks, now) == [rec] + rest;
    var st' := Step(st, ks[0], now);
    assert st' == DiffState(Some(ks[0].path), 0, 0, Flush(st, now));
    assert Expected(body, st', now) == Flush(st, now) + [rec] + rest;
    if st.current.Some? {
      assert ks[..0] == [] && ks[0..] == ks;
      assert Expected(ks, st, now) == st.mods + [GitRecord(st.current.value, st.added, st.removed, now)] + ([rec] + rest);
    }
    AppendAssoc(Flush(st, now), [rec], rest);
  }

  /** Outside any section a non-header line is ignored. */
  lemma ExpectedSkipOutside(ks: seq<LineKind>, st: DiffState, now: int)
    requires |ks| >= 1 && !ks[0].HeaderLine? && st.current.None?
    ensures Expected(ks, st, now) == Expected(ks[1..], Step(st, ks[0], now), now)
  {
    SectionsSkip(ks, now);
  }

  /** With a section open, the expected records are that section completed
      by the lines up to the next header, then the sections after it; the
      arguments of `Completed` are named by the caller. */
  lemma ExpectedOpen(ks: seq<LineKind>, st: DiffState, now: int,
                     mods: seq<FileModification>, path: string, added: nat, removed: nat, rest: seq<LineKind>)
    requires st.current == Some(path) && st.mods == mods
    requires added == st.added + CountAdded(ks[..FirstHeader(ks)])
    requires removed == st.removed + CountRemoved(ks[..FirstHeader(ks)])
    requires rest == ks[FirstHeader(ks)..]
    ensures Expected(ks, st, now) == Completed(mods, path, added, removed, rest, now)
  {
  }

  /** Inside a section a non-header line only moves the counts. */
  lemma ExpectedSkipInside(ks: seq<LineKind>, st: DiffState, now: int)
    requires |ks| >= 1 && !ks[0].HeaderLine? && st.current.Some?
    ensures Expected(ks, st, now) == Expected(ks[1..], Step(st, ks[0], now), now)
  {
    var j := FirstHeader(ks);
    assert j == 1 + FirstHeader(ks[1..]);
    CountsStep(ks, j);
    assert ks[j..] == ks[1..][j - 1..];
    var st' := Step(st, ks[0], now);
    var added := st.added + CountAdded(ks[..j]);
    var removed := st.removed + CountRemoved(ks[..j]);
    ExpectedOpen(ks, st, now, st.mods, st.current.value, added, removed, ks[j..]);
    ExpectedOpen(ks[1..], st', now, st.mods, st.current.value, added, removed, ks[j..]);
  }

  /** The accumulator computes the reference from any state. */
  lemma {:induction false} RunIsSections(ks: seq<LineKind>, st: DiffState, now: int)
    ensures Flush(Run(ks, st, now), now) == Expected(ks, st, now)
    decreases |ks|
  {
    if ks == [] {
      assert ks[..0] == [] && ks[0..] == [];
    } else {
      RunIsSections(ks[1..], Step(st, ks[0], now), now);
      if ks[0].HeaderLine? {
        ExpectedAtHeader(ks, st, now);
      } else if st.current.None? {
        ExpectedSkipOutside(ks, st, now);
      } else {
        ExpectedSkipInside(ks, st, now);
      }
    }
  }

  /** `parse_from_git_diff` returns the sections of the text's lines. */
  lemma GitDiffModsAreSections(diff: string, now: int)
    ensures GitDiffMods(diff, now) == Sections(Kinds(SplitOn(diff, {'\n'})), now)
  {
    RunIsSections(Kinds(SplitOn(diff, {'\n'})), InitialDiffState, now);
  }

  /** A section whose body holds no header gives exactly one record, with
      the counts of its added and removed lines. */
  lemma SingleSection(path: string, body: seq<LineKind>, now: int)
    requires forall k :: 0 <= k < |body| ==> !body[k].HeaderLine?
    ensures Sections([HeaderLine(path)] + body, now) == [GitRecord(path, CountAdded(body), CountRemoved(body), now)]
  {
    var ks := [HeaderLine(path)] + body;
    assert ks[1..] == body;
    assert FirstHeader(body) == |body|;
    assert body[..|body|] == body && body[|body|..] == [];
  }

  /** The b-side paths of the header lines, in order. */
  function HeaderPaths(ks: seq<LineKind>): seq<string> {
    if ks == [] then []
    else (if ks[0].HeaderLine? then [ks[0].path] else []) + HeaderPaths(ks[1..])
  }

  function Paths(ms: seq<FileModification>): seq<string> {
    if ms == [] then [] else [ms[0].filePath] + Paths(ms[1..])
  }

  lemma {:induction false} PathsAppend(a: seq<FileModification>, b: seq<FileModification>)
    ensures Paths(a + b) == Paths(a) + Paths(b)
  {
    if a == [] {
      assert a + b == b;
    } else {
      assert (a + b)[1..] == a[1..] + b;
      PathsAppend(a[1..], b);
    }
  }

  /** Skipping the lines before the first header loses no header path. */
  lemma {:induction false} HeaderPathsFrom(ks: seq<LineKind>, i: nat)
    requires i <= |ks| && forall k :: 0 <= k < i ==> !ks[k].HeaderLine?
    ensures HeaderPaths(ks) == HeaderPaths(ks[i..])
    decreases i
  {
    if i > 0 {
      assert ks[1..][i - 1..] == ks[i..];
      HeaderPathsFrom(ks[1..], i - 1);
    }
  }

  /** One record per header line, carrying that header's b-side path, in order. */
  lemma {:induction false} SectionPaths(ks: seq<LineKind>, now: int)
    ensures Paths(Sections(ks, now)) == HeaderPaths(ks)
    decreases |ks|
  {
    var i := FirstHeader(ks);
    HeaderPathsFrom(ks, i);
    if i < |ks| {
      var body := ks[i + 1..];
      var j := FirstHeader(body);
      var rec := GitRecord(ks[i].path, CountAdded(body[..j]), CountRemoved(body[..j]), now);
      assert ks[i..][1..] == body;
      HeaderPathsFrom(body, j);
      SectionPaths(body[j..], now);
      PathsAppend([rec], Sections(body[j..], now));
    } else {
      assert ks[i..] == [];
    }
  }

  /** Every record is an edit made with git. */
  predicate AllGitEdits(ms: seq<FileModification>) {
    ms == [] || (ms[0].modificationType == "edited" && ms[0].toolUsed == "git" && AllGitEdits(ms[1..]))
  }

  /** Every record of a diff is an edit made with git. */
  lemma {:induction false} SectionsAreGitEdits(ks: seq<LineKind>, now: int)
    ensures AllGitEdits(Sections(ks, now))
    decreases |ks|
  {
    var i := FirstHeader(ks);
    if i < |ks| {
      var body := ks[i + 1..];
      var j := FirstHeader(body);
      var rec := GitRecord(ks[i].path, CountAdded(body[..j]), CountRemoved(body[..j]), now);
      var rest := Sections(body[j..], now);
      SectionsAreGitEdits(body[j..], now);
      assert ([rec] + rest)[1..] == rest;
    }
  }

  /** A text without a header line yields no record. */
  lemma NoHeaderNoRecord(diff: string, now: int)
    requires forall k :: 0 <= k < |SplitOn(diff, {'\n'})| ==> DiffHeader(SplitOn(diff, {'\n'})[k]).None?
    ensures GitDiffMods(diff, now) == []
  {
    GitDiffModsAreSections(diff, now);
    assert FirstHeader(Kinds(SplitOn(diff, {'\n'}))) == |SplitOn(diff, {'\n'})|;
  }

  /** `FileModificationParser`: the modifications of the last parse. */
  class FileModificationParser {
    var modifications: seq<FileModification>

    constructor ()
      ensures modifications == []
    {
      modifications := [];
    }

    /** `parse_from_tool_usages`; `fileExists` stands for `os.path.exists`. */
    method ParseFromToolUsages(usages: seq<ToolUsage>, fileExists: string -> bool) returns (mods: seq<FileModification>)
      modifies this
      ensures modifications == ModsFromUsages(usages, fileExists) && mods == modifications
    {
      modifications := [];
      for i := 0 to |usages|
        invariant modifications == ModsFromUsages(usages[..i], fileExists)
      {
        assert usages[..i + 1][..i] == usages[..i];
        var m := ModFromUsage(usages[i], fileExists);
        if m.Some? {
          modifications := modifications + [m.value];
        }
      }
      assert usages[..|usages|] == usages;
      mods := modifications;
    }

    /** `parse_from_git_diff`; `now` is the time stamped on every record. */
    method ParseFromGitDiff(diff: string, now: int) returns (mods: seq<FileModification>)
      modifies this
      ensures modifications == GitDiffMods(diff, now) && mods == modifications
    {
      modifications := [];
      var lines := SplitOn(diff, {'\n'});
      ghost var kinds := Kinds(lines);
      var current: Option<string> := None;
      var linesAdded: nat := 0;
      var linesRemoved: nat := 0;
      for i := 0 to |lines|
        invariant Run(kinds[i..], DiffState(current, linesAdded, linesRemoved, modifications), now) ==
          Run(kinds, InitialDiffState, now)
      {
        var line := lines[i];
        ghost var before := DiffState(current, linesAdded, linesRemoved, modifications);
        assert kinds[i..][0] == Kind(line) && kinds[i..][1..] == kinds[i + 1..];
        assert Run(kinds[i..], before, now) == Run(kinds[i + 1..], Step(before, Kind(line), now), now);
        var header := DiffHeader(line);
        if header.Some? {
          if current.Some? {
            modifications := modifications + [GitRecord(current.value, linesAdded, linesRemoved, now)];
          }
          current := Some(header.value);
          linesAdded := 0;
          linesRemoved := 0;
        } else if current.Some? {
          if IsAdded(line) {
            linesAdded := linesAdded + 1;
          } else if IsRemoved(line) {
            linesRemoved := linesRemoved + 1;
          }
        }
        assert DiffState(current, linesAdded, linesRemoved, modifications) == Step(before, Kind(line), now);
      }
      if current.Some? {
        modifications := modifications + [GitRecord(current.value, linesAdded, linesRemoved, now)];
      }
      mods := modifications;
    }
  }
}
