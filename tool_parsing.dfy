/** `ToolUsageParser`: tool calls and errors extracted from a session log.
    The `<invoke name="...">` scan and the exit-code scan are modelled
    character by character; the remaining regular expressions (the three
    other tool-call notations and the two error-text patterns) enter as the
    given lists of their group-1 texts, in match order. */
module ToolParsing {
  import opened Text
  import opened Ids
  import opened Records
  import opened Classify

  /** One match found at the start of a text: the text of group 1 and the
      length of the whole match. */
  datatype Match = Match(group: string, len: nat)

  /** Where the scan of a text of `n >= 1` characters resumes after a match
      of length `len` found at its start: at the end of a non-empty match,
      which never lies past the text. After an empty match the model steps
      one character on; `re.finditer` may instead report a non-empty match
      at the same position. Neither scanned pattern matches the empty string
      (`MatchInvoke`, `MatchExitCode`), so the two never differ here. */
  function Resume(len: nat, n: nat): (r: nat)
    requires n >= 1
    ensures 1 <= r <= n
    ensures 1 <= len <= n ==> r == len
  {
    if len == 0 then 1 else if len > n then n else len
  }

  /** `re.finditer`: the group-1 texts of the non-overlapping matches, left
      to right; after a match the scan resumes at its end, elsewhere one
      character further. */
  function FindAll(t: string, matcher: string -> Option<Match>): seq<string>
    decreases |t|
  {
    if t == [] then []
    else match matcher(t)
      case Some(m) => [m.group] + FindAll(t[Resume(m.len, |t|)..], matcher)
      case None => FindAll(t[1..], matcher)
  }

  /** A scan that starts with a non-empty match reports its group, then
      resumes after it. */
  lemma FindAllAt(t: string, matcher: string -> Option<Match>, m: Match)
    requires matcher(t) == Some(m) && 1 <= m.len <= |t|
    ensures FindAll(t, matcher) == [m.group] + FindAll(t[m.len..], matcher)
  {
  }

  /** A scan that starts with a stretch in which the matcher finds nothing
      reads the same as a scan of what follows the stretch. */
  lemma {:induction false} FindAllSkip(f: string, rest: string, matcher: string -> Option<Match>)
    requires forall k :: 0 <= k < |f| ==> matcher((f + rest)[k..]).None?
    ensures FindAll(f + rest, matcher) == FindAll(rest, matcher)
    decreases |f|
  {
    if f != [] {
      assert matcher((f + rest)[0..]).None?;
      assert (f + rest)[0..] == f + rest;
      assert (f + rest)[1..] == f[1..] + rest;
      forall k | 0 <= k < |f[1..]| ensures matcher((f[1..] + rest)[k..]).None? {
        assert (f[1..] + rest)[k..] == (f + rest)[k + 1..];
      }
      FindAllSkip(f[1..], rest, matcher);
    }
  }

  predicate IsQuote(c: char) { c == '"' || c == '\'' }

  predicate NotQuote(c: char) { !IsQuote(c) }

  /** A name the invoke pattern can capture: non-empty, without quotes. */
  predicate InvokeName(n: string) {
    |n| >= 1 && forall k :: 0 <= k < |n| ==> NotQuote(n[k])
  }

  /** `<invoke\s+name=["']([^"']+)["']` matched at the start of `t`. The two
      quotes need not be the same character. */
  function MatchInvoke(t: string): (m: Option<Match>)
    ensures m.Some? ==> 1 <= m.value.len <= |t| && InvokeName(m.value.group)
    ensures m.Some? ==> |t| >= 7 && t[..7] == "<invoke"
  {
    if |t| < 7 || t[..7] != "<invoke" then None
    else
      var w := Span(t, 7, IsSpace);
      var a := 7 + w;
      if w == 0 || |t| < a + 6 || t[a..a + 5] != "name=" || !IsQuote(t[a + 5]) then None
      else
        var n := Span(t, a + 6, NotQuote);
        if n == 0 || a + 6 + n == |t| then None
        else Some(Match(t[a + 6..a + 6 + n], a + 6 + n + 1))
  }

  /** `t` starts with `<invoke`, then `w >= 1` whitespace characters, then
      `name=`, a quote, the name `n` and a quote (of either kind). */
  predicate OpensInvoke(t: string, w: nat, n: string) {
    && InvokeName(n)
    && w >= 1
    && |t| >= 14 + w + |n|
    && t[..7] == "<invoke"
    && (forall k :: 7 <= k < 7 + w ==> IsSpace(t[k]))
    && t[7 + w..12 + w] == "name="
    && IsQuote(t[12 + w])
    && t[13 + w..13 + w + |n|] == n
    && IsQuote(t[13 + w + |n|])
  }

  /** Every text of that form is matched, with `n` as its group, and the
      match ends right after the closing quote. */
  lemma MatchInvokeComplete(t: string, w: nat, n: string)
    requires OpensInvoke(t, w, n)
    ensures MatchInvoke(t) == Some(Match(n, 14 + w + |n|))
  {
    assert t[7 + w] == t[7 + w..12 + w][0];
    SpanExact(t, 7, IsSpace, w);
    forall k | 13 + w <= k < 13 + w + |n| ensures NotQuote(t[k]) {
      assert t[k] == t[13 + w..13 + w + |n|][k - (13 + w)];
    }
    SpanExact(t, 13 + w, NotQuote, |n|);
  }

  /** Every match is of that form. */
  lemma MatchInvokeSound(t: string)
    ensures MatchInvoke(t).Some? ==>
      exists w: nat :: OpensInvoke(t, w, MatchInvoke(t).value.group) && MatchInvoke(t).value.len == 14 + w + |MatchInvoke(t).value.group|
  {
    if MatchInvoke(t).Some? {
      var w := Span(t, 7, IsSpace);
      assert OpensInvoke(t, w, MatchInvoke(t).value.group);
    }
  }

  /** The tool names of the `<invoke name="...">` tags of `t`, in document order. */
  function InvokeNames(t: string): (ns: seq<string>)
    ensures forall k :: 0 <= k < |ns| ==> InvokeName(ns[k])
    decreases |t|
  {
    FindAllInvokeNames(t);
    FindAll(t, MatchInvoke)
  }

  lemma {:induction false} FindAllInvokeNames(t: string)
    ensures forall k :: 0 <= k < |FindAll(t, MatchInvoke)| ==> InvokeName(FindAll(t, MatchInvoke)[k])
    decreases |t|
  {
    if t != [] {
      match MatchInvoke(t)
      case Some(m) => FindAllInvokeNames(t[m.len..]);
      case None => FindAllInvokeNames(t[1..]);
    }
  }

  /** The opening tag `<invoke name="n"`, up to its closing quote. */
  function OpenTag(n: string): string {
    "<invoke name=\"" + n + "\""
  }

  /** Text between opening tags: it may hold parameters, closing tags and
      prose, but never the start of another opening tag. */
  predicate Filler(f: string) {
    forall k :: 0 <= k <= |f| - 7 ==> f[k..][..7] != "<invoke"
  }

  /** A log: the filler `fs[0]`, the opening tag of `ns[0]`, the filler
      `fs[1]`, and so on, ending with a filler. */
  function Log(ns: seq<string>, fs: seq<string>): string
    requires |fs| == |ns| + 1
  {
    if ns == [] then fs[0] else fs[0] + OpenTag(ns[0]) + Log(ns[1..], fs[1..])
  }

  /** The pieces of a text that starts with an opening tag. */
  lemma OpenTagPieces(t: string, n: string, rest: string)
    requires t == OpenTag(n) + rest
    ensures |t| == 15 + |n| + |rest|
    ensures t[..7] == "<invoke" && t[7] == ' ' && t[8..13] == "name=" && t[13] == '"'
    ensures t[14..14 + |n|] == n && t[14 + |n|] == '"' && t[15 + |n|..] == rest
  {
    var open := "<invoke name=\"";
    assert t[..14] == open;
    assert t[..14][..7] == "<invoke" && t[..14][8..13] == "name=";
    assert t[14..] == n + "\"" + rest;
    assert t[14..14 + |n|] == (n + "\"" + rest)[..|n|];
  }

  /** An opening tag is matched with its name as the group; the scan
      resumes right after the closing quote. */
  lemma MatchOpenTag(n: string, rest: string)
    requires InvokeName(n)
    ensures MatchInvoke(OpenTag(n) + rest) == Some(Match(n, 15 + |n|))
    ensures (OpenTag(n) + rest)[15 + |n|..] == rest
  {
    var t := OpenTag(n) + rest;
    OpenTagPieces(t, n, rest);
    assert t[7 + 1..12 + 1] == "name=";
    MatchInvokeComplete(t, 1, n);
  }

  /** No match starts inside a filler that is followed by the end of the
      text or by an opening bracket, so the scan skips the filler. */
  lemma FillerSkip(f: string, rest: string)
    requires Filler(f) && (rest == [] || rest[0] == '<')
    ensures FindAll(f + rest, MatchInvoke) == FindAll(rest, MatchInvoke)
  {
    forall k | 0 <= k < |f| ensures MatchInvoke((f + rest)[k..]).None? {
      var u := (f + rest)[k..];
      if k + 7 <= |f| {
        assert u[..7] == f[k..][..7];
      } else if |u| >= 7 {
        var j := |f| - k;
        assert u[..7][j] == rest[0] == '<';
      }
    }
    FindAllSkip(f, rest, MatchInvoke);
  }

  /** A scan that starts with an invoke match reports its name, then
      resumes after the match. */
  lemma FindAllInvokeAt(t: string)
    ensures MatchInvoke(t).Some? ==>
      FindAll(t, MatchInvoke) == [MatchInvoke(t).value.group] + FindAll(t[MatchInvoke(t).value.len..], MatchInvoke)
  {
    if MatchInvoke(t).Some? {
      FindAllAt(t, MatchInvoke, MatchInvoke(t).value);
    }
  }

  /** Scanning a log gives back the names of its opening tags, in order,
      whatever its fillers hold. */
  lemma {:induction false} InvokeNamesOfLog(ns: seq<string>, fs: seq<string>)
    requires |fs| == |ns| + 1
    requires forall k :: 0 <= k < |ns| ==> InvokeName(ns[k])
    requires forall k :: 0 <= k < |fs| ==> Filler(fs[k])
    ensures InvokeNames(Log(ns, fs)) == ns
  {
    if ns == [] {
      assert fs[0] + [] == fs[0];
      FillerSkip(fs[0], []);
    } else {
      var rest := Log(ns[1..], fs[1..]);
      var tag := OpenTag(ns[0]) + rest;
      assert Log(ns, fs) == fs[0] + tag;
      assert tag[0] == '<';
      FillerSkip(fs[0], tag);
      MatchOpenTag(ns[0], rest);
      FindAllInvokeAt(tag);
      InvokeNamesOfLog(ns[1..], fs[1..]);
    }
  }

  /** `TOOL_CALL_PATTERNS` filter: a name is kept when the table lists it or
      when it does not start with an underscore. */
  predicate KeepName(n: string) {
    n in ToolCategories || !(|n| > 0 && n[0] == '_')
  }

  /** The kept names, in order. */
  function Kept(ns: seq<string>): (r: seq<string>)
    ensures |r| <= |ns|
  {
    if ns == [] then []
    else Kept(ns[..|ns| - 1]) + (if KeepName(ns[|ns| - 1]) then [ns[|ns| - 1]] else [])
  }

  /** Filtering one more name of a list. */
  lemma KeptPrefix(ns: seq<string>, j: nat)
    requires j < |ns|
    ensures Kept(ns[..j + 1]) == Kept(ns[..j]) + (if KeepName(ns[j]) then [ns[j]] else [])
  {
    assert ns[..j + 1][..j] == ns[..j];
  }

  /** The filter keeps exactly the names it should. */
  lemma {:induction false} KeptMembers(ns: seq<string>)
    ensures forall n :: n in Kept(ns) <==> n in ns && KeepName(n)
  {
    if ns != [] {
      var init := ns[..|ns| - 1];
      KeptMembers(init);
      assert ns == init + [ns[|ns| - 1]];
    }
  }

  /** The group-1 texts of the regular expressions that are not scanned
      character by character, each list in match order for one log. */
  datatype PatternMatches = PatternMatches(
    jsonCalls: seq<string>,
    xmlCalls: seq<string>,
    funcCalls: seq<string>,
    tracebacks: seq<string>,
    errorLines: seq<string>)

  /** The tool names `_extract_tool_calls` records when it starts from an
      empty list: the invoke scan, or, when that finds nothing, every
      `TOOL_CALL_PATTERNS` notation in list order, filtered. */
  function ToolCallNames(content: string, pm: PatternMatches): seq<string> {
    var primary := InvokeNames(content);
    if primary != [] then primary
    else Kept(pm.jsonCalls + pm.xmlCalls + pm.funcCalls + InvokeNames(content))
  }

  /** The record of one extracted call. */
  function NewUsage(name: string, timestamp: int): ToolUsage {
    ToolUsage(name, timestamp, map[], "", true, 0, ToolCategory(name))
  }

  /** One record per name, the k-th stamped `base + k`. */
  function Usages(names: seq<string>, base: int): seq<ToolUsage> {
    seq(|names|, k requires 0 <= k < |names| => NewUsage(names[k], base + k))
  }

  /** The k-th record carries the k-th name, stamp `base + k`, success, no
      arguments and the name's table category. */
  lemma UsageAt(names: seq<string>, base: int, k: nat)
    requires k < |names|
    ensures |Usages(names, base)| == |names|
    ensures var u := Usages(names, base)[k];
      u.toolName == names[k] && u.timestamp == base + k && u.success && u.arguments == map[] &&
      u.category == ToolCategory(names[k])
  {
  }

  lemma UsagesAppend(a: seq<string>, b: seq<string>, base: int)
    ensures Usages(a + b, base) == Usages(a, base) + Usages(b, base + |a|)
  {
    var l := Usages(a + b, base);
    var r := Usages(a, base) + Usages(b, base + |a|);
    forall k | 0 <= k < |l| ensures l[k] == r[k] {
      if k < |a| {
        assert (a + b)[k] == a[k];
      } else {
        assert (a + b)[k] == b[k - |a|];
      }
    }
  }

  lemma UsagesSnoc(names: seq<string>, x: string, base: int)
    ensures Usages(names + [x], base) == Usages(names, base) + [NewUsage(x, base + |names|)]
  {
    UsagesAppend(names, [x], base);
    var one := Usages([x], base + |names|);
    assert one[0] == NewUsage(x, base + |names|);
    assert one == [NewUsage(x, base + |names|)];
  }

  /** The records of one more name of a list. */
  lemma UsagesPrefix(names: seq<string>, i: nat, base: int)
    requires i < |names|
    ensures Usages(names[..i + 1], base) == Usages(names[..i], base) + [NewUsage(names[i], base + i)]
  {
    var l := Usages(names[..i + 1], base);
    var r := Usages(names[..i], base) + [NewUsage(names[i], base + i)];
    forall k | 0 <= k < |l| ensures l[k] == r[k] {
      if k < i {
        assert r[k] == Usages(names[..i], base)[k];
      }
    }
  }

  /** The invoke scan wins whenever it finds a call; the fallback notations
      are read only when it finds none, and their own invoke pattern then
      contributes nothing. */
  lemma ToolCallNamesCases(content: string, pm: PatternMatches)
    ensures InvokeNames(content) != [] ==> ToolCallNames(content, pm) == InvokeNames(content)
    ensures InvokeNames(content) == [] ==>
      ToolCallNames(content, pm) == Kept(pm.jsonCalls + pm.xmlCalls + pm.funcCalls)
  {
    if InvokeNames(content) == [] {
      assert pm.jsonCalls + pm.xmlCalls + pm.funcCalls + InvokeNames(content) == pm.jsonCalls + pm.xmlCalls + pm.funcCalls;
    }
  }

  /** From a log with k >= 1 opening tags the extractor records exactly
      their names, in document order; the fallback notations are not read. */
  lemma ToolCallNamesOfLog(ns: seq<string>, fs: seq<string>, pm: PatternMatches)
    requires |ns| >= 1 && |fs| == |ns| + 1
    requires forall k :: 0 <= k < |ns| ==> InvokeName(ns[k])
    requires forall k :: 0 <= k < |fs| ==> Filler(fs[k])
    ensures ToolCallNames(Log(ns, fs), pm) == ns
  {
    InvokeNamesOfLog(ns, fs);
  }

  /** read_file and write are names an invocation can carry, in the read
      and write categories. */
  lemma ReadWriteNames()
    ensures InvokeName("read_file") && ToolCategory("read_file") == "read"
    ensures InvokeName("write") && ToolCategory("write") == "write"
  {
  }

  /** A log holding a read_file call and then a write call: two records,
      stamped `base` and `base + 1`, with categories read and write. */
  lemma ReadThenWriteExample(ns: seq<string>, fs: seq<string>, pm: PatternMatches, base: int)
    requires |ns| == 2 && ns[0] == "read_file" && ns[1] == "write"
    requires |fs| == 3 && Filler(fs[0]) && Filler(fs[1]) && Filler(fs[2])
    ensures var us := Usages(ToolCallNames(Log(ns, fs), pm), base);
      |us| == 2 && us[0].category == "read" && us[1].category == "write" &&
      us[0].timestamp == base && us[1].timestamp == base + 1
  {
    ReadWriteNames();
    ToolCallNamesOfLog(ns, fs, pm);
    UsageAt(ns, base, 0);
    UsageAt(ns, base, 1);
  }

  /** `Exit code:\s*([1-9]\d*)` under IGNORECASE at the start of `t`. */
  function MatchExitCode(t: string): (m: Option<Match>)
    ensures m.Some? ==> 1 <= m.value.len <= |t|
    ensures m.Some? ==> ExitCodeText(m.value.group)
  {
    if |t| < 10 || Lower(t[..10]) != "exit code:" then None
    else
      var w := Span(t, 10, IsSpace);
      var a := 10 + w;
      if a == |t| || !('1' <= t[a] <= '9') then None
      else
        var d := Span(t, a + 1, IsDigit);
        Some(Match(t[a..a + 1 + d], a + 1 + d))
  }

  /** A decimal number without leading zero, as the exit-code group captures it. */
  predicate ExitCodeText(s: string) {
    |s| >= 1 && '1' <= s[0] <= '9' && forall k :: 0 <= k < |s| ==> IsDigit(s[k])
  }

  /** The exit codes of `t`, in order. */
  function ExitCodes(t: string): (cs: seq<string>)
    ensures forall k :: 0 <= k < |cs| ==> ExitCodeText(cs[k])
  {
    FindAllExitCodes(t);
    FindAll(t, MatchExitCode)
  }

  lemma {:induction false} FindAllExitCodes(t: string)
    ensures forall k :: 0 <= k < |FindAll(t, MatchExitCode)| ==> ExitCodeText(FindAll(t, MatchExitCode)[k])
    decreases |t|
  {
    if t != [] {
      match MatchExitCode(t)
      case Some(m) => FindAllExitCodes(t[m.len..]);
      case None => FindAllExitCodes(t[1..]);
    }
  }

  /** The error texts of a log in `ERROR_PATTERNS` order: every match of the
      first pattern, then of the second, then the exit codes. */
  function ErrorTexts(content: string, pm: PatternMatches): seq<string> {
    pm.tracebacks + pm.errorLines + ExitCodes(content)
  }

  /** The record of the error numbered `n`. */
  function NewError(n: nat, text: string, now: int): ErrorSolution {
    ErrorSolution(Label("ERR_", n), CategorizeError(text), Truncate(Strip(text), MessageCap), now,
      "", [], true, false, [])
  }

  /** The records of `texts` numbered on from `counter`. */
  function ErrorRecords(texts: seq<string>, counter: nat, now: int): seq<ErrorSolution> {
    seq(|texts|, k requires 0 <= k < |texts| => NewError(counter + k + 1, texts[k], now))
  }

  /** Numbering two batches in sequence is numbering their concatenation. */
  lemma ErrorRecordsAppend(a: seq<string>, b: seq<string>, counter: nat, now: int)
    ensures ErrorRecords(a + b, counter, now) == ErrorRecords(a, counter, now) + ErrorRecords(b, counter + |a|, now)
  {
    var l := ErrorRecords(a + b, counter, now);
    var r := ErrorRecords(a, counter, now) + ErrorRecords(b, counter + |a|, now);
    forall k | 0 <= k < |l| ensures l[k] == r[k] {
      if k < |a| {
        assert (a + b)[k] == a[k];
        assert r[k] == ErrorRecords(a, counter, now)[k];
      } else {
        assert (a + b)[k] == b[k - |a|];
        assert r[k] == ErrorRecords(b, counter + |a|, now)[k - |a|];
      }
    }
  }

  /** Numbering one more text of a batch. */
  lemma ErrorRecordsSnoc(texts: seq<string>, i: nat, counter: nat, now: int)
    requires i < |texts|
    ensures ErrorRecords(texts[..i + 1], counter, now) ==
      ErrorRecords(texts[..i], counter, now) + [NewError(counter + i + 1, texts[i], now)]
  {
    assert texts[..i + 1] == texts[..i] + [texts[i]];
    ErrorRecordsAppend(texts[..i], [texts[i]], counter, now);
    var one := ErrorRecords([texts[i]], counter + i, now);
    assert one[0] == NewError(counter + i + 1, texts[i], now);
    assert one == [NewError(counter + i + 1, texts[i], now)];
  }

  /** The counter persists between parses, so the errors of two successive
      parses never share an identifier. */
  lemma ErrorIdsDistinct(a: seq<string>, b: seq<string>, counter: nat, now: int)
    ensures var es := ErrorRecords(a, counter, now) + ErrorRecords(b, counter + |a|, now);
      forall i, j :: 0 <= i < j < |es| ==> es[i].errorId != es[j].errorId
  {
    ErrorRecordsAppend(a, b, counter, now);
    ErrorIdsDistinctIn(a + b, counter, now);
  }

  /** Within one batch the identifiers are pairwise distinct. */
  lemma ErrorIdsDistinctIn(texts: seq<string>, counter: nat, now: int)
    ensures var es := ErrorRecords(texts, counter, now);
      forall i, j :: 0 <= i < j < |es| ==> es[i].errorId != es[j].errorId
  {
    var es := ErrorRecords(texts, counter, now);
    forall i, j | 0 <= i < j < |es| ensures es[i].errorId != es[j].errorId {
      assert es[i].errorId == Label("ERR_", counter + i + 1);
      assert es[j].errorId == Label("ERR_", counter + j + 1);
      LabelInjective("ERR_", counter + i + 1, counter + j + 1);
    }
  }

  /** Every keyword of `ks` starts with a lower-case letter. */
  predicate StartWithLetters(ks: seq<string>)
    decreases |ks|
  {
    ks == [] || (|ks[0]| >= 1 && 'a' <= ks[0][0] <= 'z' && StartWithLetters(ks[1..]))
  }

  /** No keyword starting with a letter occurs in a text of digits. */
  lemma {:induction false} DigitsHoldNoKeyword(s: string, ks: seq<string>)
    requires forall k :: 0 <= k < |s| ==> IsDigit(s[k])
    requires StartWithLetters(ks)
    ensures !ContainsAny(s, ks)
    decreases |ks|
  {
    if ks != [] {
      NotContainsMissingChar(s, ks[0], ks[0][0]);
      DigitsHoldNoKeyword(s, ks[1..]);
    }
  }

  /** No error keyword occurs in a text of digits. */
  lemma DigitsHoldNoErrorKeyword(s: string)
    requires forall k :: 0 <= k < |s| ==> IsDigit(s[k])
    ensures !ContainsAny(s, DependencyKeywords) && !ContainsAny(s, SyntaxKeywords)
    ensures !ContainsAny(s, BuildKeywords) && !ContainsAny(s, NetworkKeywords)
    ensures !ContainsAny(s, PermissionKeywords)
  {
    DigitsHoldNoDependencyKeyword(s);
    DigitsHoldNoSyntaxKeyword(s);
    DigitsHoldNoBuildKeyword(s);
    DigitsHoldNoNetworkKeyword(s);
    DigitsHoldNoPermissionKeyword(s);
  }

  lemma DigitsHoldNoDependencyKeyword(s: string)
    requires forall k :: 0 <= k < |s| ==> IsDigit(s[k])
    ensures !ContainsAny(s, DependencyKeywords)
  {
    DigitsHoldNoKeyword(s, DependencyKeywords);
  }

  lemma DigitsHoldNoSyntaxKeyword(s: string)
    requires forall k :: 0 <= k < |s| ==> IsDigit(s[k])
    ensures !ContainsAny(s, SyntaxKeywords)
  {
    DigitsHoldNoKeyword(s, SyntaxKeywords);
  }

  lemma DigitsHoldNoBuildKeyword(s: string)
    requires forall k :: 0 <= k < |s| ==> IsDigit(s[k])
    ensures !ContainsAny(s, BuildKeywords)
  {
    DigitsHoldNoKeyword(s, BuildKeywords);
  }

  lemma DigitsHoldNoNetworkKeyword(s: string)
    requires forall k :: 0 <= k < |s| ==> IsDigit(s[k])
    ensures !ContainsAny(s, NetworkKeywords)
  {
    DigitsHoldNoKeyword(s, NetworkKeywords);
  }

  lemma DigitsHoldNoPermissionKeyword(s: string)
    requires forall k :: 0 <= k < |s| ==> IsDigit(s[k])
    ensures !ContainsAny(s, PermissionKeywords)
  {
    DigitsHoldNoKeyword(s, PermissionKeywords);
  }

  /** An exit-code error is a runtime error. */
  lemma ExitCodeKind(s: string)
    requires ExitCodeText(s)
    ensures CategorizeError(s) == "runtime"
  {
    assert Lower(s) == s;
    DigitsHoldNoErrorKeyword(s);
    RuntimeWhen(s);
  }

  /** The message of an exit-code error is the code itself, cut at the
      message cap: its first `MessageCap` digits, or all of them. */
  lemma ExitCodeMessage(s: string)
    requires ExitCodeText(s)
    ensures Strip(s) == s
    ensures Truncate(Strip(s), MessageCap) == if |s| <= MessageCap then s else s[..MessageCap]
  {
    assert LeadingSpaces(s) == 0;
  }

  /** `ToolUsageParser`: the last parse's tool calls and errors, and the error
      counter, which lives as long as the parser. */
  class ToolUsageParser {
    var toolUsages: seq<ToolUsage>
    var errors: seq<ErrorSolution>
    var errorCounter: nat

    constructor ()
      ensures toolUsages == [] && errors == [] && errorCounter == 0
    {
      toolUsages := [];
      errors := [];
      errorCounter := 0;
    }

    /** `parse_content`: both lists are replaced by what this log yields. */
    method ParseContent(content: string, pm: PatternMatches, baseTime: int, now: int)
      returns (usages: seq<ToolUsage>, errs: seq<ErrorSolution>)
      modifies this
      ensures toolUsages == Usages(ToolCallNames(content, pm), baseTime)
      ensures errors == ErrorRecords(ErrorTexts(content, pm), old(errorCounter), now)
      ensures errorCounter == old(errorCounter) + |ErrorTexts(content, pm)|
      ensures usages == toolUsages && errs == errors
    {
      toolUsages := [];
      errors := [];
      ExtractToolCalls(content, pm, baseTime);
      ExtractErrors(content, pm, now);
      usages, errs := toolUsages, errors;
    }

    /** `_extract_tool_calls`: appends one record per invoke match; when the
        list is still empty afterwards, appends one per kept fallback match. */
    method ExtractToolCalls(content: string, pm: PatternMatches, baseTime: int)
      modifies this
      ensures toolUsages == old(toolUsages) +
        Usages(if old(toolUsages) == [] then ToolCallNames(content, pm) else InvokeNames(content), baseTime)
      ensures errors == old(errors) && errorCounter == old(errorCounter)
    {
      var names := InvokeNames(content);
      AppendInvokes(names, baseTime);
      if toolUsages == [] {
        AppendFallback(pm.jsonCalls + pm.xmlCalls + pm.funcCalls + InvokeNames(content), baseTime);
      }
    }

    /** The invoke loop of `_extract_tool_calls`: the k-th name is stamped
        `baseTime + k`. */
    method AppendInvokes(names: seq<string>, baseTime: int)
      modifies this
      ensures toolUsages == old(toolUsages) + Usages(names, baseTime)
      ensures errors == old(errors) && errorCounter == old(errorCounter)
    {
      var callIndex := 0;
      var i := 0;
      while i < |names|
        invariant 0 <= i <= |names| && callIndex == i
        invariant toolUsages == old(toolUsages) + Usages(names[..i], baseTime)
        invariant errors == old(errors) && errorCounter == old(errorCounter)
      {
        UsagesPrefix(names, i, baseTime);
        AppendAssoc(old(toolUsages), Usages(names[..i], baseTime), [NewUsage(names[i], baseTime + callIndex)]);
        toolUsages := toolUsages + [NewUsage(names[i], baseTime + callIndex)];
        callIndex := callIndex + 1;
        i := i + 1;
      }
      assert names[..|names|] == names;
    }

    /** The fallback loop of `_extract_tool_calls`, entered with no record
        yet: each kept name is stamped with the number of records before it. */
    method AppendFallback(fallback: seq<string>, baseTime: int)
      requires toolUsages == []
      modifies this
      ensures toolUsages == Usages(Kept(fallback), baseTime)
      ensures errors == old(errors) && errorCounter == old(errorCounter)
    {
      var callIndex := 0;
      var j := 0;
      while j < |fallback|
        invariant 0 <= j <= |fallback|
        invariant toolUsages == Usages(Kept(fallback[..j]), baseTime) && callIndex == |toolUsages|
        invariant errors == old(errors) && errorCounter == old(errorCounter)
      {
        KeptPrefix(fallback, j);
        var name := fallback[j];
        if KeepName(name) {
          UsagesSnoc(Kept(fallback[..j]), name, baseTime);
          toolUsages := toolUsages + [NewUsage(name, baseTime + callIndex)];
          callIndex := callIndex + 1;
        }
        j := j + 1;
      }
      assert fallback[..|fallback|] == fallback;
    }

    /** `_extract_errors`: appends one record per error text, numbering each
        with the next value of the counter. */
    method ExtractErrors(content: string, pm: PatternMatches, now: int)
      modifies this
      ensures errors == old(errors) + ErrorRecords(ErrorTexts(content, pm), old(errorCounter), now)
      ensures errorCounter == old(errorCounter) + |ErrorTexts(content, pm)|
      ensures toolUsages == old(toolUsages)
    {
      AppendErrors(ErrorTexts(content, pm), now);
    }

    /** The loop of `_extract_errors` over the matched texts, in order. */
    method AppendErrors(texts: seq<string>, now: int)
      modifies this
      ensures errors == old(errors) + ErrorRecords(texts, old(errorCounter), now)
      ensures errorCounter == old(errorCounter) + |texts|
      ensures toolUsages == old(toolUsages)
    {
      var i := 0;
      while i < |texts|
        invariant 0 <= i <= |texts| && errorCounter == old(errorCounter) + i
        invariant errors == old(errors) + ErrorRecords(texts[..i], old(errorCounter), now)
        invariant toolUsages == old(toolUsages)
      {
        ErrorRecordsSnoc(texts, i, old(errorCounter), now);
        AppendAssoc(old(errors), ErrorRecords(texts[..i], old(errorCounter), now), [NewError(errorCounter + 1, texts[i], now)]);
        errorCounter := errorCounter + 1;
        errors := errors + [NewError(errorCounter, texts[i], now)];
        i := i + 1;
      }
      assert texts[..|texts|] == texts;
    }
  }
}
