/** The fixed keyword tables: tool name to category, error kind by keyword
    family, decision detection by word-boundary phrases, and decision
    category by keyword family. Every classifier is total and has one
    catch-all value ("other", "runtime", "general"). */
module Classify {
  import opened Text

  /** `TOOL_CATEGORIES`. */
  const ToolCategories: map<string, string> := map[
    "read_file" := "read",
    "list_dir" := "read",
    "glob_file_search" := "search",
    "grep" := "search",
    "codebase_search" := "search",
    "write" := "write",
    "search_replace" := "write",
    "edit_notebook" := "write",
    "delete_file" := "write",
    "run_terminal_cmd" := "terminal",
    "mcp_cursor-ide-browser_browser_navigate" := "browser",
    "mcp_cursor-ide-browser_browser_snapshot" := "browser",
    "mcp_cursor-ide-browser_browser_click" := "browser",
    "mcp_cursor-ide-browser_browser_type" := "browser",
    "web_search" := "web",
    "todo_write" := "planning",
    "update_memory" := "memory"
  ]

  const ToolCategoryNames: set<string> :=
    {"read", "search", "write", "terminal", "browser", "web", "planning", "memory"}

  /** `TOOL_CATEGORIES.get(name, "other")`: a table category for a listed
      tool, and "other" exactly for the tools the table does not list. */
  function ToolCategory(name: string): (c: string)
    ensures c == "other" || c in ToolCategoryNames
    ensures c == "other" <==> name !in ToolCategories
    ensures name in ToolCategories ==> c == ToolCategories[name]
  {
    if name in ToolCategories then ToolCategories[name] else "other"
  }

  /** A named keyword family; a text belongs to it when one keyword is a
      substring of the text. */
  datatype Family = Family(name: string, keywords: seq<string>)

  /** Index of the first family one of whose keywords occurs in `t`, or
      `|fams|` when none does. */
  function FirstFamily(t: string, fams: seq<Family>): (k: nat)
    ensures k <= |fams|
    ensures k < |fams| ==> ContainsAny(t, fams[k].keywords)
    ensures forall j :: 0 <= j < k ==> !ContainsAny(t, fams[j].keywords)
  {
    if fams == [] then 0
    else if ContainsAny(t, fams[0].keywords) then 0
    else 1 + FirstFamily(t, fams[1..])
  }

  /** The families tried in order: the name of the first one with a keyword
      in `t`, else `fallback`. */
  function FirstMatch(t: string, fams: seq<Family>, fallback: string): string {
    if fams == [] then fallback
    else if ContainsAny(t, fams[0].keywords) then fams[0].name
    else FirstMatch(t, fams[1..], fallback)
  }

  /** The families from position `i` on, tried in order. */
  function MatchFrom(t: string, fams: seq<Family>, i: nat, fallback: string): string
    requires i <= |fams|
  {
    FirstMatch(t, fams[i..], fallback)
  }

  /** One step of the walk: family `i` is tried before those after it. */
  lemma MatchFromStep(t: string, fams: seq<Family>, i: nat, fallback: string)
    requires i < |fams|
    ensures MatchFrom(t, fams, i, fallback) ==
      if ContainsAny(t, fams[i].keywords) then fams[i].name else MatchFrom(t, fams, i + 1, fallback)
  {
    assert fams[i..][1..] == fams[i + 1..];
  }

  /** The family tried first is the first family with a keyword in `t`. */
  lemma {:induction false} FirstMatchIsFirstFamily(t: string, fams: seq<Family>, fallback: string)
    ensures var k := FirstFamily(t, fams);
      FirstMatch(t, fams, fallback) == if k < |fams| then fams[k].name else fallback
  {
    if fams != [] && !ContainsAny(t, fams[0].keywords) {
      FirstMatchIsFirstFamily(t, fams[1..], fallback);
    }
  }

  const DependencyKeywords := ["import", "module", "package", "dependency", "pip"]
  const SyntaxKeywords := ["syntax", "parse", "unexpected token", "indent"]
  const BuildKeywords := ["build", "compile", "gradle", "npm run", "webpack"]
  const NetworkKeywords := ["network", "connection", "timeout", "socket", "http"]
  const PermissionKeywords := ["permission", "access denied", "unauthorized"]

  const ErrorFamilies := [
    Family("dependency", DependencyKeywords),
    Family("syntax", SyntaxKeywords),
    Family("build", BuildKeywords),
    Family("network", NetworkKeywords),
    Family("permission", PermissionKeywords)
  ]

  /** `_categorize_error`: lower-case the text, then the first family, in the
      order dependency, syntax, build, network, permission, that has a keyword
      in it; "runtime" when none has. */
  function CategorizeError(text: string): string {
    MatchFrom(Lower(text), ErrorFamilies, 0, "runtime")
  }

  /** The error kind is the first family with a keyword in the lower-cased
      text, each kind exactly when the earlier families have no keyword in it
      and its own family has one; "runtime" exactly when none has. */
  lemma CategorizeErrorSpec(text: string)
    ensures CategorizeError(text) == "dependency" <==> ContainsAny(Lower(text), DependencyKeywords)
    ensures CategorizeError(text) == "syntax" <==>
      !ContainsAny(Lower(text), DependencyKeywords) && ContainsAny(Lower(text), SyntaxKeywords)
    ensures CategorizeError(text) == "build" <==>
      !ContainsAny(Lower(text), DependencyKeywords) && !ContainsAny(Lower(text), SyntaxKeywords) &&
      ContainsAny(Lower(text), BuildKeywords)
    ensures CategorizeError(text) == "network" <==>
      !ContainsAny(Lower(text), DependencyKeywords) && !ContainsAny(Lower(text), SyntaxKeywords) &&
      !ContainsAny(Lower(text), BuildKeywords) && ContainsAny(Lower(text), NetworkKeywords)
    ensures CategorizeError(text) == "permission" <==>
      !ContainsAny(Lower(text), DependencyKeywords) && !ContainsAny(Lower(text), SyntaxKeywords) &&
      !ContainsAny(Lower(text), BuildKeywords) && !ContainsAny(Lower(text), NetworkKeywords) &&
      ContainsAny(Lower(text), PermissionKeywords)
    ensures CategorizeError(text) == "runtime" <==>
      !ContainsAny(Lower(text), DependencyKeywords) && !ContainsAny(Lower(text), SyntaxKeywords) &&
      !ContainsAny(Lower(text), BuildKeywords) && !ContainsAny(Lower(text), NetworkKeywords) &&
      !ContainsAny(Lower(text), PermissionKeywords)
  {
    var t := Lower(text);
    var F := ErrorFamilies;
    assert F[5..] == [];
    MatchFromStep(t, F, 4, "runtime");
    MatchFromStep(t, F, 3, "runtime");
    MatchFromStep(t, F, 2, "runtime");
    MatchFromStep(t, F, 1, "runtime");
    MatchFromStep(t, F, 0, "runtime");
  }

  /** The error kind does not depend on letter case. */
  lemma CategorizeErrorIgnoresCase(text: string)
    ensures CategorizeError(Lower(text)) == CategorizeError(text)
  {
    LowerIdempotent(text);
  }

  const ArchitectureKeywords := ["architecture", "design", "structure", "pattern", "module"]
  const BugFixKeywords := ["fix", "bug", "error", "issue", "problem", "resolve"]
  const OptimizationKeywords := ["optimize", "performance", "speed", "efficient", "cache"]
  const HandoffKeywords := ["handoff", "hand-off", "transition", "switch", "pass to"]
  const ConfigKeywords := ["config", "configuration", "setting", "environment", "variable"]

  /** `CATEGORY_KEYWORDS`, in its insertion order. */
  const DecisionFamilies := [
    Family("architecture", ArchitectureKeywords),
    Family("bug_fix", BugFixKeywords),
    Family("optimization", OptimizationKeywords),
    Family("handoff", HandoffKeywords),
    Family("config", ConfigKeywords)
  ]

  /** `_categorize_decision`: the first of architecture, bug_fix, optimization,
      handoff, config with a keyword in the lower-cased text, else "general". */
  function CategorizeDecision(text: string): string {
    MatchFrom(Lower(text), DecisionFamilies, 0, "general")
  }

  /** The decision category is the first family with a keyword in the
      lower-cased text, each category exactly when the earlier families have
      no keyword in it and its own family has one; "general" exactly when
      none has. */
  lemma CategorizeDecisionSpec(text: string)
    ensures CategorizeDecision(text) == "architecture" <==> ContainsAny(Lower(text), ArchitectureKeywords)
    ensures CategorizeDecision(text) == "bug_fix" <==>
      !ContainsAny(Lower(text), ArchitectureKeywords) && ContainsAny(Lower(text), BugFixKeywords)
    ensures CategorizeDecision(text) == "optimization" <==>
      !ContainsAny(Lower(text), ArchitectureKeywords) && !ContainsAny(Lower(text), BugFixKeywords) &&
      ContainsAny(Lower(text), OptimizationKeywords)
    ensures CategorizeDecision(text) == "handoff" <==>
      !ContainsAny(Lower(text), ArchitectureKeywords) && !ContainsAny(Lower(text), BugFixKeywords) &&
      !ContainsAny(Lower(text), OptimizationKeywords) && ContainsAny(Lower(text), HandoffKeywords)
    ensures CategorizeDecision(text) == "config" <==>
      !ContainsAny(Lower(text), ArchitectureKeywords) && !ContainsAny(Lower(text), BugFixKeywords) &&
      !ContainsAny(Lower(text), OptimizationKeywords) && !ContainsAny(Lower(text), HandoffKeywords) &&
      ContainsAny(Lower(text), ConfigKeywords)
    ensures CategorizeDecision(text) == "general" <==>
      !ContainsAny(Lower(text), ArchitectureKeywords) && !ContainsAny(Lower(text), BugFixKeywords) &&
      !ContainsAny(Lower(text), OptimizationKeywords) && !ContainsAny(Lower(text), HandoffKeywords) &&
      !ContainsAny(Lower(text), ConfigKeywords)
  {
    var t := Lower(text);
    var F := DecisionFamilies;
    assert F[5..] == [];
    MatchFromStep(t, F, 4, "general");
    MatchFromStep(t, F, 3, "general");
    MatchFromStep(t, F, 2, "general");
    MatchFromStep(t, F, 1, "general");
    MatchFromStep(t, F, 0, "general");
  }

  /** `DECISION_KEYWORDS`, first two patterns: a choice word or a usage word
      standing as a whole word. */
  const ChoiceWords := ["decided", "decision", "chose", "choosing", "selected", "opted", "went with"]
  const UsageWords := ["will use", "using", "implemented", "implementing"]
  /** Third pattern: a subject word, later on the same line a verb word. */
  const SubjectWords := ["approach", "strategy", "solution", "fix"]
  const VerbWords := ["is", "was", "will be"]

  /** Regex `\b` at position `p`: a word character on exactly one side. */
  predicate Boundary(s: string, p: int)
    requires 0 <= p <= |s|
  {
    (0 < p && IsWordChar(s[p - 1])) != (p < |s| && IsWordChar(s[p]))
  }

  /** `\bw\b` matches at `i`. */
  predicate WordAt(s: string, w: string, i: int) {
    OccursAt(s, w, i) && Boundary(s, i) && Boundary(s, i + |w|)
  }

  /** `re.search(r'\b(?:w1|w2|...)\b', s)` succeeds. */
  predicate HasWord(s: string, ws: seq<string>) {
    exists i, j :: 0 <= i <= |s| && 0 <= j < |ws| && WordAt(s, ws[j], i)
  }

  /** `re.search(r'\b(?:subject)\b.*\b(?:verb)\b', s)` succeeds: `.` does not
      cross a newline. */
  predicate SubjectThenVerb(s: string) {
    exists i, p, j, q :: 0 <= i <= |s| && 0 <= p < |SubjectWords| && 0 <= j <= |s| && 0 <= q < |VerbWords| &&
      WordAt(s, SubjectWords[p], i) && WordAt(s, VerbWords[q], j) &&
      i + |SubjectWords[p]| <= j && '\n' !in s[i + |SubjectWords[p]|..j]
  }

  /** `DecisionParser._is_decision`: one of the three patterns is found in the
      lower-cased text. */
  predicate IsDecision(text: string) {
    var t := Lower(text);
    HasWord(t, ChoiceWords) || HasWord(t, UsageWords) || SubjectThenVerb(t)
  }

  /** Whether a text is a decision does not depend on letter case. */
  lemma IsDecisionIgnoresCase(text: string)
    ensures IsDecision(Lower(text)) == IsDecision(text)
  {
    LowerIdempotent(text);
  }

  /** Every indicator starts with a word character, so a piece without any
      (an empty piece, punctuation, blank space) is never a decision. */
  lemma NoWordNoDecision(text: string)
    requires forall k :: 0 <= k < |text| ==> !IsWordChar(text[k])
    ensures !IsDecision(text)
  {
    var t := Lower(text);
    forall k | 0 <= k < |t| ensures !IsWordChar(t[k]) {
      assert t[k] == LowerChar(text[k]);
    }
  }

  /** A text that starts with keyword `ks[j]` contains a keyword of `ks`. */
  lemma PrefixKeyword(t: string, ks: seq<string>, j: nat)
    requires j < |ks| && |ks[j]| <= |t| && t[..|ks[j]|] == ks[j]
    ensures ContainsAny(t, ks)
  {
    ContainsAt(t, ks[j], 0);
  }

  /** No keyword of `ks` occurs in the lower-cased `s` when each keyword
      `ks[j]` has a letter `cs[j]` that `s` lacks in both cases. */
  lemma NoKeywordByMissingLetters(s: string, ks: seq<string>, cs: seq<char>)
    requires MissingLetters(s, ks, cs)
    ensures !ContainsAny(Lower(s), ks)
  {
    forall j | 0 <= j < |ks| ensures !Contains(Lower(s), ks[j]) {
      KeywordByMissingLetter(s, ks[j], cs[j]);
    }
  }

  /** Each keyword `ks[j]` has a letter `cs[j]` that `s` lacks in both cases. */
  predicate MissingLetters(s: string, ks: seq<string>, cs: seq<char>) {
    |cs| == |ks| && forall j :: 0 <= j < |ks| ==> MissingLetter(s, ks[j], cs[j])
  }

  /** Keyword `k` has the lower-case letter `c`, which `s` lacks in both cases. */
  predicate MissingLetter(s: string, k: string, c: char) {
    'a' <= c <= 'z' && c in k && c !in s && (c as int - 32) as char !in s
  }

  lemma KeywordByMissingLetter(s: string, k: string, c: char)
    requires MissingLetter(s, k, c)
    ensures !Contains(Lower(s), k)
  {
    LowerMissing(s, c);
    NotContainsMissingChar(Lower(s), k, c);
  }

  /** Word `w` cannot hold keyword `k`: it is shorter, or it lacks the
      letter `c` of `k` in both cases. */
  predicate WordLacks(w: string, k: string, c: char) {
    |w| < |k| || MissingLetter(w, k, c)
  }

  lemma WordLacksKeyword(w: string, k: string, c: char)
    requires WordLacks(w, k, c)
    ensures !Contains(Lower(w), k)
  {
    if |w| >= |k| {
      KeywordByMissingLetter(w, k, c);
    }
  }

  /** Each word of `ws` lacks each keyword of `ks` by the letter the table
      `css` gives for it. */
  predicate LacksTable(ws: seq<string>, ks: seq<string>, css: seq<string>) {
    |css| == |ks| && (forall j :: 0 <= j < |ks| ==> |css[j]| == |ws|) &&
    forall j, i :: 0 <= j < |ks| && 0 <= i < |ws| ==> WordLacks(ws[i], ks[j], css[j][i])
  }

  /** No keyword of `ks` holds a space. */
  predicate Spaceless(ks: seq<string>) {
    forall j :: 0 <= j < |ks| ==> ' ' !in ks[j]
  }

  lemma WordsLackFamily(ws: seq<string>, ks: seq<string>, css: seq<string>)
    requires LacksTable(ws, ks, css)
    ensures forall j, i :: 0 <= j < |ks| && 0 <= i < |ws| ==> !Contains(Lower(ws[i]), ks[j])
  {
    forall j, i | 0 <= j < |ks| && 0 <= i < |ws| ensures !Contains(Lower(ws[i]), ks[j]) {
      WordLacksKeyword(ws[i], ks[j], css[j][i]);
    }
  }

  /** Words joined by spaces hold no keyword of a family without spaces
      when no single word does. */
  lemma NoFamilyInWords(ws: seq<string>, ks: seq<string>)
    requires |ws| > 0 && Spaceless(ks)
    requires forall j, i :: 0 <= j < |ks| && 0 <= i < |ws| ==> !Contains(Lower(ws[i]), ks[j])
    ensures !ContainsAny(Lower(JoinWith(ws, ' ')), ks)
  {
    forall j | 0 <= j < |ks| ensures !Contains(Lower(JoinWith(ws, ' ')), ks[j]) {
      NotContainsJoin(ws, ' ', ks[j]);
    }
  }

  /** A sentence whose every word lacks every keyword of a family by a
      missing letter or by its length holds none of them. */
  lemma FamilyAbsent(ws: seq<string>, ks: seq<string>, css: seq<string>)
    requires |ws| > 0 && Spaceless(ks) && LacksTable(ws, ks, css)
    ensures !ContainsAny(Lower(JoinWith(ws, ' ')), ks)
  {
    WordsLackFamily(ws, ks, css);
    NoFamilyInWords(ws, ks);
  }

  /** A whole word stays whole after a prefix that ends in a non-word character. */
  lemma WordAtAfter(p: string, t: string, w: string, i: int)
    requires WordAt(t, w, i) && |p| >= 1 && !IsWordChar(p[|p| - 1])
    ensures WordAt(p + t, w, |p| + i)
  {
    var s := p + t;
    assert s[|p| + i..|p| + i + |w|] == t[i..i + |w|];
    if i > 0 {
      assert s[|p| + i - 1] == t[i - 1];
    }
    if i + |w| < |t| {
      assert s[|p| + i + |w|] == t[i + |w|];
    }
  }

  /** A word that starts and ends with a word character stands whole at the
      start of a text when the end of the text or a non-word character follows. */
  lemma WordAtStart(w: string, q: string)
    requires |w| >= 1 && IsWordChar(w[0]) && IsWordChar(w[|w| - 1])
    requires q == [] || !IsWordChar(q[0])
    ensures WordAt(w + q, w, 0)
  {
    assert (w + q)[0..|w|] == w;
  }

  /** A word of a space-separated text that lower-cases to `w`, which starts
      and ends with a word character, stands there as the whole word `w`. */
  lemma {:induction false} WordInWords(ws: seq<string>, j: nat, w: string)
    requires j < |ws| && Lower(ws[j]) == w
    requires |w| >= 1 && IsWordChar(w[0]) && IsWordChar(w[|w| - 1])
    ensures exists i :: WordAt(Lower(JoinWith(ws, ' ')), w, i)
  {
    if |ws| == 1 {
      assert JoinWith(ws, ' ') == ws[0];
      WordAtStart(w, []);
      assert w + [] == w;
    } else if j == 0 {
      WordInFirstWord(ws, w);
    } else {
      WordInWords(ws[1..], j - 1, w);
      WordInLaterWord(ws, w);
    }
  }

  lemma WordInFirstWord(ws: seq<string>, w: string)
    requires |ws| > 1 && Lower(ws[0]) == w
    requires |w| >= 1 && IsWordChar(w[0]) && IsWordChar(w[|w| - 1])
    ensures WordAt(Lower(JoinWith(ws, ' ')), w, 0)
  {
    var rest := JoinWith(ws[1..], ' ');
    assert JoinWith(ws, ' ') == ws[0] + [' '] + rest;
    WordBeforeSpace(ws[0], rest, w);
  }

  lemma WordBeforeSpace(a: string, b: string, w: string)
    requires Lower(a) == w
    requires |w| >= 1 && IsWordChar(w[0]) && IsWordChar(w[|w| - 1])
    ensures WordAt(Lower(a + [' '] + b), w, 0)
  {
    LowerJoinStep(a, ' ', b);
    WordAtStart(w, [' '] + Lower(b));
    AppendAssoc(w, [' '], Lower(b));
  }

  lemma WordInLaterWord(ws: seq<string>, w: string)
    requires |ws| > 1 && exists i :: WordAt(Lower(JoinWith(ws[1..], ' ')), w, i)
    ensures exists i :: WordAt(Lower(JoinWith(ws, ' ')), w, i)
  {
    var rest := JoinWith(ws[1..], ' ');
    assert JoinWith(ws, ' ') == ws[0] + [' '] + rest;
    var i :| WordAt(Lower(rest), w, i);
    WordAfterSpace(ws[0], rest, w, i);
  }

  lemma WordAfterSpace(a: string, b: string, w: string, i: int)
    requires WordAt(Lower(b), w, i)
    ensures exists j :: WordAt(Lower(a + [' '] + b), w, j)
  {
    var p := Lower(a) + [' '];
    WordAtAfter(p, Lower(b), w, i);
    LowerJoinStep(a, ' ', b);
  }

  /** A word of a space-separated text that lower-cases to keyword `ks[j]`. */
  lemma KeywordInWords(ws: seq<string>, i: nat, ks: seq<string>, j: nat)
    requires i < |ws| && j < |ks| && Lower(ws[i]) == ks[j]
    requires |ks[j]| >= 1 && IsWordChar(ks[j][0]) && IsWordChar(ks[j][|ks[j]| - 1])
    ensures ContainsAny(Lower(JoinWith(ws, ' ')), ks)
  {
    WordInWords(ws, i, ks[j]);
    var p :| WordAt(Lower(JoinWith(ws, ' ')), ks[j], p);
    ContainsAt(Lower(JoinWith(ws, ' ')), ks[j], p);
  }

  /** A text that starts with `p`, whose lower-cased form is the keyword
      `ks[j]`, contains that keyword once lower-cased. */
  lemma LowerPrefixKeyword(s: string, p: string, ks: seq<string>, j: nat)
    requires j < |ks| && |p| <= |s| && s[..|p|] == p && LowersTo(p, ks[j])
    ensures ContainsAny(Lower(s), ks)
  {
    var n := |p|;
    LowersToLower(p, ks[j]);
    assert s == p + s[n..];
    LowerConcat(p, s[n..]);
    assert Lower(s)[..n] == Lower(p);
    PrefixKeyword(Lower(s), ks, j);
  }

  lemma ModuleLowers()
    ensures LowersTo("Module", DependencyKeywords[1])
  {
  }

  lemma DependencyExampleHasDependency(s: string)
    requires |s| >= 6 && s[..6] == "Module"
    ensures ContainsAny(Lower(s), DependencyKeywords)
  {
    ModuleLowers();
    LowerPrefixKeyword(s, "Module", DependencyKeywords, 1);
  }

  lemma DependencyWhen(s: string)
    requires ContainsAny(Lower(s), DependencyKeywords)
    ensures CategorizeError(s) == "dependency"
  {
    CategorizeErrorSpec(s);
  }

  /** The error kinds of the three messages given in the test suite; the
      first, "ModuleNotFoundError: No module named 'requests'", is covered as
      any message that starts with "Module". */
  lemma CategorizeDependencyExample(s: string)
    requires |s| >= 6 && s[..6] == "Module"
    ensures CategorizeError(s) == "dependency"
  {
    DependencyExampleHasDependency(s);
    DependencyWhen(s);
  }

  lemma SyntaxExampleDependencyLetters()
    ensures MissingLetters("SyntaxError: invalid syntax", DependencyKeywords, "mmppp")
  {
    assert forall j :: 0 <= j < 5 ==> MissingLetter("SyntaxError: invalid syntax", DependencyKeywords[j], "mmppp"[j]);
  }

  lemma SyntaxLowers()
    ensures LowersTo("Syntax", SyntaxKeywords[0])
  {
  }

  lemma SyntaxExampleHasSyntax(s: string)
    requires s == "SyntaxError: invalid syntax"
    ensures ContainsAny(Lower(s), SyntaxKeywords)
  {
    assert s[..6] == "Syntax";
    SyntaxLowers();
    LowerPrefixKeyword(s, "Syntax", SyntaxKeywords, 0);
  }

  lemma SyntaxWhen(s: string)
    requires !ContainsAny(Lower(s), DependencyKeywords) && ContainsAny(Lower(s), SyntaxKeywords)
    ensures CategorizeError(s) == "syntax"
  {
    CategorizeErrorSpec(s);
  }

  lemma CategorizeSyntaxExample(s: string)
    requires s == "SyntaxError: invalid syntax"
    ensures CategorizeError(s) == "syntax"
  {
    SyntaxExampleDependencyLetters();
    NoKeywordByMissingLetters(s, DependencyKeywords, "mmppp");
    SyntaxExampleHasSyntax(s);
    SyntaxWhen(s);
  }

  lemma NetworkExampleDependencyLetters()
    ensures MissingLetters("Connection timeout after 30s", DependencyKeywords, "pdpdp")
  {
    assert forall j :: 0 <= j < 5 ==> MissingLetter("Connection timeout after 30s", DependencyKeywords[j], "pdpdp"[j]);
  }

  lemma NetworkExampleSyntaxLetters()
    ensures MissingLetters("Connection timeout after 30s", SyntaxKeywords, "yppd")
  {
    assert forall j :: 0 <= j < 4 ==> MissingLetter("Connection timeout after 30s", SyntaxKeywords[j], "yppd"[j]);
  }

  lemma NetworkExampleBuildLetters()
    ensures MissingLetters("Connection timeout after 30s", BuildKeywords, "bpgpw")
  {
    assert forall j :: 0 <= j < 5 ==> MissingLetter("Connection timeout after 30s", BuildKeywords[j], "bpgpw"[j]);
  }

  /** "Connection timeout after 30s" holds no dependency, syntax or build keyword. */
  lemma NetworkExampleLacksEarlierFamilies(s: string)
    requires s == "Connection timeout after 30s"
    ensures !ContainsAny(Lower(s), DependencyKeywords)
    ensures !ContainsAny(Lower(s), SyntaxKeywords)
    ensures !ContainsAny(Lower(s), BuildKeywords)
  {
    NetworkExampleDependencyLetters();
    NoKeywordByMissingLetters(s, DependencyKeywords, "pdpdp");
    NetworkExampleSyntaxLetters();
    NoKeywordByMissingLetters(s, SyntaxKeywords, "yppd");
    NetworkExampleBuildLetters();
    NoKeywordByMissingLetters(s, BuildKeywords, "bpgpw");
  }

  lemma ConnectionLowers()
    ensures LowersTo("Connection", NetworkKeywords[1])
  {
  }

  lemma NetworkExampleHasNetwork(s: string)
    requires |s| >= 10 && s[..10] == "Connection"
    ensures ContainsAny(Lower(s), NetworkKeywords)
  {
    ConnectionLowers();
    LowerPrefixKeyword(s, "Connection", NetworkKeywords, 1);
  }

  lemma NetworkWhen(s: string)
    requires !ContainsAny(Lower(s), DependencyKeywords) && !ContainsAny(Lower(s), SyntaxKeywords)
    requires !ContainsAny(Lower(s), BuildKeywords) && ContainsAny(Lower(s), NetworkKeywords)
    ensures CategorizeError(s) == "network"
  {
    CategorizeErrorSpec(s);
  }

  lemma CategorizeNetworkExample(s: string)
    requires s == "Connection timeout after 30s"
    ensures CategorizeError(s) == "network"
  {
    NetworkExampleLacksEarlierFamilies(s);
    assert s[..10] == "Connection";
    NetworkExampleHasNetwork(s);
    NetworkWhen(s);
  }

  lemma RuntimeWhen(s: string)
    requires !ContainsAny(Lower(s), DependencyKeywords) && !ContainsAny(Lower(s), SyntaxKeywords)
    requires !ContainsAny(Lower(s), BuildKeywords) && !ContainsAny(Lower(s), NetworkKeywords)
    requires !ContainsAny(Lower(s), PermissionKeywords)
    ensures CategorizeError(s) == "runtime"
  {
    CategorizeErrorSpec(s);
  }

  /** A choice or usage word standing as a whole word makes a text a decision. */
  lemma WordMakesDecision(text: string, ws: seq<string>, j: nat, i: int)
    requires ws == ChoiceWords || ws == UsageWords
    requires j < |ws| && WordAt(Lower(text), ws[j], i)
    ensures IsDecision(text)
  {
    assert 0 <= i <= |Lower(text)|;
    assert HasWord(Lower(text), ws);
  }

  /** Every choice and usage phrase starts and ends with a word character. */
  lemma PhraseEnds(ws: seq<string>, j: nat)
    requires ws == ChoiceWords || ws == UsageWords
    requires j < |ws|
    ensures |ws[j]| >= 1 && IsWordChar(ws[j][0]) && IsWordChar(ws[j][|ws[j]| - 1])
  {
  }

  /** A space-separated text one of whose words lower-cases to a choice or
      usage phrase is a decision. */
  lemma PhraseInWords(ws: seq<string>, k: nat, ps: seq<string>, j: nat)
    requires ps == ChoiceWords || ps == UsageWords
    requires k < |ws| && j < |ps| && Lower(ws[k]) == ps[j]
    ensures IsDecision(JoinWith(ws, ' '))
  {
    PhraseEnds(ps, j);
    WordInWords(ws, k, ps[j]);
    var i :| WordAt(Lower(JoinWith(ws, ' ')), ps[j], i);
    WordMakesDecision(JoinWith(ws, ' '), ps, j, i);
  }

  /** A lower-case keyword `ks[j]` of letters only lower-cases to itself and
      starts and ends with a word character. */
  lemma LetterKeyword(ks: seq<string>, j: nat)
    requires j < |ks| && |ks[j]| >= 1 && forall k :: 0 <= k < |ks[j]| ==> 'a' <= ks[j][k] <= 'z'
    ensures Lower(ks[j]) == ks[j] && IsWordChar(ks[j][0]) && IsWordChar(ks[j][|ks[j]| - 1])
  {
    LowerUnchanged(ks[j]);
  }

  /** A subject keyword and, after it on the same line, a verb keyword, both
      as whole words of the lower-cased text, make the text a decision. */
  lemma SubjectVerbMakesDecision(text: string, p: nat, i: int, q: nat, j: int)
    requires p < |SubjectWords| && q < |VerbWords|
    requires WordAt(Lower(text), SubjectWords[p], i) && WordAt(Lower(text), VerbWords[q], j)
    requires i + |SubjectWords[p]| <= j && '\n' !in Lower(text)[i + |SubjectWords[p]|..j]
    ensures IsDecision(text)
  {
    SubjectVerbAt(Lower(text), p, i, q, j);
  }

  lemma SubjectVerbAt(t: string, p: nat, i: int, q: nat, j: int)
    requires p < |SubjectWords| && q < |VerbWords|
    requires WordAt(t, SubjectWords[p], i) && WordAt(t, VerbWords[q], j)
    requires i + |SubjectWords[p]| <= j && '\n' !in t[i + |SubjectWords[p]|..j]
    ensures SubjectThenVerb(t)
  {
    assert 0 <= i <= |t| && 0 <= j <= |t|;
  }

  lemma ThirdPatternDecision(text: string)
    requires SubjectThenVerb(Lower(text))
    ensures IsDecision(text)
  {
  }

  /** Every subject and verb keyword starts and ends with a word character. */
  lemma SubjectVerbEnds(p: nat, q: nat)
    requires p < |SubjectWords| && q < |VerbWords|
    ensures var a, b := SubjectWords[p], VerbWords[q];
      |a| >= 1 && |b| >= 1 && IsWordChar(a[0]) && IsWordChar(a[|a| - 1]) && IsWordChar(b[0]) && IsWordChar(b[|b| - 1])
  {
  }

  /** Whole words `a` and `b` stand at `i` in `t` with one space between them. */
  predicate SpacedPairAt(t: string, a: string, b: string, i: int)
  {
    0 <= i && i + |a| < |t| && t[i + |a|] == ' ' && WordAt(t, a, i) && WordAt(t, b, i + |a| + 1)
  }

  /** Two words that start and end with word characters, one space apart at
      the start of a text, before the end or a non-word character. */
  lemma SpacedPairStart(a: string, b: string, r: string)
    requires |a| >= 1 && IsWordChar(a[0]) && IsWordChar(a[|a| - 1])
    requires |b| >= 1 && IsWordChar(b[0]) && IsWordChar(b[|b| - 1])
    requires r == [] || !IsWordChar(r[0])
    ensures SpacedPairAt(a + [' '] + b + r, a, b, 0)
  {
    var u := a + [' '] + b + r;
    assert u[0..|a|] == a;
    assert u[|a| + 1..|a| + 1 + |b|] == b;
    assert u[0] == a[0] && u[|a| - 1] == a[|a| - 1] && u[|a|] == ' ';
    assert u[|a| + 1] == b[0] && u[|a| + |b|] == b[|b| - 1];
    if r != [] {
      assert u[|a| + 1 + |b|] == r[0];
    }
  }

  /** The pair stays in place, shifted, after a prefix ending in a non-word
      character. */
  lemma SpacedPairAfter(pre: string, t: string, a: string, b: string, i: int)
    requires SpacedPairAt(t, a, b, i) && |pre| >= 1 && !IsWordChar(pre[|pre| - 1])
    ensures SpacedPairAt(pre + t, a, b, |pre| + i)
  {
    WordAtAfter(pre, t, a, i);
    WordAtAfter(pre, t, b, i + |a| + 1);
    assert (pre + t)[|pre| + i + |a|] == t[i + |a|];
  }

  lemma PairFirstWords(ls: seq<string>, a: string, b: string)
    requires |ls| >= 2 && ls[0] == a && ls[1] == b
    requires |a| >= 1 && IsWordChar(a[0]) && IsWordChar(a[|a| - 1])
    requires |b| >= 1 && IsWordChar(b[0]) && IsWordChar(b[|b| - 1])
    ensures SpacedPairAt(JoinWith(ls, ' '), a, b, 0)
  {
    var j1 := JoinWith(ls[1..], ' ');
    assert JoinWith(ls, ' ') == a + [' '] + j1;
    var r: string;
    if |ls| == 2 {
      r := [];
      assert j1 == b + r;
    } else {
      var j2 := JoinWith(ls[2..], ' ');
      assert ls[1..][1..] == ls[2..];
      r := [' '] + j2;
      AppendAssoc(b, [' '], j2);
    }
    AppendAssoc(a + [' '], b, r);
    SpacedPairStart(a, b, r);
  }

  /** Two consecutive words `a` and `b` of a space-joined text stand in it as
      whole words one space apart. */
  lemma {:induction false} PairInWords(ls: seq<string>, k: nat, a: string, b: string)
    requires k + 1 < |ls| && ls[k] == a && ls[k + 1] == b
    requires |a| >= 1 && IsWordChar(a[0]) && IsWordChar(a[|a| - 1])
    requires |b| >= 1 && IsWordChar(b[0]) && IsWordChar(b[|b| - 1])
    ensures exists i :: SpacedPairAt(JoinWith(ls, ' '), a, b, i)
  {
    if k == 0 {
      PairFirstWords(ls, a, b);
    } else {
      var rest := JoinWith(ls[1..], ' ');
      assert ls[1..][k - 1] == a && ls[1..][k] == b;
      PairInWords(ls[1..], k - 1, a, b);
      var i :| SpacedPairAt(rest, a, b, i);
      assert JoinWith(ls, ' ') == ls[0] + [' '] + rest;
      SpacedPairAfter(ls[0] + [' '], rest, a, b, i);
    }
  }

  lemma SpacedPairThenVerb(t: string, p: nat, q: nat)
    requires p < |SubjectWords| && q < |VerbWords|
    requires exists i :: SpacedPairAt(t, SubjectWords[p], VerbWords[q], i)
    ensures SubjectThenVerb(t)
  {
    var i :| SpacedPairAt(t, SubjectWords[p], VerbWords[q], i);
    var j := i + |SubjectWords[p]|;
    assert t[j..j + 1] == [t[j]];
    SubjectVerbAt(t, p, i, q, j + 1);
  }

  lemma SubjectVerbInLowerWords(ls: seq<string>, k: nat, p: nat, q: nat)
    requires p < |SubjectWords| && q < |VerbWords| && k + 1 < |ls|
    requires ls[k] == SubjectWords[p] && ls[k + 1] == VerbWords[q]
    ensures SubjectThenVerb(JoinWith(ls, ' '))
  {
    SubjectVerbEnds(p, q);
    PairInWords(ls, k, SubjectWords[p], VerbWords[q]);
    SpacedPairThenVerb(JoinWith(ls, ' '), p, q);
  }

  /** A space-separated text in which a word lower-casing to a subject keyword
      is followed directly by one lower-casing to a verb keyword is a decision. */
  lemma SubjectVerbInWords(ws: seq<string>, k: nat, p: nat, q: nat)
    requires p < |SubjectWords| && q < |VerbWords| && k + 1 < |ws|
    requires Lower(ws[k]) == SubjectWords[p] && Lower(ws[k + 1]) == VerbWords[q]
    ensures IsDecision(JoinWith(ws, ' '))
  {
    LowerJoinWords(ws);
    SubjectVerbInLowerWords(LowerWords(ws), k, p, q);
    ThirdPatternDecision(JoinWith(ws, ' '));
  }

  lemma ArchitectureWhen(s: string)
    requires ContainsAny(Lower(s), ArchitectureKeywords)
    ensures CategorizeDecision(s) == "architecture"
  {
    CategorizeDecisionSpec(s);
  }

  lemma BugFixWhen(s: string)
    requires !ContainsAny(Lower(s), ArchitectureKeywords) && ContainsAny(Lower(s), BugFixKeywords)
    ensures CategorizeDecision(s) == "bug_fix"
  {
    CategorizeDecisionSpec(s);
  }

  lemma OptimizationWhen(s: string)
    requires !ContainsAny(Lower(s), ArchitectureKeywords) && !ContainsAny(Lower(s), BugFixKeywords)
    requires ContainsAny(Lower(s), OptimizationKeywords)
    ensures CategorizeDecision(s) == "optimization"
  {
    CategorizeDecisionSpec(s);
  }

  /** The words of the test sentences "Decided on microservices architecture",
      "Decided to fix the bug by adding null check" and "Chose to optimize
      the algorithm for better performance". */
  const ArchitectureExample := ["Decided", "on", "microservices", "architecture"]
  const BugFixExample := ["Decided", "to", "fix", "the", "bug", "by", "adding", "null", "check"]
  const OptimizationExample := ["Chose", "to", "optimize", "the", "algorithm", "for", "better", "performance"]

  lemma ArchitectureExampleHasArchitecture()
    ensures ContainsAny(Lower(JoinWith(ArchitectureExample, ' ')), ArchitectureKeywords)
  {
    LetterKeyword(ArchitectureKeywords, 0);
    KeywordInWords(ArchitectureExample, 3, ArchitectureKeywords, 0);
  }

  /** The first test sentence is an architecture decision. */
  lemma CategorizeArchitectureExample(s: string)
    requires s == JoinWith(ArchitectureExample, ' ')
    ensures CategorizeDecision(s) == "architecture"
  {
    ArchitectureExampleHasArchitecture();
    ArchitectureWhen(s);
  }

  /** For each architecture keyword, a letter it has and the word of the
      second test sentence at that position lacks; `-` marks a word shorter
      than the keyword. */
  const BugFixArchitectureLetters := ["rrrrrrrrr", "sssssssss", "sssssssss", "ppppppppp", "mmmmmmmmm"]

  lemma ArchitectureSpaceless()
    ensures Spaceless(ArchitectureKeywords)
  {
  }

  lemma BugFixArchitectureTable()
    ensures LacksTable(BugFixExample, ArchitectureKeywords, BugFixArchitectureLetters)
  {
    assert forall j, i :: 0 <= j < 5 && 0 <= i < 9 ==> WordLacks(BugFixExample[i], ArchitectureKeywords[j], BugFixArchitectureLetters[j][i]);
  }

  lemma BugFixExampleLacksArchitecture()
    ensures !ContainsAny(Lower(JoinWith(BugFixExample, ' ')), ArchitectureKeywords)
  {
    BugFixArchitectureTable();
    ArchitectureSpaceless();
    FamilyAbsent(BugFixExample, ArchitectureKeywords, BugFixArchitectureLetters);
  }

  lemma BugFixExampleHasBugFix()
    ensures ContainsAny(Lower(JoinWith(BugFixExample, ' ')), BugFixKeywords)
  {
    LetterKeyword(BugFixKeywords, 0);
    KeywordInWords(BugFixExample, 2, BugFixKeywords, 0);
  }

  /** The second test sentence has no architecture keyword and then "fix":
      a bug_fix decision. */
  lemma CategorizeBugFixExample(s: string)
    requires s == JoinWith(BugFixExample, ' ')
    ensures CategorizeDecision(s) == "bug_fix"
  {
    BugFixExampleLacksArchitecture();
    BugFixExampleHasBugFix();
    BugFixWhen(s);
  }

  /** A keyword found in neither part of a text cut at a character it
      lacks is not found in the text, lower-cased. */
  lemma NotContainsCut(a: string, c: char, b: string, k: string)
    requires !('A' <= c <= 'Z') && c !in k
    requires !Contains(Lower(a), k) && !Contains(Lower(b), k)
    ensures !Contains(Lower(a + [c] + b), k)
  {
    LowerJoinStep(a, c, b);
    ContainsSplit(Lower(a), c, Lower(b), k);
  }

  /** "performance" cut at "f" and "m", two letters "error" lacks. */
  lemma PerformanceCut()
    ensures "performance" == "per" + ['f'] + "or" + ['m'] + "ance"
  {
  }

  /** Pieces shorter than "error" or without its letters, joined at letters
      it lacks, do not hold "error". */
  lemma PerformancePiecesLackError(per: string, or: string, ance: string)
    requires per == "per" && or == "or" && ance == "ance"
    ensures !Contains(Lower(per + ['f'] + or + ['m'] + ance), "error")
  {
    WordLacksKeyword(per, "error", 'e');
    WordLacksKeyword(or, "error", 'e');
    WordLacksKeyword(ance, "error", 'e');
    NotContainsCut(per, 'f', or, "error");
    NotContainsCut(per + ['f'] + or, 'm', ance, "error");
  }

  /** "error" does not occur in "performance". */
  lemma PerformanceLacksError()
    ensures !Contains(Lower("performance"), "error")
  {
    PerformanceCut();
    PerformancePiecesLackError("per", "or", "ance");
  }

  /** The same tables for the third test sentence: the architecture
      keywords, "fix" and "bug", and "issue", "problem" and "resolve". */
  const OptimizationArchitectureLetters := ["uuuuuuuu", "dddddddd", "uuuuuuuu", "p-a-p-pt", "dddddddd"]
  const FixBug := ["fix", "bug"]
  const OptimizationFixBugLetters := ["xxxxxxxx", "uuuuuuuu"]
  const IssueProblemResolve := ["issue", "problem", "resolve"]
  const OptimizationIssueProblemResolveLetters := ["uuuuuuuu", "p-r-p-pb", "vvvvvvvv"]

  lemma OptimizationArchitectureTable()
    ensures LacksTable(OptimizationExample, ArchitectureKeywords, OptimizationArchitectureLetters)
  {
    assert forall j, i :: 0 <= j < 5 && 0 <= i < 8 ==> WordLacks(OptimizationExample[i], ArchitectureKeywords[j], OptimizationArchitectureLetters[j][i]);
  }

  lemma OptimizationFixBugTable()
    ensures Spaceless(FixBug) && LacksTable(OptimizationExample, FixBug, OptimizationFixBugLetters)
  {
    assert forall j, i :: 0 <= j < 2 && 0 <= i < 8 ==> WordLacks(OptimizationExample[i], FixBug[j], OptimizationFixBugLetters[j][i]);
  }

  lemma OptimizationIssueProblemResolveTable()
    ensures Spaceless(IssueProblemResolve)
    ensures LacksTable(OptimizationExample, IssueProblemResolve, OptimizationIssueProblemResolveLetters)
  {
    assert forall j, i :: 0 <= j < 3 && 0 <= i < 8 ==> WordLacks(OptimizationExample[i], IssueProblemResolve[j], OptimizationIssueProblemResolveLetters[j][i]);
  }

  lemma OptimizationExampleLacksArchitecture()
    ensures !ContainsAny(Lower(JoinWith(OptimizationExample, ' ')), ArchitectureKeywords)
  {
    OptimizationArchitectureTable();
    ArchitectureSpaceless();
    FamilyAbsent(OptimizationExample, ArchitectureKeywords, OptimizationArchitectureLetters);
  }

  /** "error" occurs in no word of the third test sentence. */
  lemma OptimizationExampleLacksError()
    ensures !Contains(Lower(JoinWith(OptimizationExample, ' ')), "error")
  {
    var ws := OptimizationExample;
    forall i | 0 <= i < |ws| ensures !Contains(Lower(ws[i]), "error") {
      if i == 7 {
        PerformanceLacksError();
      } else {
        WordLacksKeyword(ws[i], "error", "r-r-e-o-"[i]);
      }
    }
    NotContainsJoin(ws, ' ', "error");
  }

  lemma OptimizationExampleLacksFixBug()
    ensures !ContainsAny(Lower(JoinWith(OptimizationExample, ' ')), FixBug)
  {
    OptimizationFixBugTable();
    FamilyAbsent(OptimizationExample, FixBug, OptimizationFixBugLetters);
  }

  lemma OptimizationExampleLacksIssueProblemResolve()
    ensures !ContainsAny(Lower(JoinWith(OptimizationExample, ' ')), IssueProblemResolve)
  {
    OptimizationIssueProblemResolveTable();
    FamilyAbsent(OptimizationExample, IssueProblemResolve, OptimizationIssueProblemResolveLetters);
  }

  lemma OptimizationExampleLacksBugFix()
    ensures !ContainsAny(Lower(JoinWith(OptimizationExample, ' ')), BugFixKeywords)
  {
    var t := Lower(JoinWith(OptimizationExample, ' '));
    OptimizationExampleLacksFixBug();
    OptimizationExampleLacksError();
    OptimizationExampleLacksIssueProblemResolve();
    forall j | 0 <= j < |BugFixKeywords| ensures !Contains(t, BugFixKeywords[j]) {
      if j < 2 {
        assert BugFixKeywords[j] == FixBug[j];
      } else if j > 2 {
        assert BugFixKeywords[j] == IssueProblemResolve[j - 3];
      }
    }
  }

  lemma OptimizationExampleHasOptimization()
    ensures ContainsAny(Lower(JoinWith(OptimizationExample, ' ')), OptimizationKeywords)
  {
    LetterKeyword(OptimizationKeywords, 0);
    KeywordInWords(OptimizationExample, 2, OptimizationKeywords, 0);
  }

  /** The third test sentence has no architecture and no bug_fix keyword,
      and then "optimize": an optimization decision. */
  lemma CategorizeOptimizationExample(s: string)
    requires s == JoinWith(OptimizationExample, ' ')
    ensures CategorizeDecision(s) == "optimization"
  {
    OptimizationExampleLacksArchitecture();
    OptimizationExampleLacksBugFix();
    OptimizationExampleHasOptimization();
    OptimizationWhen(s);
  }

  const CachingOptimizationLetters := ["-", "-", "p", "-", "e"]

  lemma CachingOptimizationTable()
    ensures LacksTable(["caching"], OptimizationKeywords, CachingOptimizationLetters)
  {
    assert forall j, i :: 0 <= j < 5 && 0 <= i < 1 ==> WordLacks(["caching"][i], OptimizationKeywords[j], CachingOptimizationLetters[j][i]);
  }

  /** "caching" holds no optimization keyword: a decision that mentions only
      caching is not an optimization decision by that word. */
  lemma CachingIsNoOptimizationKeyword()
    ensures !ContainsAny(Lower("caching"), OptimizationKeywords)
  {
    CachingOptimizationTable();
    WordsLackFamily(["caching"], OptimizationKeywords, CachingOptimizationLetters);
    assert ["caching"][0] == "caching";
  }
}
