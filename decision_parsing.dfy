/** `DecisionParser`: the sentences of a conversation that state a decision,
    numbered DEC_0001, DEC_0002, ... across every parse of one parser. */
module DecisionParsing {
  import opened Text
  import opened Ids
  import opened Records
  import opened Classify

  /** `re.split(r'[.!?\n]', content)` cuts the content into sentences. */
  const SentenceSeparators: set<char> := {'.', '!', '?', '\n'}
  /** A description keeps at most 200 characters. */
  const DescriptionCap: nat := 200

  function Sentences(content: string): seq<string> {
    SplitOn(content, SentenceSeparators)
  }

  /** The sentences that state a decision, in order. */
  function Chosen(ps: seq<string>): (r: seq<string>)
    ensures |r| <= |ps|
  {
    if ps == [] then []
    else Chosen(ps[..|ps| - 1]) + (if IsDecision(ps[|ps| - 1]) then [ps[|ps| - 1]] else [])
  }

  /** A sentence is kept exactly when it is one of the input sentences and
      it states a decision. */
  lemma {:induction false} ChosenMembers(ps: seq<string>)
    ensures forall t :: t in Chosen(ps) <==> t in ps && IsDecision(t)
  {
    if ps != [] {
      var init := ps[..|ps| - 1];
      ChosenMembers(init);
      assert ps == init + [ps[|ps| - 1]];
    }
  }

  /** Sentences none of which states a decision yield no decision. */
  lemma {:induction false} ChosenNone(ps: seq<string>)
    requires forall t :: t in ps ==> !IsDecision(t)
    ensures Chosen(ps) == []
  {
    if ps != [] {
      assert ps[|ps| - 1] in ps;
      ChosenNone(ps[..|ps| - 1]);
    }
  }

  /** Keeping the decisions of one more sentence. */
  lemma ChosenSnoc(ps: seq<string>, i: nat)
    requires i < |ps|
    ensures Chosen(ps[..i + 1]) == Chosen(ps[..i]) + (if IsDecision(ps[i]) then [ps[i]] else [])
  {
    assert ps[..i + 1][..i] == ps[..i];
  }

  function DecisionTexts(content: string): seq<string> {
    Chosen(Sentences(content))
  }

  /** The decision recorded for sentence `text` as the `n`-th of the parser. */
  function NewDecision(n: nat, text: string, now: int): Decision {
    Decision(Label("DEC_", n), Truncate(Strip(text), DescriptionCap), now, CategorizeDecision(text), "", [], [], "")
  }

  /** The records of `texts` numbered on from `counter`. */
  function DecisionRecords(texts: seq<string>, counter: nat, now: int): seq<Decision> {
    seq(|texts|, k requires 0 <= k < |texts| => NewDecision(counter + k + 1, texts[k], now))
  }

  /** Numbering two batches in sequence is numbering their concatenation. */
  lemma DecisionRecordsAppend(a: seq<string>, b: seq<string>, counter: nat, now: int)
    ensures DecisionRecords(a + b, counter, now) ==
      DecisionRecords(a, counter, now) + DecisionRecords(b, counter + |a|, now)
  {
    var l := DecisionRecords(a + b, counter, now);
    var r := DecisionRecords(a, counter, now) + DecisionRecords(b, counter + |a|, now);
    forall k | 0 <= k < |l| ensures l[k] == r[k] {
      if k < |a| {
        assert (a + b)[k] == a[k];
        assert r[k] == DecisionRecords(a, counter, now)[k];
      } else {
        assert (a + b)[k] == b[k - |a|];
        assert r[k] == DecisionRecords(b, counter + |a|, now)[k - |a|];
      }
    }
  }

  lemma DecisionRecordsSnoc(texts: seq<string>, x: string, counter: nat, now: int)
    ensures DecisionRecords(texts + [x], counter, now) ==
      DecisionRecords(texts, counter, now) + [NewDecision(counter + |texts| + 1, x, now)]
  {
    DecisionRecordsAppend(texts, [x], counter, now);
    var one := DecisionRecords([x], counter + |texts|, now);
    assert one[0] == NewDecision(counter + |texts| + 1, x, now);
    assert one == [NewDecision(counter + |texts| + 1, x, now)];
  }

  /** Reading one more sentence: a decision gets the next number, anything
      else leaves the records as they were. */
  lemma DecisionStep(ps: seq<string>, i: nat, counter: nat, now: int)
    requires i < |ps|
    ensures |Chosen(ps[..i + 1])| == |Chosen(ps[..i])| + (if IsDecision(ps[i]) then 1 else 0)
    ensures DecisionRecords(Chosen(ps[..i + 1]), counter, now) ==
      DecisionRecords(Chosen(ps[..i]), counter, now) +
      (if IsDecision(ps[i]) then [NewDecision(counter + |Chosen(ps[..i])| + 1, ps[i], now)] else [])
  {
    ChosenSnoc(ps, i);
    if IsDecision(ps[i]) {
      DecisionRecordsSnoc(Chosen(ps[..i]), ps[i], counter, now);
    } else {
      assert Chosen(ps[..i]) + [] == Chosen(ps[..i]);
      assert DecisionRecords(Chosen(ps[..i]), counter, now) + [] == DecisionRecords(Chosen(ps[..i]), counter, now);
    }
  }

  /** The counter persists between parses, so the decisions of two
      successive parses never share an identifier. */
  lemma DecisionIdsDistinct(a: seq<string>, b: seq<string>, counter: nat, now: int)
    ensures var ds := DecisionRecords(a, counter, now) + DecisionRecords(b, counter + |a|, now);
      forall i, j :: 0 <= i < j < |ds| ==> ds[i].decisionId != ds[j].decisionId
  {
    DecisionRecordsAppend(a, b, counter, now);
    DecisionIdsDistinctIn(a + b, counter, now);
  }

  /** Within one batch the identifiers are pairwise distinct. */
  lemma DecisionIdsDistinctIn(texts: seq<string>, counter: nat, now: int)
    ensures var ds := DecisionRecords(texts, counter, now);
      forall i, j :: 0 <= i < j < |ds| ==> ds[i].decisionId != ds[j].decisionId
  {
    var ds := DecisionRecords(texts, counter, now);
    forall i, j | 0 <= i < j < |ds| ensures ds[i].decisionId != ds[j].decisionId {
      assert ds[i].decisionId == Label("DEC_", counter + i + 1);
      assert ds[j].decisionId == Label("DEC_", counter + j + 1);
      LabelInjective("DEC_", counter + i + 1, counter + j + 1);
    }
  }

  /** A description: at most 200 characters, with no sentence separator. */
  predicate WithinSentence(s: string) {
    |s| <= DescriptionCap && forall c :: c in s ==> c !in SentenceSeparators
  }

  /** A stripped and truncated sentence holds only characters of the sentence. */
  lemma DescribeWithin(t: string)
    requires forall c :: c in t ==> c !in SentenceSeparators
    ensures WithinSentence(Truncate(Strip(t), DescriptionCap))
  {
    var s := Strip(t);
    var d := Truncate(s, DescriptionCap);
    forall c | c in d ensures c !in SentenceSeparators {
      var m :| 0 <= m < |d| && d[m] == c;
      assert s[m] == t[LeadingSpaces(t) + m];
    }
  }

  /** Every description is at most 200 characters long and lies within one
      sentence: it holds none of the separators ".", "!", "?" or a newline. */
  lemma DescriptionsWithinSentence(content: string, counter: nat, now: int)
    ensures var ds := DecisionRecords(DecisionTexts(content), counter, now);
      forall k :: 0 <= k < |ds| ==> WithinSentence(ds[k].description)
  {
    var ps := Sentences(content);
    var texts := DecisionTexts(content);
    var ds := DecisionRecords(texts, counter, now);
    ChosenMembers(ps);
    forall k | 0 <= k < |ds| ensures WithinSentence(ds[k].description) {
      var t := texts[k];
      assert ds[k] == NewDecision(counter + k + 1, t, now);
      assert t in ps;
      var i :| 0 <= i < |ps| && ps[i] == t;
      DescribeWithin(t);
    }
  }

  /** A sentence without any word character is never a decision, so content
      whose sentences hold none records nothing. */
  lemma NoWordsNoDecisions(content: string)
    requires forall k, c :: 0 <= k < |Sentences(content)| && c in Sentences(content)[k] ==> !IsWordChar(c)
    ensures DecisionTexts(content) == []
  {
    var ps := Sentences(content);
    forall t | t in ps ensures !IsDecision(t) {
      NoWordNoDecision(t);
    }
    ChosenNone(ps);
  }

  /** One sentence without separators, closed by a full stop: that sentence
      and the empty piece after the stop. */
  lemma SentencesOfOne(s: string)
    requires forall k :: 0 <= k < |s| ==> s[k] !in SentenceSeparators
    ensures Sentences(s + ".") == [s, ""]
  {
    assert "." == ['.'];
    SplitOnLast(s, '.', SentenceSeparators);
  }

  /** Of a decision sentence and the empty piece, only the sentence is kept. */
  lemma ChosenOfOne(s: string)
    requires IsDecision(s)
    ensures Chosen([s, ""]) == [s]
  {
    NoWordNoDecision("");
    var ps := [s, ""];
    assert ps[..1] == [s] && ps[..1][..0] == [];
  }

  /** A sentence without separators, closed by a full stop, yields that
      sentence as the only decision of the content when it states one, and
      it is recorded under the parser's next number. */
  lemma OneSentenceOneDecision(s: string, counter: nat, now: int)
    requires forall k :: 0 <= k < |s| ==> s[k] !in SentenceSeparators
    requires IsDecision(s)
    ensures DecisionTexts(s + ".") == [s]
    ensures var ds := DecisionRecords(DecisionTexts(s + "."), counter, now);
      |ds| == 1 && ds[0].decisionId == Label("DEC_", counter + 1)
  {
    SentencesOfOne(s);
    ChosenOfOne(s);
  }

  /** The words of the test sentences "We decided to use Python for this
      project" and "I chose SQLite over PostgreSQL". */
  const DecidedExample := ["We", "decided", "to", "use", "Python", "for", "this", "project"]
  const ChoseExample := ["I", "chose", "SQLite", "over", "PostgreSQL"]

  lemma DecidedExampleIsDecision(text: string)
    requires text == JoinWith(DecidedExample, ' ')
    ensures IsDecision(text)
  {
    var ws := DecidedExample;
    DecidedExampleKeyword();
    PhraseInWords(ws, 1, ChoiceWords, 0);
  }

  lemma DecidedExampleKeyword()
    ensures DecidedExample[1] == ChoiceWords[0] && Lower(ChoiceWords[0]) == ChoiceWords[0]
  {
    LetterKeyword(ChoiceWords, 0);
  }

  lemma DecidedExampleOneSentence()
    ensures forall k :: 0 <= k < |JoinWith(DecidedExample, ' ')| ==>
      JoinWith(DecidedExample, ' ')[k] !in SentenceSeparators
  {
    JoinAvoids(DecidedExample, ' ', SentenceSeparators);
  }

  /** "We decided to use Python for this project." records one decision. */
  lemma DecidedExampleOneDecision(counter: nat, now: int)
    ensures |DecisionRecords(DecisionTexts(JoinWith(DecidedExample, ' ') + "."), counter, now)| == 1
  {
    DecidedExampleIsDecision(JoinWith(DecidedExample, ' '));
    DecidedExampleOneSentence();
    OneSentenceOneDecision(JoinWith(DecidedExample, ' '), counter, now);
  }

  lemma ChoseExampleIsDecision(text: string)
    requires text == JoinWith(ChoseExample, ' ')
    ensures IsDecision(text)
  {
    var ws := ChoseExample;
    ChoseExampleKeyword();
    PhraseInWords(ws, 1, ChoiceWords, 2);
  }

  lemma ChoseExampleKeyword()
    ensures ChoseExample[1] == ChoiceWords[2] && Lower(ChoiceWords[2]) == ChoiceWords[2]
  {
    LetterKeyword(ChoiceWords, 2);
  }

  lemma ChoseExampleOneSentence()
    ensures forall k :: 0 <= k < |JoinWith(ChoseExample, ' ')| ==>
      JoinWith(ChoseExample, ' ')[k] !in SentenceSeparators
  {
    JoinAvoids(ChoseExample, ' ', SentenceSeparators);
  }

  /** "I chose SQLite over PostgreSQL." records one decision. */
  lemma ChoseExampleOneDecision(counter: nat, now: int)
    ensures |DecisionRecords(DecisionTexts(JoinWith(ChoseExample, ' ') + "."), counter, now)| == 1
  {
    ChoseExampleIsDecision(JoinWith(ChoseExample, ' '));
    ChoseExampleOneSentence();
    OneSentenceOneDecision(JoinWith(ChoseExample, ' '), counter, now);
  }

  /** The words of "The approach is simple", a decision only by the third
      pattern: a subject keyword, then a verb keyword on the same line. */
  const ApproachExample := ["The", "approach", "is", "simple"]

  lemma ApproachExampleKeywords()
    ensures ApproachExample[1] == SubjectWords[0] && ApproachExample[2] == VerbWords[0]
  {
  }

  lemma ApproachSubjectLowerCase()
    ensures Lower(SubjectWords[0]) == SubjectWords[0]
  {
    LetterKeyword(SubjectWords, 0);
  }

  lemma ApproachVerbLowerCase()
    ensures Lower(VerbWords[0]) == VerbWords[0]
  {
    LetterKeyword(VerbWords, 0);
  }

  lemma ApproachExampleIsDecision(text: string)
    requires text == JoinWith(ApproachExample, ' ')
    ensures IsDecision(text)
  {
    var ws := ApproachExample;
    ApproachExampleKeywords();
    ApproachSubjectLowerCase();
    ApproachVerbLowerCase();
    SubjectVerbInWords(ws, 1, 0, 0);
  }

  lemma ApproachExampleOneSentence()
    ensures forall k :: 0 <= k < |JoinWith(ApproachExample, ' ')| ==>
      JoinWith(ApproachExample, ' ')[k] !in SentenceSeparators
  {
    JoinAvoids(ApproachExample, ' ', SentenceSeparators);
  }

  /** "The approach is simple." records one decision. */
  lemma ApproachExampleOneDecision(counter: nat, now: int)
    ensures |DecisionRecords(DecisionTexts(JoinWith(ApproachExample, ' ') + "."), counter, now)| == 1
  {
    ApproachExampleIsDecision(JoinWith(ApproachExample, ' '));
    ApproachExampleOneSentence();
    OneSentenceOneDecision(JoinWith(ApproachExample, ' '), counter, now);
  }

  /** `DecisionParser`: the decisions of the last parse, and the number of
      decisions recorded since the parser was made. */
  class DecisionParser {
    var decisions: seq<Decision>
    var decisionCounter: nat

    constructor ()
      ensures decisions == [] && decisionCounter == 0
    {
      decisions := [];
      decisionCounter := 0;
    }

    /** `parse_content`; `now` is the time stamped on every decision. */
    method ParseContent(content: string, now: int) returns (ds: seq<Decision>)
      modifies this
      ensures decisions == DecisionRecords(DecisionTexts(content), old(decisionCounter), now)
      ensures decisionCounter == old(decisionCounter) + |DecisionTexts(content)|
      ensures ds == decisions
    {
      decisions := [];
      var sentences := Sentences(content);
      ghost var start := decisionCounter;
      for i := 0 to |sentences|
        invariant decisions == DecisionRecords(Chosen(sentences[..i]), start, now)
        invariant decisionCounter == start + |Chosen(sentences[..i])|
      {
        var sentence := sentences[i];
        DecisionStep(sentences, i, start, now);
        if IsDecision(sentence) {
          decisionCounter := decisionCounter + 1;
          decisions := decisions + [NewDecision(decisionCounter, sentence, now)];
        }
      }
      assert sentences[..|sentences|] == sentences;
      ds := decisions;
    }
  }
}
