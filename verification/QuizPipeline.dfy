/** From the candidate pool to the stored quiz: the answer key survives every hand-over. */
module QuizPipeline {
  import opened Prelude
  import opened Text
  import opened Quiz

  const MAX_COUNT := 30

  // ---- The pool ----

  /** One part of the material with the raw questions supplied for it. */
  datatype Source = Source(part: Part, raw: seq<RawQuestion>)

  function FromPart(raw: seq<RawQuestion>, part: Part, partIndex: nat): seq<Question> {
    if |raw| == 0 then []
    else
      var n := |raw| - 1;
      var front, q := FromPart(raw[..n], part, partIndex), Normalise(raw[n], part, partIndex, n);
      if q.Some? then front + [q.value] else front
  }

  function Pool(sources: seq<Source>): seq<Question> {
    if |sources| == 0 then []
    else
      var n := |sources| - 1;
      Pool(sources[..n]) + FromPart(sources[n].raw, sources[n].part, n)
  }

  method PoolPart(raw: seq<RawQuestion>, part: Part, partIndex: nat) returns (pool: seq<Question>)
    ensures pool == FromPart(raw, part, partIndex)
  {
    pool := [];
    for i := 0 to |raw|
      invariant pool == FromPart(raw[..i], part, partIndex)
    {
      assert raw[..i + 1][..i] == raw[..i];
      var q := Normalise(raw[i], part, partIndex, i);
      if q.Some? { pool := pool + [q.value]; }
    }
    assert raw[..|raw|] == raw;
  }

  method GeneratePool(sources: seq<Source>) returns (pool: seq<Question>)
    ensures pool == Pool(sources)
  {
    pool := [];
    for n := 0 to |sources|
      invariant pool == Pool(sources[..n])
    {
      assert sources[..n + 1][..n] == sources[..n];
      var more := PoolPart(sources[n].raw, sources[n].part, n);
      pool := pool + more;
    }
    assert sources[..|sources|] == sources;
  }

  /** What every pooled question satisfies: a prompt, four options and a letter for the right one. */
  predicate WellFormed(q: Question) { !Blank(q.prompt) && |q.options| == 4 && q.correct in LETTERS }

  lemma {:induction false} FromPartWellFormed(raw: seq<RawQuestion>, part: Part, partIndex: nat)
    ensures forall q | q in FromPart(raw, part, partIndex) :: WellFormed(q)
  {
    if |raw| > 0 {
      var n := |raw| - 1;
      FromPartWellFormed(raw[..n], part, partIndex);
      if Normalise(raw[n], part, partIndex, n).Some? { var i := NormalisedShape(raw[n], part, partIndex, n); }
    }
  }

  lemma {:induction false} PoolWellFormed(sources: seq<Source>)
    ensures forall q | q in Pool(sources) :: WellFormed(q)
  {
    if |sources| > 0 {
      var n := |sources| - 1;
      PoolWellFormed(sources[..n]);
      FromPartWellFormed(sources[n].raw, sources[n].part, n);
    }
  }

  /** Question `q` is what became of a raw candidate of the material: its prompt, its options, its explanation, and the
      letter of the option its answer names. */
  ghost predicate AnswersAs(q: Question, raw: RawQuestion) {
    q.prompt == Strip(raw.prompt) && q.explanation == raw.explanation && |q.options| == 4 &&
    (forall j | 0 <= j < Min(|raw.given|, 4) :: q.options[j] == Strip(raw.given[j])) &&
    exists i | 0 <= i < 4 :: q.correct == LETTERS[i] && Names(raw.answer, q.options, i)
  }

  ghost predicate FromRaw(q: Question, raw: seq<RawQuestion>) { exists r | r in raw :: AnswersAs(q, r) }

  ghost predicate FromMaterial(q: Question, sources: seq<Source>) {
    exists k | 0 <= k < |sources| :: FromRaw(q, sources[k].raw)
  }

  lemma {:induction false} FromPartAnswers(raw: seq<RawQuestion>, part: Part, partIndex: nat)
    ensures forall q | q in FromPart(raw, part, partIndex) :: FromRaw(q, raw)
  {
    if |raw| > 0 {
      var n := |raw| - 1;
      FromPartAnswers(raw[..n], part, partIndex);
      assert raw == raw[..n] + [raw[n]];
      if Normalise(raw[n], part, partIndex, n).Some? {
        var i := NormalisedShape(raw[n], part, partIndex, n);
        assert AnswersAs(Normalise(raw[n], part, partIndex, n).value, raw[n]);
      }
      forall q | q in FromPart(raw, part, partIndex) ensures FromRaw(q, raw) {
        if q in FromPart(raw[..n], part, partIndex) {
          var r :| r in raw[..n] && AnswersAs(q, r);
          assert r in raw;
        }
      }
    }
  }

  /** Every pooled question is what became of a raw candidate: no answer is changed on the way. */
  lemma {:induction false} PoolAnswers(sources: seq<Source>)
    ensures forall q | q in Pool(sources) :: FromMaterial(q, sources)
  {
    if |sources| > 0 {
      var n := |sources| - 1;
      PoolAnswers(sources[..n]);
      FromPartAnswers(sources[n].raw, sources[n].part, n);
      forall q | q in Pool(sources) ensures FromMaterial(q, sources) {
        if q in Pool(sources[..n]) {
          var k :| 0 <= k < n && FromRaw(q, sources[..n][k].raw);
          assert FromRaw(q, sources[k].raw);
        } else {
          assert FromRaw(q, sources[n].raw);
        }
      }
    }
  }

  // ---- The generated quiz ----

  /** A question as shown: without its answer. */
  datatype PublicQuestion = PublicQuestion(id: string, topic: string, prompt: string, options: seq<string>)

  datatype KeyEntry = KeyEntry(id: string, correct: string, explanation: string)

  datatype GeneratedQuiz = NeedsMaterial | Ready(questions: seq<PublicQuestion>, key: seq<KeyEntry>, short: bool)

  function Public(s: seq<Question>): seq<PublicQuestion> {
    seq(|s|, i requires 0 <= i < |s| => PublicQuestion(s[i].id, s[i].topic, s[i].prompt, s[i].options))
  }

  function KeyOf(s: seq<Question>): seq<KeyEntry> {
    seq(|s|, i requires 0 <= i < |s| => KeyEntry(s[i].id, s[i].correct, s[i].explanation))
  }

  function Asked(count: int): nat { Max(1, Min(count, MAX_COUNT)) }

  /** The questions a request selects. */
  function Chosen(f: Focus, pool: seq<Question>, count: int): seq<Question> {
    Selection(ScoreOf(f), pool, Asked(count))
  }

  method GenerateQuiz(f: Focus, pool: seq<Question>, count: int) returns (quiz: GeneratedQuiz)
    ensures quiz == if |pool| == 0 then NeedsMaterial
                    else var s := Chosen(f, pool, count); Ready(Public(s), KeyOf(s), |s| < Asked(count))
  {
    if |pool| == 0 { return NeedsMaterial; }
    var selected := SelectQuestions(ScoreOf(f), pool, Asked(count));
    quiz := Ready(Public(selected), KeyOf(selected), |selected| < Asked(count));
  }

  // ---- Pairing questions with their answers ----

  datatype Choice = Choice(optionId: string, text: string)

  datatype PairedQuestion = PairedQuestion(prompt: string, topic: string, explanation: string, correct: string,
                                           options: seq<Choice>)

  function OptionId(index: nat): string { if index < 4 then LETTERS[index] else Dec(index + 1) }

  /** The entry under an id; a later entry replaces an earlier one. */
  function Lookup(key: seq<KeyEntry>, id: string): Option<KeyEntry> {
    if |key| == 0 then None
    else if key[|key| - 1].id == id then Some(key[|key| - 1]) else Lookup(key[..|key| - 1], id)
  }

  function Paired(q: PublicQuestion, key: seq<KeyEntry>): PairedQuestion {
    var answer := Lookup(key, q.id);
    PairedQuestion(q.prompt, q.topic, if answer.Some? then answer.value.explanation else "",
                   if answer.Some? then Upper(answer.value.correct) else "A",
                   seq(|q.options|, i requires 0 <= i < |q.options| => Choice(OptionId(i), q.options[i])))
  }

  method PairOptions(options: seq<string>) returns (choices: seq<Choice>)
    ensures choices == seq(|options|, i requires 0 <= i < |options| => Choice(OptionId(i), options[i]))
  {
    choices := [];
    for i := 0 to |options|
      invariant |choices| == i && forall k | 0 <= k < i :: choices[k] == Choice(OptionId(k), options[k])
    {
      choices := choices + [Choice(OptionId(i), options[i])];
    }
  }

  method NormalisedQuestions(questions: seq<PublicQuestion>, key: seq<KeyEntry>) returns (paired: seq<PairedQuestion>)
    ensures |paired| == |questions| && forall i | 0 <= i < |questions| :: paired[i] == Paired(questions[i], key)
  {
    var answers: map<string, KeyEntry> := map[];
    for i := 0 to |key|
      invariant forall id :: Lookup(key[..i], id) == if id in answers then Some(answers[id]) else None
    {
      assert key[..i + 1][..i] == key[..i];
      answers := answers[key[i].id := key[i]];
    }
    assert key[..|key|] == key;
    paired := [];
    for i := 0 to |questions|
      invariant |paired| == i && forall k | 0 <= k < i :: paired[k] == Paired(questions[k], key)
    {
      var q := questions[i];
      var choices := PairOptions(q.options);
      var explanation, correct := "", "A";
      if q.id in answers { explanation, correct := answers[q.id].explanation, Upper(answers[q.id].correct); }
      paired := paired + [PairedQuestion(q.prompt, q.topic, explanation, correct, choices)];
    }
  }

  // ---- The checks before storage ----

  /** Four options with distinct, non-blank ids and texts, a prompt, and the correct id among the options. */
  ghost predicate Acceptable(q: PairedQuestion) {
    !Blank(q.prompt) && |q.options| == 4 &&
    (forall i, j | 0 <= i < j < 4 :: q.options[i].optionId != q.options[j].optionId) &&
    (forall i | 0 <= i < 4 :: !Blank(q.options[i].optionId) && !Blank(q.options[i].text)) &&
    exists i :: 0 <= i < 4 && q.options[i].optionId == q.correct
  }

  function IdSet(ids: seq<string>): set<string> { set x | x in ids }

  lemma {:induction false} IdSetSize(ids: seq<string>)
    ensures |IdSet(ids)| <= |ids|
    ensures |IdSet(ids)| == |ids| <==> forall i, j | 0 <= i < j < |ids| :: ids[i] != ids[j]
  {
    if |ids| == 0 {
      assert IdSet(ids) == {};
    } else {
      var n := |ids| - 1;
      IdSetSize(ids[..n]);
      assert ids == ids[..n] + [ids[n]];
      assert IdSet(ids) == IdSet(ids[..n]) + {ids[n]};
      if ids[n] in ids[..n] {
        assert IdSet(ids) == IdSet(ids[..n]);
        var k :| 0 <= k < n && ids[..n][k] == ids[n];
        assert ids[k] == ids[n];
      }
    }
  }

  lemma CorrectAmong(q: PairedQuestion, ids: seq<string>)
    requires |ids| == |q.options| && forall i | 0 <= i < |ids| :: ids[i] == q.options[i].optionId
    ensures q.correct in ids <==> exists i :: 0 <= i < |q.options| && q.options[i].optionId == q.correct
  {
    if i :| 0 <= i < |q.options| && q.options[i].optionId == q.correct { assert ids[i] == q.correct; }
    if q.correct in ids {
      var i :| 0 <= i < |ids| && ids[i] == q.correct;
      assert q.options[i].optionId == q.correct;
    }
  }

  method CheckQuestion(q: PairedQuestion) returns (ok: bool)
    ensures ok <==> Acceptable(q)
  {
    var options := q.options;
    var ids := seq(|options|, i requires 0 <= i < |options| => options[i].optionId);
    IdSetSize(ids);
    ok := !Blank(q.prompt) && |options| == 4 && |IdSet(ids)| == 4 && q.correct in ids &&
          forall i | 0 <= i < |options| :: !Blank(options[i].optionId) && !Blank(options[i].text);
    if |options| == 4 { CorrectAmong(q, ids); }
  }

  /** Storage keeps the questions of an acceptable, non-empty quiz and rejects any other as a whole. */
  method StoreQuiz(questions: seq<PairedQuestion>) returns (stored: Option<seq<PairedQuestion>>)
    ensures stored == if |questions| > 0 && forall q | q in questions :: Acceptable(q) then Some(questions) else None
  {
    if |questions| == 0 { return None; }
    for i := 0 to |questions|
      invariant forall k | 0 <= k < i :: Acceptable(questions[k])
    {
      var ok := CheckQuestion(questions[i]);
      if !ok {
        assert questions[i] in questions;
        return None;
      }
    }
    stored := Some(questions);
  }

  // ---- End to end ----

  lemma {:induction false} LookupOwn(s: seq<Question>, k: nat)
    requires k < |s| && forall i, j | 0 <= i < j < |s| :: s[i].id != s[j].id
    ensures Lookup(KeyOf(s), s[k].id) == Some(KeyEntry(s[k].id, s[k].correct, s[k].explanation))
  {
    var n := |s| - 1;
    if k < n {
      LookupOwn(s[..n], k);
      assert KeyOf(s)[..n] == KeyOf(s[..n]);
    }
  }

  /** The question a candidate becomes once stored: its own options under A to D, its own answer. */
  function StoredForm(q: Question): PairedQuestion
    requires |q.options| == 4
  {
    PairedQuestion(q.prompt, q.topic, q.explanation, q.correct,
                   seq(4, i requires 0 <= i < 4 => Choice(LETTERS[i], q.options[i])))
  }

  lemma PairedIsStoredForm(s: seq<Question>, k: nat)
    requires k < |s| && WellFormed(s[k]) && forall i, j | 0 <= i < j < |s| :: s[i].id != s[j].id
    ensures Paired(Public(s)[k], KeyOf(s)) == StoredForm(s[k])
  {
    LookupOwn(s, k);
    assert s[k].correct in {"A", "B", "C", "D"};
    assert Paired(Public(s)[k], KeyOf(s)).options == StoredForm(s[k]).options;
  }

  lemma LettersAreDistinct()
    ensures forall i, j | 0 <= i < j < 4 :: LETTERS[i] != LETTERS[j]
    ensures forall i | 0 <= i < 4 :: !Blank(LETTERS[i])
  {
    forall i | 0 <= i < 4 ensures !Blank(LETTERS[i]) { StripFixed(LETTERS[i]); }
  }

  lemma StoredFormAcceptable(q: Question)
    requires WellFormed(q)
    ensures Acceptable(StoredForm(q)) <==> forall i | 0 <= i < 4 :: !Blank(q.options[i])
  {
    LettersAreDistinct();
    var p := StoredForm(q);
    var k :| 0 <= k < 4 && LETTERS[k] == q.correct;
    assert p.options[k].optionId == p.correct;
    forall i | 0 <= i < 4 ensures p.options[i].text == q.options[i] && p.options[i].optionId == LETTERS[i] {}
  }

  predicate NoBlankOption(s: seq<Question>) {
    forall k, i | 0 <= k < |s| && 0 <= i < |s[k].options| :: !Blank(s[k].options[i])
  }

  /** Every chosen question reaches storage under its own answer; all are accepted exactly when no chosen option is
      blank. */
  lemma QuizIntegrity(f: Focus, sources: seq<Source>, count: int)
    ensures var s := Chosen(f, Pool(sources), count);
            (|s| > 0 <==> |Pool(sources)| > 0) &&
            (forall k | 0 <= k < |s| :: WellFormed(s[k]) && Paired(Public(s)[k], KeyOf(s)) == StoredForm(s[k])) &&
            ((forall k | 0 <= k < |s| :: Acceptable(Paired(Public(s)[k], KeyOf(s)))) <==> NoBlankOption(s))
  {
    var pool := Pool(sources);
    var s := Chosen(f, pool, count);
    PoolWellFormed(sources);
    SelectionIsDistinct(ScoreOf(f), pool, Asked(count));
    assert |pool| > 0 ==> pool[0].id in Ids(pool);
    assert |pool| == 0 ==> Ids(pool) == {};
    forall k | 0 <= k < |s| ensures WellFormed(s[k]) && Paired(Public(s)[k], KeyOf(s)) == StoredForm(s[k]) {
      assert s[k] in s;
      PairedIsStoredForm(s, k);
    }
    forall k | 0 <= k < |s|
      ensures Acceptable(Paired(Public(s)[k], KeyOf(s))) <==> forall i | 0 <= i < 4 :: !Blank(s[k].options[i])
    {
      StoredFormAcceptable(s[k]);
    }
  }

  /** What storage keeps of a chosen list: its questions in order, each with its own options and answer. */
  predicate StoredAs(stored: seq<PairedQuestion>, s: seq<Question>) {
    |stored| == |s| && forall k | 0 <= k < |s| :: |s[k].options| == 4 && stored[k] == StoredForm(s[k])
  }

  /** The paired questions of a quiz are the stored form of the chosen ones, and pass together exactly when none is
      blank. */
  lemma PairedQuizIntegrity(f: Focus, sources: seq<Source>, count: int, paired: seq<PairedQuestion>)
    requires var s := Chosen(f, Pool(sources), count);
             |paired| == |s| && forall i | 0 <= i < |s| :: paired[i] == Paired(Public(s)[i], KeyOf(s))
    ensures var s := Chosen(f, Pool(sources), count);
            StoredAs(paired, s) && ((forall q | q in paired :: Acceptable(q)) <==> NoBlankOption(s))
  {
    QuizIntegrity(f, sources, count);
    var s := Chosen(f, Pool(sources), count);
    AcceptedPointwise(paired);
  }

  lemma AcceptedPointwise(paired: seq<PairedQuestion>)
    ensures (forall q | q in paired :: Acceptable(q)) <==> forall k | 0 <= k < |paired| :: Acceptable(paired[k])
  {}

  function Texts(p: PairedQuestion): seq<string> {
    seq(|p.options|, i requires 0 <= i < |p.options| => p.options[i].text)
  }

  /** The stored question has the raw candidate's prompt, explanation and given options, under the ids A to D, and marks
      as correct the option the candidate's answer names. */
  ghost predicate Keeps(p: PairedQuestion, raw: RawQuestion) {
    p.prompt == Strip(raw.prompt) && p.explanation == raw.explanation && |p.options| == 4 &&
    (forall i | 0 <= i < 4 :: p.options[i].optionId == ["A", "B", "C", "D"][i]) &&
    (forall i | 0 <= i < Min(|raw.given|, 4) :: p.options[i].text == Strip(raw.given[i])) &&
    exists i | 0 <= i < 4 :: p.correct == p.options[i].optionId && Names(raw.answer, Texts(p), i)
  }

  ghost predicate KeepsSome(p: PairedQuestion, raw: seq<RawQuestion>) { exists r | r in raw :: Keeps(p, r) }

  /** The stored question is what became of a raw candidate of the material. */
  ghost predicate KeepsAnswer(p: PairedQuestion, sources: seq<Source>) {
    exists k | 0 <= k < |sources| :: KeepsSome(p, sources[k].raw)
  }

  lemma StoredFormKeeps(q: Question, raw: RawQuestion)
    requires AnswersAs(q, raw)
    ensures Keeps(StoredForm(q), raw)
  {
    var p := StoredForm(q);
    assert Texts(p) == q.options;
    var i :| 0 <= i < 4 && q.correct == LETTERS[i] && Names(raw.answer, q.options, i);
    assert p.correct == p.options[i].optionId;
  }

  lemma StoredKeepsAnswer(f: Focus, sources: seq<Source>, count: int, stored: seq<PairedQuestion>)
    requires StoredAs(stored, Chosen(f, Pool(sources), count))
    ensures forall p | p in stored :: KeepsAnswer(p, sources)
  {
    var s := Chosen(f, Pool(sources), count);
    PoolAnswers(sources);
    SelectionIsDistinct(ScoreOf(f), Pool(sources), Asked(count));
    forall p | p in stored ensures KeepsAnswer(p, sources) {
      var k :| 0 <= k < |stored| && stored[k] == p;
      assert s[k] in s;
      var n :| 0 <= n < |sources| && FromRaw(s[k], sources[n].raw);
      var r :| r in sources[n].raw && AnswersAs(s[k], r);
      StoredFormKeeps(s[k], r);
      assert KeepsSome(p, sources[n].raw);
    }
  }

  /** What becomes of a quiz request: no material to ask about, a quiz refused as a whole, or a stored one. */
  datatype Outcome = NoMaterial | Refused | Stored(questions: seq<PairedQuestion>)

  /** The whole pipeline: the stored quiz is the chosen questions in order, each with its own options and answer. */
  method MakeQuiz(f: Focus, sources: seq<Source>, count: int) returns (outcome: Outcome)
    ensures outcome.NoMaterial? <==> |Pool(sources)| == 0
    ensures var s := Chosen(f, Pool(sources), count);
            (outcome.Stored? <==> |Pool(sources)| > 0 && NoBlankOption(s)) &&
            (outcome.Stored? ==> StoredAs(outcome.questions, s))
    ensures outcome.Stored? ==> forall p | p in outcome.questions :: KeepsAnswer(p, sources)
    ensures outcome.Stored? ==>
              var wanted := if count < 1 then 1 else if count > 30 then 30 else count;
              |outcome.questions| == Min(wanted, |Ids(Pool(sources))|)
  {
    var pool := GeneratePool(sources);
    var quiz := GenerateQuiz(f, pool, count);
    if quiz.NeedsMaterial? { return NoMaterial; }
    var paired := NormalisedQuestions(quiz.questions, quiz.key);
    var stored := StoreQuiz(paired);
    outcome := if stored.Some? then Stored(stored.value) else Refused;
    QuizIntegrity(f, sources, count);
    PairedQuizIntegrity(f, sources, count, paired);
    if outcome.Stored? { StoredKeepsAnswer(f, sources, count, outcome.questions); }
    SelectionIsDistinct(ScoreOf(f), pool, Asked(count));
  }
}
