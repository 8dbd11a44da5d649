/** Choosing quiz questions, pairing them with their answers, and the checks before they are stored. */
module Quiz {
  import opened Prelude
  import opened Text

  /** A normalised candidate question. */
  datatype Question = Question(id: string, part: string, topic: string, prompt: string, options: seq<string>,
                               correct: string, explanation: string)

  // ---- Normalising a candidate ----

  datatype Answer = Number(n: int) | Words(text: string)

  const LETTERS := ["A", "B", "C", "D"]

  function LetterAt(n: int): string { if 0 <= n < 4 then LETTERS[n] else "A" }

  function Upper(s: string): string { if |s| == 1 && 'a' <= s[0] <= 'z' then [(s[0] as int - 32) as char] else s }

  /** Position of the first option equal to `text`, from `k` on; |options| when there is none. */
  function IndexOf(options: seq<string>, text: string, k: nat): nat
    decreases |options| - k
  {
    if k >= |options| || options[k] == text then k else IndexOf(options, text, k + 1)
  }

  /** The letter of the right option, however the answer was given. */
  function CorrectLetter(answer: Answer, options: seq<string>): string {
    match answer
    case Number(n) => LetterAt(n)
    case Words(raw) =>
      if raw != "" && AllDigits(raw) then LetterAt(ParseDec(raw))
      else
        var text := Strip(raw);
        if Upper(text) in LETTERS then Upper(text)
        else if text in options then LetterAt(IndexOf(options, text, 0)) else "A"
  }

  /** The distractors that complete a question with too few options. */
  function Fillers(partText: string, title: string): seq<string> {
    [if partText != "" then partText[..Min(|partText|, 220)] else title, "It is unrelated to " + title + ".",
     "It only applies outside " + title + ".", "None of the above."]
  }

  function NotAmong(fillers: seq<string>, options: seq<string>): seq<string> {
    if |fillers| == 0 then []
    else if fillers[0] in options then NotAmong(fillers[1..], options)
    else [fillers[0]] + NotAmong(fillers[1..], options)
  }

  function PadTo4(options: seq<string>, title: string): seq<string>
    decreases 4 - |options|
  {
    if |options| >= 4 then options else PadTo4(options + ["Another interpretation of " + title + "."], title)
  }

  function Trimmed(given: seq<string>): seq<string> { seq(|given|, i requires 0 <= i < |given| => Strip(given[i])) }

  /** Trimmed options, completed and cut to exactly four. */
  function FourOptions(given: seq<string>, partText: string, title: string): seq<string> {
    var trimmed := Trimmed(given);
    var filled := trimmed + NotAmong(Fillers(partText, title), trimmed);
    PadTo4(filled[..Min(|filled|, 4)], title)
  }

  /** A raw candidate: `given` are the options that are neither missing nor empty. */
  datatype RawQuestion = RawQuestion(id: string, part: string, topic: string, prompt: string, given: seq<string>,
                                     answer: Answer, explanation: string)

  /** The part of the material a candidate comes from. */
  datatype Part = Part(title: string, text: string)

  function Normalise(q: RawQuestion, part: Part, partIndex: nat, index: nat): Option<Question> {
    var prompt := Strip(q.prompt);
    if prompt == "" then None
    else
      var title := Strip(if part.title != "" then part.title else "Part " + Dec(partIndex + 1));
      var options := FourOptions(q.given, Strip(part.text), title);
      var id := if q.id != "" then q.id else "part-" + Dec(partIndex + 1) + "-q" + Dec(index + 1);
      Some(Question(id, if q.part != "" then q.part else title, if q.topic != "" then q.topic else title,
                    prompt, options,
                    CorrectLetter(q.answer, options), q.explanation))
  }

  lemma {:induction false} PadTo4Size(options: seq<string>, title: string)
    requires |options| <= 4
    ensures |PadTo4(options, title)| == 4 && options <= PadTo4(options, title)
    decreases 4 - |options|
  {
    if |options| < 4 {
      var more := options + ["Another interpretation of " + title + "."];
      PadTo4Size(more, title);
      assert options <= more <= PadTo4(more, title);
    }
  }

  /** Always four options; up to four given ones keep their places. */
  lemma FourOptionsAreFour(given: seq<string>, partText: string, title: string)
    ensures |FourOptions(given, partText, title)| == 4
    ensures forall i | 0 <= i < Min(|given|, 4) :: FourOptions(given, partText, title)[i] == Strip(given[i])
  {
    var trimmed := Trimmed(given);
    var filled := trimmed + NotAmong(Fillers(partText, title), trimmed);
    PadTo4Size(filled[..Min(|filled|, 4)], title);
  }

  lemma {:induction false} IndexOfFinds(options: seq<string>, text: string, k: nat)
    requires k <= |options| && text in options[k..]
    ensures k <= IndexOf(options, text, k) < |options| && options[IndexOf(options, text, k)] == text
    ensures forall j | k <= j < IndexOf(options, text, k) :: options[j] != text
    decreases |options| - k
  {
    if options[k] != text {
      assert options[k..] == [options[k]] + options[k + 1..];
      IndexOfFinds(options, text, k + 1);
    }
  }

  /** The position of the first option equal to a text. */
  predicate FirstEqual(options: seq<string>, text: string, i: nat) {
    i < |options| && options[i] == text && forall j | 0 <= j < i :: options[j] != text
  }

  /** The position of a letter from A to D in either case; 4 for any other text. */
  function LetterPosition(text: string): nat {
    if |text| != 1 then 4
    else if 'A' <= text[0] <= 'D' then text[0] as int - 'A' as int
    else if 'a' <= text[0] <= 'd' then text[0] as int - 'a' as int else 4
  }

  /** The option an answer names. A number from 0 to 3, or its digits, names the option at that position; a letter from
      A to D, in either case and with white space around it, the option under that letter; the text of an option the
      first option that reads so; anything else the first option. */
  ghost predicate Names(answer: Answer, options: seq<string>, i: nat) {
    match answer
    case Number(n) => i == if 0 <= n < 4 then n else 0
    case Words(raw) =>
      var text := Strip(raw);
      if raw != "" && AllDigits(raw) then i == if ParseDec(raw) < 4 then ParseDec(raw) else 0
      else if LetterPosition(text) < 4 then i == LetterPosition(text)
      else if text in options then FirstEqual(options, text, i) else i == 0
  }

  /** However the answer is given, the correct letter is that of the option it names. */
  lemma LetterOfAnswer(answer: Answer, options: seq<string>) returns (i: nat)
    requires |options| == 4
    ensures i < 4 && Names(answer, options, i) && CorrectLetter(answer, options) == ["A", "B", "C", "D"][i]
  {
    match answer
    case Number(n) => i := if 0 <= n < 4 then n else 0;
    case Words(raw) =>
      var text := Strip(raw);
      if raw != "" && AllDigits(raw) {
        i := if ParseDec(raw) < 4 then ParseDec(raw) else 0;
      } else if LetterPosition(text) < 4 {
        i := LetterPosition(text);
        UpperIsLetter(text);
      } else {
        UpperIsLetter(text);
        i := 0;
        if text in options {
          assert options[0..] == options;
          IndexOfFinds(options, text, 0);
          i := IndexOf(options, text, 0);
        }
      }
  }

  lemma UpperIsLetter(text: string)
    ensures Upper(text) in LETTERS <==> LetterPosition(text) < 4
    ensures LetterPosition(text) < 4 ==> Upper(text) == LETTERS[LetterPosition(text)]
  {
    if LetterPosition(text) < 4 {
      var c := Upper(text)[0];
      assert Upper(text) == [c] && c as int == 'A' as int + LetterPosition(text);
      assert c == 'A' || c == 'B' || c == 'C' || c == 'D';
    }
    if Upper(text) in LETTERS {
      assert |Upper(text)| == 1 && 'A' <= Upper(text)[0] <= 'D';
      assert |text| == 1;
    }
  }

  /** A normalised question has its own trimmed prompt, four options that begin with the trimmed given ones, and the
      letter of the option its answer names. */
  lemma NormalisedShape(q: RawQuestion, part: Part, partIndex: nat, index: nat) returns (i: nat)
    requires Normalise(q, part, partIndex, index).Some?
    ensures var n := Normalise(q, part, partIndex, index).value;
            n.prompt == Strip(q.prompt) && !Blank(n.prompt) && |n.options| == 4 &&
            (forall j | 0 <= j < Min(|q.given|, 4) :: n.options[j] == Strip(q.given[j])) &&
            i < 4 && Names(q.answer, n.options, i) && n.correct == LETTERS[i] && n.explanation == q.explanation
  {
    var title := Strip(if part.title != "" then part.title else "Part " + Dec(partIndex + 1));
    var options := FourOptions(q.given, Strip(part.text), title);
    StripIdempotent(q.prompt);
    FourOptionsAreFour(q.given, Strip(part.text), title);
    i := LetterOfAnswer(q.answer, options);
  }

  // ---- Choosing ----

  /** What the learner state says about topics and tasks. */
  datatype Focus = Focus(weak: seq<string>, requested: seq<string>, remaining: seq<string>,
                         completedTopics: seq<string>, completedTasks: seq<string>)

  function Searchable(q: Question): string { Fold(q.part + " " + q.topic + " " + q.prompt) }

  function Hits(terms: seq<string>, text: string): nat { Count((term: string) => Contains(Fold(term), text), terms) }

  function ScoreIn(f: Focus, text: string): int {
    5 * Hits(f.weak, text) + 4 * Hits(f.requested, text) + 3 * Hits(f.remaining, text)
    - 4 * Hits(f.completedTopics, text) - 2 * Hits(f.completedTasks, text)
  }

  function Score(f: Focus, q: Question): int { ScoreIn(f, Searchable(q)) }

  lemma HitsSnoc(terms: seq<string>, term: string, text: string)
    ensures Hits(terms + [term], text) == Hits(terms, text) + if Contains(Fold(term), text) then 1 else 0
  {
    CountSnoc((t: string) => Contains(Fold(t), text), terms, term);
  }

  lemma NoScore(text: string)
    ensures ScoreIn(Focus([], [], [], [], []), text) == 0
  {}

  lemma WeakScores(f: Focus, text: string, term: string)
    ensures ScoreIn(f.(weak := f.weak + [term]), text) ==
            ScoreIn(f, text) + if Contains(Fold(term), text) then 5 else 0
  {
    HitsSnoc(f.weak, term, text);
  }

  lemma RequestedScores(f: Focus, text: string, term: string)
    ensures ScoreIn(f.(requested := f.requested + [term]), text) ==
            ScoreIn(f, text) + if Contains(Fold(term), text) then 4 else 0
  {
    HitsSnoc(f.requested, term, text);
  }

  lemma RemainingScores(f: Focus, text: string, term: string)
    ensures ScoreIn(f.(remaining := f.remaining + [term]), text) ==
            ScoreIn(f, text) + if Contains(Fold(term), text) then 3 else 0
  {
    HitsSnoc(f.remaining, term, text);
  }

  lemma CompletedTopicScores(f: Focus, text: string, term: string)
    ensures ScoreIn(f.(completedTopics := f.completedTopics + [term]), text) ==
            ScoreIn(f, text) - if Contains(Fold(term), text) then 4 else 0
  {
    HitsSnoc(f.completedTopics, term, text);
  }

  lemma CompletedTaskScores(f: Focus, text: string, term: string)
    ensures ScoreIn(f.(completedTasks := f.completedTasks + [term]), text) ==
            ScoreIn(f, text) - if Contains(Fold(term), text) then 2 else 0
  {
    HitsSnoc(f.completedTasks, term, text);
  }

  /** The score from scratch: nothing counts nothing, and each term that occurs in a question adds 5 when it is a weak
      topic, 4 when it was requested, 3 when it remains to do, and takes 4 off when the topic, 2 when the task is
      done. */
  lemma ScoreAdds(f: Focus, text: string, term: string)
    ensures ScoreIn(Focus([], [], [], [], []), text) == 0
    ensures var found := Contains(Fold(term), text);
            ScoreIn(f.(weak := f.weak + [term]), text) == ScoreIn(f, text) + (if found then 5 else 0) &&
            ScoreIn(f.(requested := f.requested + [term]), text) == ScoreIn(f, text) + (if found then 4 else 0) &&
            ScoreIn(f.(remaining := f.remaining + [term]), text) == ScoreIn(f, text) + (if found then 3 else 0) &&
            ScoreIn(f.(completedTopics := f.completedTopics + [term]), text) ==
            ScoreIn(f, text) - (if found then 4 else 0) &&
            ScoreIn(f.(completedTasks := f.completedTasks + [term]), text) ==
            ScoreIn(f, text) - (if found then 2 else 0)
  {
    NoScore(text);
    WeakScores(f, text, term);
    RequestedScores(f, text, term);
    RemainingScores(f, text, term);
    CompletedTopicScores(f, text, term);
    CompletedTaskScores(f, text, term);
  }

  /** The score under one learner state, as a function of the question. */
  function ScoreOf(f: Focus): Question -> int { (q: Question) => Score(f, q) }

  /** The position of the first candidate with the highest score. */
  ghost predicate IsBest(score: Question -> int, s: seq<Question>, best: nat) {
    best < |s| &&
    (forall i | 0 <= i < |s| :: score(s[i]) <= score(s[best])) &&
    forall i | 0 <= i < best :: score(s[i]) < score(s[best])
  }

  method ChooseCandidate(score: Question -> int, available: seq<Question>) returns (best: nat)
    requires |available| > 0
    ensures IsBest(score, available, best)
  {
    best := 0;
    for i := 1 to |available|
      invariant best < i
      invariant forall j | 0 <= j < i :: score(available[j]) <= score(available[best])
      invariant forall j | 0 <= j < best :: score(available[j]) < score(available[best])
    {
      if score(available[i]) > score(available[best]) { best := i; }
    }
  }

  function WithoutId(s: seq<Question>, id: string): seq<Question> {
    if |s| == 0 then [] else if s[0].id == id then WithoutId(s[1..], id) else [s[0]] + WithoutId(s[1..], id)
  }

  lemma {:induction false} WithoutIdShrinks(s: seq<Question>, id: string)
    ensures |WithoutId(s, id)| <= |s|
    ensures (exists q | q in s :: q.id == id) ==> |WithoutId(s, id)| < |s|
    ensures forall q :: q in WithoutId(s, id) <==> q in s && q.id != id
  {
    if |s| > 0 {
      WithoutIdShrinks(s[1..], id);
      assert s == [s[0]] + s[1..];
    }
  }

  // ---- The specification: sort by score, drop repeated ids, take the first few ----

  function Higher(score: Question -> int): (Question, Question) -> bool { (a, b) => score(a) >= score(b) }

  function Ranked(score: Question -> int, s: seq<Question>): seq<Question> { SortBy(Higher(score), s) }

  /** The first question of each id, in order. */
  function FirstOfEachId(s: seq<Question>): seq<Question>
    decreases |s|
  {
    if |s| == 0 then []
    else
      WithoutIdShrinks(s[1..], s[0].id);
      [s[0]] + FirstOfEachId(WithoutId(s[1..], s[0].id))
  }

  function Selection(score: Question -> int, candidates: seq<Question>, count: nat): seq<Question> {
    var ranked := FirstOfEachId(Ranked(score, candidates));
    ranked[..Min(count, |ranked|)]
  }

  lemma {:induction false} WithoutIdInsert(score: Question -> int, x: Question, s: seq<Question>, id: string)
    requires Ordered(Higher(score), s)
    ensures WithoutId(Insert(Higher(score), x, s), id) ==
            if x.id == id then WithoutId(s, id) else Insert(Higher(score), x, WithoutId(s, id))
  {
    var le := Higher(score);
    if |s| == 0 || le(x, s[0]) {
      assert ([x] + s)[1..] == s;
      InsertAtFront(score, x, s, id);
    } else {
      WithoutIdInsert(score, x, s[1..], id);
      assert ([s[0]] + Insert(le, x, s[1..]))[1..] == Insert(le, x, s[1..]);
      if s[0].id != id {
        assert WithoutId(s, id)[1..] == WithoutId(s[1..], id);
      }
    }
  }

  lemma InsertAtFront(score: Question -> int, x: Question, s: seq<Question>, id: string)
    requires Ordered(Higher(score), s)
    requires |s| == 0 || score(x) >= score(s[0])
    ensures Insert(Higher(score), x, WithoutId(s, id)) == [x] + WithoutId(s, id)
  {
    var kept := WithoutId(s, id);
    WithoutIdShrinks(s, id);
    if |kept| > 0 {
      assert kept[0] in s;
      var k :| 0 <= k < |s| && s[k] == kept[0];
      assert k == 0 || Higher(score)(s[0], s[k]);
    }
  }

  lemma ScoreOrder(score: Question -> int)
    ensures TotalPreorder(Higher(score))
  {}

  /** Removing an id and ranking commute. */
  lemma {:induction false} WithoutIdRanked(score: Question -> int, s: seq<Question>, id: string)
    ensures WithoutId(Ranked(score, s), id) == Ranked(score, WithoutId(s, id))
  {
    if |s| > 0 {
      WithoutIdRanked(score, s[1..], id);
      ScoreOrder(score);
      SortOrders(Higher(score), s[1..]);
      WithoutIdInsert(score, s[0], Ranked(score, s[1..]), id);
      if s[0].id != id {
        assert WithoutId(s, id)[1..] == WithoutId(s[1..], id);
      }
    }
  }

  lemma RankedHeadIsMember(score: Question -> int, s: seq<Question>)
    requires |s| > 0
    ensures |Ranked(score, s)| == |s| && Ranked(score, s)[0] in s
  {
    SortPermutes(Higher(score), s);
    assert Ranked(score, s)[0] in multiset(Ranked(score, s));
    assert Ranked(score, s)[0] in multiset(s);
  }

  /** The best-ranked question is the first one with the highest score. */
  lemma {:induction false} RankedHead(score: Question -> int, s: seq<Question>, best: nat)
    requires IsBest(score, s, best)
    ensures |Ranked(score, s)| == |s| && Ranked(score, s)[0] == s[best]
  {
    var tail := Ranked(score, s[1..]);
    SortPermutes(Higher(score), s);
    if best > 0 {
      assert IsBest(score, s[1..], best - 1);
      RankedHead(score, s[1..], best - 1);
      assert score(s[0]) < score(tail[0]);
    } else if |s| > 1 {
      RankedHeadIsMember(score, s[1..]);
      var k :| 0 <= k < |s[1..]| && s[1..][k] == tail[0];
      assert s[k + 1] == tail[0];
    }
  }

  /** What the specification still has to deliver from the remaining candidates. */
  function Outstanding(score: Question -> int, remaining: seq<Question>): seq<Question> {
    FirstOfEachId(Ranked(score, remaining))
  }

  lemma SelectionStep(score: Question -> int, target: seq<Question>, selected: seq<Question>,
                      remaining: seq<Question>, best: nat)
    requires IsBest(score, remaining, best) && target == selected + Outstanding(score, remaining)
    ensures var chosen := remaining[best];
            var rest := WithoutId(remaining, chosen.id);
            |rest| < |remaining| && target == selected + [chosen] + Outstanding(score, rest)
  {
    assert remaining[best] in remaining;
    WithoutIdShrinks(remaining, remaining[best].id);
    GreedyStep(score, remaining, best);
  }

  lemma NothingOutstanding(score: Question -> int)
    ensures Outstanding(score, []) == []
  {}

  /** Greedy selection: repeatedly take the best remaining candidate and drop its id. */
  method SelectQuestions(score: Question -> int, candidates: seq<Question>, count: nat)
    returns (selected: seq<Question>)
    ensures selected == Selection(score, candidates, count)
  {
    selected := [];
    var remaining := candidates;
    ghost var target: seq<Question> := Outstanding(score, candidates);
    while |remaining| > 0 && |selected| < count
      invariant |selected| <= count
      invariant target == selected + Outstanding(score, remaining)
      decreases |remaining|
    {
      var best := ChooseCandidate(score, remaining);
      SelectionStep(score, target, selected, remaining, best);
      selected := selected + [remaining[best]];
      remaining := WithoutId(remaining, remaining[best].id);
    }
    NothingOutstanding(score);
    PrefixIsSelection(target, selected, Outstanding(score, remaining), count);
  }

  lemma PrefixIsSelection(target: seq<Question>, selected: seq<Question>, rest: seq<Question>, count: nat)
    requires target == selected + rest && |selected| <= count
    ensures |selected| == count || rest == [] ==> selected == target[..Min(count, |target|)]
  {}

  lemma GreedyStep(score: Question -> int, remaining: seq<Question>, best: nat)
    requires IsBest(score, remaining, best)
    ensures var id := remaining[best].id;
            FirstOfEachId(Ranked(score, remaining)) ==
            [remaining[best]] + FirstOfEachId(Ranked(score, WithoutId(remaining, id)))
  {
    var ranked, id := Ranked(score, remaining), remaining[best].id;
    RankedHead(score, remaining, best);
    WithoutIdRanked(score, remaining, id);
    assert WithoutId(ranked, id) == WithoutId(ranked[1..], id);
  }

  /** The distinct ids of a list. */
  function Ids(s: seq<Question>): set<string> { set q | q in s :: q.id }

  lemma IdsSplit(s: seq<Question>)
    requires |s| > 0
    ensures var rest := WithoutId(s[1..], s[0].id);
            Ids(s) == Ids(rest) + {s[0].id} && s[0].id !in Ids(rest)
  {
    var rest := WithoutId(s[1..], s[0].id);
    WithoutIdShrinks(s[1..], s[0].id);
    assert s == [s[0]] + s[1..];
    forall id | id in Ids(s) ensures id in Ids(rest) + {s[0].id} {
      var q :| q in s && q.id == id;
      if q.id != s[0].id { assert q in rest; }
    }
    forall id | id in Ids(rest) ensures id in Ids(s) {
      var q :| q in rest && q.id == id;
      assert q in s;
    }
  }

  lemma {:induction false} FirstOfEachIdSize(s: seq<Question>)
    ensures |FirstOfEachId(s)| == |Ids(s)|
    decreases |s|
  {
    if |s| == 0 {
      assert Ids(s) == {};
    } else {
      WithoutIdShrinks(s[1..], s[0].id);
      IdsSplit(s);
      FirstOfEachIdSize(WithoutId(s[1..], s[0].id));
    }
  }

  lemma {:induction false} FirstOfEachIdHolds(s: seq<Question>)
    ensures forall q | q in FirstOfEachId(s) :: q in s
    decreases |s|
  {
    if |s| > 0 {
      var rest := WithoutId(s[1..], s[0].id);
      WithoutIdShrinks(s[1..], s[0].id);
      FirstOfEachIdHolds(rest);
      forall q | q in FirstOfEachId(s) ensures q in s {
        if q != s[0] {
          assert q in FirstOfEachId(rest);
          assert q in s[1..];
        }
      }
    }
  }

  lemma {:induction false} FirstOfEachIdDistinct(s: seq<Question>)
    ensures forall i, j | 0 <= i < j < |FirstOfEachId(s)| :: FirstOfEachId(s)[i].id != FirstOfEachId(s)[j].id
    decreases |s|
  {
    if |s| > 0 {
      var rest := WithoutId(s[1..], s[0].id);
      WithoutIdShrinks(s[1..], s[0].id);
      FirstOfEachIdDistinct(rest);
      FirstOfEachIdHolds(rest);
      var tail := FirstOfEachId(rest);
      forall k | 0 <= k < |tail| ensures tail[k].id != s[0].id { assert tail[k] in rest; }
    }
  }

  /** Selected questions have pairwise distinct ids, come from the pool, and number min(count, distinct ids). */
  lemma SelectionIsDistinct(score: Question -> int, candidates: seq<Question>, count: nat)
    ensures var chosen := Selection(score, candidates, count);
            |chosen| == Min(count, |Ids(candidates)|) &&
            (forall q | q in chosen :: q in candidates) &&
            forall i, j | 0 <= i < j < |chosen| :: chosen[i].id != chosen[j].id
  {
    var ranked := Ranked(score, candidates);
    SortPermutes(Higher(score), candidates);
    FirstOfEachIdSize(ranked);
    FirstOfEachIdHolds(ranked);
    FirstOfEachIdDistinct(ranked);
    forall q ensures q in ranked <==> q in candidates {
      assert q in ranked <==> q in multiset(ranked);
      assert q in candidates <==> q in multiset(candidates);
    }
    assert Ids(ranked) == Ids(candidates);
  }

  lemma {:induction false} WithoutIdOrdered(score: Question -> int, s: seq<Question>, id: string)
    requires Ordered(Higher(score), s)
    ensures Ordered(Higher(score), WithoutId(s, id))
  {
    if |s| > 0 {
      var kept := WithoutId(s[1..], id);
      WithoutIdOrdered(score, s[1..], id);
      WithoutIdShrinks(s[1..], id);
      forall j | 0 <= j < |kept| ensures Higher(score)(s[0], kept[j]) {
        assert kept[j] in s[1..];
        var k :| 0 <= k < |s[1..]| && s[1..][k] == kept[j];
        assert s[k + 1] == kept[j];
      }
    }
  }

  /** Some listed question has the id of `q` and scores no less. */
  ghost predicate Outdone(score: Question -> int, q: Question, s: seq<Question>) {
    exists k | 0 <= k < |s| :: s[k].id == q.id && score(s[k]) >= score(q)
  }

  lemma HeadIsBest(score: Question -> int, s: seq<Question>)
    requires |s| > 0 && Ordered(Higher(score), s)
    ensures forall q | q in s :: score(s[0]) >= score(q)
  {
    forall q | q in s ensures score(s[0]) >= score(q) {
      var k :| 0 <= k < |s| && s[k] == q;
      assert k > 0 ==> Higher(score)(s[0], s[k]);
    }
  }

  lemma OutdoneCons(score: Question -> int, q: Question, first: Question, tail: seq<Question>)
    requires (q.id == first.id && score(first) >= score(q)) || Outdone(score, q, tail)
    ensures Outdone(score, q, [first] + tail)
  {
    var all := [first] + tail;
    if q.id == first.id && score(first) >= score(q) {
      assert all[0] == first;
    } else {
      var k :| 0 <= k < |tail| && tail[k].id == q.id && score(tail[k]) >= score(q);
      assert all[k + 1] == tail[k];
    }
  }

  lemma {:induction false} FirstOfEachIdBest(score: Question -> int, s: seq<Question>)
    requires Ordered(Higher(score), s)
    ensures Ordered(Higher(score), FirstOfEachId(s))
    ensures forall q | q in s :: Outdone(score, q, FirstOfEachId(s))
    decreases |s|
  {
    if |s| > 0 {
      var rest, all := WithoutId(s[1..], s[0].id), FirstOfEachId(s);
      var tail := FirstOfEachId(rest);
      WithoutIdShrinks(s[1..], s[0].id);
      WithoutIdOrdered(score, s[1..], s[0].id);
      FirstOfEachIdBest(score, rest);
      FirstOfEachIdHolds(rest);
      assert all == [s[0]] + tail;
      HeadIsBest(score, s);
      forall k | 0 <= k < |tail| ensures Higher(score)(all[0], tail[k]) { assert tail[k] in rest; }
      forall q | q in s ensures Outdone(score, q, all) {
        if q.id != s[0].id { assert q in rest; }
        OutdoneCons(score, q, s[0], tail);
      }
    }
  }

  /** Of a list without repeated ids, best first, the first `count` take the best. */
  lemma PrefixTakesBest(score: Question -> int, all: seq<Question>, count: nat, q: Question)
    requires Ordered(Higher(score), all) && Outdone(score, q, all)
    ensures var chosen := all[..Min(count, |all|)];
            Outdone(score, q, chosen) ||
            (|chosen| == count && forall i | 0 <= i < |chosen| :: score(chosen[i]) >= score(q))
  {
    var chosen := all[..Min(count, |all|)];
    var k :| 0 <= k < |all| && all[k].id == q.id && score(all[k]) >= score(q);
    if k < |chosen| {
      assert chosen[k] == all[k];
    } else {
      forall i | 0 <= i < |chosen| ensures score(chosen[i]) >= score(q) { assert Higher(score)(all[i], all[k]); }
    }
  }

  lemma RankedHolds(score: Question -> int, candidates: seq<Question>, q: Question)
    requires q in candidates
    ensures q in Ranked(score, candidates)
  {
    SortPermutes(Higher(score), candidates);
    assert q in multiset(candidates);
    assert q in multiset(Ranked(score, candidates));
  }

  /** The best questions are chosen, best first: whatever is passed over either scores no more than the chosen question
      of its own id, or the quiz is full of questions that score at least as much. */
  lemma SelectionTakesBest(score: Question -> int, candidates: seq<Question>, count: nat)
    ensures var chosen := Selection(score, candidates, count);
            (forall i, j | 0 <= i < j < |chosen| :: score(chosen[i]) >= score(chosen[j])) &&
            forall q | q in candidates ::
              Outdone(score, q, chosen) ||
              (|chosen| == count && forall i | 0 <= i < |chosen| :: score(chosen[i]) >= score(q))
  {
    var ranked, chosen := Ranked(score, candidates), Selection(score, candidates, count);
    var all := FirstOfEachId(ranked);
    ScoreOrder(score);
    SortOrders(Higher(score), candidates);
    FirstOfEachIdBest(score, ranked);
    forall i, j | 0 <= i < j < |chosen| ensures score(chosen[i]) >= score(chosen[j]) {
      assert Higher(score)(all[i], all[j]);
    }
    forall q | q in candidates
      ensures Outdone(score, q, chosen) ||
              (|chosen| == count && forall i | 0 <= i < |chosen| :: score(chosen[i]) >= score(q))
    {
      RankedHolds(score, candidates, q);
      PrefixTakesBest(score, all, count, q);
    }
  }
}
