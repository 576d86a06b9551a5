/** The quiz page: question and option generation, answer judging, and the
    session state (`currentPool`, `questions`, `qPointer`, `score`,
    `lastResults` and the chosen settings) changed by `startGame`,
    `checkAnswer` and `nextQuestion`. Rendering is left to the page. */
module Quiz {
  import opened Seqs
  import opened Text
  import opened Catalog
  import opened Shuffling

  /** One question: the country to identify. */
  datatype Question = Question(correct: Country)

  datatype AnswerMode = Mcq | Input
  datatype QuestionType = FlagToName | NameToFlag

  /** The countries asked about, in question order. */
  function Targets(qs: seq<Question>): (cs: seq<Country>)
  {
    seq(|qs|, i requires 0 <= i < |qs| => qs[i].correct)
  }

  /** `picked.map(country => ({ correct: country }))`. */
  function Ask(cs: seq<Country>): (qs: seq<Question>)
    ensures Targets(qs) == cs
  {
    seq(|cs|, i requires 0 <= i < |cs| => Question(cs[i]))
  }

  /** `buildQuestions(pool, n)`: the countries `slice(0, min(n, |pool|))` of a
      shuffled copy of the pool. No pool entry is asked about twice. */
  method BuildQuestions(pool: seq<Country>, n: int) returns (qs: seq<Question>)
    ensures |qs| == SliceLength(Min(n, |pool|), |pool|)
    ensures forall q :: q in qs ==> q.correct in pool
    ensures multiset(Targets(qs)) <= multiset(pool)
    ensures n >= |pool| ==> multiset(Targets(qs)) == multiset(pool)
    ensures Distinct(pool) ==> Distinct(Targets(qs))
  {
    var shuffled := Shuffle(pool);
    var picked := shuffled[..SliceLength(Min(n, |shuffled|), |shuffled|)];
    assert shuffled == picked + shuffled[|picked|..];
    qs := Ask(picked);
    assert multiset(picked) <= multiset(pool);
    forall q | q in qs ensures q.correct in pool {
      var i :| 0 <= i < |qs| && qs[i] == q;
      assert Targets(qs)[i] == q.correct;
      assert q.correct in multiset(picked);
    }
    if Distinct(pool) {
      DistinctSubMultiset(picked, pool);
    }
  }

  /** The distractor candidates: `pool.filter(c => c.f !== correct)`. */
  function Others(pool: seq<Country>, f: Field, correct: string): (r: seq<Country>)
    ensures forall c :: c in r <==> c in pool && Get(c, f) != correct
    ensures multiset(r) <= multiset(pool)
  {
    if pool == [] then []
    else
      assert pool == [pool[0]] + pool[1..];
      var rest := Others(pool[1..], f, correct);
      if Get(pool[0], f) != correct then [pool[0]] + rest else rest
  }

  /** Filtering drops exactly the entries that carry the correct label. */
  lemma {:induction false} OthersLength(pool: seq<Country>, f: Field, correct: string)
    ensures |Others(pool, f, correct)| == |pool| - multiset(Project(pool, f))[correct]
  {
    if pool != [] {
      OthersLength(pool[1..], f, correct);
      assert Project(pool, f) == [Get(pool[0], f)] + Project(pool[1..], f);
    }
  }

  /** The number of options `buildNameOptions` and `buildFlagOptions` return
      for a pool entry when the pool's labels are distinct: `k` when the pool
      has at least `k` entries, all of the pool otherwise. */
  lemma OptionCount(pool: seq<Country>, f: Field, i: nat, k: int)
    requires i < |pool| && Distinct(Project(pool, f)) && k >= 1
    ensures 1 + SliceLength(k - 1, |Others(pool, f, Get(pool[i], f))|) == Min(k, |pool|)
  {
    var x := Get(pool[i], f);
    OthersLength(pool, f, x);
    DistinctMultiset(Project(pool, f));
    assert Project(pool, f)[i] == x;
    assert x in multiset(Project(pool, f));
  }

  lemma DistinctCons(x: string, s: seq<string>)
    requires Distinct(s) && x !in s
    ensures Distinct([x] + s)
  {
    var t := [x] + s;
    forall i, j | 0 <= i < j < |t| ensures t[i] != t[j] {
      assert t[j] == s[j - 1];
      if i > 0 {
        assert t[i] == s[i - 1];
      }
    }
  }

  /** The labels of distractors sampled without replacement from the pool:
      none is the correct label, each belongs to a pool entry, and they are
      distinct when the pool's labels are. */
  lemma DistractorLabels(pool: seq<Country>, f: Field, correct: string, picked: seq<Country>)
    requires multiset(picked) <= multiset(Others(pool, f, correct))
    ensures correct !in Project(picked, f)
    ensures forall x :: x in Project(picked, f) ==> exists c :: c in pool && Get(c, f) == x
    ensures Distinct(Project(pool, f)) ==> Distinct([correct] + Project(picked, f))
  {
    var candidates := Others(pool, f, correct);
    var others := Project(picked, f);
    SubMultisetMembers(picked, candidates);
    forall x | x in others ensures exists c :: c in pool && Get(c, f) == x {
      var i :| 0 <= i < |others| && others[i] == x;
      assert picked[i] in candidates;
    }
    if Distinct(Project(pool, f)) {
      DistinctDistractors(pool, f, correct, picked);
    }
  }

  lemma DistinctDistractors(pool: seq<Country>, f: Field, correct: string, picked: seq<Country>)
    requires multiset(picked) <= multiset(Others(pool, f, correct))
    requires correct !in Project(picked, f)
    requires Distinct(Project(pool, f))
    ensures Distinct([correct] + Project(picked, f))
  {
    assert multiset(picked) <= multiset(pool);
    ProjectSubMultiset(picked, pool, f);
    DistinctSubMultiset(Project(picked, f), Project(pool, f));
    DistinctCons(correct, Project(picked, f));
  }

  /** The shared body of `buildNameOptions` and `buildFlagOptions`: the correct
      label plus the labels of up to `k - 1` shuffled distractors, shuffled
      again. The correct label occurs exactly once; every other label belongs to
      a pool entry whose label differs; when the pool's labels are distinct, so
      are the options. */
  method BuildOptions(pool: seq<Country>, f: Field, correct: string, k: int) returns (r: seq<string>)
    ensures |r| == 1 + SliceLength(k - 1, |Others(pool, f, correct)|)
    ensures multiset(r)[correct] == 1
    ensures forall x :: x in r && x != correct ==> exists c :: c in pool && Get(c, f) == x
    ensures Distinct(Project(pool, f)) ==> Distinct(r)
  {
    var candidates := Others(pool, f, correct);
    var shuffled := Shuffle(candidates);
    var picked := shuffled[..SliceLength(k - 1, |shuffled|)];
    assert shuffled == picked + shuffled[|picked|..];
    var others := Project(picked, f);
    DistractorLabels(pool, f, correct, picked);
    var all := [correct] + others;
    r := Shuffle(all);
    OptionLabels(pool, f, correct, others, r);
  }

  /** A permutation of the correct label followed by distractor labels keeps
      the correct label once and every other label from the pool. */
  lemma OptionLabels(pool: seq<Country>, f: Field, correct: string, others: seq<string>, r: seq<string>)
    requires multiset(r) == multiset([correct] + others)
    requires correct !in others
    requires forall x :: x in others ==> exists c :: c in pool && Get(c, f) == x
    requires Distinct(Project(pool, f)) ==> Distinct([correct] + others)
    ensures multiset(r)[correct] == 1
    ensures forall x :: x in r && x != correct ==> exists c :: c in pool && Get(c, f) == x
    ensures Distinct(Project(pool, f)) ==> Distinct(r)
  {
    var all := [correct] + others;
    assert multiset(all) == multiset{correct} + multiset(others);
    forall x | x in r && x != correct ensures x in others {
      assert x in multiset(all);
    }
    if Distinct(Project(pool, f)) {
      DistinctSubMultiset(r, all);
    }
  }

  /** `buildNameOptions(pool, correctName, k)`. */
  method BuildNameOptions(pool: seq<Country>, correctName: string, k: int) returns (r: seq<string>)
    ensures |r| == 1 + SliceLength(k - 1, |Others(pool, Name, correctName)|)
    ensures multiset(r)[correctName] == 1
    ensures forall x :: x in r && x != correctName ==> exists c :: c in pool && c.name == x
    ensures Distinct(Project(pool, Name)) ==> Distinct(r)
  {
    r := BuildOptions(pool, Name, correctName, k);
  }

  /** `buildFlagOptions(pool, correctCode, k)`. */
  method BuildFlagOptions(pool: seq<Country>, correctCode: string, k: int) returns (r: seq<string>)
    ensures |r| == 1 + SliceLength(k - 1, |Others(pool, Code, correctCode)|)
    ensures multiset(r)[correctCode] == 1
    ensures forall x :: x in r && x != correctCode ==> exists c :: c in pool && c.code == x
    ensures Distinct(Project(pool, Code)) ==> Distinct(r)
  {
    r := BuildOptions(pool, Code, correctCode, k);
  }

  /** What the user submitted: the name button, the flag button or the typed
      text (each possibly absent). */
  datatype Answer = Answer(pickedName: Option<string>, pickedCode: Option<string>, typedText: Option<string>)

  /** The property a question direction asks the user to give. */
  function Asked(qt: QuestionType): Field
  {
    match qt
    case FlagToName => Name
    case NameToFlag => Code
  }

  /** The answer a click on the option button labelled `x` submits. */
  function Pick(qt: QuestionType, x: string): Answer
  {
    match qt
    case FlagToName => Answer(Some(x), None, None)
    case NameToFlag => Answer(None, Some(x), None)
  }

  /** `checkAnswer`'s verdict: normalised name comparison in flagToName,
      exact code comparison in nameToFlag. */
  function Judge(qt: QuestionType, correct: Country, ans: Answer): bool
  {
    match qt
    case FlagToName => Normalize(Or(ans.pickedName, ans.typedText)) == Normalize(Some(correct.name))
    case NameToFlag => OrEmpty(ans.pickedCode) == correct.code
  }

  /** The label stored as `picked` in the review record. */
  function PickedLabel(qt: QuestionType, ans: Answer): string
  {
    match qt
    case FlagToName => OrEmpty(Or(ans.pickedName, ans.typedText))
    case NameToFlag => OrEmpty(ans.pickedCode)
  }

  /** A clicked name is judged by its normal form like a typed one; an empty
      label falls through `pickedName || typedText || ""` to "" and is judged
      like "". */
  lemma PickNameJudged(correct: Country, x: string)
    ensures Judge(FlagToName, correct, Pick(FlagToName, x)) <==> Normalize(Some(x)) == Normalize(Some(correct.name))
  {
    var said := Or(Some(x), None);
    assert said == Some(x) || (x == "" && said == None);
    assert Normalize(said) == Normalize(Some(x));
  }

  /** Clicking the correct option is judged correct; in nameToFlag a clicked
      flag is judged correct exactly when it is the target's code. */
  lemma PickJudged(qt: QuestionType, correct: Country, x: string)
    ensures x == Get(correct, Asked(qt)) ==> Judge(qt, correct, Pick(qt, x))
    ensures qt == NameToFlag ==> (Judge(qt, correct, Pick(qt, x)) <==> x == correct.code)
  {
    if qt == FlagToName {
      PickNameJudged(correct, x);
    }
  }

  /** In flagToName normalising a typed answer before submitting it does not
      change its verdict. */
  lemma TypedNormalFormJudgedAlike(correct: Country, t: string)
    ensures Judge(FlagToName, correct, Answer(None, None, Some(Normalize(Some(t)))))
        == Judge(FlagToName, correct, Answer(None, None, Some(t)))
  {
    NormalizeIdempotent(Some(t));
  }

  /** The answer submitted by typing `t` into the input box. */
  function Typed(t: string): Answer
  {
    Answer(None, None, Some(t))
  }

  /** In flagToName a typed answer is judged regardless of letter case. */
  lemma TypedCaseJudgedAlike(correct: Country, t: string)
    ensures Judge(FlagToName, correct, Typed(Lower(t))) == Judge(FlagToName, correct, Typed(t))
  {
    NormalizeLower(t);
  }

  /** In flagToName white space typed before or after the answer is ignored. */
  lemma TypedOuterSpaceJudgedAlike(correct: Country, w: string, t: string)
    requires Blank(w)
    ensures Judge(FlagToName, correct, Typed(w + t)) == Judge(FlagToName, correct, Typed(t))
    ensures Judge(FlagToName, correct, Typed(t + w)) == Judge(FlagToName, correct, Typed(t))
  {
    NormalizeOuterSpace(w, t);
  }

  /** In flagToName any run of white space inside a typed answer counts as one
      space. */
  lemma TypedInnerRunJudgedAlike(correct: Country, a: string, w: string, b: string)
    requires Blank(w) && w != []
    ensures Judge(FlagToName, correct, Typed(a + w + b)) == Judge(FlagToName, correct, Typed(a + " " + b))
  {
    NormalizeInnerRun(a, w, b);
  }

  /** In flagToName the country's name typed in any letter case, with any
      white space before and after, is a correct answer. */
  lemma TypedVariantAccepted(correct: Country, w: string, u: string, w': string)
    requires Blank(w) && Blank(w') && Lower(u) == Lower(correct.name)
    ensures Judge(FlagToName, correct, Typed(w + u + w'))
  {
    assert w + u + w' == w + (u + w');
    NormalizeOuterSpace(w, u + w');
    NormalizeOuterSpace(w', u);
    NormalizeLower(u);
    NormalizeLower(correct.name);
  }

  /** Typing " CANADA " for Canada's flag is a correct answer. */
  lemma TypedCanadaAccepted()
    ensures Judge(FlagToName, Country("Canada", "ca", "Americas", "Northern America"), Typed(" CANADA "))
  {
    assert " CANADA " == " " + "CANADA" + " ";
    assert Lower("CANADA") == Lower("Canada");
    TypedVariantAccepted(Country("Canada", "ca", "Americas", "Northern America"), " ", "CANADA", " ");
  }

  /** A blank or missing answer to a flagToName question is wrong whenever the
      country's name has a visible character. */
  lemma BlankAnswerWrong(correct: Country, ans: Answer)
    requires !Blank(correct.name)
    requires Blank(OrEmpty(Or(ans.pickedName, ans.typedText)))
    ensures !Judge(FlagToName, correct, ans)
  {
    NormalizeEmptyIff(Or(ans.pickedName, ans.typedText));
    NormalizeEmptyIff(Some(correct.name));
    assert correct.name != "";
    assert OrEmpty(Some(correct.name)) == correct.name;
  }

  /** One entry of the end-of-game review. */
  datatype ReviewRecord = ReviewRecord(
    region: string,
    subregion: string,
    correctName: string,
    correctCode: string,
    questionType: QuestionType,
    answerMode: AnswerMode,
    picked: string,
    wasCorrect: bool)

  function Record(correct: Country, qt: QuestionType, mode: AnswerMode, ans: Answer, isCorrect: bool): ReviewRecord
  {
    ReviewRecord(correct.region, correct.subregion, correct.name, correct.code, qt, mode,
                 PickedLabel(qt, ans), isCorrect)
  }

  /** The number of records marked correct: never more than the number of
      records, and equal to it exactly when every record is correct. */
  function CorrectCount(rs: seq<ReviewRecord>): (n: nat)
    ensures n <= |rs|
    ensures n == |rs| <==> forall i :: 0 <= i < |rs| ==> rs[i].wasCorrect
  {
    if rs == [] then 0
    else (if rs[0].wasCorrect then 1 else 0) + CorrectCount(rs[1..])
  }

  /** Appending a record raises the count by one exactly when it is correct. */
  lemma {:induction false} CorrectCountAppend(rs: seq<ReviewRecord>, r: ReviewRecord)
    ensures CorrectCount(rs + [r]) == CorrectCount(rs) + (if r.wasCorrect then 1 else 0)
  {
    if rs == [] {
      assert rs + [r] == [r];
    } else {
      assert (rs + [r])[1..] == rs[1..] + [r];
      CorrectCountAppend(rs[1..], r);
    }
  }

  /** Questions drawn from a level ask only about that level's countries. */
  lemma LevelQuestions(db: seq<Country>, region: string, subregion: string, qs: seq<Question>)
    requires multiset(Targets(qs)) <= multiset(Level(db, region, subregion))
    ensures forall q :: q in qs ==>
      q.correct in db && q.correct.region == region && q.correct.subregion == subregion
  {
    var pool := Level(db, region, subregion);
    forall q | q in qs
      ensures q.correct in db && q.correct.region == region && q.correct.subregion == subregion
    {
      var i :| 0 <= i < |qs| && qs[i] == q;
      assert Targets(qs)[i] in multiset(Targets(qs));
    }
  }

  /** `parseInt(value, 10) || 10`: a count that does not parse (`NaN`) or is
      0 falls back to ten questions; any other count is kept. */
  function QuestionCount(requested: Option<int>): (n: int)
    ensures n != 0
  {
    if requested.Some? && requested.value != 0 then requested.value else 10
  }

  /** The quiz page's global state. `db` is the catalogue, loaded once before
      anything else runs. */
  class Session {
    const db: seq<Country>
    var currentPool: seq<Country>
    var questions: seq<Question>
    var qPointer: int
    var score: int
    var answerMode: AnswerMode
    var questionType: QuestionType
    var totalQuestions: int
    var lastResults: seq<ReviewRecord>

    /** The score is the number of correct review records, and the pointer
        never goes below the first question. */
    ghost predicate Valid()
      reads this
    {
      qPointer >= 0 && score == CorrectCount(lastResults)
    }

    /** The state once the catalogue is loaded. */
    constructor (db: seq<Country>)
      ensures Valid()
      ensures this.db == db && currentPool == [] && questions == [] && lastResults == []
      ensures qPointer == 0 && score == 0 && totalQuestions == 10
      ensures answerMode == Mcq && questionType == FlagToName
    {
      this.db := db;
      currentPool, questions, lastResults := [], [], [];
      qPointer, score, totalQuestions := 0, 0, 10;
      answerMode, questionType := Mcq, FlagToName;
    }

    /** `startGame`: records the settings, selects the level's countries, and
        when there are at least two of them deals the questions. With fewer
        than two it returns early, after the settings and the pool have been
        overwritten. `requested` is the question-count selector parsed as a
        decimal integer, `None` when it does not parse. */
    method StartGame(region: string, subregion: string, mode: AnswerMode, qt: QuestionType,
                     requested: Option<int>)
      returns (started: bool)
      requires Valid()
      modifies this
      ensures Valid()
      ensures answerMode == mode && questionType == qt && totalQuestions == QuestionCount(requested)
      ensures currentPool == Level(db, region, subregion)
      ensures started <==> |currentPool| >= 2
      ensures !started ==> (questions == old(questions) && qPointer == old(qPointer)
                            && score == old(score) && lastResults == old(lastResults))
      ensures started ==> qPointer == 0 && score == 0 && lastResults == []
      ensures started ==> |questions| == SliceLength(Min(totalQuestions, |currentPool|), |currentPool|)
      ensures started ==> multiset(Targets(questions)) <= multiset(currentPool)
    {
      answerMode, questionType, totalQuestions := mode, qt, QuestionCount(requested);
      currentPool := Level(db, region, subregion);
      started := |currentPool| >= 2;
      if started {
        Deal();
      }
    }

    /** The second half of `startGame`: `totalQuestions` questions (at most)
        drawn from the current pool, with the pointer, the score and the
        review reset. */
    method Deal()
      modifies this`questions, this`qPointer, this`score, this`lastResults
      ensures Valid()
      ensures qPointer == 0 && score == 0 && lastResults == []
      ensures |questions| == SliceLength(Min(totalQuestions, |currentPool|), |currentPool|)
      ensures multiset(Targets(questions)) <= multiset(currentPool)
    {
      questions := BuildQuestions(currentPool, totalQuestions);
      qPointer, score, lastResults := 0, 0, [];
    }

    /** `checkAnswer`: judges the answer against the current question, adds one
        to the score exactly when it is correct, and appends one review record.
        Nothing guards against a second call for the same question. When the
        pointer is past the last question the page's `questions[qPointer].correct`
        throws before anything changes; that is `ok == false`. */
    method CheckAnswer(ans: Answer) returns (ok: bool, isCorrect: bool)
      requires Valid()
      modifies this`score, this`lastResults
      ensures Valid()
      ensures ok <==> qPointer < |questions|
      ensures ok ==> isCorrect == Judge(questionType, questions[qPointer].correct, ans)
      ensures ok ==> score == old(score) + (if isCorrect then 1 else 0)
      ensures ok ==> (lastResults == old(lastResults)
                      + [Record(questions[qPointer].correct, questionType, answerMode, ans, isCorrect)])
      ensures !ok ==> !isCorrect && score == old(score) && lastResults == old(lastResults)
      ensures old(score) <= score <= |lastResults|
    {
      if qPointer >= |questions| {
        return false, false;
      }
      var correct := questions[qPointer].correct;
      isCorrect := Judge(questionType, correct, ans);
      if isCorrect {
        score := score + 1;
      }
      var rec := Record(correct, questionType, answerMode, ans, isCorrect);
      CorrectCountAppend(lastResults, rec);
      lastResults := lastResults + [rec];
      ok := true;
    }

    /** `nextQuestion`: moves to the next question; the game ends exactly when
        the pointer has passed the last one. */
    method NextQuestion() returns (finished: bool)
      requires Valid()
      modifies this`qPointer
      ensures Valid()
      ensures qPointer == old(qPointer) + 1
      ensures finished <==> qPointer >= |questions|
    {
      qPointer := qPointer + 1;
      finished := qPointer >= |questions|;
    }

    /** `renderOptions` (multiple-choice mode): four options for the current
        question, names in flagToName and codes in nameToFlag, drawn from the
        current pool. Clicking the correct one is judged correct. */
    method Options() returns (opts: seq<string>)
      requires Valid() && qPointer < |questions|
      ensures var c := questions[qPointer].correct; var f := Asked(questionType);
        && multiset(opts)[Get(c, f)] == 1
        && Judge(questionType, c, Pick(questionType, Get(c, f)))
        && |opts| == 1 + Min(3, |Others(currentPool, f, Get(c, f))|)
      ensures questionType == NameToFlag ==> forall x :: x in opts ==>
        (Judge(questionType, questions[qPointer].correct, Pick(questionType, x)) <==> x == questions[qPointer].correct.code)
    {
      var correct := questions[qPointer].correct;
      if questionType == FlagToName {
        opts := BuildNameOptions(currentPool, correct.name, 4);
      } else {
        opts := BuildFlagOptions(currentPool, correct.code, 4);
      }
      PickJudged(questionType, correct, Get(correct, Asked(questionType)));
      forall x | x in opts && questionType == NameToFlag
        ensures Judge(questionType, correct, Pick(questionType, x)) <==> x == correct.code
      {
        PickJudged(questionType, correct, x);
      }
    }
  }
}
