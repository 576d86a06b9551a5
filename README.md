# geobasics: the quiz and flashcard core in Dafny

geobasics is a small browser app for learning country flags. It has two pages over one
catalogue of countries (name, ISO code, region, subregion):

- **The quiz** (`app.js`). The player picks a level (a region and a subregion), an answer
  mode (multiple choice or typed) and a direction (flag to name, or name to flag). A game
  asks up to `totalQuestions` distinct countries of that level in random order. Typed names
  are compared after normalisation: trimmed, lower-cased, with runs of white space collapsed.
  The score and a review record are kept for every answer.
- **The flashcards** (`learn.js`). The countries of a level are shuffled into a deck that
  "next" and "previous" step through, wrapping around at both ends.

The model is split into six modules:

- `Seqs` (`seqs.dfy`) holds the generic sequence helpers: filtering, `slice` lengths,
  duplicate-freedom and `unique`, the order-preserving de-duplication through a `Set`.
- `Text` (`text.dfy`) holds JavaScript's `||` on possibly-missing strings and `normalize`,
  with its idempotence, the shape of its result, the characters it keeps, and its
  indifference to letter case and to the amount of white space.
- `Shuffling` (`shuffle.dfy`) holds the Fisher–Yates `shuffle`. It runs in place on an array
  copy, with `Math.random` as an arbitrary choice.
- `Catalog` (`catalog.dfy`) holds countries, `.map` projections, the level filter, the string
  order of `.sort()`, and the region and subregion lists of the selectors.
- `Quiz` (`quiz.dfy`) holds question and option generation, answer judging, and the class
  `Session`. `Session` carries the page's mutable state (`currentPool`, `questions`,
  `qPointer`, `score`, `lastResults` and the settings) through `startGame`, `checkAnswer`
  and `nextQuestion`.
- `Learn` (`learn.dfy`) holds the class `Flashcards`, with the deck, the pointer and the
  selectors, plus the wrap-around arithmetic of the pointer and what `renderCurrent` shows.

`shuffle` (learn.js:4-11) and `unique` (learn.js:13) are the same code as app.js:4-11 and
app.js:25-27 (`unique` is written on one line there). They are modelled once and cited at their app.js lines.

Points where the code behaves in a way that is easy to miss:

- Neither page offers an "all" choice for the region or the subregion: the selectors list
  only the concrete values found in the catalogue, and the level filter compares with `===`.
- Nothing stops `checkAnswer` from being called twice for the same question. Each call
  appends a record and may add to the score again. `Session.CheckAnswer` allows this as well.
- `startGame` writes the settings and `currentPool` before it checks the pool size. A level
  with fewer than two countries therefore leaves those fields overwritten and everything
  else unchanged.
- On the quiz page, `populateSubregions` (app.js:101-104) only fills the subregion selector.
  Only the flashcard page refreshes its deck there.

## Model

| member | source | states |
|---|---|---|
| Seqs.Filter | app.js:154 | `filter` keeps exactly the elements that satisfy the predicate, never more of any element than the input had, and never invents one |
| Seqs.FilterAppend | app.js:154 | filtering distributes over concatenation, so it keeps the input's order |
| Seqs.UniqueSpec | app.js:25-27 | `[...new Set(list)]` is duplicate-free, has exactly the members of the list, and lists them in order of first occurrence |
| Seqs.DistinctSubMultiset | app.js:115 | a sub-multiset of a duplicate-free sequence is duplicate-free, so sampling without replacement never repeats |
| Shuffling.Swap | app.js:8 | the destructuring swap exchanges the two cells and changes nothing else |
| Shuffling.Shuffle | app.js:4-11 | whatever the random draws, the result is a permutation of the input: same length and same multiset |
| Text.LeadingSpaces | app.js:15 | the leading run that `trim` removes is all white space and is followed by a non-space |
| Text.TrailingSpaces | app.js:15 | the trailing run that `trim` removes is all white space and is preceded by a non-space |
| Text.TrimEnds | app.js:15 | a non-empty trimmed string neither begins nor ends with white space |
| Text.CollapseChars | app.js:17 | `replace(/\s+/g, " ")` yields nothing only from nothing, and every character it yields is a space or a non-space character of its input |
| Text.CollapseEnds | app.js:17 | the collapsed string begins (ends) with white space exactly when its input does |
| Text.CollapseCollapsed | app.js:17 | after collapsing, the only white space is single spaces, never two side by side |
| Text.CollapseFixes | app.js:17 | a string already in that shape is left unchanged |
| Text.Normalize | app.js:13-18 | a missing or empty answer normalises to "" |
| Text.NormalizeIsNormal | app.js:13-18 | a normalised answer has no white space at either end, only single spaces inside, and no upper-case letter |
| Text.NormalizeFixesNormal | app.js:13-18 | a string of that shape is its own normal form |
| Text.NormalizeIdempotent | app.js:13-18 | `normalize(normalize(s)) == normalize(s)` |
| Text.NormalizeEmptyIff | app.js:14-18 | an answer normalises to "" exactly when it is missing or nothing but white space |
| Text.LeadingSpacesUnique | app.js:15 | the leading run `trim` removes is the only blank prefix followed by a non-space or the end |
| Text.TrailingSpacesUnique | app.js:15 | the trailing run `trim` removes is the only blank suffix preceded by a non-space or the start |
| Text.TrimStartBlankAppend | app.js:15 | trimming the start skips a blank first part entirely |
| Text.TrimStartVisibleAppend | app.js:15 | trimming the start of a string whose first part has a visible character touches only that part |
| Text.TrimEndBlankAppend | app.js:15 | trimming the end skips a blank last part entirely |
| Text.TrimEndVisibleAppend | app.js:15 | trimming the end of a string whose last part has a visible character touches only that part |
| Text.TrimBlank | app.js:15 | a blank string trims to "" |
| Text.TrimOuterSpace | app.js:15 | `trim` ignores white space added at either end |
| Text.TrimAround | app.js:15 | with visible text on both sides, `trim` keeps everything between them |
| Text.TrimLower | app.js:15-16 | `trim` and `toLowerCase` commute |
| Text.NormalizeLower | app.js:13-18 | lower-casing an answer first does not change its normal form |
| Text.NormalizeOuterSpace | app.js:13-18 | white space added before or after an answer does not change its normal form |
| Text.CollapseRun | app.js:17 | any non-empty run of white space, wherever it stands, collapses exactly as a single space would |
| Text.NormalizeInnerRun | app.js:13-18 | any non-empty run of white space inside an answer gives the same normal form as one space |
| Text.VisibleTrim | app.js:15 | `trim` keeps every character that is not white space, in order |
| Text.CollapseVisible | app.js:17 | `replace(/\s+/g, " ")` keeps every character that is not white space, in order |
| Text.VisibleLower | app.js:16 | the non-space characters of a lower-cased string are the lower-cased non-space characters |
| Text.NormalizeVisible | app.js:13-18 | the non-space characters of the normal form are exactly those of the answer, lower-cased and in order |
| Catalog.Project | app.js:91 | `.map(c => c.f)` has one entry per country, the i-th being that country's field |
| Catalog.ProjectAppend | app.js:91 | `.map` distributes over concatenation |
| Catalog.ProjectSubMultiset | app.js:123 | mapping a sample taken without replacement gives labels sampled without replacement |
| Catalog.Level | app.js:154 | a country is in the level exactly when it is in the catalogue with that region and subregion; no country is repeated more than in the catalogue |
| Catalog.LevelAppend | learn.js:62 | the level filter keeps catalogue order |
| Catalog.InRegion | app.js:102 | a country is kept exactly when it is in the catalogue with that region |
| Catalog.BelowTotal | app.js:91 | any two strings are comparable in the order `.sort()` uses |
| Catalog.BelowTransitive | app.js:91 | that order is transitive |
| Catalog.BelowReflexive | app.js:91 | every string is below itself in that order |
| Catalog.BelowAntisymmetric | app.js:91 | that order is antisymmetric: two strings each below the other are equal |
| Catalog.Insert | app.js:91 | insertion adds exactly the one element |
| Catalog.InsertSorted | app.js:91 | inserting into a sorted list keeps it sorted |
| Catalog.Sort | app.js:91 | `.sort()` returns a permutation of its input |
| Catalog.SortSorted | app.js:91 | `.sort()` returns a sorted list |
| Catalog.SortedEqual | app.js:91 | two sorted lists with the same elements (as a multiset) are the same list, so a list has exactly one sorted arrangement |
| Catalog.SortIsTheSort | app.js:91 | any sorted rearrangement of a list equals `Sort` of it, so every correct `.sort()` returns what the model's insertion sort returns |
| Catalog.SortedUniqueSpec | app.js:91 | `unique(list).sort()` is sorted, duplicate-free, and has exactly the list's members |
| Catalog.RegionsSpec | app.js:91 | the region selector lists every region of the catalogue once, in sorted order, and nothing else |
| Catalog.SubregionsSpec | app.js:102 | the subregion selector lists every subregion of the region once, in sorted order, and nothing else |
| Quiz.Ask | app.js:116-119 | wrapping countries into questions keeps them all, in order |
| Quiz.BuildQuestions | app.js:113-120 | the number of questions is what `slice(0, min(n, \|pool\|))` keeps; they ask only pool countries, none more often than it occurs in the pool, all of the pool when `n >= \|pool\|`, none twice when the pool has no duplicates |
| Quiz.LevelQuestions | app.js:154-161 | questions built from the level's pool ask only about countries of the catalogue in the chosen region and subregion |
| Quiz.Others | app.js:123 | the distractor candidates are exactly the pool entries whose label differs from the correct one |
| Quiz.OthersLength | app.js:123 | filtering drops exactly as many entries as carry the correct label |
| Quiz.DistractorLabels | app.js:123 | the sampled distractor labels never include the correct label, each belongs to a pool entry, and with distinct pool labels they are distinct from each other and from the correct one |
| Quiz.OptionLabels | app.js:124 | shuffling the correct label with the distractors keeps the correct label exactly once and keeps every other label from the pool |
| Quiz.BuildOptions | app.js:122-130 | options number one plus what `slice(0, k - 1)` keeps of the candidates; the correct label occurs exactly once; every other option is a pool label; all are distinct when the pool's labels are |
| Quiz.BuildNameOptions | app.js:122-125 | the same, for country names |
| Quiz.BuildFlagOptions | app.js:127-130 | the same, for flag codes |
| Quiz.OptionCount | app.js:122-130 | with distinct pool labels, a question gets exactly `k` options when the pool has at least `k` countries, and one per pool country otherwise |
| Quiz.PickNameJudged | app.js:265-268 | a clicked name is judged by its normal form, including an empty label that falls through `\|\|` to "" |
| Quiz.PickJudged | app.js:258-273 | clicking the correct option is judged correct; in name-to-flag a clicked flag is correct exactly when it is the target's code |
| Quiz.TypedNormalFormJudgedAlike | app.js:265-268 | normalising a typed answer before submitting it never changes its verdict |
| Quiz.TypedCaseJudgedAlike | app.js:265-268 | a typed name gets the same verdict in any letter case |
| Quiz.TypedOuterSpaceJudgedAlike | app.js:265-268 | white space typed before or after the answer does not change the verdict |
| Quiz.TypedInnerRunJudgedAlike | app.js:265-268 | any run of white space inside a typed answer is judged like one space |
| Quiz.TypedVariantAccepted | app.js:265-268 | the country's name typed in any letter case, with white space before and after it, is correct |
| Quiz.TypedCanadaAccepted | app.js:265-268 | typing " CANADA " for Canada's flag is correct |
| Quiz.BlankAnswerWrong | app.js:265-268 | a missing or blank answer to a flag-to-name question is wrong whenever the country name has a visible character |
| Quiz.CorrectCount | app.js:278-295 | the number of correct records is at most the number of records, and equals it exactly when all are correct |
| Quiz.CorrectCountAppend | app.js:278-295 | appending a record raises the count by one exactly when the record is correct |
| Quiz.Session.constructor | app.js:29-40 | the initial state: empty pool, questions and review, pointer and score 0, ten questions, multiple choice, flag to name |
| Quiz.Session.StartGame | app.js:145-176 | stores the settings and the level's pool; starts exactly when the pool has at least two countries; a start deals the questions and resets pointer, score and review; otherwise they stay as they were; the score stays equal to the number of correct records |
| Quiz.Session.Deal | app.js:161-164 | deals the questions from the current pool and resets the pointer, the score and the review |
| Quiz.Session.CheckAnswer | app.js:258-299 | with a current question: the verdict is the judgement of the answer, the score rises by one exactly when it is correct, and exactly one review record is appended; past the last question nothing changes; the score never exceeds the number of records |
| Quiz.Session.NextQuestion | app.js:301-308 | advances the pointer by one; the game ends exactly when it passes the last question |
| Quiz.Session.Options | app.js:217-252 | the current question's options contain its answer exactly once, clicking it is judged correct, there are `1 + min(3, candidates)` of them, and in name-to-flag only the target's code is judged correct |
| Learn.NextIndex | learn.js:96-100 | "next" stays on the deck and goes one card on, from the last card back to the first |
| Learn.PrevIndex | learn.js:102-106 | "previous" stays on the deck and goes one card back, from the first card to the last |
| Learn.NextPrevInverse | learn.js:96-106 | "previous" undoes "next" and "next" undoes "previous" |
| Learn.AdvanceShifts | learn.js:96-100 | `k` clicks on "next" move the pointer to `(p + k) mod length` |
| Learn.FullRound | learn.js:96-100 | a full round of clicks returns to the starting card, and the round from the first card visits every card in deck order |
| Learn.Render | learn.js:72-93 | an empty deck shows the "no countries" screen; "previous" and "next" are enabled exactly when the deck is not empty; otherwise the card shown is the one at its progress position, which lies in `1..length` |
| Learn.ShownAfterClicks | learn.js:86-99 | after `k` clicks on "next" from a fresh deck, card `k mod length` is shown as number `k mod length + 1` |
| Learn.Flashcards.constructor | learn.js:18-20 | the initial state: empty deck, pointer 0 |
| Learn.Flashcards.RefreshPool | learn.js:58-69 | the deck becomes a permutation of the selected level's countries, and the pointer returns to the first card |
| Learn.Flashcards.PopulateSubregions | learn.js:51-55 | the subregion selector gets the region's sorted, distinct subregions with the first one selected, and the deck is refreshed for it |
| Learn.Flashcards.ChooseRegion | learn.js:46 | choosing a region repopulates the subregions and deals that region's first subregion |
| Learn.Flashcards.ChooseSubregion | learn.js:121 | choosing a subregion deals that level |
| Learn.Flashcards.Next | learn.js:96-100 | ignored on an empty deck, otherwise one card on with wrap-around; the pointer stays on a card |
| Learn.Flashcards.Prev | learn.js:102-106 | ignored on an empty deck, otherwise one card back with wrap-around; the pointer stays on a card |
| Learn.Flashcards.View | learn.js:72-93 | what the page shows is the card the pointer is on, numbered one more, or the empty screen exactly when the deck is empty |

## Left out

- Rendering, the DOM and events: screens, buttons, image URLs (`flagUrl`), feedback texts,
  the summary badge and the progress text. The model keeps the values they display (the
  `Screen` of `Learn.Render`, the counts), not the strings.
- Loading the catalogue (`loadDB`, `fetch`, the JSON parse, the fatal-error alert) and the
  `init` functions. The catalogue is a constructor parameter that never changes.
- `buildLevelSelectors` as a whole, its `regionSelect.value || regions[0]` fallback, and
  the quiz page's `populateSubregions`. Only the lists they compute are modelled, as
  `Catalog.Regions` and `Catalog.Subregions`.
- The settings widgets: `getRadio(...) || "mcq"` and the radio buttons. `StartGame` takes
  the answer mode and the direction as values, and the question count already parsed by
  `parseInt`. A count that fails to parse is passed as `None`.
- `renderQuestion`, `lockMCQButtons`, `endGame`, `quitToMenu`, the play-again handler (it
  calls `startGame`) and the kids-mode toggle: they only change what is displayed.
- `Math.random`: each swap index is an arbitrary choice in range. The model proves the
  shuffle a permutation for every sequence of choices, but says nothing about uniformity.
- Characters: white space, `trim` and `toLowerCase` are modelled on ASCII. Unicode white
  space and the case mapping of non-ASCII letters are left out.
- Catalog.Sort: orders strings by character value, where JavaScript compares UTF-16 code
  units. The two differ only for characters outside the Basic Multilingual Plane.
- Shuffling.Shuffle: the permutation property is proved, but which permutation results
  from a given sequence of random draws is not stated.
- Quiz.Session.CheckAnswer: past the last question, `questions[qPointer].correct` throws a
  `TypeError`. This is modelled as `ok == false` with nothing changed, and the exception
  itself is not modelled.
