# Interior-design site: quiz, gallery and carousel

A model of the three pieces of sequential logic in a single-page interior-design
website written in React. Everything else on the site is static presentation.

- **The style quiz** (`Quiz.tsx`) shows five questions with four options each.
  A click on an option records that option's text and moves to the next
  question. After the fifth answer the component shows a result record.
  `getResult` works in four steps:
  - It resolves every answer text to the style of the first option carrying it.
  - It tallies the styles in an object whose keys come out in first-insertion
    order (OrdinaryOwnPropertyKeys, section 10.1.11.1 of ECMAScript 2021).
  - It picks the dominant style with `reduce` and a strict `>`. On a tie this is
    the *last* tallied style with the largest count.
  - It looks that style up among four records, falling back to the
    "Contemporary" record.

  "Back" removes the last answer. "Retake Quiz" clears everything.
- **The portfolio gallery** (`Portfolio.tsx`) has nine projects and a category
  filter. A lightbox shows one filtered project at a time, and its arrows step
  cyclically through the filtered list. A category button changes the filter
  but not the lightbox index. The overlay keeps the mouse away from the
  buttons, but the keyboard can still reach them, and then the index can land
  past the end of the new list. A grid item that a category change removes
  fades out for half a second and still opens the lightbox at its old index,
  which can land past the end of the new list in the same way. A closed
  lightbox fades out too, and its arrows still step from its old index over
  its old list (see Findings). The model keeps the page's handlers as
  `StepAsWritten` and proves the invariants for a corrected `Step` that closes
  the lightbox on a category change and ignores clicks on fading items and on
  the fading lightbox.
- **The hero carousel** (`Hero.tsx`) has four slides. The arrows step through
  them cyclically, the indicator dots select a slide, and a timer advances one
  slide per tick.

Modules, one per file:

| module | what it holds |
|---|---|
| `Wrappers` | `Option` and `Result` |
| `Cyclic` | JavaScript's truncating `%`, plus the cyclic successor and predecessor that the lightbox and the carousel share |
| `Tally` | the insertion-ordered style tally and the `reduce` that picks its dominant key |
| `QuizData` | the question table and the four result records, copied verbatim (images left out) |
| `QuizScoring` | answer resolution and `getResult` |
| `QuizFlow` | the quiz state machine |
| `Portfolio` | the gallery |
| `Hero` | the carousel |

The tally is a sequence of `(style, count)` pairs in first-occurrence order,
not an unordered map. This is because the tie-break depends on key order. The
tie-break could be read as implementation-defined, but the code together with
the ECMAScript key order makes it deterministic, and the model follows the code.

`reduce` without an initial value throws on an empty key list. This happens
when no answer resolves to a style. The model returns `Failure(EmptyTally)` in
that case, and proves it never happens on the result view.

Verifying the shipped tables brought out one property of the quiz, proved in
`QuizScoring.CompletedQuizResult` and `QuizFlow.ReachableResults`. Only two
styles repeat across the five questions: "Bohemian" in Q1 and Q2, and
"Contemporary" in Q1 and Q3. No style of Q5 has a record. So a quiz finished
through the buttons shows the "Bohemian Free Spirit" record exactly when Q1 was
answered "Warm, layered, and eclectic" and Q2 was answered "Earthy terracotta
and sage". Every other finished quiz shows "Contemporary Sophisticate". The
"Modern Minimalist" and "Industrial Urban Dweller" records can never be shown.
This is the code's behaviour. Nothing in the code says which behaviour was
meant, so it is not recorded as a finding.

## Model

| member | source | states |
|---|---|---|
| Cyclic.JsRem | src/components/Portfolio/Portfolio.tsx:107 | The JavaScript remainder: it differs from the dividend by a multiple of the divisor; for a non-negative dividend it lies in `[0, Abs(b))` and agrees with the Euclidean `%`; for a negative dividend it is non-positive and above `-Abs(b)` |
| Cyclic.JsRemOfNegative | src/components/Portfolio/Portfolio.tsx:113 | The JavaScript and Euclidean remainders differ on `-1 % 4` (-1 against 3), which is why the predecessor adds `n` before taking the remainder |
| Cyclic.Next | src/components/Portfolio/Portfolio.tsx:107 | `(i + 1) % n` is in `[0, n)`; it is `i + 1` below the last index and wraps to 0 from the last |
| Cyclic.Prev | src/components/Portfolio/Portfolio.tsx:113 | `(i - 1 + n) % n` is in `[0, n)`; it is `i - 1` above 0 and wraps to `n - 1` from 0 |
| Cyclic.PrevNext | src/components/Portfolio/Portfolio.tsx:105-115 | For an in-range index, the predecessor undoes the successor |
| Cyclic.NextPrev | src/components/Portfolio/Portfolio.tsx:105-115 | For an in-range index, the successor undoes the predecessor |
| Cyclic.NextIterWraps | src/components/Portfolio/Portfolio.tsx:105-109 | `k <= n` successor steps from `i` land on `i + k`, less `n` once past the end |
| Cyclic.NextPeriod | src/components/Portfolio/Portfolio.tsx:105-109 | `n` successor steps return to the starting index |
| Cyclic.NextIterInRange | src/components/Portfolio/Portfolio.tsx:105-109 | Any number of successor steps from an in-range index stays in range |
| Tally.Keys | src/components/Quiz/Quiz.tsx:79 | `Object.keys(styleCount)` lists the tally's keys, position by position |
| Tally.Bump | src/components/Quiz/Quiz.tsx:74 | `styleCount[s]` becomes its old value, or 0, plus one: the count of `s` rises by one and every other count is unchanged; an existing key keeps its place and a new key is appended last; the total rises by one |
| Tally.TallyOf | src/components/Quiz/Quiz.tsx:66-77 | Tallying a list of styles gives each style its number of occurrences; the keys are exactly the styles that occur, every count is positive, and the counts add up to the list's length |
| Tally.TallyDistinct | src/components/Quiz/Quiz.tsx:66-77 | No style appears twice among the tally's keys |
| Tally.FirstIndex | src/components/Quiz/Quiz.tsx:79 | The position where a style first occurs in a list |
| Tally.FirstIndexAppend | src/components/Quiz/Quiz.tsx:67-77 | Appending an element keeps every earlier first occurrence, and places a new element's first occurrence at the end |
| Tally.TallyFirstOccurrenceOrder | src/components/Quiz/Quiz.tsx:66-79 | The tally's keys are ordered by where each style first occurs among the answers (insertion order) |
| Tally.CountOf | src/components/Quiz/Quiz.tsx:74-80 | The `styleCount[key]` read, characterised by `CountOfEntry` and `CountOfAbsent`: an entry's key reads as that entry's count, and a missing key reads as 0 |
| Tally.CountOfEntry | src/components/Quiz/Quiz.tsx:80 | With distinct keys, looking up an entry's key gives that entry's count |
| Tally.CountOfAbsent | src/components/Quiz/Quiz.tsx:74 | The fallback to 0 when `styleCount[style]` is missing: a style that is not a key reads as 0 |
| Tally.ReduceKeys | src/components/Quiz/Quiz.tsx:79-81 | The strict-`>` reduce over a non-empty key list returns one of the keys; its count is the maximum, and every later key has a strictly smaller count |
| Tally.Dominant | src/components/Quiz/Quiz.tsx:79-81 | The dominant style is one of the tally's keys; with distinct keys it is an entry holding the largest count, and no later entry reaches that count |
| Tally.UniqueMaximumWins | src/components/Quiz/Quiz.tsx:66-81 | A style that occurs strictly more often than every other style is the dominant one |
| Tally.DistinctLastWins | src/components/Quiz/Quiz.tsx:66-81 | When all styles differ, every count is 1 and the last style wins the tie |
| QuizData.FourOptionsEach | src/components/Quiz/Quiz.tsx:17-63 | The table has five questions with four options each |
| QuizData.OptionTextsDistinct | src/components/Quiz/Quiz.tsx:17-63 | All twenty option texts are pairwise distinct |
| QuizData.SharedStyles | src/components/Quiz/Quiz.tsx:17-63 | Only two pairs of options in different questions share a style: Bohemian in Q1 and Q2, and Contemporary in Q1 and Q3 |
| QuizData.LastQuestionStylesUnrecorded | src/components/Quiz/Quiz.tsx:54-108 | No style of the last question has a result record |
| QuizScoring.FindOption | src/components/Quiz/Quiz.tsx:72 | `options.find(opt => opt.text === answer)` gives the first option with that text, or nothing when no option has it |
| QuizScoring.FindQuestion | src/components/Quiz/Quiz.tsx:68-70 | `questions.flat().find(q => q.options?.some(...))` gives the first question with an option of that text, or nothing when no question has one |
| QuizScoring.Resolve | src/components/Quiz/Quiz.tsx:68-75 | An answer that resolves gets a non-empty style, and some option of the table carries exactly that text with that style; an answer that no option carries resolves to nothing |
| QuizScoring.RepeatedOption | src/components/Quiz/Quiz.tsx:68-75 | Answers that all repeat one shipped option's text all resolve to that option's style |
| QuizScoring.ResolveShipped | src/components/Quiz/Quiz.tsx:17-73 | Every shipped option's text resolves to that option's own style, because first match and unique match coincide |
| QuizScoring.ResolveShippedIff | src/components/Quiz/Quiz.tsx:17-73 | An answer resolves to a style if and only if some shipped option has exactly that text and that style |
| QuizScoring.ResolvedStyles | src/components/Quiz/Quiz.tsx:67-77 | The styles of the resolvable answers: there are as many as resolvable answers, never more than answers; each style occurs as often as answers vote for it; when every answer resolves, the i-th style is the i-th answer's style |
| QuizScoring.VotesForAppend | src/components/Quiz/Quiz.tsx:67-77 | One more answer adds one to the count of its own style and to the resolvable total, and nothing otherwise |
| QuizScoring.CountStyles | src/components/Quiz/Quiz.tsx:66-77 | The `forEach` tally: each style's count is the number of answers that resolve to it; a style is a key exactly when it got a vote; the counts add up to the number of resolvable answers |
| QuizScoring.CountStylesOrder | src/components/Quiz/Quiz.tsx:66-81 | When every answer resolves, the `forEach` tally is the tally of the answers' styles, and its keys come in the order of each style's first vote, which is the order the tie-break of `reduce` reads |
| QuizScoring.Lookup | src/components/Quiz/Quiz.tsx:110 | `results[key]` is found exactly when the table has that key, and then it is the record stored under it |
| QuizScoring.LookupResults | src/components/Quiz/Quiz.tsx:83-108 | The results table maps the four styles to their four records, and holds nothing else |
| QuizScoring.ResultFor | src/components/Quiz/Quiz.tsx:110 | `results[s]`, falling back to `results['Contemporary']`: the three other styles get their records, and everything else gets the Contemporary record |
| QuizScoring.GetResult | src/components/Quiz/Quiz.tsx:65-111 | `getResult` fails (the key-less reduce throws) exactly when no answer resolves to a style; otherwise it gives the record of a style that is the last maximum of the tally |
| QuizScoring.EmptyTallyIff | src/components/Quiz/Quiz.tsx:65-81 | The tally is empty exactly when no answer resolves |
| QuizScoring.DominantOfAnswers | src/components/Quiz/Quiz.tsx:79-81 | The dominant style of the answers' tally is its last maximum |
| QuizScoring.ResolvedStylesAligned | src/components/Quiz/Quiz.tsx:67-77 | When every answer resolves, the resolved styles are the answers' styles, position by position |
| QuizScoring.PickedOptions | src/components/Quiz/Quiz.tsx:196-201 | A completed quiz answered through the buttons picked one option index per question |
| QuizScoring.PickedResolve | src/components/Quiz/Quiz.tsx:17-75 | The picked options' texts resolve, question by question, to the picked options' styles |
| QuizScoring.PickedDominant | src/components/Quiz/Quiz.tsx:66-81 | The dominant style of a completed quiz is Bohemian (Q1 and Q2 Bohemian), Contemporary (Q1 and Q3 Contemporary), or else the style picked at Q5 |
| QuizScoring.GetResultFromStyles | src/components/Quiz/Quiz.tsx:65-111 | When every answer resolves to the given styles and the tally is non-empty, `getResult` gives the record for the dominant style of those styles |
| QuizScoring.CompletedQuizResult | src/components/Quiz/Quiz.tsx:17-111 | A quiz completed through the buttons shows Bohemian Free Spirit when Bohemian was picked at Q1 and Q2, and Contemporary Sophisticate in every other case |
| QuizScoring.PickedResult | src/components/Quiz/Quiz.tsx:79-110 | The record for the dominant style of the picked options is Bohemian Free Spirit when Q1 and Q2 are Bohemian, and Contemporary Sophisticate otherwise |
| QuizScoring.TieGoesToLastQuestion | src/components/Quiz/Quiz.tsx:54-110 | Any style of the last question falls back to the Contemporary record |
| QuizScoring.OfferedAnswersAllCount | src/components/Quiz/Quiz.tsx:65-77 | Answers given through the buttons all count: the tally adds up to the number of answers |
| QuizScoring.AllResolvable | src/components/Quiz/Quiz.tsx:67-77 | When every answer resolves, the resolvable count is the number of answers |
| QuizScoring.FiveWayTieScenario | src/components/Quiz/Quiz.tsx:21-110 | The five answers "Clean, minimal, and serene" … "Beauty and aesthetics" give five styles a count of 1 each; "Aesthetic" wins the tie as the last one, and having no record it yields Contemporary Sophisticate |
| QuizScoring.TieScenarioStyles | src/components/Quiz/Quiz.tsx:21-59 | Those five answers resolve to Minimalist, Scandinavian, Classic, Elegant and Aesthetic |
| QuizScoring.DistinctTie | src/components/Quiz/Quiz.tsx:65-111 | Five answers resolving to five distinct styles, the last one any style of Q5, count each style once, make the last one dominant, and yield Contemporary Sophisticate |
| QuizScoring.LastQuestionWinnerResult | src/components/Quiz/Quiz.tsx:54-111 | When every answer resolves and the dominant style is one offered by Q5, `getResult` gives Contemporary Sophisticate |
| QuizScoring.AllBohemianScenario | src/components/Quiz/Quiz.tsx:22-110 | Answering only "Warm, layered, and eclectic" counts every answer for Bohemian and nothing else, and yields Bohemian Free Spirit |
| QuizScoring.UnanimousOutcome | src/components/Quiz/Quiz.tsx:65-111 | Answers that all resolve to one style count that style once per answer and nothing else, and `getResult` gives that style's record |
| QuizScoring.SameStyleCounts | src/components/Quiz/Quiz.tsx:66-77 | A list made of one style holds that style as often as it is long, and no other |
| QuizFlow.HandleAnswer | src/components/Quiz/Quiz.tsx:113-122 | `handleAnswer` appends exactly the given answer and keeps the earlier ones; before the last question it moves to the next question and leaves `showResult` alone; at the last question it stays there and shows the result; it leaves the email alone |
| QuizFlow.DropLast | src/components/Quiz/Quiz.tsx:127 | `answers.slice(0, -1)` removes the last answer, and leaves an empty list empty |
| QuizFlow.GoBack | src/components/Quiz/Quiz.tsx:124-129 | At question 0 `goBack` changes nothing; otherwise it moves back one question and drops exactly the last answer |
| QuizFlow.Reset | src/components/Quiz/Quiz.tsx:131-136 | `resetQuiz` returns to question 0, with no answers, no result and an empty email, whatever the state |
| QuizFlow.Step | src/components/Quiz/Quiz.tsx:160-325 | Only the buttons of the rendered view act: on the result view only "Retake Quiz", which gives the mount state; "Back" is exactly `goBack`, so it does nothing at question 0 and elsewhere moves back one question dropping the last answer; an option button is exactly `handleAnswer` of its own text, and an index with no button changes nothing; only a retake touches the email |
| QuizFlow.DisplayedResult | src/components/Quiz/Quiz.tsx:138 | A result is computed exactly when `showResult` holds |
| QuizFlow.InitialValid | src/components/Quiz/Quiz.tsx:12-15 | The mount state is in the question phase, at question 0 |
| QuizFlow.HandleAnswerValid | src/components/Quiz/Quiz.tsx:113-122 | Answering the current question with one of its options keeps the phase invariant |
| QuizFlow.GoBackValid | src/components/Quiz/Quiz.tsx:124-129 | Going back keeps the phase invariant |
| QuizFlow.StepValid | src/components/Quiz/Quiz.tsx:113-136 | Every click the rendered component allows keeps the phase invariant: while questions are shown, the answer count equals the question index; on the result view, all five questions are answered |
| QuizFlow.RunValid | src/components/Quiz/Quiz.tsx:113-136 | The phase invariant holds after any sequence of clicks |
| QuizFlow.ReachableResults | src/components/Quiz/Quiz.tsx:12-138 | Whatever the user clicks, the result view, when shown, holds the Bohemian or the Contemporary record, and `getResult` never throws there |
| QuizFlow.GoBackUndoesAnswer | src/components/Quiz/Quiz.tsx:113-129 | Going back right after an answer that did not complete the quiz restores the earlier state |
| QuizFlow.AnswerRedoesGoBack | src/components/Quiz/Quiz.tsx:113-129 | Answering again with the answer that `goBack` dropped restores the state before going back |
| QuizFlow.NoResultInProgress | src/components/Quiz/Quiz.tsx:138 | While questions are shown, and in particular with no answers, no result is computed |
| Portfolio.OfCategory | src/components/Portfolio/Portfolio.tsx:103 | The category filter keeps exactly the projects of that category, each as often as before, in their original order |
| Portfolio.FilteredProjects | src/components/Portfolio/Portfolio.tsx:101-103 | "All" gives every project in original order; any other category gives exactly its projects, in original order |
| Portfolio.IsSubsequenceOfSelf | src/components/Portfolio/Portfolio.tsx:101-102 | The unfiltered list keeps the original order |
| Portfolio.FilteredContains | src/components/Portfolio/Portfolio.tsx:101-103 | A project of the selected category, or any project under "All", is shown |
| Portfolio.FilterNeverEmpty | src/components/Portfolio/Portfolio.tsx:15-103 | Every filter button shows at least one project, so the lightbox's modulus is never 0 |
| Portfolio.NextImage | src/components/Portfolio/Portfolio.tsx:105-109 | `nextImage` leaves a closed lightbox closed; an open one moves one forward, wrapping from the last project to the first, and stays in range |
| Portfolio.PrevImage | src/components/Portfolio/Portfolio.tsx:111-115 | `prevImage` leaves a closed lightbox closed; an open one moves one back, wrapping from the first project to the last, and stays in range |
| Portfolio.PrevNextImage | src/components/Portfolio/Portfolio.tsx:105-115 | On an open in-range lightbox, and on a closed one, each of previous and next undoes the other |
| Portfolio.NextImageIterIsNextIter | src/components/Portfolio/Portfolio.tsx:105-109 | Repeated "next" clicks leave a closed lightbox closed and step an open one by the cyclic successor |
| Portfolio.NextImagePeriod | src/components/Portfolio/Portfolio.tsx:105-109 | Clicking "next" as many times as there are shown projects returns to the same project |
| Portfolio.StepAsWritten | src/components/Portfolio/Portfolio.tsx:138-245 | The page's handlers: activating a category button, by mouse or, with the lightbox open, by keyboard, switches the filter and keeps the lightbox index; a click on a grid item fading out after a category switch opens the lightbox at its old index; an arrow of the fading lightbox reopens it one step from its old index over its old list; every other event acts as in `Step` |
| Portfolio.RunAsWritten | src/components/Portfolio/Portfolio.tsx:101-245 | Events run through the page's handlers, and a render past the end of the filtered list stops the run; without category selections and clicks on fading items and on the fading lightbox's arrows the run is the corrected `Run`, so only those events can end on an invalid state; the selection always stays on a button |
| Portfolio.KeyboardFilterSwitchCrashes | src/components/Portfolio/Portfolio.tsx:139-219 | Opening project 9 under "All" and then activating "Office" from the keyboard leaves index 8 over a one-project list, so `filteredProjects[lightboxImage]` is undefined |
| Portfolio.LeavingItemClickCrashes | src/components/Portfolio/Portfolio.tsx:157-219 | Switching from "All" to "Office" and then clicking project 9's item while it fades out opens the lightbox on index 8 of a one-project list, so `filteredProjects[lightboxImage]` is undefined |
| Portfolio.FadingArrowCrashes | src/components/Portfolio/Portfolio.tsx:204-241 | Opening project 9 under "All", closing the lightbox, activating "Office" from the keyboard while it fades, and clicking its left arrow reopens it on index 7 of a one-project list, so `filteredProjects[lightboxImage]` is undefined |
| Portfolio.Step | src/components/Portfolio/Portfolio.tsx:138-245 | The corrected handlers: a category selection switches the filter and closes the lightbox; a grid item opens its own index only while the lightbox is closed and in range, and a fading one does nothing; the arrows step the lightbox exactly as `nextImage` and `prevImage` do and keep the filter, and the fading lightbox's arrows do nothing; close targets close it |
| Portfolio.StepsAgree | src/components/Portfolio/Portfolio.tsx:139-245 | The page's handlers and the corrected ones agree on an event if and only if it is not a category selection while the lightbox is open, not a click on a fading grid item while it is closed, and not a click on an arrow of the fading lightbox |
| Portfolio.StepValid | src/components/Portfolio/Portfolio.tsx:138-245 | With the corrected handlers, every event keeps the selection on a category button and an open lightbox on a shown project, including a category button activated from the keyboard under the open lightbox, a click on a fading grid item and a click on an arrow of the fading lightbox |
| Portfolio.SelectValid | src/components/Portfolio/Portfolio.tsx:138-143 | Selecting any category button, with the lightbox closed, gives a valid state |
| Portfolio.OpenValid | src/components/Portfolio/Portfolio.tsx:158-167 | Opening the lightbox on a shown grid item's index gives a valid state |
| Portfolio.NextValid | src/components/Portfolio/Portfolio.tsx:105-109 | The right arrow keeps an open lightbox on a shown project |
| Portfolio.PrevValid | src/components/Portfolio/Portfolio.tsx:111-115 | The left arrow keeps an open lightbox on a shown project |
| Portfolio.Run | src/components/Portfolio/Portfolio.tsx:138-245 | With the corrected handlers, any sequence of events from a valid state ends in a valid state |
| Portfolio.ReachableLightboxShowsProject | src/components/Portfolio/Portfolio.tsx:12-245 | With the corrected handlers, from the mount state and over every modelled event, fading targets included, an open lightbox always has a project to show: `filteredProjects[lightboxImage]` exists |
| Portfolio.OfCategoryStep | src/components/Portfolio/Portfolio.tsx:103 | Filtering a suffix keeps or drops its first project, then filters the rest |
| Portfolio.FilterNine | src/components/Portfolio/Portfolio.tsx:103 | Filtering nine projects keeps or drops each in turn, in order |
| Portfolio.FilteredLivingRoom | src/components/Portfolio/Portfolio.tsx:17-103 | "Living Room" shows projects 1 and 6, in that order |
| Portfolio.FilteredKitchen | src/components/Portfolio/Portfolio.tsx:27-103 | "Kitchen" shows projects 2 and 7, in that order |
| Portfolio.FilteredBedroom | src/components/Portfolio/Portfolio.tsx:36-103 | "Bedroom" shows projects 3 and 8, in that order |
| Portfolio.FilteredBathroom | src/components/Portfolio/Portfolio.tsx:54-103 | "Bathroom" shows projects 5 and 9, in that order |
| Portfolio.FilteredOffice | src/components/Portfolio/Portfolio.tsx:45-103 | "Office" shows project 4 alone |
| Hero.NextSlide | src/components/Hero/Hero.tsx:38-40 | `nextSlide` stays among the four slides; it moves one forward and wraps from the last slide to the first |
| Hero.PrevSlide | src/components/Hero/Hero.tsx:42-44 | `prevSlide` stays among the four slides; it moves one back and wraps from the first slide to the last |
| Hero.PrevNextSlide | src/components/Hero/Hero.tsx:38-44 | On every slide, each of the two arrows undoes the other |
| Hero.Indicators | src/components/Hero/Hero.tsx:161-164 | There is one indicator dot per slide, and dot `k` carries index `k` |
| Hero.Step | src/components/Hero/Hero.tsx:33-164 | From a shown slide every event shows a slide: the arrows and the timer tick step cyclically, a dot shows its own slide, a position with no dot changes nothing |
| Hero.IndicatorSelects | src/components/Hero/Hero.tsx:161-164 | Clicking a dot shows exactly that dot's slide, which exists |
| Hero.TickIsNext | src/components/Hero/Hero.tsx:32-40 | A timer tick moves the carousel exactly as the right arrow does |
| Hero.TicksAreNextIter | src/components/Hero/Hero.tsx:32-34 | `k` timer ticks apply the cyclic successor `k` times |
| Hero.TicksPeriod | src/components/Hero/Hero.tsx:8-34 | Left alone, the carousel first returns to its starting slide after exactly four ticks |
| Hero.RunInRange | src/components/Hero/Hero.tsx:38-44 | From any slide, any sequence of arrow clicks, dot clicks and ticks leaves `slides[currentSlide]` defined |
| Hero.ReachableSlide | src/components/Hero/Hero.tsx:6-44 | From the initial slide 0, every reachable index names a slide |

## Left out

- The Hero `setInterval`/`clearInterval` lifecycle (Hero.tsx:31-36): timing and effect cleanup are outside the model. Only the tick's step function is modelled, as `Hero.Event.Tick`.
- The quiz progress percentage and bar width (Quiz.tsx:176, 182): they are floating-point `Math.round` of a division, and are only displayed.
- Rendering, framer-motion animations, the `useInView` observers and every image URL: these are presentation and foreign libraries. The records keep their texts and drop their images.
- The quiz email field's input handler (Quiz.tsx:302-316): the value is neither validated nor sent anywhere. The model keeps the field only because `resetQuiz` clears it.
- JavaScript numbers are doubles. Every index and count here stays below ten, so unbounded `nat` is exact.
- Prototype-inherited keys of the tally object, such as `constructor`: no style in the table collides with one, and answers come only from the table's option texts.
- `QuizFlow.Step` keeps option buttons, "Back" and "Retake Quiz" to the phase that renders them, and keeps "Back" to questions after the first. An event with no rendered target leaves the state alone.
- `Portfolio.StepAsWritten` and `Portfolio.Step` let grid items act only while the lightbox is closed: the overlay covers them, and they are plain elements that the keyboard cannot activate. Clicks on the lightbox image itself are dropped, since it stops propagation and changes nothing.
- Portfolio.StepValid: proved for the corrected `Step`, not for the page as written, where a keyboard-activated category button, a click on a fading grid item or a click on an arrow of the fading lightbox breaks the invariant (see Findings).
- Portfolio.Run: stays valid only with the corrected `Step`; `RunAsWritten` stops at the first state that would crash the render.
- Portfolio.ReachableLightboxShowsProject: holds for the corrected `Step`; for the page as written `KeyboardFilterSwitchCrashes`, `LeavingItemClickCrashes` and `FadingArrowCrashes` give counterexamples.
- Portfolio.Leaving: a fading grid item is allowed after any earlier category switch, not only during the half second after the switch that removed it. Timing is outside the model, so this over-approximates when the click can happen.
- Portfolio.Closing: likewise, the fading lightbox's arrows are allowed at any time while it is closed, on any index of any button's list, not only during the exit animation that follows the close of that very lightbox. This over-approximates when the click can happen.
- QuizFlow.RunValid: clicks on a question view that is still fading out are not modelled. The question view sits in an `AnimatePresence` with `mode="wait"` and a 0.5 s exit (Quiz.tsx:159-166), and an exiting view plausibly keeps the handlers of its last render. "Back" on the fifth question's view, clicked while it fades out after the fifth answer, would run `goBack` with question index 4 and four answers. The result view would then show with index 3 and three answers, outside `QuizFlow.Valid`.
- QuizFlow.ReachableResults: holds for the events modelled here. The fading-view "Back" above is left out, and with it the result view would be computed from three answers.
- QuizScoring.CountStylesOrder: the key order is stated for answers that all resolve, which every quiz finished through the buttons satisfies (`OfferedAnswersAllCount`). For answers that do not all resolve, only counts, keys and total are stated, by `CountStyles`.
- Keyboard focus order is not modelled beyond what the events above name: a category button under the open lightbox is reachable with Tab, since nothing traps the focus in the lightbox.
- The Consultation form, the Blog, Team, Services, Process, Philosophy and Footer sections, `App.tsx` and `vite.config.ts` are not part of this model: they hold static content or UI wiring with no behaviour to prove.

## Findings

| source | as written | input that shows it | evidently intended | confidence | as-written member | corrected member |
|---|---|---|---|---|---|---|
| src/components/Portfolio/Portfolio.tsx:143 | a category button runs `setSelectedCategory` and leaves `lightboxImage` as it is; the overlay blocks only the mouse, and the buttons stay in the tab order | open project 9 under "All" (index 8), press Shift+Tab to a category button, activate "Office" with Enter: line 218 reads `filteredProjects[8].image` on a one-project list and throws | selecting a category never leaves the lightbox on an index the new list does not have; closing it on a selection is not enough alone, since the fading lightbox's arrows reopen it (next row) | not executed | Portfolio.KeyboardFilterSwitchCrashes | Portfolio.StepValid |
| src/components/Portfolio/Portfolio.tsx:167 | a grid item that a category change removes stays on screen for its 0.5 s exit animation and keeps `onClick={() => setLightboxImage(index)}` with its index in the old list | under "All" with the lightbox closed, click "Office", then click the fading project-9 item: `setLightboxImage(8)` over a one-project list, and line 218 reads `filteredProjects[8].image` and throws | a fading item does not open the lightbox, or opens only an index the new list has | not executed; assumes that the exit animation leaves the item clickable | Portfolio.LeavingItemClickCrashes | Portfolio.StepValid |
| src/components/Portfolio/Portfolio.tsx:234 | a closed lightbox stays on screen for its exit animation, and its arrows keep the `prevImage` and `nextImage` closures over the index and the filtered list of its last open render | open project 9 under "All" (index 8), close the lightbox, activate "Office" from the keyboard while it fades, click its left arrow: `setLightboxImage(7)` over a one-project list, and line 218 reads `filteredProjects[7].image` and throws | a closing lightbox takes no clicks | not executed; assumes that the exit animation leaves the lightbox clickable | Portfolio.FadingArrowCrashes | Portfolio.StepValid |
