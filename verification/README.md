# Quiz and grid-game logic, modelled in Dafny

The tutorial site has two interactive widgets with real logic behind them. This
project models both as pure functions over immutable state and proves what they
promise.

- **Quiz** (`quiz.dfy`). The multiple-choice quiz holds four pieces of state:
  the current question index, the selected answer (nullable), the recorded
  answers and the result flag. The user chooses an option, presses "next" (the
  button is disabled while nothing non-empty is selected) and finally sees the
  result screen. That screen shows the score, reviews every incorrectly
  answered question and offers a restart. User actions are modelled as events,
  guarded by what the screen offers at that moment. The proofs cover the
  index/answer-history invariant over every reachable state, the exact effect
  of each transition, and the score/review accounting.
- **Grid game** (`grid_game.dfy`, with `js_string.dfy`). The puzzle bank is
  fixed. The typed class list is tokenised with JavaScript's `trim()`, then
  `split(' ')`, then empty pieces are dropped and the rest collected into a
  set. The verdict compares that set with the puzzle's solution: it succeeds
  or reports one of two failure messages. `nextPuzzle` wraps round the bank.
  The proofs cover:
  - the shape of the tokens;
  - insensitivity to padding, repeated spaces, order and duplicates;
  - that only the space character separates tokens;
  - the verdict/set-equality equivalence and the choice of message;
  - the bank's data invariants and that every bank solution is accepted;
  - the wrap-around, the "start over" label, and that an error message always
    concerns the puzzle on screen.
- `optional.dfy` holds the `Option` type that stands for a nullable value.

The loop in `checkSolution` walks the solution's set. `CheckSolution` walks the
solution sequence instead. This gives the same verdict, because duplicates only
repeat membership tests.

Puzzle input is not split on general whitespace: the code trims all
ECMAScript whitespace at both ends and then splits only on the space character
(grid-game.tsx:72). `TabIsNotASeparator` shows that a tab between two class
names yields one token.

The code also never clears the feedback when the input changes. So after a
success, the "next" button stays offered while the user edits the input. The
model keeps this behaviour: `TypeInput` leaves `feedback` alone.

## Model

| member | source | states |
|---|---|---|
| Quiz.StartState | src/components/quiz.tsx:42-47 | The start state has index 0, no selection, no answers and no result screen. The restart reaches exactly this state from any state. The state meets the invariant iff the quiz has at least one question. |
| Quiz.SelectStep | src/components/quiz.tsx:105 | Choosing an offered option sets the selection to that option. The index, the answers and the result flag stay unchanged, and the invariant is kept. |
| Quiz.AdvanceStep | src/components/quiz.tsx:30-40 | "Next" appends exactly the current selection to the answers and clears the selection. Before the last question it moves the index up by one. On the last question it opens the result screen and keeps the index; then every question has an answer. The "finish" label appears exactly when the result screen follows. The invariant is kept. |
| Quiz.RunKeepsInv | src/components/quiz.tsx:30-47 | Any sequence of enabled events keeps the invariant. Outside the result screen, answers count = index < question count. On the result screen, answers count = question count. Every recorded answer is a non-empty option of its question. |
| Quiz.Reachable | src/components/quiz.tsx:115 | Every state reachable from the start of a non-empty quiz meets the invariant. Because the advance button is disabled on an empty selection, no recorded answer is null or empty. |
| Quiz.CountCorrect | src/components/quiz.tsx:50-52 | The running score after n answers is at most n. |
| Quiz.ScoreCountsCorrectAnswers | src/components/quiz.tsx:50-52 | The score equals the number of indices whose recorded answer is the question's correct answer, so it lies between 0 and the question count. |
| Quiz.IncorrectUpTo | src/components/quiz.tsx:53 | The incorrect list holds exactly the indices below n whose recorded answer is missing or differs from the correct one, in increasing order. |
| Quiz.ScoreAndIncorrectPartition | src/components/quiz.tsx:50-53 | Score + number of incorrect questions = number of questions. |
| Quiz.NoneIncorrectIffAllCorrect | src/components/quiz.tsx:53 | The incorrect list is empty iff every question was answered correctly. |
| Quiz.Summarize | src/components/quiz.tsx:49-62 | The result screen's score is at most the answer count. Score + reviewed questions = question count. The review is empty iff all answers are correct iff the score is full. |
| Quiz.ResultScreen | src/components/quiz.tsx:62-84 | In every reachable result state, score + reviewed questions = question count. The "all correct" banner shows exactly when every recorded answer equals its correct answer. |
| Quiz.ThreeQuestionRun | src/components/quiz.tsx:30-40 | Three questions, each answered once, lead to the result screen with exactly the three chosen answers recorded. |
| Quiz.OneRightOneWrong | src/components/quiz.tsx:50-53 | Two questions, answered once right and once wrong, give score 1 and review only the second question. |
| JsString.LeadingWhitespace | src/components/grid-game.tsx:72 | The prefix `trim` removes from the front is all whitespace and maximal. |
| JsString.TrailingWhitespace | src/components/grid-game.tsx:72 | The suffix `trim` removes from the back is all whitespace and maximal. |
| JsString.Trim | src/components/grid-game.tsx:72 | A trimmed string starts and ends with non-whitespace. It is empty exactly when the input is all whitespace. |
| JsString.TrimSplits | src/components/grid-game.tsx:72 | `trim` removes nothing but whitespace: every input is an all-whitespace prefix, then its trim, then an all-whitespace suffix. |
| JsString.TrimIgnoresPadding | src/components/grid-game.tsx:72 | Whitespace added in front of or behind a string does not change its trim. |
| JsString.SplitOnSpace | src/components/grid-game.tsx:72 | `split(' ')` yields at least one piece. No piece contains a space, and joining the pieces with single spaces gives the input back. |
| JsString.SplitAppend | src/components/grid-game.tsx:72 | Splitting `a + " " + b` is splitting `a` followed by splitting `b`. |
| JsString.SplitJoin | src/components/grid-game.tsx:72 | For space-free pieces, `split(' ')` after `join(' ')` returns the pieces unchanged. |
| GridGame.TokensAreNonEmptyAndSpaceFree | src/components/grid-game.tsx:72 | No token is empty and no token contains a space. |
| GridGame.TokenizeIgnoresPadding | src/components/grid-game.tsx:72 | Leading and trailing whitespace do not change the token set. |
| GridGame.TokenizeCollapsesSpaces | src/components/grid-game.tsx:72 | Any non-empty run of spaces between two parts of the input gives the same token set as any other. |
| GridGame.TokenizeJoined | src/components/grid-game.tsx:72 | Class names joined by single spaces tokenise to exactly the set of those names, whatever their order or repetition. |
| GridGame.TabIsNotASeparator | src/components/grid-game.tsx:72 | Two class names joined by a tab form a single token, because only the space character separates tokens. |
| GridGame.Evaluate | src/components/grid-game.tsx:72-91 | The verdict succeeds iff the typed token set equals the solution's set. A failure carries the solution's length and the number of distinct typed tokens. |
| GridGame.AllPresent | src/components/grid-game.tsx:79-84 | The loop reports true exactly when every solution class is among the typed tokens. |
| GridGame.CheckSolution | src/components/grid-game.tsx:71-97 | The size comparison followed by the early-exit loop over solution classes reaches the same verdict as `Evaluate`. |
| GridGame.FeedbackMessage | src/components/grid-game.tsx:87-96 | Praise appears iff the token set equals the solution set. The generic message appears iff the answer is wrong and the solution length equals the distinct-token count. Otherwise both counts are reported. |
| GridGame.VerdictIgnoresOrderAndRepetition | src/components/grid-game.tsx:72-85 | Two inputs listing the same class names get the same verdict, whatever the order or repetition. |
| GridGame.SingleClassVerdict | src/components/grid-game.tsx:72-85 | A one-class puzzle accepts an input iff its token set is exactly that class. |
| GridGame.SingleClassVerdicts | src/components/grid-game.tsx:72-95 | A one-class puzzle accepts its class with trailing padding and also when it is repeated. It answers a different single class with the generic message. |
| GridGame.BankIsWellFormed | src/components/grid-game.tsx:19-61 | Every bank solution is non-empty, duplicate-free and made of whitespace-free class names. Every item puzzle's target index lies in [0, itemsCount). |
| GridGame.BankSolutionsAccepted | src/components/grid-game.tsx:19-61 | For every bank puzzle, its solution joined with single spaces is accepted. |
| GridGame.Check | src/components/grid-game.tsx:71-97 | Checking keeps the puzzle and the input and always records feedback. It records success iff the input's token set equals the current puzzle's solution set. Otherwise the error carries the solution's length as the needed count and the number of distinct typed tokens as the provided count. |
| GridGame.NextPuzzle | src/components/grid-game.tsx:99-104 | The next index lies in the bank. It is one more than the current index, or 0 after the last puzzle. Input and feedback are cleared. |
| GridGame.StartOverMeansFirstPuzzle | src/components/grid-game.tsx:182-186 | The "start over" label shows exactly when the last verdict was a success and pressing the button returns to the first puzzle. |
| GridGame.GameStep | src/components/grid-game.tsx:64-174 | Every enabled event (typing into the input, checking, or pressing next) keeps the index in the bank and keeps any error tied to the puzzle on screen. The index changes only through "next", offered only after a success verdict. |
| GridGame.GameRunKeepsInv | src/components/grid-game.tsx:64-104 | Any sequence of enabled events keeps the game invariant. |
| GridGame.ExampleTokens | src/components/grid-game.tsx:72 | `"grid-cols-3   grid-rows-2"` tokenises to `{grid-cols-3, grid-rows-2}`. |
| GridGame.ExampleVerdicts | src/components/grid-game.tsx:72-95 | On the `col-span-2` puzzle, `"col-span-2 "` and `"col-span-2 col-span-2"` succeed. `"col-span-3"` draws the generic message. |

## Left out

- The question prompt and explanation, and the puzzle name and description: they are only displayed.
- The progress percentage (quiz.tsx:94): it is floating-point division used only for a progress bar.
- The reviewed answer is looked up with `questions.indexOf(q)` (quiz.tsx:70), which relies on object identity. The model identifies incorrect questions by index instead.
- Tailwind class-string assembly for the target and user grids and the emoji choice (grid-game.tsx:10-17, 106-141): these are presentation, and CSS semantics are out of scope.
- All rendering, the Card/Alert/RadioGroup components and icons.
- The ternary exercise, the form demo, the code block's clipboard write and timer, navigation, sidebar, header and loading overlay. These are presentation or are delegated to libraries.
- `IsWhitespace` lists ECMAScript's WhiteSpace and LineTerminator code points as of current Unicode. It does not model how a given JavaScript engine's Unicode version changes that set.
- Strings are modelled as sequences of characters. JavaScript strings are UTF-16 code units and may hold lone surrogates; the model does not distinguish the two, which matters to neither `trim` nor `split(' ')` on the class lists typed here.
- An empty question list: the quiz indexes `questions[currentQuestionIndex]` (quiz.tsx:93) and reads its options (quiz.tsx:104), which fails when there are no questions. The quiz invariant `Quiz.Inv` therefore requires at least one question, and `Quiz.StartState` states that the start state meets it exactly then.
