# Stats-challenge question picker, in Dafny

This project models the "stats challenge" screen's question picker. The screen holds a
fixed pool of eight distinct trivia prompts. Each click of its button shows a prompt that
has not been shown yet in the current round. Once a draw finds nothing left, the picker
reports game over. In the intended reset-then-draw sequence (`Generate`), the next click
restores the full pool and draws again. The code as written does not: see "## Findings".

- `filter.dfy` (module `Filter`) holds the removal step. `Without(s, x)` is the
  `filter(question => question !== selected)` call. Lemmas say what it keeps: the other
  elements, in their order. On a list without duplicates it removes exactly one position.
- `stat_challenge.dfy` (module `StatChallenge`) holds the component:
  - the pool `Questions`, the image table `QuestionImages` and the sentinel `Exhausted`
    (the empty string a draw returns on an empty list);
  - the state `State(remaining, current, gameOver)`;
  - `Draw` (`getRandomQuestion`), `Reset` and `Generate` (`generateQuestion`) as
    functions over that state, and `DrawMany` for a run of draws;
  - the lemmas about whole rounds;
  - the class `QuestionPicker`, whose fields are the three `useState` variables and whose
    methods update them in place. Each method's `ensures` ties the new fields to `Draw` or
    `Generate` of the old ones.

The random index `Math.floor(Math.random() * remainingQuestions.length)` is a parameter
`idx`. It is required to lie in `[0, length)` whenever the list is non-empty. A run of
draws takes a list of indices; `IndicesFit(n, idxs)` says the k-th index is below `n - k`.
The state functions take the pool as a parameter. The class and the concrete lemmas use
`Questions`.

`currentQuestion` is `Option<string>`, and `None` stands for the initial `null`. After an
exhausted draw the component stores the returned `""`, so the model's current question is
then `Some("")`, as in the code.

The component has no separate reset or exhaustion query. The reset happens inside
`generateQuestion`, only when `gameOver` is set, and `gameOver` is read directly. The
remaining list stays in pool order, which `IsSubsequence` proves. In the intended
sequence, `gameOver` is only ever set on an empty list (`GameOverMeansEmpty`). `Draw` and
`Generate` keep this, and the picker's `Valid()` includes it. The code as written breaks
it on the "Play again?" click: see "## Findings".

## Model

| member | source | states |
|---|---|---|
| `Filter.Without` | src/pages/StatChallenge.tsx:55-57 | the filtered list contains exactly the input's elements different from the selected value; its multiset is the input's with that value's count set to zero |
| `Filter.WithoutIsSubsequence` | src/pages/StatChallenge.tsx:55-57 | filtering keeps the remaining questions in their original relative order |
| `Filter.WithoutAt` | src/pages/StatChallenge.tsx:53-57 | on a duplicate-free list, filtering out the element at index `i` gives the list with exactly position `i` removed |
| `Filter.WithoutShrinksByOne` | src/pages/StatChallenge.tsx:55-57 | filtering a duplicate-free list by one of its members shrinks it by exactly one |
| `Filter.WithoutKeepsDistinct` | src/pages/StatChallenge.tsx:55-58 | filtering keeps the remaining list free of duplicates |
| `StatChallenge.Mounted` | src/pages/StatChallenge.tsx:42-44 | the mounted state holds the whole pool, shows nothing and has game over cleared; over a duplicate-free pool it already satisfies the pool invariant and the meaning of game over |
| `StatChallenge.Draw` | src/pages/StatChallenge.tsx:48-60 | on an empty list: returns `""`, sets game over, list stays empty. Otherwise: returns a member of the list, removes it, keeps every other member in order, leaves game over alone. On a duplicate-free list the length drops by one and the old multiset is the returned question plus the new list. The current question is never touched. If game over was only set on an empty list, that still holds after the draw |
| `StatChallenge.RemoveFromDistinct` | src/pages/StatChallenge.tsx:53-58 | removing the element at a valid index from a duplicate-free list keeps it duplicate-free, shrinks it by one and removes exactly one copy from its multiset |
| `StatChallenge.DrawKeepsInvariant` | src/pages/StatChallenge.tsx:42-60 | a draw preserves "remaining is a duplicate-free subsequence of the pool"; with no empty question in the pool, a successful draw never returns the `""` sentinel |
| `StatChallenge.Reset` | src/pages/StatChallenge.tsx:63-68 | after game over, the list becomes the full pool and game over is cleared; otherwise the state is unchanged; the current question is never touched |
| `StatChallenge.Generate` | src/pages/StatChallenge.tsx:63-77 | a click always sets the current question; game over is set afterwards exactly when the list it drew from (after the reset) was empty, and then the stored question is `""` (the screen falls back to its intro text) and the list stays empty; otherwise the question shown came from that list and is gone from what remains; game over is only set on an empty list. Further properties are in `GenerateKeepsInvariant`, `GenerateAfterGameOver` and `AsWrittenAgreesOtherwise` |
| `StatChallenge.GenerateKeepsInvariant` | src/pages/StatChallenge.tsx:63-77 | a click preserves the pool invariant and always sets the current question (`""` on an exhausted click); when the list drawn from is non-empty, the question shown plus the list left equal the list drawn from |
| `StatChallenge.GenerateAfterGameOver` | src/pages/StatChallenge.tsx:64-74 | after game over, a click restores the pool, clears game over, shows the pool's question at the chosen index and leaves the pool with exactly that position removed |
| `StatChallenge.DrawMany` | src/pages/StatChallenge.tsx:48-60 | a run of draws returns one result per draw and keeps the list a duplicate-free subsequence of where it started |
| `StatChallenge.DrawManyCycle` | src/pages/StatChallenge.tsx:48-60 | from any duplicate-free list of `n` questions, `n` draws return each of them exactly once (equal multisets, no repeats), empty the list and leave game over and the current question unchanged |
| `StatChallenge.ExhaustionPersists` | src/pages/StatChallenge.tsx:49-52 | once the list is empty, every further draw returns `""`, sets game over and changes nothing else |
| `StatChallenge.RoundFromMount` | src/pages/StatChallenge.tsx:42-60 | from the mounted state over any duplicate-free pool, as many draws as the pool has questions return each question exactly once, and the next draw returns `""` and sets game over |
| `StatChallenge.FullRound` | src/pages/StatChallenge.tsx:19-60 | from the mounted component, 8 draws return each of the 8 questions exactly once; the 9th returns `""` and sets game over |
| `StatChallenge.PlayAgainRestartsRound` | src/pages/StatChallenge.tsx:63-77 | whatever the state, a click after game over and the draws after it, one fewer than the pool size, show every pool question exactly once and empty the list |
| `StatChallenge.QuestionsAreDistinct` | src/pages/StatChallenge.tsx:19-28 | the eight questions are pairwise distinct and none is the empty string |
| `StatChallenge.ImagesCoverPool` | src/pages/StatChallenge.tsx:19-40 | the image table's keys are exactly the questions of the pool |
| `StatChallenge.GenerateAsWritten` | src/pages/StatChallenge.tsx:63-77 | the click as the code runs it, where the deferred draw reads the pre-reset list: if that list was empty, the question shown is `""` and game over is set whether or not the pool was restored; otherwise the question shown comes from the pre-reset list, the list left is the pre-reset list with it filtered out, and game over is whatever the reset left |
| `StatChallenge.ClickIsDraw` | src/pages/StatChallenge.tsx:48-77 | while game over is clear, a click is exactly one `getRandomQuestion` draw with its result stored as the current question, so the draw-based round lemmas describe runs of clicks |
| `StatChallenge.PlayAgainAsWrittenShowsNothing` | src/pages/StatChallenge.tsx:64-76 | on the "Play again?" click after an exhausted round, the code as written shows `""` and leaves game over set beside a full list, so game over no longer means an empty list; the intended sequence shows a real question and clears it |
| `StatChallenge.AsWrittenAgreesOtherwise` | src/pages/StatChallenge.tsx:63-77 | when the game is not over, or the list already equals the pool, the code as written and the intended sequence give the same state |
| `StatChallenge.QuestionPicker.constructor` | src/pages/StatChallenge.tsx:42-44 | the component mounts with the full pool remaining, no current question and game over cleared |
| `StatChallenge.QuestionPicker.GetRandomQuestion` | src/pages/StatChallenge.tsx:48-60 | updates the fields exactly as `Draw` says: `""` and game over on an empty list, otherwise a member of the list returned and removed, length down by one; the pool invariant and the meaning of game over are kept |
| `StatChallenge.QuestionPicker.GenerateQuestion` | src/pages/StatChallenge.tsx:63-77 | updates the fields exactly as `Generate` says: reset after game over, then draw and store the result as the current question; the pool invariant and the meaning of game over are kept |

## Findings

| source | as written | input that shows it | evidently intended | confidence | as-written member | corrected member |
|---|---|---|---|---|---|---|
| src/pages/StatChallenge.tsx:64-76 | the click handler resets `remainingQuestions` and `gameOver`, but the draw deferred by `setTimeout` runs the `getRandomQuestion` captured at click time, which still reads the empty list | mount, click 9 times (8 questions, then game over), then click "Play again?": the screen shows no question, `currentQuestion` is `""` and `gameOver` is set again; only a second click draws | the comment "Reset the game state" before the draw: restore the pool, then draw one of its questions | not executed; high (React state closures) | `StatChallenge.PlayAgainAsWrittenShowsNothing` | `StatChallenge.GenerateAfterGameOver` |

The corrected behaviour is `Generate`, with the reset and the draw run in sequence. The
class `QuestionPicker` uses it.

## Left out

- Rendering and styling: the MUI markup, the flicker keyframes, `fadeStyle` and the
  `isVisible` fade state. These are presentation, and the button label is one of them.
- The 300 ms `setTimeout`. `Generate` runs the reset and the draw in sequence. Only the
  stale read the timer causes is modelled, as `GenerateAsWritten`.
- Two clicks within the 300 ms. Both deferred draws would read the same list and could
  show the same question twice. This is concurrency between timer callbacks, and the
  model has none.
- `Math.random` and the uniformity of the draw. Floating point and probability are not
  modelled. The index is a parameter, and only its range is required.
- The image paths as files. Only the image table's key set is stated.
- `src/data/games.ts`. It is a static list of game metadata with no behaviour.
