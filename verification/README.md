# TypeFall game engine, modelled in Dafny

TypeFall is a browser typing game. Themed words fall down the playfield. The player types a
word before it reaches the bottom and scores ten points per letter; a word that falls past
the bottom costs a life. This project models the game engine's logic as pure step functions
over one immutable state record, and proves properties of them:

- **the keystroke step** (`KeyHandler.Key`). A key advances the locked word or does nothing.
  With no word locked, it locks the word lowest on the screen that starts with that letter.
  Completing a word scores points, removes the word and runs the difficulty ramp.
- **the frame step** (`GameLoop.Tick`). It makes a spawn attempt with collision rejection,
  moves every word down, drops the words past the bottom, charges a life, and ends the game.
- **the word-list post-processing** of the word supply (`WordService.GenerateWords`). It keeps
  only all-letter words, lower-cases them, and returns the fixed lists on the error paths.

Modules follow the program: `Types` (types.ts), `Text` (character classes and lower-casing),
`WordService` (services/wordService.ts), `EngineState`, `KeyHandler` and `GameLoop`
(components/GameEngine.tsx), and `Session`, which interleaves frames and keys from the start
of play. `Scenarios` holds concrete plays.

Modelling choices:

- The component's mutable references form one `State` record: the word collection, score,
  lives, status, spawn interval, multiplier, last-spawn time and game-over flag. The loop's
  local `lastTime` and its copy of the word list (`pool`) are part of the record too.
- Time is a step input. The frame's `delta` is `time - lastTime`.
- The three `Math.random` values of a spawn attempt and the word's random id are a `Draw`
  input, each value in [0, 1). The word's text is `pool[floor(r * |pool|)]`, its `x` is
  `r * 80 + 10` and its `speed` is `r * 0.05 + 0.02`, exactly as in the source.
- Positions, speeds, the multiplier and times are exact `real`s.
- The provider's reply is its text plus the value `JSON.parse` made of it (or none if the
  parser threw). The model also covers how the regular expression's `test` converts a
  non-string element to a string (`WordService.JsString`):
  - `null`, `true` or `["Go"]` print as letters. They pass the filter, then have no
    `toLowerCase`, so the whole reply falls back to the ten-word list.
  - An object with its own `toString` member cannot be converted, because JSON cannot make
    that member a function. `test` throws, and the reply falls back too. This holds at any
    depth inside nested arrays, since `join` converts them element by element.
  - Any other object prints as "[object Object]" and is dropped by the filter.
- The key is lower-cased as JavaScript does for every input that can matter. ASCII upper
  case and the Kelvin sign (U+212A, whose lower case is `k`) become letters a-z.

## Behaviour worth knowing

- A frame in which several words cross the bottom costs one life (GameEngine.tsx:96-97).
- A one-letter word completed by the keystroke that locks it scores 10 points and does not
  run the difficulty ramp (GameEngine.tsx:157-161).
- Of candidate words at the same height, the one earliest in the collection is locked. This
  is the stable sort of GameEngine.tsx:150.
- A reply whose words all fail the filter yields the empty list, and no fallback is
  substituted (wordService.ts:29); see Findings.

## Model

| member | source | states |
|---|---|---|
| Text.LowerChar | components/GameEngine.tsx:119 | a character lower-cases to a letter a-z exactly when it is an ASCII letter or the Kelvin sign; lower-case letters are kept |
| Text.ToLower | services/wordService.ts:29 | lower-casing keeps the length, turns an all-letter word into a lower-case word and leaves lower-case words alone |
| WordService.Sanitize | services/wordService.ts:29 | the output has only non-empty lower-case a-z words, is no longer than the input, and holds exactly the lower-cased input words that match `^[a-zA-Z]+$` |
| WordService.SanitizeAppend | services/wordService.ts:29 | filtering distributes over concatenation, so kept words keep their relative order |
| WordService.SanitizeOne | services/wordService.ts:29 | a single word is kept, lower-cased, if and only if it is all letters |
| WordService.SanitizeFixesLowerWords | services/wordService.ts:29 | a list of lower-case words passes through unchanged |
| WordService.SanitizeIdempotent | services/wordService.ts:29 | sanitising an already sanitised list returns it unchanged |
| WordService.SanitizeEmpty | services/wordService.ts:29 | the output is empty if and only if no input word is all letters |
| WordService.FromParsed | services/wordService.ts:27-33 | whatever the parsed value, the list produced consists of lower-case words only |
| WordService.GenerateWords | services/wordService.ts:24-33 | for every reply, including failures, every word handed to the game is non-empty lower-case a-z |
| WordService.StringArrayReply | services/wordService.ts:27-29 | a reply whose text parses to an array of strings yields exactly the sanitised array |
| WordService.NoTextReply | services/wordService.ts:24-25 | a missing or empty reply text yields exactly `["error","loading","failed"]` |
| WordService.FailureReplies | services/wordService.ts:30-33 | a failed request, a text the parser rejects and a parsed non-array all yield the ten-word fallback list |
| WordService.FixedListsAreLowerWords | services/wordService.ts:25-33 | the error list has 3 and the fallback list 10 entries, all lower-case alphabetic |
| WordService.KeptNonStringFallsBack | services/wordService.ts:29-33 | a non-string element whose string form is all letters passes the filter, makes `toLowerCase` throw, and the reply falls back to the fixed list |
| WordService.JsString | services/wordService.ts:29 | converting a value to a string fails exactly when it holds, at any depth, an object with its own `toString` member; a string converts to itself |
| WordService.OwnToStringFallsBack | services/wordService.ts:29-33 | an element holding an object with its own `toString` member, at any depth, makes `test` throw, and the reply falls back to the fixed list |
| WordService.ToStringMemberFallsBack | services/wordService.ts:29-33 | the replies `[{"toString":"a"},"go"]` and `[[{"toString":"a"}],"go"]` fall back to the fixed list |
| WordService.PlainObjectDropped | services/wordService.ts:29 | an object without its own `toString` prints as "[object Object]" and is dropped: `[{},"go"]` yields `["go"]` |
| WordService.NullElementFallsBack | services/wordService.ts:29-33 | the reply `["go",null]` falls back to the fixed list, because `null` prints as "null" |
| WordService.NestedArrayFallsBack | services/wordService.ts:29-33 | the reply `[["go"]]` falls back to the fixed list, because `["go"]` prints as "go" |
| WordService.NoLetterWordsYieldEmpty | services/wordService.ts:29 | as written, a string-array reply with no all-letter word yields the empty list, with no fallback |
| WordService.SymbolWordsYieldEmpty | services/wordService.ts:29 | the reply `["c++","x-ray"]` yields the empty list as written, and the fallback list once corrected |
| WordService.WordsForGame | services/wordService.ts:29-33 | corrected list: never empty, only lower-case words, equal to the as-written list whenever that is non-empty |
| EngineState.Start | components/GameEngine.tsx:52-55 | starting play clears the collection, sets status to playing, records the time and the pool, and keeps every counter |
| EngineState.Ramp | components/GameEngine.tsx:135-137 | the spawn interval drops by 25 down to a floor of 300 and the multiplier rises by 0.05 up to a ceiling of 6; nothing else changes |
| EngineState.Remove | components/GameEngine.tsx:140 | splicing removes exactly the chosen word and keeps the others in order |
| EngineState.StartValid | components/GameEngine.tsx:19-26 | the initial values (5 lives, interval 2000, multiplier 1, no words) satisfy the game invariant |
| KeyHandler.LetterOf | components/GameEngine.tsx:119-120 | a key counts if and only if it is one character whose lower case is a letter a-z, and then it stands for that letter |
| KeyHandler.FindLocked | components/GameEngine.tsx:123 | the result is the first locked word's index, and none exactly when no word is locked |
| KeyHandler.SelectTarget | components/GameEngine.tsx:147-153 | the selected index is the unique word that starts with the letter, has the greatest `y`, and among those the lowest index; none exactly when no word starts with it |
| KeyHandler.Key | components/GameEngine.tsx:116-164 | a key is ignored unless playing, not over and a single letter; it never touches lives, status, timers or pool, never lowers the score, never adds words, never raises the spawn interval and never lowers the multiplier |
| KeyHandler.KeyAdvances | components/GameEngine.tsx:125-144 | the expected letter raises the locked word's typed count by exactly one and leaves every other word and field unchanged |
| KeyHandler.KeyWrongLetter | components/GameEngine.tsx:125-129 | any other letter, while a word is locked, changes no state at all |
| KeyHandler.KeyCompletes | components/GameEngine.tsx:131-141 | completing the locked word adds 10 per letter, removes exactly that word keeping the rest in order, leaves no word locked and runs the ramp |
| KeyHandler.KeyLocks | components/GameEngine.tsx:152-155 | with nothing locked, the selected word is locked with one letter typed, becomes the only locked word, and nothing else changes |
| KeyHandler.KeyCompletesOneLetter | components/GameEngine.tsx:157-161 | a selected one-letter word adds exactly 10, is removed, leaves nothing locked, and the interval and multiplier stay as they were |
| KeyHandler.KeyNoCandidate | components/GameEngine.tsx:147-152 | with nothing locked, a letter no word starts with changes nothing |
| KeyHandler.KeyPreservesValid | components/GameEngine.tsx:116-164 | every keystroke keeps the invariant: at most one word locked, typed counts consistent, ramp within bounds |
| KeyHandler.RemoveKeepsWellFormed | components/GameEngine.tsx:140 | splicing a word out keeps every remaining word well formed |
| GameLoop.PickIndex | components/GameEngine.tsx:65 | `Math.floor(r * n)` for r in [0, 1) is an index of the list |
| GameLoop.NewWord | components/GameEngine.tsx:65-74 | the candidate word has a text from the pool, x in [10, 90), speed in [0.02, 0.07), y = -10, nothing typed, not locked |
| GameLoop.Spawn | components/GameEngine.tsx:64-81 | the state changes if and only if a spawn is due and no word near the top is within 15 horizontally; then exactly the new word is appended and the spawn time is stamped |
| GameLoop.FallAll | components/GameEngine.tsx:87 | every word keeps all fields but `y`, which grows by speed times multiplier times delta/16 |
| GameLoop.Survivors | components/GameEngine.tsx:85-94 | no more words are kept than there were, and nothing is dropped if and only if no word is past the bottom |
| GameLoop.SurvivorsMembers | components/GameEngine.tsx:85-94 | the kept words are exactly the input words with `y <= 100` |
| GameLoop.SurvivorsAppend | components/GameEngine.tsx:85-94 | dropping distributes over concatenation, so the survivors keep their order |
| GameLoop.SurvivorsAtMostOneLocked | components/GameEngine.tsx:85-94 | dropping words keeps at most one word locked |
| GameLoop.FallAllKeepsShape | components/GameEngine.tsx:87 | falling keeps every word well formed and at most one locked |
| GameLoop.SpawnKeepsShape | components/GameEngine.tsx:76-79 | a spawn keeps every word well formed and at most one locked |
| GameLoop.Settle | components/GameEngine.tsx:83-105 | the fall keeps the survivors; a life is lost exactly when some word crossed; the game ends and reports the score exactly when that leaves no life |
| GameLoop.Tick | components/GameEngine.tsx:57-109 | a finished game ignores frames; otherwise the words are those after the spawn attempt, fallen since the previous frame, minus those past the bottom; at most one life is lost; score, ramp and pool stay; a report comes only as a running game ends, and carries the current score |
| GameLoop.SettlePreservesValid | components/GameEngine.tsx:96-105 | the fall keeps the invariant, with the game over exactly when lives reach 0 |
| GameLoop.SpawnPreservesValid | components/GameEngine.tsx:64-81 | the spawn attempt keeps the invariant |
| GameLoop.TickPreservesValid | components/GameEngine.tsx:57-109 | every frame keeps the invariant |
| GameLoop.KeptAtSurvivors | components/GameEngine.tsx:85-94 | word `k` of the survivors is the input word at the `k`-th kept position, and those positions increase |
| GameLoop.FallNeverRaises | components/GameEngine.tsx:85-94 | for a non-negative delta and speeds, word `k` kept after the fall is the input word at its origin position with only `y` changed, and not upwards; origins increase, so order is kept |
| GameLoop.SettleNeverRaises | components/GameEngine.tsx:85-94 | for a non-negative delta, each surviving word is the word at its origin position before the fall, with only `y` changed, and not upwards |
| GameLoop.TickNeverRaises | components/GameEngine.tsx:57-94 | when time does not run backwards, each word after a frame is the word at its origin position after the spawn attempt, with only `y` changed, and not upwards |
| GameLoop.TickCostsAtMostOneLife | components/GameEngine.tsx:85-97 | a running game's frame loses a life exactly when some word, after the spawn attempt and the fall, is past the bottom, and only one however many are |
| Session.Begin | components/GameEngine.tsx:29-37 | play starts from the corrected word list, in the invariant, with score 0, 5 lives, interval 2000 and multiplier 1 |
| Session.Run | components/GameEngine.tsx:57-164 | interleaving frames and keys keeps the pool and never lowers the score |
| Session.RunAfterGameOver | components/GameEngine.tsx:99-103 | after game over, no later frame or key changes anything or reports again |
| Session.RunPreservesValid | components/GameEngine.tsx:57-164 | any run keeps at most one word locked, the interval in [300, 2000], the multiplier in [1, 6] and lives in [0, 5] |
| Session.RunMonotone | components/GameEngine.tsx:136-137 | along any run the spawn interval never rises, the multiplier never falls and lives never rise |
| Session.RunReportsOnce | components/GameEngine.tsx:99-103 | the game-over callback fires at most once, exactly when the run ends a running game, and with the final score |
| Session.PlayFromBegin | components/GameEngine.tsx:29-53 | from the start of play with the corrected word list, any run keeps the invariant and reports at most once |
| Scenarios.TypingCat | components/GameEngine.tsx:125-141 | typing c, a, t at "cat" gives score 30, multiplier 1.05, interval 1975 and an empty field |
| Scenarios.TypingOneLetter | components/GameEngine.tsx:157-161 | typing "a" at the word "a" gives 10 points and an empty field, and leaves the ramp alone |
| Scenarios.LowestWordIsLocked | components/GameEngine.tsx:147-155 | of two "t" words at y 30 and 80, "T" locks the one at 80 |
| Scenarios.TieGoesToEarlierWord | components/GameEngine.tsx:150 | of two "t" words level with each other, the earlier one is locked |
| Scenarios.TwoCrossingsOneLife | components/GameEngine.tsx:96-97 | two words crossing in one frame cost one life |

## Left out

- Rendering: the JSX markup, `useState` snapshots (`setWords`, `setScore`, `setLives`,
  `setStatus`) and the hooks' plumbing (GameEngine.tsx:171-235). They present the state and
  do not decide it.
- Scheduling: `requestAnimationFrame`, `cancelAnimationFrame`, `performance.now`, the
  `mounted` flag that discards a late word list, and handler registration. Frames and keys
  are inputs to `Session.Run` instead.
- `Math.random` and id generation: they are the `Draw` input. Distributions are not modelled.
- The word-supply request and `JSON.parse` (wordService.ts:1-23, 27): network and a foreign
  parser. The reply carries the parser's outcome.
- The `catch` that returns to the menu (GameEngine.tsx:38-41): `generateWords` catches its
  own failures, so the model does not cover this path.
- The abort button and the screens of App.tsx and Menu.tsx: routing between screens, with
  no game logic.
- IEEE floating point: exact reals are used, so repeated `+ 0.05` is exactly 1.05, 1.1, …
- Text.LowerChar: non-ASCII characters other than the Kelvin sign are kept as they are,
  rather than mapped by Unicode's case tables. None of those mappings yields a single letter
  a-z, so which keys count is unchanged.
- GameLoop.Tick: requires a non-empty pool whenever a spawn is due. With an empty pool the
  source spawns a word whose text is undefined, which the model cannot represent; see
  Findings.
- GameLoop.TickNeverRaises: requires the frame time not to precede the previous one, and
  speeds and multiplier that are not negative (every begun game has them). The source does
  not guarantee the first: the first frame's timestamp may be earlier than the
  `performance.now()` taken at start, and a negative delta moves words up.
- Session.Begin: starts play from `WordService.WordsForGame`, the corrected list, not from
  the list `generateWords` returns, which GameEngine.tsx:33-37 passes on unchanged and which
  can be empty. With an empty list the first spawn takes `availableWords[0]`, which is
  undefined (GameEngine.tsx:65), and the model has no word without text; see Findings.
- Session.PlayFromBegin: covers only starts from the corrected list, through
  `Session.Begin`, for the same reason.
- EngineState.Valid and the lemmas built on it cover games begun through `Start` only.

## Findings

| source | as written | input that shows it | evidently intended | confidence | as-written member | corrected member |
|---|---|---|---|---|---|---|
| services/wordService.ts:29 | when no reply word passes `^[a-zA-Z]+$`, the empty list is returned. The engine then draws `availableWords[0]`, which is undefined (GameEngine.tsx:65), and spawns a word with no text. | reply text `["c++","x-ray"]` | substitute the fallback list, so the game always has words to spawn | not executed; high | WordService.NoLetterWordsYieldEmpty | WordService.WordsForGame |

`Session.Begin` starts play from `WordService.WordsForGame`. This is why `GameLoop.Tick`'s
non-empty-pool precondition holds along every run of the model.
