# Snake game and leaderboard — a Dafny model

This project models the three pieces of logic in the snake-game repository that carry design
content:

- **The game engine** (`SnakeGame.tsx`): a 20 x 20 board (a 400-pixel canvas in 20-pixel
  cells). It has a keyboard input buffer with a reversal filter, a pause toggle over the four
  statuses `idle`, `running`, `paused` and `over`, and a tick that moves the snake, detects
  wall and self collisions, grows and scores. It also has the game-over score submission gate,
  with its three flags (submitted, in-flight lock, debounce stamp), and the restart. This is
  the class `SnakeGame.Game`, whose fields are the component's state and refs. Its methods are
  the event handlers. The pure parts are functions: the `setSnake` updater (`Advance`), the key
  map (`KeyDirection`), the reversal filter (`Enqueue`) and `trim() || 'Player'`
  (`SubmitName`).
- **The payload check** `isValidRecord` (`validate.ts`), over a small model of JavaScript
  values (`JsValues.Value`: string, integer number, non-integer number, anything else).
- **The leaderboard service** (`leaderboard.service.ts`). It has the `safeLimit` coercion and
  `addRecord` as a method on a table of rows. The ranking query `GROUP BY name`, `MAX(score)`,
  `ORDER BY MAX(score) DESC`, `LIMIT k` is stated twice. `IsRanking` is what any correct answer
  satisfies, with ties in any order. `Top` computes one answer (group, sort, take) and is
  proved to satisfy `IsRanking`.

Files: `js_values.dfy` (module `JsValues`), `validate.dfy` (`Validate`), `leaderboard.dfy`
(`Leaderboard`), `grid.dfy` (`Grid`: board size, points, `OPPOSITE`), `snake_game.dfy`
(`SnakeGame`).

Two values are nondeterministic in the source, and both are parameters here:
- the random food cell is `Tick(newFood)`, which must lie on the board;
- `Date.now()` is `TriggerSubmit(now)` and `AddRecord(..., now)`.

The asynchronous `submitScore` call is split in two:
- `TriggerSubmit` returns the call it issues, if any;
- `Settle(success)` is the promise settling.

Three behaviours of the code that the model keeps as they are:
- Food is placed on any board cell, even one under the snake:
  `ojt-ai-feature-frontend/workspace/rag-dev-front/src/games/SnakeGame.tsx:180-183` draws a
  cell without looking at the snake.
- The ranking has one row per name with that name's best score, and no pinned-first rule and
  no time tie-break (`backend/src/services/leaderboard.service.ts:22-27`).
- `Settle(true)` stands for the `submitScore` promise resolving. That promise also resolves on
  an HTTP 400 (`ojt-ai-feature-frontend/workspace/rag-dev-front/src/api/leaderboard.ts:6-12`
  never looks at the status), so `Settle(true)` also covers a rejected payload.

Invariants the game keeps (`Game.Valid`), preserved by every method:
- the snake is non-empty, on the board and without a repeated cell, and each of its cells is
  next to the one before;
- the food is on the board;
- the snake length is the score plus one;
- the committed and queued directions are unit steps, and none of them reverses the one in
  force before it;
- outside `over`, the head is one committed-direction step from the neck.

## Model

| member | source | states |
|---|---|---|
| `Validate.IsValidRecord` | backend/src/utils/validate.ts:1-6 | a non-string name, a name shorter than 1 or longer than 16, a non-number score, a non-integer or negative score each reject; the payload is accepted exactly when it is a 1–16 character string and a non-negative integer |
| `Validate.AcceptsShortestNameAndZeroScore` | backend/src/utils/validate.ts:1-6 | a one-character name with score 0 is accepted |
| `Leaderboard.SafeLimit` | backend/src/services/leaderboard.service.ts:14-17 | the limit used is always positive; it is the requested limit when that is a positive integer, and 10 for zero, negatives and non-integers |
| `Leaderboard.Table.AddRecord` | backend/src/services/leaderboard.service.ts:3-10 | exactly one row is appended, with the given name and score, pin flag 0 and the insert time; earlier rows are unchanged |
| `Leaderboard.Table.GetTop` | backend/src/services/leaderboard.service.ts:13-31 | the result is a ranking of the table for the coerced limit (see `IsRanking` under `Top`) |
| `Leaderboard.Top` | backend/src/services/leaderboard.service.ts:22-27 | the result has at most k rows and one row per name; each row's score is the maximum among that name's rows, so its name occurs in the table; the scores do not increase; a name is left out only when k rows are returned and none of its scores beats the last one |
| `Leaderboard.GroupCorrect` | backend/src/services/leaderboard.service.ts:22-24 | grouping yields each stored name exactly once, with the maximum of that name's scores |
| `Leaderboard.SortDescCorrect` | backend/src/services/leaderboard.service.ts:25-26 | ordering by score is non-increasing, is a permutation of the groups and keeps one row per name |
| `Leaderboard.PrefixIsRanking` | backend/src/services/leaderboard.service.ts:27 | cutting the ordered groups at the limit (or keeping all when fewer) leaves out only names that score no higher than the last kept row |
| `Leaderboard.TopIsRanking` | backend/src/services/leaderboard.service.ts:20-29 | group, order and limit together meet the ranking specification |
| `Leaderboard.RankingIgnoresPinAndTime` | backend/src/services/leaderboard.service.ts:22-27 | two tables that agree on names and scores rank identically, whatever their pin flags and timestamps |
| `Leaderboard.RankingOfValidatedRows` | backend/src/routes/leaderboard.ts:24-28 | when every stored row passed `isValidRecord`, every ranked row is itself a valid name and score |
| `Grid.Opposite` | ojt-ai-feature-frontend/workspace/rag-dev-front/src/games/SnakeGame.tsx:15 | two steps are opposite exactly when their coordinates cancel, i.e. either one is the other negated |
| `Grid.NotOppositeToItself` | ojt-ai-feature-frontend/workspace/rag-dev-front/src/games/SnakeGame.tsx:15 | no direction is `OPPOSITE` to itself, so repeating the current direction is always queued |
| `SnakeGame.KeyDirection` | ojt-ai-feature-frontend/workspace/rag-dev-front/src/games/SnakeGame.tsx:108-122 | a key maps to up, down, left or right exactly when it is the matching arrow key or W/S/A/D in either case; every other key maps to nothing |
| `SnakeGame.Enqueue` | ojt-ai-feature-frontend/workspace/rag-dev-front/src/games/SnakeGame.tsx:127-130 | a direction is appended exactly when it is not opposite to the effective direction (the last queued one, else the committed one), and dropped otherwise; the queue's no-reversal property is preserved |
| `SnakeGame.PopKeepsNoReversal` | ojt-ai-feature-frontend/workspace/rag-dev-front/src/games/SnakeGame.tsx:146-148 | committing the front of the queue never reverses the previous direction, and the rest of the queue keeps the no-reversal property |
| `SnakeGame.Toggled` | ojt-ai-feature-frontend/workspace/rag-dev-front/src/games/SnakeGame.tsx:95-98 | running and paused swap; idle and over stay as they are |
| `SnakeGame.ToggleTwiceRestores` | ojt-ai-feature-frontend/workspace/rag-dev-front/src/games/SnakeGame.tsx:95-98 | two Space presses restore the status |
| `SnakeGame.Advance` | ojt-ai-feature-frontend/workspace/rag-dev-front/src/games/SnakeGame.tsx:151-189 | the move is legal exactly when the new head is on the board, is not on any cell but the tail, and is not on the tail when the food is there; a legal move puts the new head in front, eats exactly when the head is on the food, and keeps the tail only when eating (length +1 eating, unchanged otherwise) |
| `SnakeGame.AdvanceExamples` | ojt-ai-feature-frontend/workspace/rag-dev-front/src/games/SnakeGame.tsx:151-189 | `[(10,10)]` moving right becomes `[(11,10)]`; `[(2,0),(1,0),(0,0)]` moving left crashes into its middle cell |
| `SnakeGame.AdvanceKeepsWellFormed` | ojt-ai-feature-frontend/workspace/rag-dev-front/src/games/SnakeGame.tsx:176-188 | a legal move keeps the snake non-empty, on the board, without repeated cells and connected |
| `SnakeGame.StepIntoTail` | ojt-ai-feature-frontend/workspace/rag-dev-front/src/games/SnakeGame.tsx:163-174 | stepping onto the cell the tail is leaving is legal exactly when the food is not there |
| `SnakeGame.WallEndsGame` | ojt-ai-feature-frontend/workspace/rag-dev-front/src/games/SnakeGame.tsx:157-161 | a head step off the board always ends the game |
| `SnakeGame.NoTurnIntoNeck` | ojt-ai-feature-frontend/workspace/rag-dev-front/src/games/SnakeGame.tsx:127-128 | a direction that passed the reversal filter never puts the head on the neck |
| `SnakeGame.Trim` | ojt-ai-feature-frontend/workspace/rag-dev-front/src/games/SnakeGame.tsx:210 | `trim()` gives the contiguous part of the name left after removing only white space before and after it; that part neither starts nor ends with white space, and is empty exactly when the name is all white space |
| `SnakeGame.SubmitName` | ojt-ai-feature-frontend/workspace/rag-dev-front/src/games/SnakeGame.tsx:210 | the submitted name is never empty; it is the trimmed name whenever the typed name has a non-space character, and `Player` when nothing but white space was typed; it is no longer than the typed name unless it is `Player` |
| `SnakeGame.SubmissionIsValidPayload` | ojt-ai-feature-frontend/workspace/rag-dev-front/src/games/SnakeGame.tsx:210-214 | a typed name of at most 16 characters and a positive score always form a payload that `isValidRecord` accepts |
| `SnakeGame.Game.constructor` | ojt-ai-feature-frontend/workspace/rag-dev-front/src/games/SnakeGame.tsx:56-72 | the initial state: snake `[(10,10)]`, food `(5,5)`, score 0, idle, name `Player`, direction right, empty queue, flags cleared |
| `SnakeGame.Game.SetPlayerName` | ojt-ai-feature-frontend/workspace/rag-dev-front/src/games/SnakeGame.tsx:301-307 | the name field takes the typed text |
| `SnakeGame.Game.KeyDown` | ojt-ai-feature-frontend/workspace/rag-dev-front/src/games/SnakeGame.tsx:91-131 | Space toggles the pause and changes nothing else; other keys change nothing unless the game runs and the key is mapped, and then the queue becomes the filtered append; snake, food and score are never touched |
| `SnakeGame.Game.Tick` | ojt-ai-feature-frontend/workspace/rag-dev-front/src/games/SnakeGame.tsx:142-189 | nothing changes unless running; otherwise at most one direction leaves the front of the queue and is committed, even when the tick then ends the game; a crash sets `over` with snake, food and score unchanged; a legal move installs the new snake, and eating adds exactly 1 to the score and moves the food to the given board cell; the committed direction never reverses and never points at the neck; the invariants hold |
| `SnakeGame.Game.TriggerSubmit` | ojt-ai-feature-frontend/workspace/rag-dev-front/src/games/SnakeGame.tsx:196-211 | a call is issued exactly when the status is over, the score is positive, the run is not yet submitted, at least 600 ms passed since the last stamp, and the lock is free; the stamp moves to `now` exactly when the first four pass, even if the lock then blocks; an issued call carries the submit name and the score and takes the lock |
| `SnakeGame.Game.Settle` | ojt-ai-feature-frontend/workspace/rag-dev-front/src/games/SnakeGame.tsx:212-222 | success marks the run submitted, failure leaves the mark as it was, and the lock is always released |
| `SnakeGame.Game.StartGame` | ojt-ai-feature-frontend/workspace/rag-dev-front/src/games/SnakeGame.tsx:269-283 | all three submission flags are cleared; snake, food, score, direction and queue return to their initial values; the status becomes running |
| `SnakeGame.DoubleTriggerIssuesOnce` | ojt-ai-feature-frontend/workspace/rag-dev-front/src/games/SnakeGame.tsx:201-204 | two game-over notifications less than 600 ms apart issue at most one submission, even when the first attempt has settled (successfully or not) and released the lock in between |
| `SnakeGame.TriggerWhileInFlightIssuesNothing` | ojt-ai-feature-frontend/workspace/rag-dev-front/src/games/SnakeGame.tsx:206-208 | while an issued submission has not settled, no further notification, at any time, issues another |

## Left out

- Canvas rendering and the colour helpers (`lerp`, `lerpColor`, `drawRoundRect`, the render effect) are not modelled. They are floating-point pixel output.
- React wiring is not modelled: `useState`/`useEffect`, the `statusRef` mirror and the JSX. The model reads the current state directly. The 120 ms `setInterval` is also left out: each call to `Tick` is one timer firing.
- The keyboard details `isTyping` and `preventDefault` are not modelled. `KeyDown` is the handler for a key pressed outside a text field. The name input's `maxLength={12}` is not modelled either. `SubmissionIsValidPayload` takes the length bound as a premise instead.
- `Math.random` is not modelled. `Tick` takes the new food cell as a parameter, required to be on the board.
- `Date.now()` is not modelled. Both time stamps are parameters.
- The network calls (`submitScore`, `fetchLeaderboard`), the polling leaderboard widget, Express routing, the MySQL pool, server start-up and `console.error` logging are not modelled.
- Concurrency of the asynchronous submission is modelled only as the split into `TriggerSubmit` and `Settle`. A `Settle` arriving after `StartGame` applies to the new run, as the code's refs do.
- String lengths in JavaScript count UTF-16 code units, while a Dafny `char` is a Unicode scalar value. The model counts one unit per `char`, which agrees with JavaScript for Basic Multilingual Plane text only. A character beyond it (an emoji such as U+1F600) counts as two units in JavaScript, so the 16-unit bound of `isValidRecord` and `trim` see such names differently: nine such emoji are 18 units and rejected by the source, but accepted by `Validate.IsValidRecord`. Such names are outside the model.
- Looking a key up in the direction map only considers the eight listed keys. Inherited object properties (`constructor`, …) are never `KeyboardEvent.key` values.
- Lower-casing is modelled for A–Z only. No other character lower-cases to one of the map's keys, so the lookup result is the same.
- JavaScript numbers are doubles. Coordinates, scores and limits are unbounded integers here. Coordinates and in-game scores stay small, but the server's inputs need not: `limit` comes from the query string and `score` from any request body, and `isValidRecord` accepts an integer score such as 1e300, which is not exactly representable.
- A huge limit is not modelled as the SQL error it causes: `Number.isInteger(1e21)` is true, so `safeLimit` is 1e21 and `LIMIT ${safeLimit}` renders as `LIMIT 1e+21`, a syntax error the route answers with status 500. The model's `Top(rows, 10^21)` returns every group instead.
- `getTop`'s default parameter `limit = 10` is not modelled separately: the route always passes a number, and the model reaches that default only as `SafeLimit(Integer(10))`.
- Names are grouped by exact string equality, which assumes a binary collation on the `name` column. No schema is part of this model; under MySQL's default case- and accent-insensitive collations (or a PAD SPACE one, which ignores trailing spaces) `GROUP BY name` would merge names such as "Bob" and "bob" into one group and return either spelling.
- Leaderboard.Table.AddRecord: the score is an integer. The service itself accepts any number, but its only caller stores a score only after `isValidRecord` accepted it.
- The order of tied rankings is not modelled: MySQL leaves the order among equal best scores unspecified. `IsRanking` allows any such order. `Top` picks one: stable by first appearance.
