/** The snake game engine: keyboard input, the pause toggle, the tick, the game-over score
    submission and the restart, with React, the canvas and the timers stripped away. */
module SnakeGame {
  import opened JsValues
  import opened Grid
  import Validate

  datatype Status = Idle | Running | Paused | Over

  /** The call the game-over handler issues: `submitScore(name, score)`. */
  datatype Submission = Submission(name: string, score: int)

  /** Minimum time, in milliseconds, between two submission attempts. */
  const DebounceMs := 600

  const InitialCell := Point(10, 10)
  const InitialFood := Point(5, 5)
  const DefaultName := "Player"

  /* ----- keys ----- */

  predicate StartsWith(s: string, prefix: string) {
    |prefix| <= |s| && s[..|prefix|] == prefix
  }

  /** `toLowerCase` on one character; only A-Z can lower-case into a key of the direction map. */
  function LowerChar(c: char): char {
    if 'A' <= c <= 'Z' then (c as int + 32) as char else c
  }

  function ToLower(s: string): (r: string)
    ensures |r| == |s| && forall i :: 0 <= i < |s| ==> r[i] == LowerChar(s[i])
  {
    seq(|s|, i requires 0 <= i < |s| => LowerChar(s[i]))
  }

  /** Arrow keys are looked up as they are, every other key lower-cased. */
  function NormalizeKey(key: string): string {
    if StartsWith(key, "Arrow") then key else ToLower(key)
  }

  /** The direction map of the key handler. */
  function KeyMap(k: string): Option<Point> {
    if k == "ArrowUp" || k == "w" then Some(Up)
    else if k == "ArrowDown" || k == "s" then Some(Down)
    else if k == "ArrowLeft" || k == "a" then Some(Left)
    else if k == "ArrowRight" || k == "d" then Some(Right)
    else None
  }

  lemma LowerIsLetter(key: string, c: char)
    requires c == 'w' || c == 's' || c == 'a' || c == 'd'
    ensures ToLower(key) == [c] <==> key == [c] || key == [(c as int - 32) as char]
  {
  }

  lemma LowerIsNotArrow(key: string, k: string)
    requires StartsWith(k, "Arrow")
    ensures ToLower(key) != k
  {
    if |key| > 0 && |k| > 0 {
      assert k[0] == 'A';
      assert ToLower(key)[0] == LowerChar(key[0]);
    }
  }

  /** The direction a key asks for: exactly the arrow keys and W, A, S, D in either case. */
  function KeyDirection(key: string): (d: Option<Point>)
    ensures d.Some? ==> IsDirection(d.value)
    ensures d == Some(Up) <==> key == "ArrowUp" || key == "w" || key == "W"
    ensures d == Some(Down) <==> key == "ArrowDown" || key == "s" || key == "S"
    ensures d == Some(Left) <==> key == "ArrowLeft" || key == "a" || key == "A"
    ensures d == Some(Right) <==> key == "ArrowRight" || key == "d" || key == "D"
  {
    LowerIsLetter(key, 'w'); LowerIsLetter(key, 's');
    LowerIsLetter(key, 'a'); LowerIsLetter(key, 'd');
    LowerIsNotArrow(key, "ArrowUp"); LowerIsNotArrow(key, "ArrowDown");
    LowerIsNotArrow(key, "ArrowLeft"); LowerIsNotArrow(key, "ArrowRight");
    KeyMap(NormalizeKey(key))
  }

  /* ----- the input buffer ----- */

  /** The direction a new key is compared with: the last queued one, else the committed one. */
  function Effective(queue: seq<Point>, dir: Point): Point {
    if |queue| > 0 then queue[|queue| - 1] else dir
  }

  /** Every queued direction differs from a reversal of the one that will be in force before it. */
  predicate NoReversal(dir: Point, queue: seq<Point>) {
    && (|queue| > 0 ==> !Opposite(dir, queue[0]))
    && (forall i :: 0 < i < |queue| ==> !Opposite(queue[i - 1], queue[i]))
  }

  /** The reversal filter in front of the queue. */
  function Enqueue(queue: seq<Point>, dir: Point, next: Point): (q: seq<Point>)
    ensures q == queue + [next] <==> !Opposite(Effective(queue, dir), next)
    ensures q == queue <==> Opposite(Effective(queue, dir), next)
    ensures NoReversal(dir, queue) ==> NoReversal(dir, q)
  {
    if Opposite(Effective(queue, dir), next) then queue
    else
      assert forall i :: 0 <= i < |queue| ==> (queue + [next])[i] == queue[i];
      queue + [next]
  }

  /** Taking the front of the queue as the committed direction keeps the filter's promise. */
  lemma PopKeepsNoReversal(dir: Point, queue: seq<Point>)
    requires |queue| > 0 && NoReversal(dir, queue)
    ensures !Opposite(dir, queue[0])
    ensures NoReversal(queue[0], queue[1..])
  {
  }

  /* ----- pause ----- */

  /** Space: running and paused swap, idle and over stay. */
  function Toggled(s: Status): (t: Status)
    ensures (s == Running || s == Paused) ==> t != s && (t == Running || t == Paused)
    ensures (s == Idle || s == Over) ==> t == s
  {
    match s
    case Running => Paused
    case Paused => Running
    case _ => s
  }

  lemma ToggleTwiceRestores(s: Status)
    ensures Toggled(Toggled(s)) == s
  {
  }

  /* ----- one step of the snake ----- */

  /** The outcome of the snake updater: the game ends, or the snake moves (and maybe eats). */
  datatype Move = Crash | Moved(body: seq<Point>, ate: bool)

  /** The `setSnake` updater of the tick: move the head one step, crash into a wall or the
      body, grow when the head lands on the food and otherwise drop the tail. */
  function Advance(prev: seq<Point>, dir: Point, food: Point): (m: Move)
    requires |prev| > 0
    ensures var head := Add(prev[0], dir);
            m.Moved? <==> InBounds(head) && head !in prev[..|prev| - 1]
                          && !(head == food && head == prev[|prev| - 1])
    ensures m.Moved? ==> m.ate == (Add(prev[0], dir) == food)
    ensures m.Moved? ==> |m.body| == |prev| + (if m.ate then 1 else 0)
    ensures m.Moved? ==> m.body[0] == Add(prev[0], dir) && m.body[1..] == prev[..|m.body| - 1]
  {
    var head := Add(prev[0], dir);
    if !InBounds(head) then Crash
    else
      var willEat := head == food;
      var bodyToCheck := if willEat then prev else prev[..|prev| - 1];
      assert prev == prev[..|prev| - 1] + [prev[|prev| - 1]];
      if head in bodyToCheck then Crash
      else
        var next := [head] + prev;
        if willEat then Moved(next, true) else Moved(next[..|next| - 1], false)
  }

  predicate Adjacent(a: Point, b: Point) {
    IsDirection(Point(a.x - b.x, a.y - b.y))
  }

  /** A snake on the board: not empty, inside the grid, no cell twice, each cell next to the one before. */
  predicate WellFormed(snake: seq<Point>) {
    && |snake| > 0
    && (forall i :: 0 <= i < |snake| ==> InBounds(snake[i]))
    && (forall i, j :: 0 <= i < j < |snake| ==> snake[i] != snake[j])
    && (forall i :: 0 <= i < |snake| - 1 ==> Adjacent(snake[i], snake[i + 1]))
  }

  lemma AdvanceKeepsWellFormed(prev: seq<Point>, dir: Point, food: Point)
    requires WellFormed(prev) && IsDirection(dir)
    ensures Advance(prev, dir, food).Moved? ==> WellFormed(Advance(prev, dir, food).body)
  {
  }

  /** The tail rule: when the head lands on the cell the tail is leaving, the move is legal
      exactly when it does not eat (the test then leaves the tail cell out). */
  lemma StepIntoTail(prev: seq<Point>, dir: Point, food: Point)
    requires WellFormed(prev) && |prev| >= 2
    requires Add(prev[0], dir) == prev[|prev| - 1]
    ensures Advance(prev, dir, food).Moved? <==> food != prev[|prev| - 1]
  {
  }

  /** Two small boards: a lone head moving right into an empty cell, and a three-cell snake
      turning left onto its own middle cell. */
  lemma AdvanceExamples()
    ensures Advance([Point(10, 10)], Right, InitialFood) == Moved([Point(11, 10)], false)
    ensures Advance([Point(2, 0), Point(1, 0), Point(0, 0)], Left, InitialFood) == Crash
  {
  }

  /** A head step outside the board always ends the game, whatever the snake's length. */
  lemma WallEndsGame(prev: seq<Point>, dir: Point, food: Point)
    requires |prev| > 0 && !InBounds(Add(prev[0], dir))
    ensures Advance(prev, dir, food) == Crash
  {
  }

  /** A direction that passed the reversal filter never turns the head onto the neck. */
  lemma NoTurnIntoNeck(snake: seq<Point>, dir: Point, next: Point)
    requires |snake| >= 2 && snake[0] == Add(snake[1], dir) && !Opposite(dir, next)
    ensures Add(snake[0], next) != snake[1]
  {
  }

  /* ----- the submitted name ----- */

  /** The characters `String.prototype.trim` removes: white space and line terminators. */
  predicate IsJsSpace(c: char) {
    || c == '\t' || c == '\n' || c == '\U{000B}' || c == '\U{000C}' || c == '\r' || c == ' '
    || c == '\U{00A0}' || c == '\U{1680}' || '\U{2000}' <= c <= '\U{200A}'
    || c == '\U{2028}' || c == '\U{2029}' || c == '\U{202F}' || c == '\U{205F}'
    || c == '\U{3000}' || c == '\U{FEFF}'
  }

  function TrimStart(s: string): (r: string)
    ensures |r| <= |s| && r == s[|s| - |r|..]
    ensures r == [] || !IsJsSpace(r[0])
    ensures forall i :: 0 <= i < |s| - |r| ==> IsJsSpace(s[i])
  {
    if s != [] && IsJsSpace(s[0]) then TrimStart(s[1..]) else s
  }

  function TrimEnd(s: string): (r: string)
    ensures |r| <= |s| && r == s[..|r|]
    ensures r == [] || !IsJsSpace(r[|r| - 1])
    ensures forall i :: |r| <= i < |s| ==> IsJsSpace(s[i])
  {
    if s != [] && IsJsSpace(s[|s| - 1]) then TrimEnd(s[..|s| - 1]) else s
  }

  /** `trim()`: the middle of the string between its leading and trailing white space;
      empty exactly when the string is all white space. */
  function Trim(s: string): (r: string)
    ensures exists i, j :: 0 <= i <= j <= |s| && r == s[i..j]
                           && (forall k :: 0 <= k < i ==> IsJsSpace(s[k]))
                           && (forall k :: j <= k < |s| ==> IsJsSpace(s[k]))
    ensures r == [] || (!IsJsSpace(r[0]) && !IsJsSpace(r[|r| - 1]))
    ensures r == [] <==> forall i :: 0 <= i < |s| ==> IsJsSpace(s[i])
  {
    var t := TrimStart(s);
    var r := TrimEnd(t);
    assert r == s[|s| - |t|..|s| - |t| + |r|];
    assert r != [] ==> r[0] == t[0];
    assert t != [] ==> !IsJsSpace(s[|s| - |t|]);
    r
  }

  /** `playerName.trim() || 'Player'`: never empty, never longer than the typed name or the default. */
  function SubmitName(playerName: string): (r: string)
    ensures 1 <= |r|
    ensures |r| <= |playerName| || r == DefaultName
    ensures r == DefaultName || r == Trim(playerName)
    ensures r == DefaultName <== forall i :: 0 <= i < |playerName| ==> IsJsSpace(playerName[i])
    ensures (exists i :: 0 <= i < |playerName| && !IsJsSpace(playerName[i])) ==> r == Trim(playerName)
  {
    if Trim(playerName) == "" then DefaultName else Trim(playerName)
  }

  /** A name that fits the server's limit and a positive score always pass the payload check. */
  lemma SubmissionIsValidPayload(playerName: string, score: int)
    requires |playerName| <= Validate.MaxNameLength && score > 0
    ensures Validate.IsValidRecord(Str(SubmitName(playerName)), Num(Integer(score)))
  {
  }

  /* ----- the game ----- */

  class Game {
    var snake: seq<Point>
    var food: Point
    var score: int
    var status: Status
    var playerName: string
    /** The committed direction (`dirRef`) and the pending ones (`dirQueue`). */
    var dir: Point
    var dirQueue: seq<Point>
    /** The submission flags: `hasSubmittedRef`, `submitLockRef`, `lastSubmitAtRef`. */
    var hasSubmitted: bool
    var submitLock: bool
    var lastSubmitAt: int

    ghost predicate Valid()
      reads this
    {
      && WellFormed(snake)
      && InBounds(food)
      && |snake| == score + 1
      && IsDirection(dir)
      && (forall i :: 0 <= i < |dirQueue| ==> IsDirection(dirQueue[i]))
      && NoReversal(dir, dirQueue)
      // the last move was made in the committed direction (a crash ends the run instead)
      && (status != Over && |snake| >= 2 ==> snake[0] == Add(snake[1], dir))
    }

    constructor ()
      ensures Valid()
      ensures snake == [InitialCell] && food == InitialFood && score == 0 && status == Idle
      ensures playerName == DefaultName && dir == Right && dirQueue == []
      ensures !hasSubmitted && !submitLock && lastSubmitAt == 0
    {
      snake, food, score, status := [InitialCell], InitialFood, 0, Idle;
      playerName := DefaultName;
      dir, dirQueue := Right, [];
      hasSubmitted, submitLock, lastSubmitAt := false, false, 0;
    }

    /** The name input's change handler. */
    method SetPlayerName(name: string)
      requires Valid()
      modifies this`playerName
      ensures Valid()
      ensures playerName == name
    {
      playerName := name;
    }

    /** The keydown handler, outside a text field: Space toggles the pause; while running,
        a mapped key passes the reversal filter into the queue; nothing else has an effect. */
    method KeyDown(code: string, key: string)
      requires Valid()
      modifies this`status, this`dirQueue
      ensures Valid()
      ensures code == "Space" ==> status == Toggled(old(status)) && dirQueue == old(dirQueue)
      ensures code != "Space" ==> status == old(status)
      ensures code != "Space" && (old(status) != Running || KeyDirection(key).None?) ==>
                dirQueue == old(dirQueue)
      ensures code != "Space" && old(status) == Running && KeyDirection(key).Some? ==>
                dirQueue == Enqueue(old(dirQueue), dir, KeyDirection(key).value)
    {
      if code == "Space" {
        status := Toggled(status);
        return;
      }
      if status != Running {
        return;
      }
      var next := KeyDirection(key);
      if next.None? {
        return;
      }
      dirQueue := Enqueue(dirQueue, dir, next.value);
    }

    /** One timer tick. `newFood` stands for the random cell drawn when the snake eats. */
    method Tick(newFood: Point)
      requires Valid() && InBounds(newFood)
      modifies this`snake, this`food, this`score, this`status, this`dir, this`dirQueue
      ensures Valid()
      ensures old(status) != Running ==>
                snake == old(snake) && food == old(food) && score == old(score) &&
                status == old(status) && dir == old(dir) && dirQueue == old(dirQueue)
      // at most one direction leaves the front of the queue, even when the tick then ends the game
      ensures old(status) == Running && |old(dirQueue)| > 0 ==>
                dir == old(dirQueue)[0] && dirQueue == old(dirQueue)[1..]
      ensures old(status) == Running && |old(dirQueue)| == 0 ==>
                dir == old(dir) && dirQueue == old(dirQueue)
      ensures old(status) == Running ==>
                var m := Advance(old(snake), dir, old(food));
                && (m.Crash? ==> status == Over && snake == old(snake) &&
                                 food == old(food) && score == old(score))
                && (m.Moved? ==> status == Running && snake == m.body &&
                                 score == old(score) + (if m.ate then 1 else 0) &&
                                 food == (if m.ate then newFood else old(food)))
      // the committed direction never reverses, so the head never turns back onto the neck
      ensures old(status) == Running ==> !Opposite(old(dir), dir)
      ensures old(status) == Running && |old(snake)| >= 2 ==> Add(old(snake)[0], dir) != old(snake)[1]
    {
      if status != Running {
        return;
      }
      if |dirQueue| > 0 {
        PopKeepsNoReversal(dir, dirQueue);
        dir, dirQueue := dirQueue[0], dirQueue[1..];
      } else {
        Grid.NotOppositeToItself(dir);
      }
      if |snake| >= 2 {
        NoTurnIntoNeck(snake, old(dir), dir);
      }
      AdvanceKeepsWellFormed(snake, dir, food);
      var m := Advance(snake, dir, food);
      match m
      case Crash =>
        status := Over;
      case Moved(body, ate) =>
        snake := body;
        if ate {
          score := score + 1;
          food := newFood;
        }
    }

    /** The game-over effect: decides whether `submitScore` is called now, at time `now`.
        The guards run in order; the debounce stamp is written only once its own guard has
        passed, before the lock is tested. */
    method TriggerSubmit(now: int) returns (call: Option<Submission>)
      requires Valid()
      modifies this`submitLock, this`lastSubmitAt
      ensures Valid()
      ensures var passed := old(status) == Over && old(score) > 0 && !old(hasSubmitted) &&
                            now - old(lastSubmitAt) >= DebounceMs;
              && lastSubmitAt == (if passed then now else old(lastSubmitAt))
              && (call.Some? <==> passed && !old(submitLock))
      ensures call.Some? ==> call.value == Submission(SubmitName(playerName), score) && score > 0
      ensures submitLock == (old(submitLock) || call.Some?)
    {
      call := None;
      if status != Over { return; }
      if score <= 0 { return; }
      if hasSubmitted { return; }
      if now - lastSubmitAt < DebounceMs { return; }
      lastSubmitAt := now;
      if submitLock { return; }
      submitLock := true;
      call := Some(Submission(SubmitName(playerName), score));
    }

    /** The submission settles: success marks the run submitted; the lock is released either way. */
    method Settle(success: bool)
      requires Valid()
      modifies this`hasSubmitted, this`submitLock
      ensures Valid()
      ensures hasSubmitted == (old(hasSubmitted) || success)
      ensures !submitLock
    {
      if success {
        hasSubmitted := true;
      }
      submitLock := false;
    }

    /** `startGame`: a fresh run, with the submission flags cleared. The name is kept. */
    method StartGame()
      requires Valid()
      modifies this`snake, this`food, this`score, this`status, this`dir, this`dirQueue,
               this`hasSubmitted, this`submitLock, this`lastSubmitAt
      ensures Valid()
      ensures snake == [InitialCell] && food == InitialFood && score == 0 && status == Running
      ensures dir == Right && dirQueue == []
      ensures !hasSubmitted && !submitLock && lastSubmitAt == 0
    {
      hasSubmitted, submitLock, lastSubmitAt := false, false, 0;
      snake, food, score := [InitialCell], InitialFood, 0;
      dir, dirQueue := Right, [];
      status := Running;
    }
  }

  /** A second game-over notification less than the debounce interval after an attempt
      issues nothing, even once that attempt has settled and released the lock. */
  method DoubleTriggerIssuesOnce(g: Game, t1: int, t2: int, success: bool)
    returns (c1: Option<Submission>, c2: Option<Submission>)
    requires g.Valid() && t1 <= t2 < t1 + DebounceMs
    modifies g
    ensures !(c1.Some? && c2.Some?)
  {
    c1 := g.TriggerSubmit(t1);
    g.Settle(success);
    c2 := g.TriggerSubmit(t2);
  }

  /** While an issued submission is in flight, no further notification issues another. */
  method TriggerWhileInFlightIssuesNothing(g: Game, t1: int, t2: int)
    returns (c1: Option<Submission>, c2: Option<Submission>)
    requires g.Valid()
    modifies g
    ensures !(c1.Some? && c2.Some?)
  {
    c1 := g.TriggerSubmit(t1);
    c2 := g.TriggerSubmit(t2);
  }
}
