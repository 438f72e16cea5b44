/**
 * A game instance as a whole: the word list arrives, play starts, and frames and
 * keystrokes interleave on one thread until the lives run out (components/GameEngine.tsx).
 */
module Session {
  import opened Types
  import opened EngineState
  import opened KeyHandler
  import opened GameLoop
  import WordService

  /** Something that reaches the game between two steps: a key press, or a frame at a time with its random draws. */
  datatype Event = Press(key: string) | Frame(time: real, draw: Draw)

  predicate ValidEvents(evs: seq<Event>) {
    forall i :: 0 <= i < |evs| && evs[i].Frame? ==> ValidDraw(evs[i].draw)
  }

  /** The end state of a run and the scores handed to the game-over callback during it, in order. */
  datatype Outcome = Outcome(final: State, reports: seq<int>)

  /** Play starts with the word list for the provider's reply, at time `now`. */
  function Begin(reply: WordService.Reply, now: real): (s: State)
    ensures Valid(s) && s.words == [] && s.score == 0 && s.lives == StartLives
    ensures s.spawnRate == StartSpawnRate && s.mult == StartMultiplier && s.lastTime == now
  {
    Start(Mount(), WordService.WordsForGame(reply), now)
  }

  /** Feeds the events to the game one after the other. */
  function Run(s: State, evs: seq<Event>): (r: Outcome)
    requires s.pool != [] && ValidEvents(evs)
    ensures r.final.pool == s.pool
    ensures r.final.score >= s.score
    decreases |evs|
  {
    if evs == [] then Outcome(s, [])
    else
      match evs[0]
      case Press(key) => Run(Key(s, key), evs[1..])
      case Frame(time, d) =>
        var step := Tick(s, time, d);
        var rest := Run(step.next, evs[1..]);
        Outcome(rest.final, (if step.report.Some? then [step.report.value] else []) + rest.reports)
  }

  /** Once the game is over, nothing changes and nothing more is reported. */
  lemma {:induction false} RunAfterGameOver(s: State, evs: seq<Event>)
    requires s.pool != [] && ValidEvents(evs) && s.gameOver
    ensures Run(s, evs) == Outcome(s, [])
    decreases |evs|
  {
    if evs != [] {
      RunAfterGameOver(s, evs[1..]);
    }
  }

  /** Every run keeps the invariant: at most one word locked, the ramp within its bounds, lives in [0, 5]. */
  lemma {:induction false} RunPreservesValid(s: State, evs: seq<Event>)
    requires Valid(s) && ValidEvents(evs)
    ensures Valid(Run(s, evs).final)
    decreases |evs|
  {
    if evs != [] {
      match evs[0]
      case Press(key) =>
        KeyPreservesValid(s, key);
        RunPreservesValid(Key(s, key), evs[1..]);
      case Frame(time, d) =>
        TickPreservesValid(s, time, d);
        RunPreservesValid(Tick(s, time, d).next, evs[1..]);
    }
  }

  /**
   * Difficulty only ever rises and lives only ever fall: the spawn interval does not grow,
   * the multiplier does not shrink, the lives do not rise.
   */
  lemma {:induction false} RunMonotone(s: State, evs: seq<Event>)
    requires Valid(s) && ValidEvents(evs)
    ensures Run(s, evs).final.spawnRate <= s.spawnRate
    ensures Run(s, evs).final.mult >= s.mult
    ensures Run(s, evs).final.lives <= s.lives
    decreases |evs|
  {
    if evs != [] {
      match evs[0]
      case Press(key) =>
        KeyPreservesValid(s, key);
        RunMonotone(Key(s, key), evs[1..]);
      case Frame(time, d) =>
        TickPreservesValid(s, time, d);
        RunMonotone(Tick(s, time, d).next, evs[1..]);
    }
  }

  /**
   * The game-over callback fires at most once, exactly when a run takes a running game to
   * its end, and with the final score.
   */
  lemma {:induction false} RunReportsOnce(s: State, evs: seq<Event>)
    requires Valid(s) && ValidEvents(evs)
    ensures |Run(s, evs).reports| <= 1
    ensures |Run(s, evs).reports| == 1 <==> !s.gameOver && Run(s, evs).final.gameOver
    ensures |Run(s, evs).reports| == 1 ==> Run(s, evs).reports[0] == Run(s, evs).final.score
    decreases |evs|
  {
    if evs != [] {
      match evs[0]
      case Press(key) =>
        KeyPreservesValid(s, key);
        RunReportsOnce(Key(s, key), evs[1..]);
      case Frame(time, d) =>
        var step := Tick(s, time, d);
        TickPreservesValid(s, time, d);
        RunReportsOnce(step.next, evs[1..]);
        if step.report.Some? {
          RunAfterGameOver(step.next, evs[1..]);
        }
    }
  }

  /** Any run from the start of play keeps the invariant and reports the game's end at most once. */
  lemma PlayFromBegin(reply: WordService.Reply, now: real, evs: seq<Event>)
    requires ValidEvents(evs)
    ensures Valid(Run(Begin(reply, now), evs).final)
    ensures |Run(Begin(reply, now), evs).reports| <= 1
  {
    RunPreservesValid(Begin(reply, now), evs);
    RunReportsOnce(Begin(reply, now), evs);
  }
}
