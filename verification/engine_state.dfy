/**
 * The state a running game instance keeps between frames and keystrokes
 * (components/GameEngine.tsx): the mutable references of the component and the loop's own
 * `lastTime` and word pool, gathered into one immutable record.
 */
module EngineState {
  import opened Types

  const StartLives: int := 5
  const StartSpawnRate: int := 2000
  const MinSpawnRate: int := 300
  const SpawnRateStep: int := 25
  const StartMultiplier: real := 1.0
  const MaxMultiplier: real := 6.0
  const MultiplierStep: real := 0.05

  /**
   * `words` is the active collection, `spawnRate` the spawn interval in milliseconds,
   * `mult` the fall-speed multiplier, `lastSpawn` the time of the last successful spawn,
   * `lastTime` the time of the previous frame, `gameOver` the terminal flag the loop and
   * the key handler test, and `pool` the word list the loop draws from.
   */
  datatype State = State(
    words: seq<Word>,
    score: int,
    lives: int,
    status: GameStatus,
    spawnRate: int,
    mult: real,
    lastSpawn: real,
    lastTime: real,
    gameOver: bool,
    pool: seq<string>)

  /** A freshly mounted instance: loading, every reference at its initial value. */
  function Mount(): State {
    State([], 0, StartLives, Loading, StartSpawnRate, StartMultiplier, 0.0, 0.0, false, [])
  }

  /** The word list arrived at time `now`: the collection is cleared and play begins. */
  function Start(s: State, pool: seq<string>, now: real): (r: State)
    ensures r.status == Playing && r.words == [] && r.pool == pool && r.lastTime == now
    ensures r.score == s.score && r.lives == s.lives && r.gameOver == s.gameOver
    ensures r.spawnRate == s.spawnRate && r.mult == s.mult && r.lastSpawn == s.lastSpawn
  {
    s.(words := [], status := Playing, pool := pool, lastTime := now)
  }

  /**
   * The difficulty ramp run when a locked word is completed: the spawn interval shrinks by
   * 25 ms down to a floor of 300, the multiplier grows by 0.05 up to a ceiling of 6.
   */
  function Ramp(s: State): (r: State)
    ensures r == s.(spawnRate := r.spawnRate, mult := r.mult)
    ensures r.spawnRate >= MinSpawnRate && r.mult <= MaxMultiplier
    ensures s.spawnRate >= MinSpawnRate ==> r.spawnRate <= s.spawnRate
    ensures s.mult <= MaxMultiplier ==> r.mult >= s.mult
    ensures s.spawnRate - SpawnRateStep >= MinSpawnRate ==> r.spawnRate == s.spawnRate - SpawnRateStep
    ensures s.spawnRate - SpawnRateStep < MinSpawnRate ==> r.spawnRate == MinSpawnRate
    ensures s.mult + MultiplierStep <= MaxMultiplier ==> r.mult == s.mult + MultiplierStep
    ensures s.mult + MultiplierStep > MaxMultiplier ==> r.mult == MaxMultiplier
  {
    var mult := if s.mult + MultiplierStep < MaxMultiplier then s.mult + MultiplierStep else MaxMultiplier;
    var rate := if s.spawnRate - SpawnRateStep > MinSpawnRate then s.spawnRate - SpawnRateStep else MinSpawnRate;
    s.(mult := mult, spawnRate := rate)
  }

  /** `ws` with its `i`-th word spliced out. */
  function Remove(ws: seq<Word>, i: nat): (r: seq<Word>)
    requires i < |ws|
    ensures |r| == |ws| - 1
    ensures forall j :: 0 <= j < i ==> r[j] == ws[j]
    ensures forall j :: i <= j < |r| ==> r[j] == ws[j + 1]
    ensures multiset(r) + multiset{ws[i]} == multiset(ws)
  {
    assert ws == ws[..i] + [ws[i]] + ws[i + 1..];
    ws[..i] + ws[i + 1..]
  }

  /** No two words are locked. */
  predicate AtMostOneLocked(ws: seq<Word>) {
    forall i, j :: 0 <= i < |ws| && 0 <= j < |ws| && ws[i].isLocked && ws[j].isLocked ==> i == j
  }

  /**
   * What holds of every word the game can show: it was spawned in range, a locked word has
   * its first letter typed and at least one to go, and an unlocked word has nothing typed.
   */
  predicate WellFormed(w: Word) {
    && 10.0 <= w.x < 90.0
    && 0.02 <= w.speed < 0.07
    && (if w.isLocked then 1 <= w.typedIndex < |w.text| else w.typedIndex == 0)
  }

  /** `v` is `w` with at most its `y` changed. */
  predicate OnlyYChanged(v: Word, w: Word) {
    && v.id == w.id && v.text == w.text && v.x == w.x && v.speed == w.speed
    && v.typedIndex == w.typedIndex && v.isLocked == w.isLocked
  }

  /** `v` is `w` moved straight down (or left in place). */
  predicate FellFrom(v: Word, w: Word) {
    OnlyYChanged(v, w) && v.y >= w.y
  }

  /**
   * Word `k` of `after` is word `origin[k]` of `before` moved straight down (or left in
   * place), and the origins are increasing, so the order of the words is kept.
   */
  predicate NoneRaised(after: seq<Word>, before: seq<Word>, origin: seq<nat>) {
    |origin| == |after| && FellAt(after, before, origin) && Increasing(origin)
  }

  /** Each word of `after` fell from the word of `before` that `origin` names for it. */
  predicate FellAt(after: seq<Word>, before: seq<Word>, origin: seq<nat>)
    requires |origin| == |after|
  {
    forall k :: 0 <= k < |after| ==> origin[k] < |before| && FellFrom(after[k], before[origin[k]])
  }

  /** Strictly increasing positions. */
  predicate Increasing(ps: seq<nat>) {
    forall a, b :: 0 <= a < b < |ps| ==> ps[a] < ps[b]
  }

  /** The invariant of a playing or finished game. */
  predicate Valid(s: State) {
    && AtMostOneLocked(s.words)
    && (forall i :: 0 <= i < |s.words| ==> WellFormed(s.words[i]))
    && MinSpawnRate <= s.spawnRate <= StartSpawnRate
    && StartMultiplier <= s.mult <= MaxMultiplier
    && 0 <= s.lives <= StartLives
    && s.score >= 0
    && (s.gameOver <==> s.lives == 0)
    && s.status == (if s.gameOver then GameOver else Playing)
    && s.pool != []
  }

  /** Play starts in the invariant whenever the word list is non-empty. */
  lemma StartValid(pool: seq<string>, now: real)
    requires pool != []
    ensures Valid(Start(Mount(), pool, now))
  {
  }
}
