/**
 * The per-frame step of the game engine (the `loop` callback in components/GameEngine.tsx):
 * maybe spawn a word, let every word fall, drop the ones past the bottom, charge a life and
 * end the game when the lives run out.
 */
module GameLoop {
  import opened Types
  import opened EngineState

  /**
   * The values `Math.random` supplies for one spawn attempt, each in [0, 1): for the choice
   * of text, for `x` and for `speed`; and the word's random identifier.
   */
  datatype Draw = Draw(id: string, rText: real, rX: real, rSpeed: real)

  predicate InUnit(r: real) { 0.0 <= r < 1.0 }

  predicate ValidDraw(d: Draw) {
    InUnit(d.rText) && InUnit(d.rX) && InUnit(d.rSpeed)
  }

  /** `Math.floor(r * n)`: a uniform draw turned into an index of a list of `n` items. */
  function PickIndex(n: nat, r: real): (i: nat)
    requires n > 0 && InUnit(r)
    ensures i < n
    ensures i as real <= r * n as real < i as real + 1.0
  {
    var p := r * n as real;
    assert 0.0 <= p < n as real by {
      assert r * n as real < 1.0 * n as real;
    }
    p.Floor
  }

  /** The candidate word a spawn attempt builds: placed off the top, nothing typed, unlocked. */
  function NewWord(pool: seq<string>, d: Draw): (w: Word)
    requires pool != [] && ValidDraw(d)
    ensures w.text in pool && w.id == d.id
    ensures 10.0 <= w.x < 90.0
    ensures 0.02 <= w.speed < 0.07
    ensures w.y == -10.0 && w.typedIndex == 0 && !w.isLocked
    ensures WellFormed(w)
  {
    Word(d.id, pool[PickIndex(|pool|, d.rText)], d.rX * 80.0 + 10.0, -10.0, d.rSpeed * 0.05 + 0.02, 0, false)
  }

  function Abs(x: real): real {
    if x < 0.0 then -x else x
  }

  /** Some word near the top (`y < 20`) is less than 15 points away horizontally from `w`. */
  predicate TooClose(ws: seq<Word>, w: Word) {
    exists i :: 0 <= i < |ws| && Abs(ws[i].x - w.x) < 15.0 && ws[i].y < 20.0
  }

  /** More than the spawn interval has passed since the last successful spawn. */
  predicate SpawnDue(s: State, time: real) {
    time - s.lastSpawn > s.spawnRate as real
  }

  /** The spawn attempt of a frame succeeds. */
  predicate Spawns(s: State, time: real, d: Draw)
    requires ValidDraw(d) && (SpawnDue(s, time) ==> s.pool != [])
  {
    SpawnDue(s, time) && !TooClose(s.words, NewWord(s.pool, d))
  }

  /**
   * The spawning half of a frame. Only a successful spawn changes anything: it appends the
   * new word and stamps the spawn time; a rejected attempt leaves the timer alone, so the
   * next frame tries again.
   */
  function Spawn(s: State, time: real, d: Draw): (r: State)
    requires ValidDraw(d) && (SpawnDue(s, time) ==> s.pool != [])
    ensures r.score == s.score && r.lives == s.lives && r.status == s.status && r.gameOver == s.gameOver
    ensures r.spawnRate == s.spawnRate && r.mult == s.mult && r.lastTime == s.lastTime && r.pool == s.pool
    ensures !Spawns(s, time, d) ==> r == s
    ensures Spawns(s, time, d) ==> r.words == s.words + [NewWord(s.pool, d)] && r.lastSpawn == time
  {
    if SpawnDue(s, time) then
      var w := NewWord(s.pool, d);
      if !TooClose(s.words, w) then
        assert (s.words + [w])[|s.words|] == w;
        s.(words := s.words + [w], lastSpawn := time)
      else s
    else s
  }

  /** One word after `delta` milliseconds of falling. */
  function Fallen(w: Word, mult: real, delta: real): Word {
    w.(y := w.y + w.speed * mult * (delta / 16.0))
  }

  /** Every word after `delta` milliseconds of falling: each moves down by its own speed times the multiplier, per 16 ms. */
  function FallAll(ws: seq<Word>, mult: real, delta: real): (r: seq<Word>)
    ensures |r| == |ws|
    ensures forall i :: 0 <= i < |ws| ==> OnlyYChanged(r[i], ws[i])
    ensures forall i :: 0 <= i < |ws| ==> r[i].y - ws[i].y == ws[i].speed * mult * (delta / 16.0)
  {
    seq(|ws|, i requires 0 <= i < |ws| => Fallen(ws[i], mult, delta))
  }

  /** A word is past the bottom edge. */
  predicate Gone(w: Word) {
    w.y > 100.0
  }

  /** Some word is past the bottom edge. */
  predicate AnyGone(ws: seq<Word>) {
    exists i :: 0 <= i < |ws| && Gone(ws[i])
  }

  /** The words still on the field, in their order; `SurvivorsMembers` says which. */
  function Survivors(ws: seq<Word>): (r: seq<Word>)
    ensures |r| <= |ws|
    ensures |r| == |ws| <==> !AnyGone(ws)
  {
    if ws == [] then []
    else
      var rest := Survivors(ws[1..]);
      assert AnyGone(ws) <==> Gone(ws[0]) || AnyGone(ws[1..]) by {
        if AnyGone(ws[1..]) {
          var k :| 0 <= k < |ws[1..]| && Gone(ws[1..][k]);
          assert Gone(ws[k + 1]);
        }
      }
      if Gone(ws[0]) then rest else [ws[0]] + rest
  }

  /** The kept words are exactly the words of the input that are not past the bottom. */
  lemma {:induction false} SurvivorsMembers(ws: seq<Word>)
    ensures forall w :: w in Survivors(ws) <==> w in ws && !Gone(w)
    decreases |ws|
  {
    if ws != [] {
      SurvivorsMembers(ws[1..]);
      assert forall w :: w in ws <==> w == ws[0] || w in ws[1..];
    }
  }

  /** The positions, in increasing order, of the words still on the field. */
  function KeptAt(ws: seq<Word>): (r: seq<nat>)
    ensures forall k :: 0 <= k < |r| ==> r[k] < |ws|
    ensures forall a, b :: 0 <= a < b < |r| ==> r[a] < r[b]
  {
    if ws == [] then []
    else
      var shifted := Shift(KeptAt(ws[1..]));
      if Gone(ws[0]) then shifted else [0] + shifted
  }

  /** Every position moved one place on. */
  function Shift(ps: seq<nat>): (r: seq<nat>)
    ensures |r| == |ps|
    ensures forall k :: 0 <= k < |ps| ==> r[k] == ps[k] + 1
  {
    seq(|ps|, k requires 0 <= k < |ps| => ps[k] + 1)
  }

  /** Putting a word in front of both sequences keeps the positional correspondence, with positions shifted. */
  lemma PrependKept(w: Word, rs: seq<Word>, tail: seq<Word>, rest: seq<nat>)
    requires |rest| == |tail|
    requires forall k :: 0 <= k < |rest| ==> rest[k] < |rs| && tail[k] == rs[rest[k]]
    ensures forall k :: 0 <= k < |rest| + 1 ==> ([0] + Shift(rest))[k] < |rs| + 1
    ensures forall k :: 0 <= k < |rest| + 1 ==> ([w] + tail)[k] == ([w] + rs)[([0] + Shift(rest))[k]]
  {
  }

  /** The survivors are exactly the words at the kept positions. */
  lemma {:induction false} KeptAtSurvivors(ws: seq<Word>)
    ensures |KeptAt(ws)| == |Survivors(ws)|
    ensures forall k :: 0 <= k < |KeptAt(ws)| ==> Survivors(ws)[k] == ws[KeptAt(ws)[k]]
    decreases |ws|
  {
    if ws != [] {
      KeptAtSurvivors(ws[1..]);
      if Gone(ws[0]) {
        KeptAtDropStep(ws);
      } else {
        KeptAtKeepStep(ws);
      }
    }
  }

  /** One step of `KeptAtSurvivors` when the first word is past the bottom. */
  lemma KeptAtDropStep(ws: seq<Word>)
    requires ws != [] && Gone(ws[0])
    requires |KeptAt(ws[1..])| == |Survivors(ws[1..])|
    requires forall k :: 0 <= k < |KeptAt(ws[1..])| ==> Survivors(ws[1..])[k] == ws[1..][KeptAt(ws[1..])[k]]
    ensures |KeptAt(ws)| == |Survivors(ws)|
    ensures forall k :: 0 <= k < |KeptAt(ws)| ==> Survivors(ws)[k] == ws[KeptAt(ws)[k]]
  {
    assert Survivors(ws) == Survivors(ws[1..]);
    assert KeptAt(ws) == Shift(KeptAt(ws[1..]));
  }

  /** One step of `KeptAtSurvivors` when the first word is still on the field. */
  lemma KeptAtKeepStep(ws: seq<Word>)
    requires ws != [] && !Gone(ws[0])
    requires |KeptAt(ws[1..])| == |Survivors(ws[1..])|
    requires forall k :: 0 <= k < |KeptAt(ws[1..])| ==> Survivors(ws[1..])[k] == ws[1..][KeptAt(ws[1..])[k]]
    ensures |KeptAt(ws)| == |Survivors(ws)|
    ensures forall k :: 0 <= k < |KeptAt(ws)| ==> Survivors(ws)[k] == ws[KeptAt(ws)[k]]
  {
    PrependKept(ws[0], ws[1..], Survivors(ws[1..]), KeptAt(ws[1..]));
    assert Survivors(ws) == [ws[0]] + Survivors(ws[1..]);
    assert KeptAt(ws) == [0] + Shift(KeptAt(ws[1..]));
    assert ws == [ws[0]] + ws[1..];
  }

  /** The outcome of a frame: the next state and the score handed to the game-over callback, if it fired. */
  datatype Step = Step(next: State, report: Option<int>)

  /**
   * The falling half of a frame, `delta` milliseconds after the previous one: every word
   * falls, the ones past the bottom are dropped, and if any was dropped one life is lost,
   * however many words crossed. At zero lives the game ends and reports its score.
   */
  function Settle(s: State, delta: real): (r: Step)
    ensures r.next.score == s.score && r.next.spawnRate == s.spawnRate && r.next.mult == s.mult
    ensures r.next.lastSpawn == s.lastSpawn && r.next.lastTime == s.lastTime && r.next.pool == s.pool
    ensures r.next.words == Survivors(FallAll(s.words, s.mult, delta))
    ensures r.next.lives == (if AnyGone(FallAll(s.words, s.mult, delta)) then s.lives - 1 else s.lives)
    ensures r.report.Some? <==> AnyGone(FallAll(s.words, s.mult, delta)) && s.lives - 1 <= 0
    ensures r.report.Some? ==> r.report.value == s.score && r.next.gameOver && r.next.status == GameOver
    ensures r.report.None? ==> r.next.gameOver == s.gameOver && r.next.status == s.status
  {
    var fallen := FallAll(s.words, s.mult, delta);
    var moved := s.(words := Survivors(fallen));
    if !AnyGone(fallen) then Step(moved, None)
    else
      var hit := moved.(lives := moved.lives - 1);
      if hit.lives <= 0 then Step(hit.(gameOver := true, status := GameOver), Some(hit.score))
      else Step(hit, None)
  }

  /**
   * One frame at time `time`. A finished game ignores it; otherwise the spawn attempt runs,
   * then the fall by the time since the previous frame.
   */
  function Tick(s: State, time: real, d: Draw): (r: Step)
    requires ValidDraw(d)
    requires !s.gameOver && SpawnDue(s, time) ==> s.pool != []
    ensures s.gameOver ==> r == Step(s, None)
    ensures s.lives - 1 <= r.next.lives <= s.lives
    ensures !s.gameOver ==> r.next.words == Survivors(FallAll(Spawn(s, time, d).words, s.mult, time - s.lastTime))
    ensures r.next.score == s.score && r.next.spawnRate == s.spawnRate
    ensures r.next.mult == s.mult && r.next.pool == s.pool
    ensures !s.gameOver ==> r.next.lastTime == time
    ensures r.report.Some? ==> !s.gameOver && r.report.value == s.score && r.next.gameOver
    ensures r.report.None? ==> r.next.gameOver == s.gameOver
  {
    if s.gameOver then Step(s, None)
    else Settle(Spawn(s, time, d).(lastTime := time), time - s.lastTime)
  }

  /** A running game's frame is the spawn attempt followed by the fall since the previous frame. */
  lemma TickSettles(s: State, time: real, d: Draw)
    requires ValidDraw(d) && !s.gameOver && (SpawnDue(s, time) ==> s.pool != [])
    ensures Tick(s, time, d) == Settle(Spawn(s, time, d).(lastTime := time), time - s.lastTime)
  {
  }

  /** Dropping fallen words distributes over concatenation, so the survivors keep their order. */
  lemma {:induction false} SurvivorsAppend(a: seq<Word>, b: seq<Word>)
    ensures Survivors(a + b) == Survivors(a) + Survivors(b)
    decreases |a|
  {
    if a == [] {
      assert a + b == b;
    } else {
      assert (a + b)[1..] == a[1..] + b;
      SurvivorsAppend(a[1..], b);
    }
  }

  /** Dropping words never creates a second locked word. */
  lemma {:induction false} SurvivorsAtMostOneLocked(ws: seq<Word>)
    requires AtMostOneLocked(ws)
    ensures AtMostOneLocked(Survivors(ws))
    decreases |ws|
  {
    if ws != [] {
      var tail := ws[1..];
      assert AtMostOneLocked(tail) by {
        forall a, b | 0 <= a < |tail| && 0 <= b < |tail| && tail[a].isLocked && tail[b].isLocked
          ensures a == b
        {
          assert ws[a + 1].isLocked && ws[b + 1].isLocked;
        }
      }
      SurvivorsAtMostOneLocked(tail);
      var rest := Survivors(tail);
      if ws[0].isLocked && !Gone(ws[0]) {
        forall k | 0 <= k < |rest|
          ensures !rest[k].isLocked
        {
          SurvivorsMembers(tail);
          assert rest[k] in tail;
          var m :| 0 <= m < |tail| && tail[m] == rest[k];
          assert ws[m + 1] == rest[k];
        }
        var r := [ws[0]] + rest;
        assert forall k :: 1 <= k < |r| ==> r[k] == rest[k - 1];
      }
    }
  }

  /** Falling keeps every word well formed and keeps at most one locked. */
  lemma FallAllKeepsShape(ws: seq<Word>, mult: real, delta: real)
    requires AtMostOneLocked(ws)
    requires forall i :: 0 <= i < |ws| ==> WellFormed(ws[i])
    ensures AtMostOneLocked(FallAll(ws, mult, delta))
    ensures forall w :: w in FallAll(ws, mult, delta) ==> WellFormed(w)
  {
    var r := FallAll(ws, mult, delta);
    forall a, b | 0 <= a < |r| && 0 <= b < |r| && r[a].isLocked && r[b].isLocked
      ensures a == b
    {
      assert ws[a].isLocked && ws[b].isLocked;
    }
    forall w | w in r
      ensures WellFormed(w)
    {
      var k :| 0 <= k < |r| && r[k] == w;
      assert WellFormed(ws[k]);
    }
  }

  /** A spawn keeps every word well formed and keeps at most one locked. */
  lemma SpawnKeepsShape(s: State, time: real, d: Draw)
    requires ValidDraw(d) && (SpawnDue(s, time) ==> s.pool != [])
    requires AtMostOneLocked(s.words)
    requires forall i :: 0 <= i < |s.words| ==> WellFormed(s.words[i])
    ensures AtMostOneLocked(Spawn(s, time, d).words)
    ensures forall i :: 0 <= i < |Spawn(s, time, d).words| ==> WellFormed(Spawn(s, time, d).words[i])
  {
    var r := Spawn(s, time, d);
    if Spawns(s, time, d) {
      var w := NewWord(s.pool, d);
      assert r.words == s.words + [w];
      assert forall i :: 0 <= i < |s.words| ==> r.words[i] == s.words[i];
      assert r.words[|s.words|] == w;
    }
  }

  /** The falling half keeps the word shapes, and the lives and game-over flag in step. */
  lemma SettlePreservesValid(s: State, delta: real, next: State)
    requires Valid(s) && !s.gameOver
    requires next == Settle(s, delta).next
    ensures Valid(next)
  {
    var fallen := FallAll(s.words, s.mult, delta);
    FallAllKeepsShape(s.words, s.mult, delta);
    SurvivorsAtMostOneLocked(fallen);
    SurvivorsMembers(fallen);
    forall k | 0 <= k < |next.words|
      ensures WellFormed(next.words[k])
    {
      assert next.words[k] in fallen;
    }
  }

  /** Every frame keeps the game's invariant: lives stay in [0, 5], and the game ends exactly when they reach 0. */
  lemma TickPreservesValid(s: State, time: real, d: Draw)
    requires Valid(s) && ValidDraw(d)
    ensures Valid(Tick(s, time, d).next)
  {
    if !s.gameOver {
      var begun := Spawn(s, time, d).(lastTime := time);
      var r := Tick(s, time, d);
      TickSettles(s, time, d);
      assert r.next == Settle(begun, time - s.lastTime).next;
      SpawnPreservesValid(s, time, d);
      SettlePreservesValid(begun, time - s.lastTime, r.next);
    }
  }

  /** The spawning half keeps the invariant. */
  lemma SpawnPreservesValid(s: State, time: real, d: Draw)
    requires Valid(s) && ValidDraw(d) && !s.gameOver
    ensures Valid(Spawn(s, time, d).(lastTime := time))
  {
    SpawnKeepsShape(s, time, d);
  }

  /**
   * Falling then dropping never moves a word up: every word kept is the input word at its
   * origin with only its `y` changed, and that `y` is not smaller.
   */
  lemma FallNeverRaises(ws: seq<Word>, mult: real, delta: real, after: seq<Word>)
    requires delta >= 0.0 && mult >= 0.0
    requires forall i :: 0 <= i < |ws| ==> ws[i].speed >= 0.0
    requires after == Survivors(FallAll(ws, mult, delta))
    ensures NoneRaised(after, ws, KeptAt(FallAll(ws, mult, delta)))
  {
    var fallen := FallAll(ws, mult, delta);
    var origin := KeptAt(fallen);
    KeptAtSurvivors(fallen);
    forall k | 0 <= k < |after|
      ensures origin[k] < |ws| && FellFrom(after[k], ws[origin[k]])
    {
      var w := ws[origin[k]];
      assert after[k] == Fallen(w, mult, delta);
      FallenNotUp(w, mult, delta);
    }
  }

  /**
   * In the falling half no word moves up: every word still on the field is a word of the
   * collection before the fall, with only its `y` changed, and that `y` is not smaller.
   */
  lemma SettleNeverRaises(s: State, delta: real)
    requires delta >= 0.0 && s.mult >= 0.0
    requires forall i :: 0 <= i < |s.words| ==> s.words[i].speed >= 0.0
    ensures NoneRaised(Settle(s, delta).next.words, s.words, KeptAt(FallAll(s.words, s.mult, delta)))
  {
    FallNeverRaises(s.words, s.mult, delta, Settle(s, delta).next.words);
  }

  /** A word with a non-negative speed, falling for a non-negative time, does not move up. */
  lemma FallenNotUp(w: Word, mult: real, delta: real)
    requires w.speed >= 0.0 && mult >= 0.0 && delta >= 0.0
    ensures FellFrom(Fallen(w, mult, delta), w)
  {
    assert w.speed * mult >= 0.0;
    assert w.speed * mult * (delta / 16.0) >= 0.0;
  }

  /**
   * Between two frames no word moves up: every word still on the field was on the field or
   * just spawned, with only its `y` changed, and that `y` is not smaller. This needs time
   * not to run backwards between frames.
   */
  lemma TickNeverRaises(s: State, time: real, d: Draw)
    requires ValidDraw(d) && !s.gameOver && (SpawnDue(s, time) ==> s.pool != [])
    requires time >= s.lastTime && s.mult >= 0.0
    requires forall i :: 0 <= i < |s.words| ==> s.words[i].speed >= 0.0
    ensures NoneRaised(Tick(s, time, d).next.words, Spawn(s, time, d).words,
                       KeptAt(FallAll(Spawn(s, time, d).words, s.mult, time - s.lastTime)))
  {
    var begun := Spawn(s, time, d).(lastTime := time);
    TickSettles(s, time, d);
    SpawnSpeeds(s, time, d);
    SettleNeverRaises(begun, time - s.lastTime);
  }

  /** A spawn adds only a word with a positive speed. */
  lemma SpawnSpeeds(s: State, time: real, d: Draw)
    requires ValidDraw(d) && (SpawnDue(s, time) ==> s.pool != [])
    requires forall i :: 0 <= i < |s.words| ==> s.words[i].speed >= 0.0
    ensures forall i :: 0 <= i < |Spawn(s, time, d).words| ==> Spawn(s, time, d).words[i].speed >= 0.0
  {
    if Spawns(s, time, d) {
      var ws := Spawn(s, time, d).words;
      assert ws == s.words + [NewWord(s.pool, d)];
      assert forall i :: 0 <= i < |s.words| ==> ws[i] == s.words[i];
    }
  }

  /** A frame costs at most one life, whatever number of words crosses the bottom together. */
  lemma TickCostsAtMostOneLife(s: State, time: real, d: Draw)
    requires Valid(s) && ValidDraw(d) && !s.gameOver
    ensures AnyGone(FallAll(Spawn(s, time, d).words, s.mult, time - s.lastTime)) ==> Tick(s, time, d).next.lives == s.lives - 1
    ensures !AnyGone(FallAll(Spawn(s, time, d).words, s.mult, time - s.lastTime)) ==> Tick(s, time, d).next.lives == s.lives
  {
    TickSettles(s, time, d);
  }
}
