/** Concrete plays of the game engine, checked against the model. */
module Scenarios {
  import opened Types
  import opened EngineState
  import opened KeyHandler
  import opened GameLoop
  import opened Session
  import WordService

  /** A game just started on the fallback list, at time 0. */
  function Fresh(): State {
    Begin(WordService.Thrown, 0.0)
  }

  function At(id: string, text: string, y: real): Word {
    Word(id, text, 50.0, y, 0.05, 0, false)
  }

  /** Typing "c", "a", "t" at a fresh game's only word "cat": 30 points, multiplier 1.05, interval 1975 ms. */
  lemma TypingCat()
    ensures var s := Fresh().(words := [At("w1", "cat", 40.0)]);
      var r := Key(Key(Key(s, "c"), "a"), "t");
      && r.score == 30 && r.mult == 1.05 && r.spawnRate == 1975 && r.words == []
  {
    var s := Fresh().(words := [At("w1", "cat", 40.0)]);
    var s1 := Key(s, "c");
    assert SelectTarget(s.words, 'c') == Some(0);
    assert s1.words == [At("w1", "cat", 40.0).(isLocked := true, typedIndex := 1)];
    var s2 := Key(s1, "a");
    assert FindLocked(s1.words) == Some(0);
    assert s2.words == [At("w1", "cat", 40.0).(isLocked := true, typedIndex := 2)];
    assert FindLocked(s2.words) == Some(0);
  }

  /** A one-letter word is locked and completed by one key: ten points, nothing locked, no ramp. */
  lemma TypingOneLetter()
    ensures var s := Fresh().(words := [At("w1", "a", 40.0)]);
      var r := Key(s, "a");
      && r.score == 10 && r.words == [] && r.mult == 1.0 && r.spawnRate == 2000
  {
    var s := Fresh().(words := [At("w1", "a", 40.0)]);
    assert SelectTarget(s.words, 'a') == Some(0);
  }

  /** Of two words starting with "t", at y = 30 and y = 80, the lower one on the screen is locked. */
  lemma LowestWordIsLocked()
    ensures var s := Fresh().(words := [At("w1", "tree", 30.0), At("w2", "tide", 80.0)]);
      var r := Key(s, "T");
      && r.words[1].isLocked && !r.words[0].isLocked
  {
    var s := Fresh().(words := [At("w1", "tree", 30.0), At("w2", "tide", 80.0)]);
    assert IsTarget(s.words, 't', 1);
  }

  /** Two words level with each other: the one earlier in the collection is locked. */
  lemma TieGoesToEarlierWord()
    ensures var s := Fresh().(words := [At("w1", "tree", 30.0), At("w2", "tide", 30.0)]);
      var r := Key(s, "t");
      && r.words[0].isLocked && !r.words[1].isLocked
  {
    var s := Fresh().(words := [At("w1", "tree", 30.0), At("w2", "tide", 30.0)]);
    assert IsTarget(s.words, 't', 0);
  }

  /** Two words crossing the bottom in the same frame cost one life, not two. */
  lemma TwoCrossingsOneLife()
    ensures var s := Fresh().(words := [At("w1", "tree", 99.0), At("w2", "tide", 99.5)], lastSpawn := 0.0);
      var r := Tick(s, 400.0, Draw("w3", 0.0, 0.0, 0.0));
      && r.next.lives == 4 && r.next.words == [] && r.report == None
  {
    var s := Fresh().(words := [At("w1", "tree", 99.0), At("w2", "tide", 99.5)], lastSpawn := 0.0);
    var fallen := FallAll(s.words, s.mult, 400.0);
    assert Gone(fallen[0]) && Gone(fallen[1]);
  }
}
