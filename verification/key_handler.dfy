/**
 * The keystroke step of the game engine (`handleKeyDown` in components/GameEngine.tsx):
 * a key either advances the locked word, or locks the most urgent word it starts, or does
 * nothing.
 */
module KeyHandler {
  import opened Types
  import opened Text
  import opened EngineState

  /** Keys are handled only while playing and before the game is over. */
  predicate Accepts(s: State) {
    s.status == Playing && !s.gameOver
  }

  /** The letter a key stands for: its lower case, when that is a single letter a-z. */
  function LetterOf(key: string): (r: Option<char>)
    ensures r.Some? <==> |key| == 1 && (IsLetter(key[0]) || key[0] == KelvinSign)
    ensures r.Some? ==> IsLower(r.value) && r.value == LowerChar(key[0])
  {
    var k := ToLower(key);
    if |k| == 1 && IsLower(k[0]) then Some(k[0]) else None
  }

  /** The index of the first locked word, as `findIndex` reports it. */
  function FindLocked(ws: seq<Word>): (r: Option<nat>)
    ensures r.Some? ==> r.value < |ws| && ws[r.value].isLocked
    ensures r.Some? ==> forall i :: 0 <= i < r.value ==> !ws[i].isLocked
    ensures r.None? <==> forall i :: 0 <= i < |ws| ==> !ws[i].isLocked
  {
    if ws == [] then None
    else if ws[0].isLocked then Some(0)
    else
      match FindLocked(ws[1..])
      case None => None
      case Some(j) => Some(j + 1)
  }

  /** The word's text starts with `c` (an empty text starts with nothing). */
  predicate StartsWith(w: Word, c: char) {
    |w.text| > 0 && w.text[0] == c
  }

  /**
   * Word `j` heads the candidates once they are sorted by descending `y` with a stable
   * sort: it starts with `c`, no candidate is lower on the screen, and every candidate
   * level with it comes later in the collection.
   */
  predicate IsTarget(ws: seq<Word>, c: char, j: nat) {
    && j < |ws|
    && StartsWith(ws[j], c)
    && forall i :: 0 <= i < |ws| && StartsWith(ws[i], c) ==>
         ws[i].y < ws[j].y || (ws[i].y == ws[j].y && j <= i)
  }

  /** The word an unlocked keystroke `c` selects, if any word starts with `c`. */
  function SelectTarget(ws: seq<Word>, c: char): (r: Option<nat>)
    ensures forall j: nat :: IsTarget(ws, c, j) <==> r == Some(j)
    ensures r.None? <==> forall i :: 0 <= i < |ws| ==> !StartsWith(ws[i], c)
  {
    if ws == [] then None
    else
      var rest := SelectTarget(ws[1..], c);
      match rest
      case None =>
        if StartsWith(ws[0], c) then Some(0) else None
      case Some(j) =>
        if StartsWith(ws[0], c) && ws[0].y >= ws[j + 1].y then Some(0) else Some(j + 1)
  }

  /** Letter `c` typed at the locked word `i`. */
  function Advance(s: State, i: nat, c: char): State
    requires i < |s.words|
  {
    var w := s.words[i];
    if w.typedIndex < |w.text| && c == w.text[w.typedIndex] then
      if w.typedIndex + 1 == |w.text| then
        Ramp(s.(score := s.score + 10 * |w.text|, words := Remove(s.words, i)))
      else
        s.(words := s.words[i := w.(typedIndex := w.typedIndex + 1)])
    else
      s
  }

  /** Word `j` selected by an unlocked keystroke: locked with one letter typed, or done if that was all. */
  function Lock(s: State, j: nat): State
    requires j < |s.words|
  {
    var w := s.words[j];
    if |w.text| == 1 then
      s.(score := s.score + 10, words := Remove(s.words, j))
    else
      s.(words := s.words[j := w.(isLocked := true, typedIndex := 1)])
  }

  /** One keystroke. */
  function Key(s: State, key: string): (r: State)
    ensures !Accepts(s) || LetterOf(key).None? ==> r == s
    ensures r == s.(words := r.words, score := r.score, spawnRate := r.spawnRate, mult := r.mult)
    ensures r.score >= s.score
    ensures |r.words| <= |s.words|
    ensures s.spawnRate >= MinSpawnRate ==> r.spawnRate <= s.spawnRate
    ensures s.mult <= MaxMultiplier ==> r.mult >= s.mult
  {
    if !Accepts(s) then s
    else
      match LetterOf(key)
      case None => s
      case Some(c) =>
        match FindLocked(s.words)
        case Some(i) => Advance(s, i, c)
        case None =>
          match SelectTarget(s.words, c)
          case None => s
          case Some(j) => Lock(s, j)
  }

  /** With a word locked, the letter it expects next raises its typed count by one and changes nothing else. */
  lemma KeyAdvances(s: State, key: string, i: nat)
    requires Accepts(s) && LetterOf(key).Some? && FindLocked(s.words) == Some(i)
    requires s.words[i].typedIndex + 1 < |s.words[i].text|
    requires LetterOf(key).value == s.words[i].text[s.words[i].typedIndex]
    ensures Key(s, key) == s.(words := s.words[i := s.words[i].(typedIndex := s.words[i].typedIndex + 1)])
  {
  }

  /** With a word locked, any other letter changes no state at all. */
  lemma KeyWrongLetter(s: State, key: string, i: nat)
    requires Accepts(s) && LetterOf(key).Some? && FindLocked(s.words) == Some(i)
    requires s.words[i].typedIndex >= |s.words[i].text|
          || LetterOf(key).value != s.words[i].text[s.words[i].typedIndex]
    ensures Key(s, key) == s
  {
  }

  /**
   * The last letter of the locked word completes it: the score grows by ten points a letter,
   * exactly that word leaves the collection, no word is left locked, and the ramp runs.
   */
  lemma KeyCompletes(s: State, key: string, i: nat)
    requires Valid(s) && Accepts(s) && LetterOf(key).Some? && FindLocked(s.words) == Some(i)
    requires s.words[i].typedIndex + 1 == |s.words[i].text|
    requires LetterOf(key).value == s.words[i].text[s.words[i].typedIndex]
    ensures Key(s, key).score == s.score + 10 * |s.words[i].text|
    ensures Key(s, key).words == Remove(s.words, i)
    ensures FindLocked(Key(s, key).words) == None
    ensures Key(s, key) == Ramp(s).(score := Key(s, key).score, words := Key(s, key).words)
  {
    var r := Key(s, key);
    forall j | 0 <= j < |r.words|
      ensures !r.words[j].isLocked
    {
      if j < i {
        assert r.words[j] == s.words[j];
      } else {
        assert r.words[j] == s.words[j + 1];
      }
    }
  }

  /**
   * With no word locked, a letter locks the target it selects, with one letter typed; the
   * target becomes the only locked word and nothing else changes.
   */
  lemma KeyLocks(s: State, key: string, j: nat)
    requires Accepts(s) && LetterOf(key).Some? && FindLocked(s.words) == None
    requires SelectTarget(s.words, LetterOf(key).value) == Some(j)
    requires |s.words[j].text| > 1
    ensures Key(s, key) == s.(words := s.words[j := s.words[j].(isLocked := true, typedIndex := 1)])
    ensures FindLocked(Key(s, key).words) == Some(j)
    ensures AtMostOneLocked(Key(s, key).words)
  {
    var r := Key(s, key);
    assert forall k :: 0 <= k < |r.words| && k != j ==> r.words[k] == s.words[k];
    assert r.words[j].isLocked;
  }

  /**
   * A one-letter target is completed by the keystroke that selects it: ten points, the word
   * removed, no word locked, and the spawn interval and multiplier untouched.
   */
  lemma KeyCompletesOneLetter(s: State, key: string, j: nat)
    requires Accepts(s) && LetterOf(key).Some? && FindLocked(s.words) == None
    requires SelectTarget(s.words, LetterOf(key).value) == Some(j)
    requires |s.words[j].text| == 1
    ensures Key(s, key) == s.(score := s.score + 10, words := Remove(s.words, j))
    ensures FindLocked(Key(s, key).words) == None
  {
    var r := Key(s, key);
    forall k | 0 <= k < |r.words|
      ensures !r.words[k].isLocked
    {
      if k < j {
        assert r.words[k] == s.words[k];
      } else {
        assert r.words[k] == s.words[k + 1];
      }
    }
  }

  /** With no word locked, a letter no word starts with changes nothing. */
  lemma KeyNoCandidate(s: State, key: string)
    requires Accepts(s) && LetterOf(key).Some? && FindLocked(s.words) == None
    requires forall i :: 0 <= i < |s.words| ==> !StartsWith(s.words[i], LetterOf(key).value)
    ensures Key(s, key) == s
  {
  }

  /** Every keystroke keeps the game's invariant, in particular that at most one word is locked. */
  lemma KeyPreservesValid(s: State, key: string)
    requires Valid(s)
    ensures Valid(Key(s, key))
  {
    if Accepts(s) && LetterOf(key).Some? {
      match FindLocked(s.words)
      case Some(i) => LockedKeyPreservesValid(s, key, i);
      case None => UnlockedKeyPreservesValid(s, key);
    }
  }

  /** A keystroke aimed at the locked word keeps the invariant. */
  lemma LockedKeyPreservesValid(s: State, key: string, i: nat)
    requires Valid(s) && Accepts(s) && LetterOf(key).Some? && FindLocked(s.words) == Some(i)
    ensures Valid(Key(s, key))
  {
    var c := LetterOf(key).value;
    var w := s.words[i];
    if w.typedIndex < |w.text| && c == w.text[w.typedIndex] {
      if w.typedIndex + 1 == |w.text| {
        KeyCompletes(s, key, i);
        RemoveKeepsWellFormed(s.words, i);
      } else {
        var r := Key(s, key);
        assert r.words == s.words[i := w.(typedIndex := w.typedIndex + 1)];
        forall a, b | 0 <= a < |r.words| && 0 <= b < |r.words| && r.words[a].isLocked && r.words[b].isLocked
          ensures a == b
        {
          assert s.words[a].isLocked && s.words[b].isLocked;
        }
      }
    }
  }

  /** A keystroke with no word locked keeps the invariant. */
  lemma UnlockedKeyPreservesValid(s: State, key: string)
    requires Valid(s) && Accepts(s) && LetterOf(key).Some? && FindLocked(s.words) == None
    ensures Valid(Key(s, key))
  {
    match SelectTarget(s.words, LetterOf(key).value)
    case None =>
    case Some(j) =>
      if |s.words[j].text| == 1 {
        KeyCompletesOneLetter(s, key, j);
        RemoveKeepsWellFormed(s.words, j);
      } else {
        KeyLocks(s, key, j);
      }
  }

  /** Splicing a word out keeps every remaining word well formed. */
  lemma RemoveKeepsWellFormed(ws: seq<Word>, i: nat)
    requires i < |ws|
    requires forall k :: 0 <= k < |ws| ==> WellFormed(ws[k])
    ensures forall k :: 0 <= k < |Remove(ws, i)| ==> WellFormed(Remove(ws, i)[k])
  {
    var r := Remove(ws, i);
    forall k | 0 <= k < |r|
      ensures WellFormed(r[k])
    {
      if k < i {
        assert r[k] == ws[k];
      } else {
        assert r[k] == ws[k + 1];
      }
    }
  }
}
