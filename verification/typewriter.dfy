/**
 The typewriter text cycler: its state, its timing options and the single
 transition that each timer tick applies.

 The component keeps three pieces of state (which word is active, the text
 currently shown, and whether it is deleting). Every tick either types the
 next code unit of the active word, holds the finished word and then flips
 to deleting, deletes the last code unit, or, once the text is empty, moves
 on to the next word, wrapping round at the end of the list.
 */
module TypeWriter {
  import opened Utf16

  /** The component state: the active word's position in the list, the text
      on screen, and the typing/deleting flag. */
  datatype State = State(index: nat, text: Text, deleting: bool)

  /** Timing options in milliseconds: the interval between typed code units,
      the interval between deleted code units, and the pause on a finished
      word. */
  datatype Config = Config(speed: nat, deleteSpeed: nat, delay: nat)

  /** The option values used when the caller gives none. */
  const Defaults: Config := Config(100, 50, 2000)

  /** The state on mount: first word, nothing shown, typing. */
  function Initial(): (s: State)
    ensures s.index == 0 && |s.text| == 0 && !s.deleting
  {
    State(0, [], false)
  }

  /** The state invariant the cycler keeps: the index names a word of the
      list and the text on screen is a prefix of that word. */
  ghost predicate Inv(words: seq<Text>, s: State) {
    s.index < |words| && s.text <= words[s.index]
  }

  /** A tick can run without a fault: the list is not empty and the tick
      either finds the active word or takes the one branch that never reads
      it (deleting with nothing left, which only advances the index). */
  predicate TickDefined(words: seq<Text>, s: State) {
    |words| > 0 && (s.index < |words| || (s.deleting && s.text == []))
  }

  /** `w.slice(0, end)` of the host language: a negative end counts back
      from the end of the string, and the result is clamped to `w`. */
  function SliceTo(w: Text, end: int): (r: Text)
    ensures r <= w
    ensures 0 <= end <= |w| ==> |r| == end
    ensures |w| < end ==> r == w
    ensures end < 0 ==> |r| == (if |w| + end < 0 then 0 else |w| + end)
  {
    if end < 0 then w[..(if |w| + end < 0 then 0 else |w| + end)]
    else if end > |w| then w
    else w[..end]
  }

  /** One tick: type, hold, delete or advance. */
  function Step(words: seq<Text>, s: State): (r: State)
    requires TickDefined(words, s)
    // the cycler can always take another tick, and keeps its invariant
    ensures TickDefined(words, r)
    ensures Inv(words, s) ==> Inv(words, r)
  {
    if !s.deleting then
      var word := words[s.index];
      if |s.text| < |word| then s.(text := SliceTo(word, |s.text| + 1))
      else s.(deleting := true)
    else if |s.text| > 0 then
      s.(text := SliceTo(words[s.index], |s.text| - 1))
    else
      s.(index := (s.index + 1) % |words|, deleting := false)
  }

  /** Type: while the word is incomplete, a tick appends exactly its next
      code unit; the word and the mode stay. */
  lemma StepTypes(words: seq<Text>, s: State)
    requires Inv(words, s) && !s.deleting && |s.text| < |words[s.index]|
    ensures Step(words, s) == s.(text := s.text + [words[s.index][|s.text|]])
  {
    var w := words[s.index];
    assert w[..|s.text| + 1] == w[..|s.text|] + [w[|s.text|]];
  }

  /** Hold: on the finished word a tick only flips the mode to deleting. */
  lemma StepHolds(words: seq<Text>, s: State)
    requires Inv(words, s) && !s.deleting && s.text == words[s.index]
    ensures Step(words, s) == s.(deleting := true)
  {
  }

  /** Delete: while text is left, a tick removes exactly its last code unit;
      the word and the mode stay. */
  lemma StepDeletes(words: seq<Text>, s: State)
    requires Inv(words, s) && s.deleting && s.text != []
    ensures Step(words, s) == s.(text := s.text[..|s.text| - 1])
  {
    var w := words[s.index];
    assert w[..|s.text| - 1] == s.text[..|s.text| - 1];
  }

  /** Advance: once the text is empty, a tick moves to the next word,
      wrapping from the last to the first, and starts typing again. */
  lemma StepAdvances(words: seq<Text>, s: State)
    requires TickDefined(words, s) && s.deleting && s.text == []
    ensures Step(words, s) == State((s.index + 1) % |words|, [], false)
    ensures s.index == |words| - 1 ==> Step(words, s).index == 0
  {
  }

  /** Every tick changes some piece of state, so the effect, which re-runs
      only when a piece of state changes, always arms the next timeout; and
      the word changes only once its text has been deleted completely. */
  lemma StepProgresses(words: seq<Text>, s: State)
    requires TickDefined(words, s)
    ensures Step(words, s) != s
    ensures Step(words, s).index != s.index ==> s.deleting && s.text == []
  {
  }

  /** The tick is a hold: typing, and the whole word is already shown. */
  predicate IsHold(words: seq<Text>, s: State)
    requires TickDefined(words, s)
  {
    !s.deleting && |s.text| >= |words[s.index]|
  }

  /** The timeout the effect arms for the next tick. */
  function TickDelay(cfg: Config, s: State): nat {
    if s.deleting then cfg.deleteSpeed else cfg.speed
  }

  /** Requested milliseconds between the state change that produced `s` and the one
      that replaces it: the tick's timeout, plus the pause of the nested
      timer when the tick is a hold. */
  function StepDuration(cfg: Config, words: seq<Text>, s: State): (d: nat)
    requires TickDefined(words, s)
    ensures d >= TickDelay(cfg, s)
    ensures !IsHold(words, s) ==> d == TickDelay(cfg, s)
    ensures IsHold(words, s) ==> d == cfg.speed + cfg.delay
  {
    TickDelay(cfg, s) + (if IsHold(words, s) then cfg.delay else 0)
  }

  /** With no words the very first tick faults: the initial state is typing,
      and typing reads the length of a word that does not exist. */
  lemma EmptyListFaults()
    ensures !TickDefined([], Initial())
  {
  }
}
