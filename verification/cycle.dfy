/**
 Iterated ticks of the typewriter: reaching the full word, completing the
 type-hold-delete-advance cycle of one word, wrapping around the list, and
 the periodicity of the whole animation, in ticks and in milliseconds.
 */
module Cycle {
  import opened Utf16
  import opened TypeWriter

  /** The state after `k` ticks. */
  function Run(words: seq<Text>, s: State, k: nat): (r: State)
    requires TickDefined(words, s)
    ensures TickDefined(words, r)
    ensures Inv(words, s) ==> Inv(words, r)
    decreases k
  {
    if k == 0 then s else Run(words, Step(words, s), k - 1)
  }

  /** Nominal milliseconds the first `k` ticks take: the sum of the timeouts
      they request, a lower bound on the time a browser takes. */
  function Elapsed(cfg: Config, words: seq<Text>, s: State, k: nat): nat
    requires TickDefined(words, s)
    decreases k
  {
    if k == 0 then 0
    else StepDuration(cfg, words, s) + Elapsed(cfg, words, Step(words, s), k - 1)
  }

  /** Ticks one word takes from empty-and-typing to the next word: type every
      code unit, hold, delete every code unit, advance. */
  function WordTicks(w: Text): nat {
    2 * |w| + 2
  }

  /** Nominal milliseconds one word takes over the same span. */
  function WordTime(cfg: Config, w: Text): nat {
    (|w| + 1) * (cfg.speed + cfg.deleteSpeed) + cfg.delay
  }

  /** Ticks for the words from position `i` to the end of the list. */
  function TicksFrom(words: seq<Text>, i: nat): nat
    decreases |words| - i
  {
    if i >= |words| then 0 else WordTicks(words[i]) + TicksFrom(words, i + 1)
  }

  /** Milliseconds for the words from position `i` to the end of the list. */
  function TimeFrom(cfg: Config, words: seq<Text>, i: nat): nat
    decreases |words| - i
  {
    if i >= |words| then 0 else WordTime(cfg, words[i]) + TimeFrom(cfg, words, i + 1)
  }

  /** Ticks for one pass over the whole list. */
  function Period(words: seq<Text>): nat {
    TicksFrom(words, 0)
  }

  /** Running `a` then `b` ticks is running `a + b` ticks, and the times add. */
  lemma {:induction false} RunAdd(cfg: Config, words: seq<Text>, s: State, a: nat, b: nat)
    requires TickDefined(words, s)
    ensures Run(words, s, a + b) == Run(words, Run(words, s, a), b)
    ensures Elapsed(cfg, words, s, a + b) ==
            Elapsed(cfg, words, s, a) + Elapsed(cfg, words, Run(words, s, a), b)
    decreases a
  {
    if a > 0 {
      RunAdd(cfg, words, Step(words, s), a - 1, b);
    }
  }

  /** One more tick is one more step, and its duration. */
  lemma RunLast(cfg: Config, words: seq<Text>, s: State, k: nat)
    requires TickDefined(words, s)
    ensures Run(words, s, k + 1) == Step(words, Run(words, s, k))
    ensures Elapsed(cfg, words, s, k + 1) ==
            Elapsed(cfg, words, s, k) + StepDuration(cfg, words, Run(words, s, k))
  {
    RunAdd(cfg, words, s, k, 1);
  }

  /** Typing from any prefix of the active word reaches the full word after
      one tick per missing code unit, each taking `speed`. */
  lemma {:induction false} TypeRest(cfg: Config, words: seq<Text>, i: nat, j: nat)
    requires i < |words| && j <= |words[i]|
    ensures Run(words, State(i, words[i][..j], false), |words[i]| - j) == State(i, words[i], false)
    ensures Elapsed(cfg, words, State(i, words[i][..j], false), |words[i]| - j) ==
            (|words[i]| - j) * cfg.speed
    decreases |words[i]| - j
  {
    var w := words[i];
    var s := State(i, w[..j], false);
    if j == |w| {
      assert w[..j] == w;
    } else {
      StepTypes(words, s);
      assert w[..j] + [w[j]] == w[..j + 1];
      TypeRest(cfg, words, i, j + 1);
      MulSucc(|w| - (j + 1), cfg.speed);
    }
  }

  /** Deleting from a prefix of length `j` empties the text after `j` ticks,
      each taking `deleteSpeed`; the word and the mode stay. */
  lemma {:induction false} DeleteRest(cfg: Config, words: seq<Text>, i: nat, j: nat)
    requires i < |words| && j <= |words[i]|
    ensures Run(words, State(i, words[i][..j], true), j) == State(i, [], true)
    ensures Elapsed(cfg, words, State(i, words[i][..j], true), j) == j * cfg.deleteSpeed
    decreases j
  {
    var w := words[i];
    var s := State(i, w[..j], true);
    if j > 0 {
      StepDeletes(words, s);
      assert w[..j][..j - 1] == w[..j - 1];
      DeleteRest(cfg, words, i, j - 1);
    }
  }

  /** A hold tick on a finished word and an advance tick on an emptied one,
      with their durations. */
  lemma TurnSteps(cfg: Config, words: seq<Text>, i: nat)
    requires i < |words|
    ensures Run(words, State(i, words[i], false), 1) == State(i, words[i], true)
    ensures Elapsed(cfg, words, State(i, words[i], false), 1) == cfg.speed + cfg.delay
    ensures Run(words, State(i, [], true), 1) == State((i + 1) % |words|, [], false)
    ensures Elapsed(cfg, words, State(i, [], true), 1) == cfg.deleteSpeed
  {
    assert IsHold(words, State(i, words[i], false));
    StepHolds(words, State(i, words[i], false));
    StepAdvances(words, State(i, [], true));
  }

  /** Typing a whole word and holding it: `|w| + 1` ticks. */
  lemma TypeAndHold(cfg: Config, words: seq<Text>, i: nat)
    requires i < |words|
    ensures Run(words, State(i, [], false), |words[i]|) == State(i, words[i], false)
    ensures Run(words, State(i, [], false), |words[i]| + 1) == State(i, words[i], true)
    ensures Elapsed(cfg, words, State(i, [], false), |words[i]| + 1) ==
            |words[i]| * cfg.speed + cfg.speed + cfg.delay
  {
    var w := words[i];
    assert w[..0] == [];
    assert w[..|w|] == w;
    TypeRest(cfg, words, i, 0);
    TurnSteps(cfg, words, i);
    RunAdd(cfg, words, State(i, [], false), |w|, 1);
  }

  /** Deleting a whole word and advancing: `|w| + 1` ticks. */
  lemma DeleteAndAdvance(cfg: Config, words: seq<Text>, i: nat)
    requires i < |words|
    ensures Run(words, State(i, words[i], true), |words[i]| + 1) ==
            State((i + 1) % |words|, [], false)
    ensures Elapsed(cfg, words, State(i, words[i], true), |words[i]| + 1) ==
            |words[i]| * cfg.deleteSpeed + cfg.deleteSpeed
  {
    var w := words[i];
    assert w[..|w|] == w;
    DeleteRest(cfg, words, i, |w|);
    TurnSteps(cfg, words, i);
    RunAdd(cfg, words, State(i, w, true), |w|, 1);
  }

  /** The cycle of one word. From word `i`, empty and typing: after one tick
      per code unit the whole word is shown, and after `WordTicks` ticks
      (typing, hold, deleting, advance) the next word, wrapping to the first,
      is active with nothing shown and the cycler typing again. */
  lemma WordCycle(cfg: Config, words: seq<Text>, i: nat)
    requires i < |words|
    ensures Run(words, State(i, [], false), |words[i]|) == State(i, words[i], false)
    ensures Run(words, State(i, [], false), WordTicks(words[i])) ==
            State((i + 1) % |words|, [], false)
    ensures Elapsed(cfg, words, State(i, [], false), WordTicks(words[i])) ==
            WordTime(cfg, words[i])
  {
    var n := |words[i]|;
    TypeAndHold(cfg, words, i);
    DeleteAndAdvance(cfg, words, i);
    RunAdd(cfg, words, State(i, [], false), n + 1, n + 1);
    assert WordTicks(words[i]) == (n + 1) + (n + 1);
    assert WordTime(cfg, words[i]) ==
           (n * cfg.speed + cfg.speed + cfg.delay) + (n * cfg.deleteSpeed + cfg.deleteSpeed)
    by {
      Distribute(n, cfg.speed, cfg.deleteSpeed);
    }
  }

  lemma MulSucc(n: nat, a: nat)
    ensures (n + 1) * a == a + n * a
  {
  }

  lemma Distribute(n: nat, a: nat, b: nat)
    ensures (n + 1) * (a + b) == n * a + a + n * b + b
  {
    assert (n + 1) * (a + b) == n * (a + b) + (a + b);
    assert n * (a + b) == n * a + n * b;
  }

  lemma ModSelf(n: nat)
    requires n > 0
    ensures n % n == 0
  {
  }

  lemma ModBelow(x: nat, n: nat)
    requires x < n
    ensures x % n == x
  {
  }

  /** From word `i`, empty and typing, the words `i` to the last take
      `TicksFrom(words, i)` ticks and `TimeFrom(cfg, words, i)` milliseconds
      and end back at the initial state. */
  lemma {:induction false} CycleFrom(cfg: Config, words: seq<Text>, i: nat)
    requires i < |words|
    ensures Run(words, State(i, [], false), TicksFrom(words, i)) == Initial()
    ensures Elapsed(cfg, words, State(i, [], false), TicksFrom(words, i)) ==
            TimeFrom(cfg, words, i)
    decreases |words| - i
  {
    var s := State(i, [], false);
    var a, b := WordTicks(words[i]), TicksFrom(words, i + 1);
    var next := State((i + 1) % |words|, [], false);
    assert TicksFrom(words, i) == a + b;
    assert TimeFrom(cfg, words, i) == WordTime(cfg, words[i]) + TimeFrom(cfg, words, i + 1);
    WordCycle(cfg, words, i);
    RunAdd(cfg, words, s, a, b);
    if i + 1 < |words| {
      ModBelow(i + 1, |words|);
      CycleFrom(cfg, words, i + 1);
    } else {
      ModSelf(|words|);
      assert b == 0 && TimeFrom(cfg, words, i + 1) == 0;
    }
  }

  /** One pass over the whole list returns the cycler to its initial state. */
  lemma FullCycle(cfg: Config, words: seq<Text>)
    requires |words| > 0
    ensures Run(words, Initial(), Period(words)) == Initial()
    ensures Elapsed(cfg, words, Initial(), Period(words)) == TimeFrom(cfg, words, 0)
  {
    CycleFrom(cfg, words, 0);
  }

  /** The animation is periodic: `Period(words)` ticks and `TimeFrom(cfg,
      words, 0)` milliseconds later everything repeats. */
  lemma Periodic(cfg: Config, words: seq<Text>, k: nat)
    requires |words| > 0
    ensures Run(words, Initial(), Period(words) + k) == Run(words, Initial(), k)
    ensures Elapsed(cfg, words, Initial(), Period(words) + k) ==
            TimeFrom(cfg, words, 0) + Elapsed(cfg, words, Initial(), k)
  {
    FullCycle(cfg, words);
    RunAdd(cfg, words, Initial(), Period(words), k);
  }

  /** From mount: after one tick per code unit of the first word it is
      fully shown, and after its cycle the second word (the first again, for
      a one-word list) is active, empty and typing. */
  lemma FromMount(cfg: Config, words: seq<Text>)
    requires |words| > 0
    ensures Run(words, Initial(), |words[0]|).text == words[0]
    ensures Elapsed(cfg, words, Initial(), |words[0]|) == |words[0]| * cfg.speed
    ensures Run(words, Initial(), WordTicks(words[0])) == State(1 % |words|, [], false)
    ensures Elapsed(cfg, words, Initial(), WordTicks(words[0])) == WordTime(cfg, words[0])
  {
    assert words[0][..0] == [];
    TypeRest(cfg, words, 0, 0);
    WordCycle(cfg, words, 0);
  }

  /** A character outside the Basic Multilingual Plane is two code units, so
      typing it takes two ticks and the first of them shows a lone high
      surrogate; its whole cycle takes six ticks. */
  lemma AstralCharTakesTwoTicks(c: char)
    requires !InBmp(c)
    ensures Run([EncodeChar(c)], Initial(), 1).text == [EncodeChar(c)[0]]
    ensures IsHighSurrogate(Run([EncodeChar(c)], Initial(), 1).text[0])
    ensures Run([EncodeChar(c)], Initial(), 2).text == EncodeChar(c)
    ensures WordTicks(EncodeChar(c)) == 6
  {
    var w := EncodeChar(c);
    var words := [w];
    var s0 := State(0, [], false);
    var s1 := State(0, [w[0]], false);
    StepTypes(words, s0);
    assert Step(words, s0) == s1;
    StepTypes(words, s1);
    assert [w[0]] + [w[1]] == w;
    assert Step(words, s1) == State(0, w, false);
  }

  /** At every tick the text shown is a prefix of the active word, which is a
      word of the list: two words are never blended. */
  lemma AlwaysPrefix(words: seq<Text>, k: nat)
    requires |words| > 0
    ensures Run(words, Initial(), k).index < |words|
    ensures Run(words, Initial(), k).text <= words[Run(words, Initial(), k).index]
  {
  }
}
