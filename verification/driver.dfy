/**
 The chain of single-shot timers that drives the cycler, with the clock as
 an explicit value. Each state change is one tick, and the changed state
 arms the next timeout. A tick is one timeout firing, except the hold tick,
 which spans the outer timeout (it changes nothing and arms the nested
 timer) and the nested timeout that sets the flag.
 */
module Driver {
  import opened Utf16
  import opened TypeWriter
  import opened Cycle

  /** The text on screen after each of the first `ticks` ticks, from mount,
      and the nominal time in milliseconds at which each frame appears. */
  method Animate(cfg: Config, words: seq<Text>, ticks: nat)
    returns (frames: seq<Text>, times: seq<nat>)
    requires |words| > 0
    ensures |frames| == ticks + 1 && |times| == ticks + 1
    ensures frames[0] == [] && times[0] == 0
    ensures forall j :: 0 <= j <= ticks ==>
              frames[j] == Run(words, Initial(), j).text &&
              times[j] == Elapsed(cfg, words, Initial(), j)
    ensures forall j :: 0 <= j <= ticks ==>
              Run(words, Initial(), j).index < |words| &&
              frames[j] <= words[Run(words, Initial(), j).index]
    ensures forall j :: 0 <= j < ticks ==> times[j] <= times[j + 1]
  {
    var s := Initial();
    var clock: nat := 0;
    frames, times := [s.text], [clock];
    var k := 0;
    while k < ticks
      invariant k <= ticks
      invariant |frames| == k + 1 && |times| == k + 1
      invariant s == Run(words, Initial(), k)
      invariant clock == Elapsed(cfg, words, Initial(), k)
      invariant Inv(words, s)
      invariant forall j :: 0 <= j <= k ==>
                  frames[j] == Run(words, Initial(), j).text &&
                  times[j] == Elapsed(cfg, words, Initial(), j)
      invariant forall j :: 0 <= j < k ==> times[j] <= times[j + 1]
    {
      RunLast(cfg, words, Initial(), k);
      clock := clock + StepDuration(cfg, words, s);
      s := Step(words, s);
      frames, times := frames + [s.text], times + [clock];
      k := k + 1;
    }
  }
}
