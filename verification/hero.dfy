/**
 The cycler as the hero section uses it: five job titles, typed at 80 ms a
 character, deleted at 40 ms a character, held for 2500 ms.
 */
module Hero {
  import opened Utf16
  import opened TypeWriter
  import opened Cycle

  const Titles: seq<Text> := [
    BmpText("Java Developer"),
    BmpText("Spring Boot Expert"),
    BmpText("React.js Developer"),
    BmpText("Full Stack Engineer"),
    BmpText("Microservices Architect")
  ]

  const HeroConfig: Config := Config(80, 40, 2500)

  /** From mount, the first title is fully shown after 14 ticks and a
      nominal 1120 ms; after its 30-tick cycle, 4300 ms, the second title
      starts from empty; a pass over all five titles takes 24140 ms. */
  lemma TitleTimes()
    ensures Run(Titles, Initial(), 14).text == Titles[0]
    ensures Elapsed(HeroConfig, Titles, Initial(), 14) == 1120
    ensures Run(Titles, Initial(), 30) == State(1, [], false)
    ensures Elapsed(HeroConfig, Titles, Initial(), 30) == 4300
    ensures Elapsed(HeroConfig, Titles, Initial(), Period(Titles)) == 24140
  {
    TitleLengths();
    FromMount(HeroConfig, Titles);
    FullCycle(HeroConfig, Titles);
    assert TimeFrom(HeroConfig, Titles, 5) == 0;
    assert TimeFrom(HeroConfig, Titles, 4) == 5380;
    assert TimeFrom(HeroConfig, Titles, 3) == 10280;
    assert TimeFrom(HeroConfig, Titles, 2) == 15060;
    assert TimeFrom(HeroConfig, Titles, 1) == 19840;
  }

  /** The titles are plain ASCII, so each character is one code unit. */
  lemma TitleLengths()
    ensures |Titles| == 5
    ensures |Titles[0]| == 14 && |Titles[1]| == 18 && |Titles[2]| == 18
    ensures |Titles[3]| == 19 && |Titles[4]| == 23
  {
  }

  /** The whole loop over the five titles takes 194 ticks; the last title
      wraps back to the first. */
  lemma TitlesLoop(k: nat)
    ensures Period(Titles) == 194
    ensures Run(Titles, Initial(), 194 + k) == Run(Titles, Initial(), k)
  {
    TitleLengths();
    assert TicksFrom(Titles, 5) == 0;
    assert TicksFrom(Titles, 4) == 48;
    assert TicksFrom(Titles, 3) == 88;
    assert TicksFrom(Titles, 2) == 126;
    assert TicksFrom(Titles, 1) == 164;
    Periodic(HeroConfig, Titles, k);
  }

  /** With the default options, from word `i`, empty and typing, the word's
      cycle of `WordTicks` ticks requests `150 * n + 2150` milliseconds for a
      word of `n` code units. */
  lemma DefaultWordTime(words: seq<Text>, i: nat)
    requires i < |words|
    ensures WordTime(Defaults, words[i]) == 150 * |words[i]| + 2150
    ensures Elapsed(Defaults, words, State(i, [], false), WordTicks(words[i])) ==
            150 * |words[i]| + 2150
  {
    WordCycle(Defaults, words, i);
  }
}
