# Typewriter text cycler

A Dafny model of the `TypeWriter` component of a personal portfolio site. This is
the one piece of the site with logic beyond boolean UI toggles. The component cycles through a
fixed list of words. It types each word one character at a time (one UTF-16 code unit, strictly). When the word
is complete it holds it, then deletes it one character at a time, then moves to
the next word. After the last word it wraps back to the first, and this repeats
forever.

The component's state is three values: the active word index, the displayed
text, and an `isDeleting` flag. Each timer tick applies one of four transitions:

- **type**: append the next character of the word;
- **hold**: the word is complete, so flip to deleting after `delay`;
- **delete**: drop the last character;
- **advance**: the text is empty, so move to the next word modulo the list length.

The model is functional. `TypeWriter.State` is an immutable record.
`TypeWriter.Step` is a pure function for one tick. `Cycle.Run` iterates it,
and `Cycle.Elapsed` adds up the milliseconds the ticks request. The lemmas relate
iterated ticks to the words:

- typing reaches the full word;
- one word's type-hold-delete-advance cycle takes `2·L + 2` ticks for a word of `L` code units;
- the list wraps around;
- the whole animation is periodic, in ticks and in milliseconds.

`Driver.Animate` is the timer chain written as a loop. It produces the frames on
screen and the nominal time each one appears. `Hero` is the instance the hero section
uses: five job titles, 80/40/2500 ms.

Files:

- `typewriter.dfy`: module `TypeWriter`. State, options, `Step`, the four case
  lemmas and the tick durations.
- `cycle.dfy`: module `Cycle`. Iterated ticks, the per-word cycle and
  periodicity.
- `driver.dfy`: module `Driver`. The timer loop.
- `hero.dfy`: module `Hero`. The concrete five-title instance.
- `utf16.dfy`: module `Utf16`. Code units and the UTF-16 encoding of characters.

Modelling choices:

- **Hold.** The hold is not a separate piece of state in the source. On a
  complete word the tick arms a nested timer, and that timer later sets the
  flag. The model makes the hold one `Step` that changes only the flag. Its
  duration is `speed + delay`: the outer timeout, then the nested one.
- **Faults.** `Step` requires `TickDefined`. That means the list is not empty,
  and the tick either finds the active word or takes the advance branch, which
  never reads the word. With an empty list, the first tick reads the length of
  `undefined` and throws (`TypeWriter.EmptyListFaults`).
  - The component neither rejects an empty list nor renders a placeholder.
    The throw happens inside the timer callback, so no state changes and no
    further timer is armed. The screen stays empty and an uncaught error is
    reported.
  - The model follows the code: there is no valid tick for that state.
- **Text is UTF-16 code units.** In the host language `word.length` and
  `word.slice` count UTF-16 code units, not characters. The model's text is
  therefore `Utf16.Text`, a sequence of code units, and every tick types or
  deletes one code unit. `Utf16.Encode` turns characters into code units. A
  character outside the Basic Multilingual Plane (an emoji, say) is a
  surrogate pair: it takes two typing ticks, and the first of them shows a
  lone high surrogate (`Cycle.AstralCharTakesTwoTicks`). The hero titles are
  plain ASCII, one code unit per character.
- **Slicing.** The source computes the text as `word.slice(0, k)`. This is
  modelled with the host language's clamping rules in `SliceTo`, over code
  units, so `Step` follows the code even off the invariant. The case lemmas
  then show that, under the invariant, this is exactly "append the next code
  unit" and "drop the last code unit".
- **Nominal clock.** `Cycle.Elapsed` adds up the timeouts the component
  requests. A browser fires a timeout no earlier than requested, and the next
  one is armed only after the re-render, so the real time is at least the
  model's time. All times below are these nominal, requested times.

## Model

| member | source | states |
|---|---|---|
| TypeWriter.Initial | src/components/ui/TypeWriter.tsx:16-18 | On mount the cycler is on word 0, shows nothing and is typing. |
| TypeWriter.Step | src/components/ui/TypeWriter.tsx:20-38 | One tick from a state where it cannot fault leads to a state where the next tick cannot fault either. It keeps the invariant that the index names a word and the text is a prefix of that word. |
| TypeWriter.SliceTo | src/components/ui/TypeWriter.tsx:26 | `word.slice(0, end)` is always a prefix of the word: of length `end` when that is in range, the whole word past the end, and counted back from the end for a negative `end`. |
| TypeWriter.StepTypes | src/components/ui/TypeWriter.tsx:24-26 | Typing with the word incomplete appends exactly the word's next code unit. Index and mode are unchanged. |
| TypeWriter.StepHolds | src/components/ui/TypeWriter.tsx:27-29 | Typing with the word complete changes only the mode, to deleting. |
| TypeWriter.StepDeletes | src/components/ui/TypeWriter.tsx:30-32 | Deleting with text left removes exactly its last code unit. Index and mode are unchanged. |
| TypeWriter.StepAdvances | src/components/ui/TypeWriter.tsx:33-35 | Deleting with empty text moves to `(index + 1) % n` and back to typing, with the text still empty. The last word wraps to word 0. |
| TypeWriter.StepProgresses | src/components/ui/TypeWriter.tsx:23-41 | Every tick changes some state value, so the effect (which re-runs only when its dependencies change) always arms the next timeout. The index changes only once the text has been deleted completely. |
| TypeWriter.StepDuration | src/components/ui/TypeWriter.tsx:28-38 | The requested time to the next state change is `deleteSpeed` while deleting and `speed` while typing. A hold adds the nested `delay`, giving `speed + delay`. |
| TypeWriter.EmptyListFaults | src/components/ui/TypeWriter.tsx:21-25 | With no words, the first tick from the initial state has no defined outcome, because typing reads the length of a missing word. |
| Cycle.Run | src/components/ui/TypeWriter.tsx:20-41 | Any number of ticks from a state that can tick reaches a state that can tick, and the prefix invariant survives every tick. |
| Cycle.TypeRest | src/components/ui/TypeWriter.tsx:24-26 | Typing from any prefix of the word reaches the full word after one tick per missing code unit, each requesting `speed`. |
| Cycle.DeleteRest | src/components/ui/TypeWriter.tsx:30-32 | Deleting from a prefix of length `j` reaches empty text after exactly `j` ticks, each requesting `deleteSpeed`. The word and mode are unchanged. |
| Cycle.WordCycle | src/components/ui/TypeWriter.tsx:24-38 | From word `i` (of `L` code units), empty and typing: after `L` ticks the whole word is shown. After `2·L + 2` ticks the state is word `(i+1) % n`, empty and typing. The span requests `(L+1)·(speed+deleteSpeed) + delay` ms in all. |
| Cycle.FromMount | src/components/ui/TypeWriter.tsx:16-38 | From mount, the first word (of `L` code units) is fully shown after `L` ticks. After its cycle, word `1 % n` is active, empty and typing. |
| Cycle.CycleFrom | src/components/ui/TypeWriter.tsx:33-35 | Cycling from word `i` through the last word ends back at the initial state, in the summed ticks and requested milliseconds of those words. |
| Cycle.FullCycle | src/components/ui/TypeWriter.tsx:20-41 | One pass over the whole list returns exactly to the initial state. |
| Cycle.Periodic | src/components/ui/TypeWriter.tsx:20-41 | The state after `Period + k` ticks equals the state after `k` ticks, and the nominal clock has advanced by exactly one pass's requested time. |
| Cycle.AlwaysPrefix | src/components/ui/TypeWriter.tsx:21-35 | At every tick from mount, the index names a word of the list and the text shown is a prefix of that word, so no two words are ever blended. |
| Driver.Animate | src/components/ui/TypeWriter.tsx:20-41 | The timer chain produces frame `j` equal to the text after `j` ticks, at the nominal time the first `j` ticks request. Every frame is a prefix of the active word, and frame times never decrease. |
| Hero.TitleTimes | src/components/sections/Hero.tsx:7-13 | For the five hero titles at 80/40/2500 ms (the options passed at line 60), from mount: the first title is fully shown after 14 ticks and a nominal 1120 ms; after 30 ticks and 4300 ms the second title is active, empty and typing; one pass over all titles takes a nominal 24140 ms. |
| Hero.TitlesLoop | src/components/sections/Hero.tsx:7-13 | The hero titles loop every 194 ticks: the state after `194 + k` ticks equals the state after `k` ticks. |
| Hero.DefaultWordTime | src/components/ui/TypeWriter.tsx:12-14 | With the default options (100/50/2000 ms), the model's cycle of word `i` (of `n` code units), from empty and typing through `WordTicks` ticks, requests a nominal `150·n + 2150` ms. |
| Utf16.EncodeChar | src/components/ui/TypeWriter.tsx:25-26 | A character in the Basic Multilingual Plane is one code unit of its own value; any other character is two code units, a high surrogate then a low one. This is the unit `word.length` and `word.slice` count. |
| Utf16.DecodePair | src/components/ui/TypeWriter.tsx:25-26 | The two surrogates of a character outside the Basic Multilingual Plane decode back to that character. |
| Utf16.EncodeBmp | src/components/ui/TypeWriter.tsx:25-26 | A string inside the Basic Multilingual Plane has as many code units as characters, each with the character's value. |
| Utf16.BmpTextEncodes | src/components/sections/Hero.tsx:7-13 | The one-unit-per-character text used for the hero titles is their UTF-16 encoding. |
| Cycle.AstralCharTakesTwoTicks | src/components/ui/TypeWriter.tsx:25-26 | For a one-word list holding a character outside the Basic Multilingual Plane, the first tick shows a lone high surrogate, the second the whole character, and the word's cycle takes six ticks. |

## Left out

- Timer scheduling and cancellation (`setTimeout`, `clearTimeout`, effect re-runs, the cleanup on unmount at TypeWriter.tsx:40). These are event-loop mechanics. In the model each state change is one tick: a tick is one timeout firing, except the hold tick, which spans the outer timeout and the nested one. A word of `L` code units thus causes `2·L + 3` timeout firings but `2·L + 2` ticks. The clock is an explicit number.
- The nested hold timer (TypeWriter.tsx:28) is never cleared. If a dependency of the effect changes during a hold, the re-run effect arms a fresh typing timeout, and the old nested timer still flips the flag afterwards. After unmount the framework ignores its state update. This is a lifecycle quirk outside a pure model of the tick.
- Wall-clock time. `Cycle.Elapsed` is the sum of the timeouts the component requests. For delays up to 2^31−1 ms it is a lower bound on real time: a browser fires a timeout no earlier than requested, the next timeout is armed only after the re-render, and background tabs throttle timers. Browsers fire larger delays at once, which the model does not capture.
- Options changing while mounted. `speed`, `deleteSpeed` and `delay` are effect dependencies (TypeWriter.tsx:41), so changing one restarts the pending timeout. The model holds `Config` fixed.
- A `words` list that changes while the component is mounted (it is an effect dependency). The list is fixed in the model. A shorter new list could leave the index out of range, and `TickDefined` would then fail.
- Negative or non-integer timing values. The options are `nat` milliseconds. Browsers clamp negative timeouts to zero, and that is not modelled.
- `(prev + 1) % words.length` with an empty list yields `NaN` in the host language. The model never reaches it, because with no words the first tick already faults.
- The rendered markup and the blinking cursor (TypeWriter.tsx:43-48). These are presentation.
- Everything else in the site: 3D scenes, scroll animations, static content, navigation, resume links and the footer date. None of it has logic beyond boolean UI toggles (scroll and menu flags, an expanded panel, a hover flag).
