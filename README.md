# Portfolio page script: section navigator, contact overlay and decrypt effect

This project models the client-side script of a single-page portfolio
(`js/script.js`) in Dafny and proves properties of the model.

- **Navigation** (`navigation.dfy`). The class `Navigator` holds the script's module-level state as fields:
  - the current section index;
  - the "active" flag of each of the three navigation buttons;
  - the container's horizontal offset in viewport-width units;
  - the contact-overlay flag and the three visual states it drives;
  - the wheel cooldown flag;
  - the touch start and end positions.

  Each event handler is a method: button click, arrow keys, wheel, wheel cooldown reset, touch start/end, swipe, open/close contact. The object invariant `Valid()` says four things:
  - the index stays in 0..2;
  - exactly the button of the current section is active;
  - the offset is `-100 * index`;
  - the overlay's visual states follow its flag.

  Every handler keeps it. The pure functions `KeyTarget`, `WheelTarget` and `SwipeTarget` give the section each gesture reaches. The handlers are proved against them. `KeyDown`, `Wheel`, `TouchEnd` and `ContactButtonClick` are also proved to change nothing while the overlay is open. `Click`, `TouchStart`, `CloseContact` and `CooldownExpired` have no such guard.
- **Decrypt** (`decrypt.dfy`). The scrambled frame and the frame of each decrypt tick.
  - The reveal cursor, a number advanced by 0.3 per tick, is modelled exactly as the tick count `k`. Position `i` is revealed when `10 * i < 3 * k`.
  - `IsFrame` states what any displayed frame looks like.
  - `Frame` is the per-tick map. It is proved to produce exactly the frames `IsFrame` allows.
  - `DecryptFrames` runs the interval until it clears itself. It is proved to end after `ResolveTick(|text|) + 1` ticks, showing the literal text.

Behaviour of the code worth noting:
- `navigateToSection` has no range check. An index outside 0..2 is applied as given. `ActiveFlagsCount` shows that it then leaves no button active. The callers never pass such an index.
- Calling `decrypt()` again does not cancel an interval already running.
- The contact button guards against re-opening the overlay (idempotent open), rather than toggling it.
- Clicks on navigation buttons are not blocked while the overlay is open.
- In the wheel handler, a horizontal step blocked by a bound falls through to the vertical checks. At the last section, `deltaX > 50` together with `deltaY < -50` moves back one section. `WheelTarget` states this.

## Model

| member | source | states |
|---|---|---|
| `Navigation.ActiveFlagsCount` | js/script.js:18-24 | the button loop leaves exactly one button active when the index is a button position, and none otherwise (no range check) |
| `Navigation.ValidHasOneActiveButton` | js/script.js:12-24 | in every reachable state exactly one button is active, the one at the current section |
| `Navigation.KeyTarget` | js/script.js:65-69 | stays in 0..2; moves +1 iff ArrowRight below the last section, -1 iff ArrowLeft above the first; any other key does nothing |
| `Navigation.WheelTarget` | js/script.js:80-88 | stays in 0..2; moves at most one step; a step needs a delta beyond 50 in its direction; deltaX is tried before deltaY; when no horizontal step applies, deltaY above 50 moves forward and below -50 moves back (within the bounds) |
| `Navigation.SwipeTarget` | js/script.js:110-120 | stays in 0..2; next iff start minus end exceeds 50 below the last section, previous iff end minus start exceeds 50 above the first, else no move |
| `Navigation.Navigator.constructor` | js/script.js:9 | initial state: section 0 with its button active, overlay closed, no cooldown, touch positions 0 |
| `Navigation.Navigator.NavigateTo` | js/script.js:12-25 | sets the index to the argument, the offset to -100 times it, and marks exactly the button at that position active; touches nothing else |
| `Navigation.Navigator.Click` | js/script.js:28-32 | clicking button `i` navigates to section `i`, whether or not the overlay is open, and keeps the invariant |
| `Navigation.Navigator.OpenContact` | js/script.js:37-42 | sets the flag, button active, overlay active and main hidden; the section is untouched |
| `Navigation.Navigator.CloseContact` | js/script.js:44-49 | clears all four unconditionally; the section is untouched |
| `Navigation.Navigator.ContactButtonClick` | js/script.js:51-55 | opens the overlay, and is a no-op when it is already open |
| `Navigation.Navigator.KeyDown` | js/script.js:62-70 | no change while the overlay is open; otherwise the section becomes `KeyTarget` of the old one |
| `Navigation.Navigator.Wheel` | js/script.js:75-89 | no change at all while the overlay is open or the cooldown runs; otherwise the cooldown always starts and the section becomes `WheelTarget` |
| `Navigation.Navigator.CooldownExpired` | js/script.js:90-92 | the delayed reset clears the cooldown flag and nothing else; no other method clears it |
| `Navigation.Navigator.TouchStart` | js/script.js:99-101 | records the start position even while the overlay is open, and changes nothing else |
| `Navigation.Navigator.TouchEnd` | js/script.js:103-108 | no change while the overlay is open; otherwise records the end position and the section becomes `SwipeTarget` |
| `Navigation.Navigator.HandleSwipe` | js/script.js:110-120 | the section becomes `SwipeTarget` of the recorded start and end positions; the invariant is kept |
| `Navigation.ArrowRightScenario` | js/script.js:62-70 | from section 0, ArrowRight gives 1, then 2, then stays at 2 |
| `Navigation.WheelCooldownScenario` | js/script.js:75-92 | a second wheel event before the reset is dropped; after the reset the wheel moves again |
| `Navigation.ContactBlocksGesturesScenario` | js/script.js:51-108 | with the overlay open, key, wheel and swipe do nothing; after closing, a key moves again |
| `Decrypt.Frame` | js/script.js:161-170 | a tick's map yields a frame of the text's length: revealed positions show the text, spaces stay, the rest are alphabet symbols |
| `Decrypt.FrameComplete` | js/script.js:161-170 | conversely, every such frame is the map's result for some random picks |
| `Decrypt.SpacesPreserved` | js/script.js:167 | in any frame a position shows a space iff the text has a space there |
| `Decrypt.RevealedCount` | js/script.js:164 | the number of revealed positions: exactly those below the cursor |
| `Decrypt.RevealedPrefix` | js/script.js:164-166 | the revealed part of a frame is a prefix of the text, and it never shrinks from one tick to the next |
| `Decrypt.ResolveTick` | js/script.js:172-176 | the first tick at which the cursor, advanced 0.3 per tick, reaches the text length |
| `Decrypt.ResolvedFrameIsText` | js/script.js:172-174 | once the cursor has reached the length, the frame is the literal text |
| `Decrypt.DecryptTick` | js/script.js:160-177 | one tick shows a frame; it clears the interval iff the cursor has reached the length, and then shows the text |
| `Decrypt.ScrambleText` | js/script.js:146-156 | the scrambled string has the text's length, keeps spaces, and holds an alphabet symbol everywhere else |
| `Decrypt.DecryptFrames` | js/script.js:158-178 | the interval runs `ResolveTick + 1` ticks; every tick shows a valid frame; only the last tick is resolved, and it shows the literal text |
| `Decrypt.DecryptEffect.constructor` | js/script.js:137-144 | captures the label's text and shows a scrambled frame |
| `Decrypt.DecryptEffect.Scramble` | js/script.js:146-156 | the label shows a scrambled frame of its text |
| `Decrypt.DecryptEffect.Decrypt` | js/script.js:158-178 | one interval run: valid frames tick by tick, after which the label shows its literal text |

## Left out

- DOM queries, `classList`/`style` mutation and event-listener wiring. Their effects are the fields of `Navigator` and `DecryptEffect`.
- The number of navigation buttons comes from the markup. The model fixes it at three, with the first marked active on load, which is what the hard-coded bound 2 assumes.
- `setTimeout`/`setInterval` scheduling. The 800 ms wheel reset is the method `CooldownExpired`. The 220 ms / 300 ms start delays of the decrypt effect are left to the caller. The ticks of an interval are the loop of `DecryptFrames`.
- Decrypt.DecryptEffect.Decrypt: runs one interval to completion in one call. It does not model several intervals on one label running interleaved, nor other events arriving between ticks. Such overlaps happen after hover re-triggers, and on the year label already at page load: the constructor schedules one `decrypt` at 220 ms and the load handler schedules a second at 300 ms.
- `Math.random`: each pick is an arbitrary alphabet index (a nondeterministic choice). Its distribution is not modelled.
- Floating-point accumulation of the 0.3 cursor steps. The cursor is modelled exactly as `3k/10`.
- Wheel deltas and touch `screenX` values are modelled as reals. The event objects themselves are not modelled.
- The page-load opacity fade and the commented-out decrypt set-up are not modelled. They have no state the rest of the script reads.
- Character counting: the script's `text.length`, `text[i]` and `split('')` count UTF-16 code units, while a Dafny `string` counts Unicode scalar values. For a text with characters outside the Basic Multilingual Plane (an emoji, say), the script's length, resolve tick and reveal boundary differ from the model's, and the script can show half of a surrogate pair. The model covers texts whose characters all lie in the Basic Multilingual Plane, where the two counts agree.
