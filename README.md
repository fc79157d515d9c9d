# Tutorial screen: slide navigation and pagination dots

A model of the logic inside the onboarding tutorial screen
(`src/modules/screens/tutorial/Tutorial.tsx`): a carousel of slides with
previous/next arrows, a skip button, pagination dots and a background colour
taken from the slide on show.

- `navigation.dfy` (module `Navigation`): the handlers as pure functions from
  the slide index to the new index and the external effects they fire, in
  order. The effects are the carousel's `snapToItem(i)` (`SnapTo(i)`), the
  `onFirstTutorialSlideNextAction` callback (`FirstNext`) and `onPrompt(a, b, c)`
  (`Prompt(a, b, c)`). `Apply` and `Run` play events one after another, and the
  lemmas are about whole runs.
- `tutorial.dfy` (module `TutorialScreen`): the component as a class. It holds
  `activeIndex`, the `visible` prop and a ghost log of effects. Each handler is
  a method written step by step as the source does it, proved equal to
  `Navigation.Apply` and proved to keep the index invariant.
- `controls.dfy` (module `Controls`): which arrow is a placeholder, when the
  skip button and swiping are offered, and the background colour.
- `pagination.dfy` (module `Pagination`): how many dots fit and which dot is
  active, with the proof that the active dot is always one of the dots drawn.

The index invariant `InRange(i, n)` says `0 <= i < n` when there are `n > 0`
slides, and `i == 0` when there are none.

Three facts about the code shape the model:

- The handlers have no "snap in flight" guard: nothing stops a second
  navigation while the carousel is still moving.
- No consent prompt fires when the carousel lands one slide forward; the
  block that would do so (lines 120-130) is commented out.
- The skip button passes three flags to `onPrompt`, all `true`.

## Model

| member | source | states |
|---|---|---|
| `Navigation.Previous` | src/modules/screens/tutorial/Tutorial.tsx:132-137 | On the first slide nothing changes and nothing fires. Otherwise the index drops by one and exactly one snap to the new index fires. |
| `Navigation.Next` | src/modules/screens/tutorial/Tutorial.tsx:139-148 | Before the last slide the index rises by one, and the effects are exactly the snap to the new slide, preceded by the first-advance callback when leaving slide 0. At or past `n - 1` (so always when `n <= 1`) nothing happens. The first-advance callback fires exactly once when leaving slide 0 with `n > 1`, and never otherwise. Every such firing is followed at once by the snap to slide 1. |
| `Navigation.Skip` | src/modules/screens/tutorial/Tutorial.tsx:150 | The index is unchanged. Exactly one `Prompt(true, true, true)` fires, and nothing else. |
| `Navigation.Visibility` | src/modules/screens/tutorial/Tutorial.tsx:113-118 | The effect runs only when `visible` changes. Turning the screen off resets the index to 0 and fires exactly `SnapTo(0)`. Any other change leaves the index alone and fires nothing. |
| `Navigation.Apply` | src/modules/screens/tutorial/Tutorial.tsx:113-150 | Every event keeps the index invariant, given that the carousel's `onSnapToItem` (line 279) reports a slide index. Only a visibility change touches `visible`. The first-advance callback fires only from a press of next on slide 0 with `n > 1`. |
| `Navigation.RunKeepsInRange` | src/modules/screens/tutorial/Tutorial.tsx:110-150 | After any sequence of handler calls, visibility changes and carousel snaps to real slides, the index is still in range. |
| `Navigation.PromptsAreSkips` | src/modules/screens/tutorial/Tutorial.tsx:150 | In any run, the number of consent prompts equals the number of skip presses. Every prompt carries `(true, true, true)`. |
| `Navigation.RunFirstNextLeadsToSlideOne` | src/modules/screens/tutorial/Tutorial.tsx:141-146 | In any run, every first-advance callback is followed at once by the snap to slide 1. Every event that fires it is a press of next made while the index before that event is 0. |
| `Navigation.AdvanceLaterSlides` | src/modules/screens/tutorial/Tutorial.tsx:139-148 | From slide `j >= 1`, `k` presses of next reach slide `j + k` and never fire the first-advance callback. |
| `Navigation.AdvanceFromFirstSlide` | src/modules/screens/tutorial/Tutorial.tsx:139-148 | From slide 0, `1 <= k <= n - 1` presses of next reach slide `k` and fire the first-advance callback exactly once. |
| `Controls.ArrowHandler` | src/modules/screens/tutorial/Tutorial.tsx:192 | The left arrow runs the back handler and never raises the index; the right arrow runs the next handler and never lowers it. The handler keeps the index invariant, fires effects exactly when it moves, and its last effect is then the snap to the new slide. |
| `Controls.ArrowDisabledAsWritten` | src/modules/screens/tutorial/Tutorial.tsx:181-186 | The source's arrow test: when there are slides, an arrow is a placeholder exactly when its handler would not move the index. |
| `Controls.EmptyTutorialShowsInertRightArrow` | src/modules/screens/tutorial/Tutorial.tsx:183-184 | With no slides, the source draws a live right arrow whose handler does nothing. |
| `Controls.ArrowDisabled` | src/modules/screens/tutorial/Tutorial.tsx:183-192 | An arrow is a placeholder exactly when pressing it would not move the index. This holds in both directions. It agrees with the source's test whenever there are slides. |
| `Controls.LiveArrowMovesOneSlide` | src/modules/screens/tutorial/Tutorial.tsx:186-192 | A live arrow moves exactly one slide in its direction, stays in range, and ends by snapping the carousel there. |
| `Controls.SkipAndSwipeEnabled` | src/modules/screens/tutorial/Tutorial.tsx:280-282 | The skip button and swiping are offered exactly when there is a slide to go back to. On a valid index this is exactly when the left arrow is live. |
| `Controls.BackgroundColor` | src/modules/screens/tutorial/Tutorial.tsx:246-252 | With slides, the background is the colour of the slide on show. With none, there is no background colour. |
| `Pagination.MaxAllowed` | src/modules/screens/tutorial/Tutorial.tsx:209-211 | The floor of `(w - 140) / 31`: the most 31-pixel dots that fit in what the arrows leave free. |
| `Pagination.PaginationDots` | src/modules/screens/tutorial/Tutorial.tsx:209-224 | The dots are defined exactly when `maxAllowed > 0` and there are slides. Then `0 <= activeDotIndex < dotsLength <= min(maxAllowed, n)`. |
| `Pagination.DotsInRange` | src/modules/screens/tutorial/Tutorial.tsx:212-224 | The active dot index is taken before the last partial group shrinks `dotsLength` to `n % maxAllowed`, yet it still lies inside the shrunk range. |
| `Pagination.LastGroupPosition` | src/modules/screens/tutorial/Tutorial.tsx:217-223 | A slide in the last partial group is in group `n / m`. Its position there, `i % m`, is below `n % m`. |
| `Pagination.DotsShowActiveGroup` | src/modules/screens/tutorial/Tutorial.tsx:212-224 | The dots show the group of `m` consecutive slides that holds the active slide. Their count is that group's size, `min(m, n - g*m)` for group `g`, and the active dot is the slide's place in that group. When `n % m != 0`, a slide in the last group gets exactly `n % m` dots; any other slide gets `min(m, n)`. |
| `TutorialScreen.Tutorial.constructor` | src/modules/screens/tutorial/Tutorial.tsx:110-118 | The index starts at 0. If the screen mounts hidden, the visibility effect runs once and logs `SnapTo(0)`. |
| `TutorialScreen.Tutorial.HandlePrevious` | src/modules/screens/tutorial/Tutorial.tsx:132-137 | The new state and the log equal `Apply(PressPrevious)` of the old state. On the first slide the index and the log are unchanged. The invariant is kept. |
| `TutorialScreen.Tutorial.HandleNext` | src/modules/screens/tutorial/Tutorial.tsx:139-148 | The new state and the log equal `Apply(PressNext)` of the old state. From slide 0 with `n > 1`, the log gains exactly `[FirstNext, SnapTo(1)]` and the net index is 1, despite the two state updates. The invariant is kept. |
| `TutorialScreen.Tutorial.SkipTutorial` | src/modules/screens/tutorial/Tutorial.tsx:150 | The log gains exactly `Prompt(true, true, true)` and the index is unchanged. |
| `TutorialScreen.Tutorial.SetVisible` | src/modules/screens/tutorial/Tutorial.tsx:113-118 | This matches `Apply(VisibilityChanged(v))`. Turning the screen off resets the index to 0 and logs `SnapTo(0)`. |
| `TutorialScreen.Tutorial.SnapToItem` | src/modules/screens/tutorial/Tutorial.tsx:279 | The index becomes the slide the carousel reports, the log is unchanged, and the invariant is kept. |
| `TutorialScreen.Tutorial.PressArrow` | src/modules/screens/tutorial/Tutorial.tsx:186-192 | Pressing a live arrow moves the index by exactly one in its direction. The last logged effect is the snap to the new slide. |

## Findings

| source | as written | input that shows it | evidently intended | confidence | as-written member | corrected member |
|---|---|---|---|---|---|---|
| src/modules/screens/tutorial/Tutorial.tsx:183-184 | The right arrow is a placeholder only when `activeIndex === tutorialSlides.length - 1` | No slides (the default `tutorialSlides` is `[]`) and `activeIndex` 0: the test compares 0 with -1, so a live right arrow is drawn, and `handleNext` does nothing when it is pressed | The right arrow is a placeholder when `activeIndex >= tutorialSlides.length - 1`, that is, whenever next cannot move | medium; not executed | `Controls.EmptyTutorialShowsInertRightArrow` (about `Controls.ArrowDisabledAsWritten`) | `Controls.ArrowDisabled` (used by `TutorialScreen.Tutorial.PressArrow`) |

## Left out

- Rendering is not modelled: the JSX tree, styles, gradient constants, the full-screen modal, `Animatable` transitions, images and the per-slide component. `renderItem`'s per-slide props (`shouldClose`, `showConsentText`) are only passed on for drawing. `TutorialSlide` is not part of this model.
- The carousel widget is not modelled. `snapToItem` is a logged `SnapTo(i)`, and `onSnapToItem` is an input that is assumed to report a real slide index.
- The `?.` on the carousel reference is not modelled. `SnapTo` is logged as if the carousel were always mounted.
- React's `useCallback` memoisation and stale closures are not modelled. Each handler reads the index of the latest render. React's batching of the two `setActiveIndex` calls in `handleNext` appears as two assignments of the same value.
- The Redux `connect`/`mapStateToProps`, `propTypes` and `defaultProps` are framework plumbing. The constructor takes the slides and `visible` as arguments.
- Changes to the `tutorialSlides` prop after mounting are not modelled: the slide list is fixed per instance.
- `renderBottom` returning nothing while the screen is hidden is rendering. `Pagination.PaginationDots` models the computation for when the bar is drawn.
- `Pagination.MaxAllowed`: the viewport width is an integer. The source's floating-point width is not modelled.
- `Pagination.PaginationDots`: it returns `None` for inputs where the source computes nonsense. This happens when `maxAllowed` is not positive or there are no slides. With no slides, `activeIndex % 0` is NaN. For a width from 140 to 170 pixels `maxAllowed` is 0, and `% 0` is again NaN. Below 140 pixels `maxAllowed` is negative, and JavaScript's `%` keeps the dividend's sign, so the source draws a meaningless number of dots.
- The `onPrompt` and `onFirstTutorialSlideNextAction` props are assumed to be supplied. Both are optional in `propTypes` and neither has a default. If one is missing, `handleNext` on slide 0 or `onSkipTutorial` throws before any snap or index change; the model logs the callback and carries on instead.
- The commented-out block at lines 120-130 is dead code and is not modelled.
