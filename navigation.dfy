/** Slide navigation of the tutorial screen, as values.

    The screen state is the index of the slide on show and the `visible` prop.
    Every handler of the screen is a function from the index (and the number of
    slides `n`) to the new index and the external effects it fires, in order:
    a request to the carousel to snap to a slide, the "first slide advanced"
    callback, or the consent prompt. The class in tutorial.dfy is proved to
    behave exactly as these functions say; the lemmas here are about runs of
    many events. */
module Navigation {

  /** An external effect of a handler. */
  datatype Effect =
    | SnapTo(index: int)                                  // carousel.snapToItem(index)
    | FirstNext                                           // onFirstTutorialSlideNextAction()
    | Prompt(location: bool, push: bool, third: bool)     // onPrompt(location, push, third)

  /** New index and the effects fired on the way, in order. */
  datatype Step = Step(index: int, effects: seq<Effect>)

  datatype Screen = Screen(index: int, visible: bool)
  datatype Outcome = Outcome(screen: Screen, effects: seq<Effect>)

  /** What can happen to the screen: the two navigation handlers, the skip
      button, a new value of the `visible` prop, and the carousel reporting the
      slide it settled on. */
  datatype Event =
    | PressPrevious
    | PressNext
    | PressSkip
    | VisibilityChanged(visible: bool)
    | Snapped(index: int)

  /** The index invariant: a slide index when there are slides, 0 otherwise. */
  predicate InRange(i: int, n: nat) {
    0 <= i && (i < n || i == 0)
  }

  /** Number of occurrences of `x` in `s`. */
  function Count<T(==)>(x: T, s: seq<T>): nat {
    if s == [] then 0 else (if s[0] == x then 1 else 0) + Count(x, s[1..])
  }

  lemma {:induction false} CountAppend<T>(x: T, a: seq<T>, b: seq<T>)
    ensures Count(x, a + b) == Count(x, a) + Count(x, b)
  {
    if a == [] {
      assert a + b == b;
    } else {
      assert (a + b)[1..] == a[1..] + b;
      CountAppend(x, a[1..], b);
    }
  }

  /** `handlePrevious`: one slide back, unless on the first slide. */
  function Previous(i: int): (r: Step)
    ensures i > 0 ==> r.index == i - 1 && r.effects == [SnapTo(i - 1)]
    ensures i <= 0 ==> r.index == i && r.effects == []
  {
    if i > 0 then Step(i - 1, [SnapTo(i - 1)]) else Step(i, [])
  }

  /** `handleNext`: one slide forward, unless on the last slide; leaving the
      first slide also fires the first-advance callback, before the snap. */
  function Next(i: int, n: nat): (r: Step)
    ensures i < n - 1 ==> r.index == i + 1 && |r.effects| > 0 && r.effects[|r.effects| - 1] == SnapTo(i + 1)
    ensures i >= n - 1 ==> r.index == i && r.effects == []
    ensures i < n - 1 ==> |r.effects| == if i == 0 then 2 else 1
    ensures Count(FirstNext, r.effects) == if i == 0 && n > 1 then 1 else 0
    ensures forall k :: 0 <= k < |r.effects| && r.effects[k] == FirstNext ==>
              k + 1 < |r.effects| && r.effects[k + 1] == SnapTo(1)
  {
    if i < n - 1 then
      // the two setActiveIndex calls both store i + 1, so the net index is i + 1
      var first := if i == 0 then [FirstNext] else [];
      var effects := first + [SnapTo(i + 1)];
      assert Count(FirstNext, [SnapTo(i + 1)]) == 0 by {
        assert [SnapTo(i + 1)][1..] == [];
      }
      assert Count(FirstNext, effects) == |first| by {
        if first != [] { assert effects[1..] == [SnapTo(i + 1)]; }
      }
      Step(i + 1, effects)
    else
      Step(i, [])
  }

  /** `onSkipTutorial`: the prompt with every flag set, whatever the slide. */
  function Skip(i: int): (r: Step)
    ensures r.index == i
    ensures Count(Prompt(true, true, true), r.effects) == 1
    ensures |r.effects| == 1
  {
    Step(i, [Prompt(true, true, true)])
  }

  /** The effect on `visible`: it runs only when the prop changes, and when it
      turns the screen off it sends the carousel and the index back to slide 0. */
  function Visibility(s: Screen, v: bool): (o: Outcome)
    ensures o.screen.visible == v
    ensures !v && s.visible ==> o.screen.index == 0 && o.effects == [SnapTo(0)]
    ensures v || !s.visible ==> o.screen.index == s.index && o.effects == []
  {
    if v == s.visible then Outcome(s, [])
    else if !v then Outcome(Screen(0, v), [SnapTo(0)])
    else Outcome(Screen(s.index, v), [])
  }

  /** One event on a screen showing `n` slides. */
  function Apply(n: nat, s: Screen, e: Event): (o: Outcome)
    ensures InRange(s.index, n) && (e.Snapped? ==> 0 <= e.index < n) ==> InRange(o.screen.index, n)
    ensures !e.VisibilityChanged? ==> o.screen.visible == s.visible
    ensures FirstNext in o.effects ==> e == PressNext && s.index == 0 && n > 1
  {
    match e
    case PressPrevious => var r := Previous(s.index); Outcome(Screen(r.index, s.visible), r.effects)
    case PressNext => var r := Next(s.index, n); Outcome(Screen(r.index, s.visible), r.effects)
    case PressSkip => var r := Skip(s.index); Outcome(Screen(r.index, s.visible), r.effects)
    case VisibilityChanged(v) => Visibility(s, v)
    case Snapped(i) => Outcome(Screen(i, s.visible), [])
  }

  /** A sequence of events, one after the other; the effects are concatenated. */
  function Run(n: nat, s: Screen, evs: seq<Event>): Outcome
    decreases |evs|
  {
    if evs == [] then Outcome(s, [])
    else
      var first := Apply(n, s, evs[0]);
      var rest := Run(n, first.screen, evs[1..]);
      Outcome(rest.screen, first.effects + rest.effects)
  }

  /** The carousel only ever reports indices of slides it shows. */
  predicate SnapsInRange(evs: seq<Event>, n: nat) {
    forall k :: 0 <= k < |evs| && evs[k].Snapped? ==> 0 <= evs[k].index < n
  }

  /** The index invariant holds after any run of events. */
  lemma {:induction false} RunKeepsInRange(n: nat, s: Screen, evs: seq<Event>)
    requires InRange(s.index, n) && SnapsInRange(evs, n)
    ensures InRange(Run(n, s, evs).screen.index, n)
    decreases |evs|
  {
    if evs != [] {
      var first := Apply(n, s, evs[0]);
      assert SnapsInRange(evs[1..], n) by {
        forall k | 0 <= k < |evs[1..]| && evs[1..][k].Snapped?
          ensures 0 <= evs[1..][k].index < n
        {
          assert evs[1..][k] == evs[k + 1];
        }
      }
      RunKeepsInRange(n, first.screen, evs[1..]);
    }
  }

  /** The consent prompt is fired once per press of the skip button and by
      nothing else. */
  lemma {:induction false} PromptsAreSkips(n: nat, s: Screen, evs: seq<Event>)
    ensures Count(Prompt(true, true, true), Run(n, s, evs).effects) == Count(PressSkip, evs)
    ensures forall e :: e in Run(n, s, evs).effects && e.Prompt? ==> e == Prompt(true, true, true)
    decreases |evs|
  {
    if evs != [] {
      var first := Apply(n, s, evs[0]);
      var rest := Run(n, first.screen, evs[1..]);
      PromptsAreSkips(n, first.screen, evs[1..]);
      CountAppend(Prompt(true, true, true), first.effects, rest.effects);
      assert evs == [evs[0]] + evs[1..];
      CountAppend(PressSkip, [evs[0]], evs[1..]);
    }
  }

  /** Every "first slide was left" callback in `eff` is followed at once by the
      request to snap to slide 1. */
  predicate FirstNextLeadsToSlideOne(eff: seq<Effect>) {
    forall k :: 0 <= k < |eff| && eff[k] == FirstNext ==> k + 1 < |eff| && eff[k + 1] == SnapTo(1)
  }

  lemma FirstNextLeadsToSlideOneAppend(a: seq<Effect>, b: seq<Effect>)
    requires FirstNextLeadsToSlideOne(a) && FirstNextLeadsToSlideOne(b)
    ensures FirstNextLeadsToSlideOne(a + b)
  {
    forall k | 0 <= k < |a + b| && (a + b)[k] == FirstNext
      ensures k + 1 < |a + b| && (a + b)[k + 1] == SnapTo(1)
    {
      if k < |a| {
        assert a[k] == FirstNext;
      } else {
        assert b[k - |a|] == FirstNext;
      }
    }
  }

  /** Over a whole run, the first-advance callback is fired only by a press of
      next made on the first slide, never from any other slide, and each firing
      is followed at once by the snap to slide 1. */
  lemma {:induction false} RunFirstNextLeadsToSlideOne(n: nat, s: Screen, evs: seq<Event>)
    ensures FirstNextLeadsToSlideOne(Run(n, s, evs).effects)
    ensures forall k :: 0 <= k < |evs| && FirstNext in Apply(n, Run(n, s, evs[..k]).screen, evs[k]).effects ==>
              evs[k] == PressNext && Run(n, s, evs[..k]).screen.index == 0
    decreases |evs|
  {
    if evs != [] {
      var first := Apply(n, s, evs[0]);
      var rest := Run(n, first.screen, evs[1..]);
      RunFirstNextLeadsToSlideOne(n, first.screen, evs[1..]);
      FirstNextLeadsToSlideOneAppend(first.effects, rest.effects);
    }
  }

  /** `k` presses of the next button. */
  function Repeat(e: Event, k: nat): seq<Event> {
    if k == 0 then [] else [e] + Repeat(e, k - 1)
  }

  /** Pressing next `k` times from a slide after the first reaches slide `j + k`
      and never fires the first-advance callback. */
  lemma {:induction false} AdvanceLaterSlides(n: nat, j: int, v: bool, k: nat)
    requires 1 <= j && j + k <= n - 1
    ensures Run(n, Screen(j, v), Repeat(PressNext, k)).screen == Screen(j + k, v)
    ensures Count(FirstNext, Run(n, Screen(j, v), Repeat(PressNext, k)).effects) == 0
    decreases k
  {
    if k > 0 {
      var first := Apply(n, Screen(j, v), PressNext);
      assert first.screen == Screen(j + 1, v);
      AdvanceLaterSlides(n, j + 1, v, k - 1);
      CountAppend(FirstNext, first.effects, Run(n, first.screen, Repeat(PressNext, k - 1)).effects);
    }
  }

  /** Paging through the tutorial from the first slide fires the first-advance
      callback exactly once, however many slides are passed. */
  lemma AdvanceFromFirstSlide(n: nat, v: bool, k: nat)
    requires 1 <= k <= n - 1
    ensures Run(n, Screen(0, v), Repeat(PressNext, k)).screen == Screen(k, v)
    ensures Count(FirstNext, Run(n, Screen(0, v), Repeat(PressNext, k)).effects) == 1
  {
    var first := Apply(n, Screen(0, v), PressNext);
    assert first.screen == Screen(1, v);
    AdvanceLaterSlides(n, 1, v, k - 1);
    CountAppend(FirstNext, first.effects, Run(n, first.screen, Repeat(PressNext, k - 1)).effects);
  }
}
