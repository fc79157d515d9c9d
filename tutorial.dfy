/** The tutorial screen component: the slide index it keeps as state, the
    `visible` prop, and the handlers that change them. The carousel's
    `snapToItem` and the two callbacks passed in as props are recorded in the
    ghost `log`, in the order the handlers call them. */
module TutorialScreen {
  import opened Navigation
  import opened Controls

  class Tutorial {
    const slides: seq<Slide>
    var activeIndex: int
    var visible: bool
    ghost var log: seq<Effect>

    ghost predicate Valid()
      reads this
    {
      InRange(activeIndex, |slides|)
    }

    function State(): Screen
      reads this
    {
      Screen(activeIndex, visible)
    }

    /** Mounting: the index starts at the first slide, and the effect on
        `visible` runs once after the first render. */
    constructor (slides: seq<Slide>, visible: bool)
      ensures Valid()
      ensures this.slides == slides && this.visible == visible && activeIndex == 0
      ensures log == if visible then [] else [SnapTo(0)]
    {
      this.slides := slides;
      this.visible := visible;
      activeIndex := 0;
      log := [];
      if !visible {
        log := log + [SnapTo(0)];
        activeIndex := 0;
      }
    }

    /** The left arrow. */
    method HandlePrevious()
      requires Valid()
      modifies this`activeIndex, this`log
      ensures Valid()
      ensures State() == Apply(|slides|, old(State()), PressPrevious).screen
      ensures log == old(log) + Apply(|slides|, old(State()), PressPrevious).effects
      ensures old(activeIndex) == 0 ==> activeIndex == 0 && log == old(log)
    {
      var i := activeIndex;
      if i > 0 {
        log := log + [SnapTo(i - 1)];
        activeIndex := i - 1;
      }
    }

    /** The right arrow and each slide's own next button. Both state updates
        store the index the handler was rendered with, plus one. */
    method HandleNext()
      requires Valid()
      modifies this`activeIndex, this`log
      ensures Valid()
      ensures State() == Apply(|slides|, old(State()), PressNext).screen
      ensures log == old(log) + Apply(|slides|, old(State()), PressNext).effects
      ensures old(activeIndex) == 0 && |slides| > 1 ==>
                activeIndex == 1 && log == old(log) + [FirstNext, SnapTo(1)]
    {
      var i := activeIndex;
      if i < |slides| - 1 {
        if i == 0 {
          log := log + [FirstNext];
          activeIndex := i + 1;
        }
        log := log + [SnapTo(i + 1)];
        activeIndex := i + 1;
      }
    }

    /** The skip button. */
    method SkipTutorial()
      requires Valid()
      modifies this`log
      ensures Valid()
      ensures State() == Apply(|slides|, old(State()), PressSkip).screen
      ensures log == old(log) + Apply(|slides|, old(State()), PressSkip).effects
      ensures log == old(log) + [Prompt(true, true, true)]
    {
      log := log + [Prompt(true, true, true)];
    }

    /** A new value of the `visible` prop; the effect runs only on a change. */
    method SetVisible(v: bool)
      requires Valid()
      modifies this`visible, this`activeIndex, this`log
      ensures Valid()
      ensures State() == Apply(|slides|, old(State()), VisibilityChanged(v)).screen
      ensures log == old(log) + Apply(|slides|, old(State()), VisibilityChanged(v)).effects
      ensures old(visible) && !v ==> activeIndex == 0 && log == old(log) + [SnapTo(0)]
    {
      var changed := v != visible;
      visible := v;
      if changed && !v {
        log := log + [SnapTo(0)];
        activeIndex := 0;
      }
    }

    /** The carousel reports the slide it settled on, after a swipe or a snap. */
    method SnapToItem(index: int)
      requires Valid() && 0 <= index < |slides|
      modifies this`activeIndex
      ensures Valid()
      ensures State() == Apply(|slides|, old(State()), Snapped(index)).screen
      ensures activeIndex == index
    {
      activeIndex := index;
    }

    /** A press on an arrow; a placeholder offers nothing to press. */
    method PressArrow(dir: Direction)
      requires Valid() && !ArrowDisabled(dir, activeIndex, |slides|)
      modifies this`activeIndex, this`log
      ensures Valid()
      ensures activeIndex == if dir == Left then old(activeIndex) - 1 else old(activeIndex) + 1
      ensures log == old(log) + ArrowHandler(dir, old(activeIndex), |slides|).effects
      ensures log[|log| - 1] == SnapTo(activeIndex)
    {
      LiveArrowMovesOneSlide(dir, activeIndex, |slides|);
      if dir == Left {
        HandlePrevious();
      } else {
        HandleNext();
      }
    }
  }
}
