/** What the screen shows for a given slide index: which arrows are live, whether
    the skip button and swiping are offered, and the background colour. */
module Controls {
  import opened Navigation
  import opened Wrappers

  /** One page of the tutorial; the carousel renders the text and images. */
  datatype Slide = Slide(
    buttonLabel: string,
    backgroundColor: string,
    description: string,
    image1xUrl: string,
    name: string)

  datatype Direction = Left | Right

  /** The handler behind an arrow: the left one goes back, the right one on. */
  function ArrowHandler(dir: Direction, i: int, n: nat): (r: Step)
    ensures dir == Left ==> r.index <= i
    ensures dir == Right ==> r.index >= i
    ensures InRange(i, n) ==> InRange(r.index, n)
    ensures r.index == i <==> r.effects == []
    ensures r.index != i ==> r.effects[|r.effects| - 1] == SnapTo(r.index)
  {
    match dir
    case Left => Previous(i)
    case Right => Next(i, n)
  }

  /** The arrow test as the source writes it: the left arrow is a placeholder on
      the first slide, the right arrow on the slide numbered `n - 1`. With no
      slides that number is -1, so the right arrow stays live on index 0. */
  function ArrowDisabledAsWritten(dir: Direction, i: int, n: nat): (b: bool)
    ensures n > 0 && InRange(i, n) ==> (!b <==> ArrowHandler(dir, i, n).index != i)
  {
    match dir
    case Left => i == 0
    case Right => i == n - 1
  }

  /** With no slides the source shows a right arrow whose handler does nothing. */
  lemma EmptyTutorialShowsInertRightArrow()
    ensures InRange(0, 0) && !ArrowDisabledAsWritten(Right, 0, 0)
    ensures ArrowHandler(Right, 0, 0) == Step(0, [])
  {
  }

  /** The arrow test as intended: an arrow is a placeholder exactly when its
      handler would not move. It agrees with the source whenever there are
      slides. */
  function ArrowDisabled(dir: Direction, i: int, n: nat): (b: bool)
    ensures InRange(i, n) ==> (!b <==> ArrowHandler(dir, i, n).index != i)
    ensures n > 0 && InRange(i, n) ==> (b <==> ArrowDisabledAsWritten(dir, i, n))
  {
    match dir
    case Left => i == 0
    case Right => i >= n - 1
  }

  /** A live arrow moves exactly one slide in its direction and tells the
      carousel to snap there. */
  lemma LiveArrowMovesOneSlide(dir: Direction, i: int, n: nat)
    requires InRange(i, n) && !ArrowDisabled(dir, i, n)
    ensures var r := ArrowHandler(dir, i, n);
            r.index == (if dir == Left then i - 1 else i + 1) &&
            InRange(r.index, n) &&
            |r.effects| > 0 && r.effects[|r.effects| - 1] == SnapTo(r.index)
  {
  }

  /** The skip button is shown and swiping is enabled off the first slide,
      which on a valid index is exactly when there is a slide to go back to. */
  function SkipAndSwipeEnabled(i: int): (b: bool)
    ensures i >= 0 ==> (b <==> Previous(i).index != i)
    ensures forall n: nat :: InRange(i, n) ==> (b <==> !ArrowDisabled(Left, i, n))
  {
    i != 0
  }

  /** The background takes the colour of the slide on show; with no slides
      there is no background colour. */
  function BackgroundColor(slides: seq<Slide>, i: int): (c: Option<string>)
    requires InRange(i, |slides|)
    ensures c.Some? <==> |slides| > 0
    ensures c.Some? ==> c.value == slides[i].backgroundColor
  {
    if |slides| > 0 then Some(slides[i].backgroundColor) else None
  }
}
