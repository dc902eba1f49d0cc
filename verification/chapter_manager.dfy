/**
 * The chapter manager's navigation: the previous, next and select handlers start a
 * transition (direction set, further clicks ignored) and a timer 300 ms later moves the
 * index and ends it. The timer is an explicit event here; the move it makes is recorded
 * when the handler runs, as the handler's closure does.
 */
module ChapterManager {
  import opened Wrappers

  datatype Direction = Forward | Backward

  /** What the pending timer will do: `prev - 1`, `prev + 1`, or set a chosen index. */
  datatype Move = StepBack | StepForward | MoveTo(target: int)

  datatype Manager = Manager(index: int, transitioning: bool, direction: Direction, pending: Option<Move>)

  /**
   * The first render: the index is `initialChapter - 1`; when no chapter sits there the
   * render fails reading the chapter's component, which is `None` here.
   */
  function Init(chapterCount: nat, initialChapter: int): (r: Option<Manager>)
    ensures r.Some? <==> 1 <= initialChapter <= chapterCount
    ensures r.Some? ==> r.value.index == initialChapter - 1 && !r.value.transitioning
  {
    if 0 <= initialChapter - 1 < chapterCount then Some(Manager(initialChapter - 1, false, Forward, None))
    else None
  }

  function Begin(m: Manager, d: Direction, move: Move): Manager {
    Manager(m.index, true, d, Some(move))
  }

  /** `handlePreviousChapter`. */
  function Previous(m: Manager): Manager {
    if m.index > 0 && !m.transitioning then Begin(m, Backward, StepBack) else m
  }

  /** `handleNextChapter`. */
  function Next(m: Manager, chapterCount: nat): Manager {
    if m.index < chapterCount - 1 && !m.transitioning then Begin(m, Forward, StepForward) else m
  }

  /** `handleChapterSelect` with a chapter number counted from one. */
  function Select(m: Manager, chapterCount: nat, chapterNumber: int): Manager {
    var target := chapterNumber - 1;
    if target != m.index && 0 <= target < chapterCount && !m.transitioning then
      Begin(m, if target > m.index then Forward else Backward, MoveTo(target))
    else m
  }

  /** The timer: applies the pending move and ends the transition. */
  function TimerFires(m: Manager): Manager {
    match m.pending
    case None => m
    case Some(StepBack) => Manager(m.index - 1, false, m.direction, None)
    case Some(StepForward) => Manager(m.index + 1, false, m.direction, None)
    case Some(MoveTo(t)) => Manager(t, false, m.direction, None)
  }

  /** Each handler starts a transition exactly when its guard holds, and changes nothing otherwise. */
  lemma HandlerGuards(m: Manager, chapterCount: nat, chapterNumber: int)
    ensures Previous(m) != m <==> m.index > 0 && !m.transitioning
    ensures Next(m, chapterCount) != m <==> m.index < chapterCount - 1 && !m.transitioning
    ensures var t := chapterNumber - 1;
      Select(m, chapterCount, chapterNumber) != m <==> t != m.index && 0 <= t < chapterCount && !m.transitioning
  {
  }

  /** A selection moves forward exactly when the target lies after the current chapter. */
  lemma SelectDirection(m: Manager, chapterCount: nat, chapterNumber: int)
    requires Select(m, chapterCount, chapterNumber) != m
    ensures Select(m, chapterCount, chapterNumber).direction == Forward <==> chapterNumber - 1 > m.index
    ensures TimerFires(Select(m, chapterCount, chapterNumber)).index == chapterNumber - 1
  {
  }

  /** Previous then the timer goes back one chapter; next then the timer goes forward one. */
  lemma StepsMoveByOne(m: Manager, chapterCount: nat)
    requires !m.transitioning
    ensures m.index > 0 ==> TimerFires(Previous(m)).index == m.index - 1
    ensures m.index < chapterCount - 1 ==> TimerFires(Next(m, chapterCount)).index == m.index + 1
    ensures !TimerFires(Previous(m)).transitioning && !TimerFires(Next(m, chapterCount)).transitioning
  {
  }

  /**
   * The index is a chapter, a transition is under way exactly while a move is pending, and
   * the pending move lands on a chapter.
   */
  ghost predicate Valid(m: Manager, chapterCount: nat) {
    && 0 <= m.index < chapterCount
    && (m.transitioning <==> m.pending.Some?)
    && (m.pending == Some(StepBack) ==> m.index > 0)
    && (m.pending == Some(StepForward) ==> m.index < chapterCount - 1)
    && (m.pending.Some? && m.pending.value.MoveTo? ==> 0 <= m.pending.value.target < chapterCount)
  }

  datatype Event = PreviousClick | NextClick | SelectClick(chapterNumber: int) | Timer

  function Step(m: Manager, chapterCount: nat, e: Event): Manager {
    match e
    case PreviousClick => Previous(m)
    case NextClick => Next(m, chapterCount)
    case SelectClick(k) => Select(m, chapterCount, k)
    case Timer => TimerFires(m)
  }

  function Run(m: Manager, chapterCount: nat, events: seq<Event>): Manager
    decreases |events|
  {
    if events == [] then m else Run(Step(m, chapterCount, events[0]), chapterCount, events[1..])
  }

  lemma StepValid(m: Manager, chapterCount: nat, e: Event)
    requires Valid(m, chapterCount)
    ensures Valid(Step(m, chapterCount, e), chapterCount)
  {
  }

  /** From a successful first render, any clicks and timers keep the index on a chapter. */
  lemma {:induction false} RunValid(m: Manager, chapterCount: nat, events: seq<Event>)
    requires Valid(m, chapterCount)
    ensures Valid(Run(m, chapterCount, events), chapterCount)
    ensures 0 <= Run(m, chapterCount, events).index < chapterCount
    decreases |events|
  {
    if events != [] {
      StepValid(m, chapterCount, events[0]);
      RunValid(Step(m, chapterCount, events[0]), chapterCount, events[1..]);
    }
  }

  lemma InitValid(chapterCount: nat, initialChapter: int)
    requires 1 <= initialChapter <= chapterCount
    ensures Valid(Init(chapterCount, initialChapter).value, chapterCount)
  {
  }
}
