/**
 * The pure part of `AutoPriorityManager` (logic/AutoPriorityManager.kt): the label
 * a task's deadline earns, the "should this be recalculated" test and the
 * candidate filter. The clock value `now` is a parameter.
 */
module PriorityPolicy {
  import opened TaskModel
  import opened TaskLists
  import opened Text

  /** `24 * 60 * 60 * 1000L` */
  const DayMs: int := 86_400_000
  /** `60 * 60 * 1000` */
  const HourMs: int := 3_600_000

  /** Larger is more urgent. */
  function Urgency(p: string): nat {
    if p == High then 2 else if p == Medium then 1 else 0
  }

  /**
   * `calculatePriority`: a past or present deadline is High; otherwise the whole
   * days left decide (at most 2 High, 3 to 5 Medium, 6 or more Low). Stated in
   * milliseconds: High exactly when fewer than 3 full days remain, Low exactly
   * when at least 6 full days remain.
   */
  function CalculatePriority(t: Task, now: int): (p: string)
    ensures IsLabel(p)
    ensures p == High <==> t.deadlineDateTime - now < 3 * DayMs
    ensures p == Medium <==> 3 * DayMs <= t.deadlineDateTime - now < 6 * DayMs
    ensures p == Low <==> 6 * DayMs <= t.deadlineDateTime - now
  {
    if t.deadlineDateTime <= now then High
    else
      var daysRemaining := (t.deadlineDateTime - now) / DayMs;
      if daysRemaining <= 2 then High
      else if daysRemaining <= 5 then Medium
      else Low
  }

  /** For a fixed `now`, a later deadline never earns a more urgent label. */
  lemma CalculatePriorityMonotone(a: Task, b: Task, now: int)
    requires a.deadlineDateTime <= b.deadlineDateTime
    ensures Urgency(CalculatePriority(b, now)) <= Urgency(CalculatePriority(a, now))
  {
  }

  /** The label depends on the deadline alone, so `copy(priority = ...)` does not move it. */
  lemma CalculatePriorityIgnoresLabel(t: Task, p: string, now: int)
    ensures CalculatePriority(WithPriority(t, p), now) == CalculatePriority(t, now)
  {
  }

  /**
   * `shouldUpdatePriority`. With `hours` the whole hours left (truncated toward
   * zero, so every past deadline counts as at most 24): a completed task is never
   * flagged; within 24 hours every task is flagged, High ones included, since the
   * second arm catches what the first lets through; within 72 hours every task
   * that is not Medium is flagged; beyond that nothing is.
   */
  function ShouldUpdatePriority(t: Task, now: int): (b: bool)
    ensures b <==>
      && !t.completed
      && (|| t.deadlineDateTime - now < 25 * HourMs
          || (t.deadlineDateTime - now < 73 * HourMs && t.priority != Medium))
  {
    if t.completed then false
    else
      var hoursToDeadline := TruncDiv(t.deadlineDateTime - now, HourMs);
      if hoursToDeadline <= 24 && t.priority != High then true
      else if hoursToDeadline <= 72 && t.priority != Medium then true
      else false
  }

  /** The two tests disagree: a High task due within a day already carries the label it would be
      given, yet `shouldUpdatePriority` still asks for a recalculation. */
  lemma ShouldUpdateFlagsSettledTasks(t: Task, now: int)
    requires !t.completed && t.priority == High
    requires now < t.deadlineDateTime < now + 25 * HourMs
    ensures CalculatePriority(t, now) == t.priority
    ensures ShouldUpdatePriority(t, now)
  {
  }

  /** The candidate test of `getTasksNeedingPriorityUpdate`. */
  predicate NeedsPriorityCheck(t: Task, now: int) {
    !t.completed && t.deadlineDateTime > now
  }

  /** `getTasksNeedingPriorityUpdate` applied to the stored list: the open tasks whose deadline is still ahead, in list order. */
  function TasksNeedingPriorityUpdate(all: seq<Task>, now: int): (r: seq<Task>)
    ensures forall t :: t in r <==> t in all && !t.completed && t.deadlineDateTime > now
    ensures SortedByDeadline(all) ==> SortedByDeadline(r)
  {
    FilterKeepsDeadlineOrderFor(all, now);
    Filter(all, t => NeedsPriorityCheck(t, now))
  }

  lemma FilterKeepsDeadlineOrderFor(all: seq<Task>, now: int)
    ensures SortedByDeadline(all) ==> SortedByDeadline(Filter(all, t => NeedsPriorityCheck(t, now)))
  {
    if SortedByDeadline(all) {
      FilterKeepsDeadlineOrder(all, t => NeedsPriorityCheck(t, now));
    }
  }
}
