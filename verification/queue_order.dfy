/**
 * The order `GetQueue` sorts candidates in:
 * `OrderBy(Priority).ThenBy(TimeQueued).ThenByDescending(LastPlayed)`.
 */
module QueueOrder {
  import opened Optional
  import opened QueueRecords
  import StableSort

  datatype SortKey = SortKey(priority: int, timeQueued: int, lastPlayed: Option<int>)

  function KeyOf(u: QueuedUser): SortKey {
    SortKey(u.priority, u.timeQueued, u.lastPlayed)
  }

  /**
   * `ThenByDescending` over `DateTime?`: the default comparer puts null below
   * every date, so descending order lists dates latest first and null last.
   */
  predicate LastPlayedNoLater(a: Option<int>, b: Option<int>) {
    b.None? || (a.Some? && a.value >= b.value)
  }

  /** `a` may be listed before `b`. */
  predicate RanksNoLater(a: SortKey, b: SortKey) {
    || a.priority < b.priority
    || (a.priority == b.priority && a.timeQueued < b.timeQueued)
    || (a.priority == b.priority && a.timeQueued == b.timeQueued && LastPlayedNoLater(a.lastPlayed, b.lastPlayed))
  }

  /** The ranking compares any two keys consistently, so the stable sort's guarantees apply. */
  lemma RanksNoLaterIsTotalPreorder()
    ensures StableSort.TotalPreorder(RanksNoLater)
  {
  }

  /** Keys that rank no later than each other are equal: ties are exact ties. */
  lemma RanksNoLaterAntisymmetric(a: SortKey, b: SortKey)
    requires RanksNoLater(a, b) && RanksNoLater(b, a)
    ensures a == b
  {
  }

  /**
   * On a full tie of priority and queue time, an entry that has played ranks
   * strictly before one that never played (the property comment promises the
   * opposite).
   */
  lemma NeverPlayedRanksLast(a: SortKey, b: SortKey)
    requires a.priority == b.priority && a.timeQueued == b.timeQueued
    requires a.lastPlayed.Some? && b.lastPlayed.None?
    ensures RanksNoLater(a, b) && !RanksNoLater(b, a)
  {
  }
}
