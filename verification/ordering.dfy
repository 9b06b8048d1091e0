/**
 * The order in which the list is rendered.
 *
 * Before drawing, the handler sorts the collection in place with a comparator
 * that turns each task's date into a time value, substituting the far-future
 * `9999-12-31` for a task without a date, and falls back to the difference of
 * ids when the time values coincide. This module states that comparator as
 * written, proves it equivalent to the lexicographic order of the key
 * (effective date, id), and models the sort as a permutation sorted by that key.
 */
module Ordering {
  import opened Calendar
  import opened DateText
  import opened Tasks
  import opened SortKeys

  /** The date the comparator sorts a task by: its own, or the sentinel when it has none. */
  function EffectiveDate(t: Task): (d: Date)
    requires DateFieldOk(t.date)
    ensures Valid(d)
  {
    if t.date == "" then Sentinel else ToDate(t.date)
  }

  /**
   * The key a task is sorted by: its effective date, then its id. Sorting is
   * only ever applied to collections whose dates are well formed; the
   * sentinel stands in for any other string only so that the key is total.
   */
  function SortKey(t: Task): Key {
    Key(if DateFieldOk(t.date) then EffectiveDate(t) else Sentinel, t.id)
  }

  /**
   * The comparator handed to `tasks.sort`: the difference of the two time
   * values, or of the ids when the time values coincide. Its sign is exactly
   * the key order: negative when `a`'s key is smaller, zero when the keys
   * coincide, positive when `b`'s is smaller.
   */
  function Compare(a: Task, b: Task): (c: int)
    requires DateFieldOk(a.date) && DateFieldOk(b.date)
    ensures c < 0 <==> KeyLess(SortKey(a), SortKey(b))
    ensures c > 0 <==> KeyLess(SortKey(b), SortKey(a))
    ensures c == 0 <==> SortKey(a) == SortKey(b)
  {
    var da, db := EffectiveDate(a), EffectiveDate(b);
    TimeValueOrder(da, db);
    TimeValueOrder(db, da);
    BeforeTrichotomy(da, db);
    var ta, tb := TimeValue(da), TimeValue(db);
    if ta == tb then a.id - b.id else ta - tb
  }

  /**
   * The comparator is consistent in the sense `Array.prototype.sort`
   * requires: zero on equal arguments, antisymmetric in sign, and transitive.
   */
  lemma CompareConsistent(a: Task, b: Task, c: Task)
    requires DateFieldOk(a.date) && DateFieldOk(b.date) && DateFieldOk(c.date)
    ensures Compare(a, a) == 0
    ensures Compare(a, b) < 0 <==> Compare(b, a) > 0
    ensures Compare(a, b) == 0 <==> Compare(b, a) == 0
    ensures Compare(a, b) <= 0 && Compare(b, c) <= 0 ==> Compare(a, c) <= 0
  {
    if Compare(a, b) <= 0 && Compare(b, c) <= 0 {
      KeyAtMostTransitive(SortKey(a), SortKey(b), SortKey(c));
    }
  }

  /** Every earlier task may precede every later one. */
  predicate Sorted(ts: seq<Task>) {
    SortedBy(SortKey, ts)
  }

  /** The collection as `tasks.sort(Compare)` leaves it: a sorted permutation. */
  function Sort(ts: seq<Task>): (r: seq<Task>)
    requires DatesOk(ts)
    ensures multiset(r) == multiset(ts)
    ensures Sorted(r)
    ensures DatesOk(r)
  {
    var r := SortBy(SortKey, ts);
    SameTasksSameFacts(ts, r);
    r
  }

  /** Unique ids make sort keys distinct. */
  lemma UniqueIdsDistinctKeys(ts: seq<Task>)
    requires UniqueIds(ts)
    ensures DistinctKeys(SortKey, ts)
  {
  }

  /**
   * A collection sorted by key is a collection `tasks.sort(Compare)` may
   * return: the comparator puts no later task strictly ahead of an earlier one.
   */
  lemma SortedAgreesWithCompare(ts: seq<Task>)
    requires DatesOk(ts) && Sorted(ts)
    ensures forall i, j :: 0 <= i < j < |ts| ==> Compare(ts[i], ts[j]) <= 0
  {
  }

  /** After sorting, every task dated before `9999-12-31` precedes every task without a date. */
  lemma DatedBeforeDateless(ts: seq<Task>, i: int, j: int)
    requires DatesOk(ts) && Sorted(ts)
    requires 0 <= i < |ts| && 0 <= j < |ts|
    requires ts[i].date != "" && ts[i].date != "9999-12-31" && ts[j].date == ""
    ensures i < j
  {
    SentinelText(ts[i].date);
    SentinelIsLast(ToDate(ts[i].date));
    assert KeyLess(SortKey(ts[i]), SortKey(ts[j]));
  }

  /**
   * After sorting, dated tasks appear in non-decreasing date order, whether
   * the dates are read as calendar dates or compared as strings.
   */
  lemma DatedInDateOrder(ts: seq<Task>, i: int, j: int)
    requires DatesOk(ts) && Sorted(ts)
    requires 0 <= i < j < |ts|
    requires ts[i].date != "" && ts[j].date != ""
    ensures !Before(ToDate(ts[j].date), ToDate(ts[i].date))
    ensures !LexLess(ts[j].date, ts[i].date)
  {
    assert KeyAtMost(SortKey(ts[i]), SortKey(ts[j]));
    IsoLexOrder(ts[j].date, ts[i].date);
  }

  /** After sorting, tasks with the same effective date are in ascending id order. */
  lemma TiesByAscendingId(ts: seq<Task>, i: int, j: int)
    requires DatesOk(ts) && Sorted(ts)
    requires 0 <= i < j < |ts|
    requires EffectiveDate(ts[i]) == EffectiveDate(ts[j])
    ensures ts[i].id <= ts[j].id
    ensures UniqueIds(ts) ==> ts[i].id < ts[j].id
  {
    assert KeyAtMost(SortKey(ts[i]), SortKey(ts[j]));
  }

  /**
   * A task dated exactly `9999-12-31` collides with the sentinel of a
   * dateless task: the comparator falls through to the ids.
   */
  lemma SentinelCollision(a: Task, b: Task)
    requires a.date == "9999-12-31" && b.date == ""
    ensures DateFieldOk(a.date) && DateFieldOk(b.date)
    ensures EffectiveDate(a) == EffectiveDate(b)
    ensures Compare(a, b) == a.id - b.id
    ensures KeyLess(SortKey(a), SortKey(b)) <==> a.id < b.id
  {
    SentinelText(a.date);
    SentinelIsLast(Sentinel);
  }

  /** Any task after a dateless task in a sorted collection is dateless or dated `9999-12-31`. */
  lemma AfterDatelessOnlySentinelDates(ts: seq<Task>, i: int, j: int)
    requires DatesOk(ts) && Sorted(ts)
    requires 0 <= i < j < |ts| && ts[i].date == ""
    ensures ts[j].date == "" || ts[j].date == "9999-12-31"
    ensures ts[i].id <= ts[j].id
  {
    if ts[j].date != "" {
      SentinelText(ts[j].date);
      SentinelIsLast(ToDate(ts[j].date));
      assert KeyAtMost(SortKey(ts[i]), SortKey(ts[j]));
    }
  }

  /** With unique ids, the sorted order depends only on which tasks are present. */
  lemma SortDependsOnlyOnContents(x: seq<Task>, y: seq<Task>)
    requires DatesOk(x) && DatesOk(y) && multiset(x) == multiset(y) && UniqueIds(x)
    ensures Sort(x) == Sort(y)
  {
    SameTasksSameFacts(x, Sort(x));
    UniqueIdsDistinctKeys(Sort(x));
    SortedArrangementUnique(SortKey, Sort(x), Sort(y));
  }

  /**
   * With unique ids, a sorted collection is its own sort: sorting it again,
   * or sorting any permutation of it, yields it unchanged.
   */
  lemma SortOfSorted(ts: seq<Task>)
    requires DatesOk(ts) && UniqueIds(ts) && Sorted(ts)
    ensures Sort(ts) == ts
  {
    UniqueIdsDistinctKeys(ts);
    SortedArrangementUnique(SortKey, ts, Sort(ts));
  }
}
