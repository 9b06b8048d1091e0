/** The task record and the facts about a collection of tasks the other modules share. */
module Tasks {
  import opened DateText

  /**
   * One entry of the list. `date` holds the date picker's value: a
   * `YYYY-MM-DD` string, or the empty string when no date was chosen.
   */
  datatype Task = Task(id: int, text: string, date: string)

  /** The date field is empty or names a real day. */
  predicate DateFieldOk(date: string) {
    date == "" || WellFormedDate(date)
  }

  predicate DatesOk(ts: seq<Task>) {
    forall i :: 0 <= i < |ts| ==> DateFieldOk(ts[i].date)
  }

  predicate HasId(ts: seq<Task>, id: int) {
    exists i :: 0 <= i < |ts| && ts[i].id == id
  }

  /** No two positions of the collection hold tasks with the same id. */
  predicate UniqueIds(ts: seq<Task>) {
    forall i, j :: 0 <= i < |ts| && 0 <= j < |ts| && ts[i].id == ts[j].id ==> i == j
  }

  /** Both properties depend only on which tasks occur, not on their order. */
  lemma SameTasksSameFacts(a: seq<Task>, b: seq<Task>)
    requires multiset(a) == multiset(b)
    ensures DatesOk(a) <==> DatesOk(b)
    ensures UniqueIds(a) <==> UniqueIds(b)
    ensures forall id :: HasId(a, id) <==> HasId(b, id)
  {
    SameTasksSameFactsOneWay(a, b);
    SameTasksSameFactsOneWay(b, a);
  }

  lemma SameTasksSameFactsOneWay(a: seq<Task>, b: seq<Task>)
    requires multiset(a) == multiset(b)
    ensures DatesOk(a) ==> DatesOk(b)
    ensures UniqueIds(a) ==> UniqueIds(b)
    ensures forall id :: HasId(a, id) ==> HasId(b, id)
  {
    assert forall i :: 0 <= i < |b| ==> b[i] in multiset(a);
    assert forall i :: 0 <= i < |a| ==> a[i] in multiset(b);
    if UniqueIds(a) && !UniqueIds(b) {
      var i, j :| 0 <= i < |b| && 0 <= j < |b| && b[i].id == b[j].id && i != j;
      if b[i] == b[j] {
        OccursTwice(b, i, j);
        var k, k' := TwoPositions(a, b[i]);
      }
    }
  }

  /** Two positions holding one task make it occur at least twice. */
  lemma OccursTwice(s: seq<Task>, i: int, j: int)
    requires 0 <= i < |s| && 0 <= j < |s| && i != j && s[i] == s[j]
    ensures multiset(s)[s[i]] >= 2
  {
    var lo, hi := if i < j then i else j, if i < j then j else i;
    assert s == s[..lo] + [s[lo]] + s[lo + 1..hi] + [s[hi]] + s[hi + 1..];
  }

  /** A task occurring at least twice sits at two distinct positions. */
  lemma {:induction false} TwoPositions(s: seq<Task>, x: Task) returns (k: int, k': int)
    requires multiset(s)[x] >= 2
    ensures 0 <= k < |s| && 0 <= k' < |s| && k != k' && s[k] == x && s[k'] == x
    decreases |s|
  {
    assert s == [s[0]] + s[1..];
    if s[0] == x {
      assert x in multiset(s[1..]);
      var m :| 0 <= m < |s[1..]| && s[1..][m] == x;
      k, k' := 0, m + 1;
    } else {
      var m, m' := TwoPositions(s[1..], x);
      k, k' := m + 1, m' + 1;
    }
  }
}
