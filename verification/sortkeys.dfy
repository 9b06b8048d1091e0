/**
 * Sort keys of the form (date, id), compared lexicographically, and an
 * insertion sort by such keys over any element type. The element-to-key
 * function is a parameter, so the proofs here rely only on the key order.
 */
module SortKeys {
  import opened Calendar

  /** What the list is ordered by: a date first, then an id. */
  datatype Key = Key(date: Date, id: int)

  /** Strict lexicographic order on keys. */
  predicate KeyLess(j: Key, k: Key) {
    Before(j.date, k.date) || (j.date == k.date && j.id < k.id)
  }

  /** `j` may come before `k`. */
  predicate KeyAtMost(j: Key, k: Key) {
    !KeyLess(k, j)
  }

  lemma KeyAtMostTotal(j: Key, k: Key)
    ensures KeyAtMost(j, k) || KeyAtMost(k, j)
    ensures KeyAtMost(j, k) && KeyAtMost(k, j) <==> j == k
  {
    BeforeTrichotomy(j.date, k.date);
  }

  lemma KeyAtMostTransitive(i: Key, j: Key, k: Key)
    requires KeyAtMost(i, j) && KeyAtMost(j, k)
    ensures KeyAtMost(i, k)
  {
    BeforeTrichotomy(i.date, j.date);
    BeforeTrichotomy(j.date, k.date);
    BeforeTrichotomy(i.date, k.date);
    if Before(i.date, j.date) && Before(j.date, k.date) {
      BeforeTransitive(i.date, j.date, k.date);
    } else if Before(k.date, j.date) && Before(j.date, i.date) {
      BeforeTransitive(k.date, j.date, i.date);
    }
  }

  /** Every element may come before every later one. */
  predicate SortedBy<T>(key: T -> Key, s: seq<T>) {
    forall i, j :: 0 <= i < j < |s| ==> KeyAtMost(key(s[i]), key(s[j]))
  }

  /** Distinct positions hold elements with distinct keys. */
  predicate DistinctKeys<T>(key: T -> Key, s: seq<T>) {
    forall i, j :: 0 <= i < |s| && 0 <= j < |s| && key(s[i]) == key(s[j]) ==> i == j
  }

  /** `x` placed into a sorted sequence ahead of the first element it may precede. */
  function InsertBy<T>(key: T -> Key, x: T, s: seq<T>): (r: seq<T>)
    requires SortedBy(key, s)
    ensures multiset(r) == multiset(s) + multiset{x}
    ensures SortedBy(key, r)
    decreases |s|
  {
    if s == [] then [x]
    else if KeyAtMost(key(x), key(s[0])) then
      forall j | 0 < j < |s| ensures KeyAtMost(key(x), key(s[j])) {
        KeyAtMostTransitive(key(x), key(s[0]), key(s[j]));
      }
      [x] + s
    else
      KeyAtMostTotal(key(x), key(s[0]));
      var rest := InsertBy(key, x, s[1..]);
      assert s == [s[0]] + s[1..];
      forall j | 0 <= j < |rest| ensures KeyAtMost(key(s[0]), key(rest[j])) {
        assert rest[j] in multiset(s[1..]) + multiset{x};
        if rest[j] != x {
          var m :| 0 <= m < |s[1..]| && s[1..][m] == rest[j];
          assert s[m + 1] == rest[j];
        }
      }
      [s[0]] + rest
  }

  /** Insertion sort by key. */
  function SortBy<T>(key: T -> Key, s: seq<T>): (r: seq<T>)
    ensures multiset(r) == multiset(s)
    ensures SortedBy(key, r)
  {
    if s == [] then []
    else
      assert s == [s[0]] + s[1..];
      InsertBy(key, s[0], SortBy(key, s[1..]))
  }

  /**
   * When keys are distinct the order is strict, so a multiset of elements has
   * exactly one sorted arrangement.
   */
  lemma {:induction false} SortedArrangementUnique<T>(key: T -> Key, a: seq<T>, b: seq<T>)
    requires SortedBy(key, a) && SortedBy(key, b)
    requires multiset(a) == multiset(b) && DistinctKeys(key, a)
    ensures a == b
    decreases |a|
  {
    assert |b| == |a| by {
      assert |multiset(a)| == |multiset(b)|;
    }
    if a != [] {
      SortedHeadsAgree(key, a, b);
      TailFacts(key, a);
      TailFacts(key, b);
      SameTails(a, b);
      SortedArrangementUnique(key, a[1..], b[1..]);
      assert a == [a[0]] + a[1..] && b == [b[0]] + b[1..];
    }
  }

  /** Two sorted arrangements of one multiset with distinct keys start alike. */
  lemma SortedHeadsAgree<T>(key: T -> Key, a: seq<T>, b: seq<T>)
    requires SortedBy(key, a) && SortedBy(key, b)
    requires multiset(a) == multiset(b) && DistinctKeys(key, a)
    requires a != [] && |b| == |a|
    ensures a[0] == b[0]
  {
    assert b[0] in multiset(a) && a[0] in multiset(b);
    var k :| 0 <= k < |a| && a[k] == b[0];
    var l :| 0 <= l < |b| && b[l] == a[0];
    assert KeyAtMost(key(a[0]), key(a[k]));
    assert KeyAtMost(key(b[0]), key(b[l]));
    KeyAtMostTotal(key(a[0]), key(b[0]));
  }

  lemma SameTails<T>(a: seq<T>, b: seq<T>)
    requires a != [] && b != [] && a[0] == b[0] && multiset(a) == multiset(b)
    ensures multiset(a[1..]) == multiset(b[1..])
  {
    assert a == [a[0]] + a[1..] && b == [b[0]] + b[1..];
    assert multiset(a[1..]) == multiset(a) - multiset{a[0]};
    assert multiset(b[1..]) == multiset(b) - multiset{b[0]};
  }

  /** Dropping the first element keeps a sequence sorted and its keys distinct. */
  lemma TailFacts<T>(key: T -> Key, s: seq<T>)
    requires s != []
    ensures SortedBy(key, s) ==> SortedBy(key, s[1..])
    ensures DistinctKeys(key, s) ==> DistinctKeys(key, s[1..])
  {
    var t := s[1..];
    assert forall i :: 0 <= i < |t| ==> t[i] == s[i + 1];
    if DistinctKeys(key, s) {
      forall i, j | 0 <= i < |t| && 0 <= j < |t| && key(t[i]) == key(t[j])
        ensures i == j
      {
        assert key(s[i + 1]) == key(s[j + 1]);
      }
    }
  }
}
