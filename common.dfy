/**
 * Shared vocabulary of the pipeline: missing values, results with the
 * pipeline's error conditions, tables, and the sequence operations that the
 * table code is built from (row filters, first-occurrence de-duplication,
 * a stable sort, and Python's ordering of strings).
 */
module Common {

  /** A value that may be missing (pandas NaN / Python None). */
  datatype Option<+T> = None | Some(value: T)

  /** The outcome of an operation that can raise. */
  datatype Result<+T, +E> = Ok(value: T) | Err(error: E)

  /** The exceptions the modelled functions raise. */
  datatype Error =
    | LatLonRequired                        // KeyError: the lat/lon columns are required
    | MissingColumn(name: string)           // KeyError naming the first absent column
    | MissingColumns(names: seq<string>)    // KeyError listing absent columns
    | MissingKey(key: string)               // KeyError on a dict lookup
    | NoRowsForMonth(month: int)            // ValueError: nothing to predict for that month
    | NoTrainingRows(months: seq<int>)      // ValueError: no training rows in those months
    | LengthMismatch(rows: nat, values: nat) // ValueError: a column of the wrong length

  /** A table: the names in its header and its rows, in order. */
  datatype Frame<R> = Frame(columns: set<string>, rows: seq<R>)

  // ---------------------------------------------------------------------
  // Filtering rows

  /** The elements of s that satisfy p, in their original order. */
  function Filter<T(!new)>(s: seq<T>, p: T -> bool): (r: seq<T>)
    ensures |r| <= |s|
    ensures forall x :: x in r <==> x in s && p(x)
  {
    if s == [] then [] else (if p(s[0]) then [s[0]] else []) + Filter(s[1..], p)
  }

  lemma {:induction false} FilterAppend<T(!new)>(a: seq<T>, b: seq<T>, p: T -> bool)
    ensures Filter(a + b, p) == Filter(a, p) + Filter(b, p)
  {
    if a == [] {
      assert a + b == b;
    } else {
      assert (a + b)[1..] == a[1..] + b;
      FilterAppend(a[1..], b, p);
    }
  }

  /** A sequence with no members is empty. */
  lemma EmptyIfNoMembers<T>(s: seq<T>)
    ensures (forall x :: x !in s) ==> s == []
  {
    if s != [] {
      assert s[0] in s;
    }
  }

  lemma {:induction false} FilterAll<T(!new)>(s: seq<T>, p: T -> bool)
    requires forall i :: 0 <= i < |s| ==> p(s[i])
    ensures Filter(s, p) == s
  {
    if s != [] {
      FilterAll(s[1..], p);
    }
  }

  lemma {:induction false} FilterNone<T(!new)>(s: seq<T>, p: T -> bool)
    requires forall i :: 0 <= i < |s| ==> !p(s[i])
    ensures Filter(s, p) == []
  {
    if s != [] {
      FilterNone(s[1..], p);
    }
  }

  // ---------------------------------------------------------------------
  // First-occurrence de-duplication (pandas drop_duplicates)

  ghost predicate Distinct<T(!new)>(s: seq<T>) {
    forall i, j :: 0 <= i < j < |s| ==> s[i] != s[j]
  }

  /** s with every element after its first occurrence removed. */
  function Dedup<T(==,!new)>(s: seq<T>): (r: seq<T>)
    ensures Distinct(r)
    ensures forall x :: x in r <==> x in s
  {
    if s == [] then []
    else
      var p := Dedup(s[..|s| - 1]);
      assert forall x :: x in s <==> x in s[..|s| - 1] || x == s[|s| - 1];
      if s[|s| - 1] in p then p else p + [s[|s| - 1]]
  }

  lemma {:induction false} DistinctOccursOnce<T(!new)>(s: seq<T>, x: T)
    requires Distinct(s)
    ensures multiset(s)[x] <= 1
  {
    if s != [] {
      var p := s[..|s| - 1];
      assert s == p + [s[|s| - 1]];
      assert Distinct(p);
      DistinctOccursOnce(p, x);
      if s[|s| - 1] == x {
        assert x !in p;
      }
    }
  }

  /** A rearrangement of a sequence without repetitions has none either. */
  lemma DistinctPermutation<T(!new)>(a: seq<T>, b: seq<T>)
    requires Distinct(a) && multiset(a) == multiset(b)
    ensures Distinct(b)
  {
    forall i, j | 0 <= i < j < |b| ensures b[i] != b[j] {
      if b[i] == b[j] {
        var x := b[i];
        assert b == b[..j] + b[j..];
        assert x in b[..j] && x in b[j..];
        assert multiset(b)[x] == multiset(b[..j])[x] + multiset(b[j..])[x];
        DistinctOccursOnce(a, x);
        assert false;
      }
    }
  }

  // ---------------------------------------------------------------------
  // A stable insertion sort by a total preorder

  ghost predicate TotalPreorder<T(!new)>(le: (T, T) -> bool) {
    && (forall a, b :: le(a, b) || le(b, a))
    && (forall a, b, c :: le(a, b) && le(b, c) ==> le(a, c))
  }

  ghost predicate SortedBy<T(!new)>(s: seq<T>, le: (T, T) -> bool) {
    forall i, j :: 0 <= i < j < |s| ==> le(s[i], s[j])
  }

  /** Inserts x after every element y of s with le(y, x). */
  function Insert<T(!new)>(x: T, s: seq<T>, le: (T, T) -> bool): (r: seq<T>)
    ensures |r| == |s| + 1
    ensures multiset(r) == multiset(s) + multiset{x}
  {
    if s == [] then [x]
    else if le(s[0], x) then
      assert s == [s[0]] + s[1..];
      [s[0]] + Insert(x, s[1..], le)
    else
      [x] + s
  }

  lemma {:induction false} InsertSorted<T(!new)>(x: T, s: seq<T>, le: (T, T) -> bool)
    requires TotalPreorder(le) && SortedBy(s, le)
    ensures SortedBy(Insert(x, s, le), le)
  {
    if s != [] {
      if le(s[0], x) {
        var t := Insert(x, s[1..], le);
        assert SortedBy(s[1..], le);
        InsertSorted(x, s[1..], le);
        assert s == [s[0]] + s[1..];
        forall k | 0 <= k < |t| ensures le(s[0], t[k]) {
          assert t[k] in multiset(t);
          assert t[k] == x || t[k] in s[1..];
        }
      } else {
        assert le(x, s[0]);
        forall k | 0 <= k < |s| ensures le(x, s[k]) {
          if k > 0 {
            assert le(s[0], s[k]);
          }
        }
      }
    }
  }

  /** The stable sort of s by le: a rearrangement of s. */
  function SortBy<T(!new)>(s: seq<T>, le: (T, T) -> bool): (r: seq<T>)
    ensures |r| == |s|
    ensures multiset(r) == multiset(s)
  {
    if s == [] then []
    else
      assert s == s[..|s| - 1] + [s[|s| - 1]];
      Insert(s[|s| - 1], SortBy(s[..|s| - 1], le), le)
  }

  /** SortBy, unfolded once. */
  lemma SortByLast<T(!new)>(s: seq<T>, le: (T, T) -> bool)
    requires s != []
    ensures SortBy(s, le) == Insert(s[|s| - 1], SortBy(s[..|s| - 1], le), le)
  {
  }

  /** The result of SortBy is sorted when le is a total preorder. */
  lemma {:induction false} SortBySorted<T(!new)>(s: seq<T>, le: (T, T) -> bool)
    requires TotalPreorder(le)
    ensures SortedBy(SortBy(s, le), le)
  {
    if s != [] {
      SortBySorted(s[..|s| - 1], le);
      InsertSorted(s[|s| - 1], SortBy(s[..|s| - 1], le), le);
    }
  }

  lemma SortByMembers<T(!new)>(s: seq<T>, le: (T, T) -> bool)
    ensures forall x :: x in SortBy(s, le) <==> x in s
  {
    var r := SortBy(s, le);
    forall x ensures x in r <==> x in s {
      assert x in r <==> x in multiset(r);
      assert x in s <==> x in multiset(s);
    }
  }

  /** Filtering a sequence with a given first element. */
  lemma FilterCons<T(!new)>(x: T, s: seq<T>, p: T -> bool)
    ensures Filter([x] + s, p) == (if p(x) then [x] else []) + Filter(s, p)
  {
    assert ([x] + s)[0] == x && ([x] + s)[1..] == s;
  }

  lemma {:induction false} FilterInsert<T(!new)>(x: T, s: seq<T>, le: (T, T) -> bool, p: T -> bool)
    ensures multiset(Filter(Insert(x, s, le), p)) == multiset(Filter(s, p)) + (if p(x) then multiset{x} else multiset{})
  {
    if s == [] || !le(s[0], x) {
      FilterInsertFront(x, s, le, p);
    } else {
      FilterInsert(x, s[1..], le, p);
      FilterInsertPast(x, s, le, p);
    }
  }

  /** FilterInsert when x goes first. */
  lemma FilterInsertFront<T(!new)>(x: T, s: seq<T>, le: (T, T) -> bool, p: T -> bool)
    requires s == [] || !le(s[0], x)
    ensures multiset(Filter(Insert(x, s, le), p)) == multiset(Filter(s, p)) + (if p(x) then multiset{x} else multiset{})
  {
    assert Insert(x, s, le) == [x] + s;
    FilterCons(x, s, p);
  }

  /** FilterInsert when x goes past the first element, given the claim for
      the rest. */
  lemma FilterInsertPast<T(!new)>(x: T, s: seq<T>, le: (T, T) -> bool, p: T -> bool)
    requires s != [] && le(s[0], x)
    requires multiset(Filter(Insert(x, s[1..], le), p)) ==
      multiset(Filter(s[1..], p)) + (if p(x) then multiset{x} else multiset{})
    ensures multiset(Filter(Insert(x, s, le), p)) == multiset(Filter(s, p)) + (if p(x) then multiset{x} else multiset{})
  {
    InsertPast(x, s, le);
    FilterCons(s[0], Insert(x, s[1..], le), p);
    FilterHead(s, p);
  }

  /** Insert, unfolded once when x goes past the first element. */
  lemma InsertPast<T(!new)>(x: T, s: seq<T>, le: (T, T) -> bool)
    requires s != [] && le(s[0], x)
    ensures Insert(x, s, le) == [s[0]] + Insert(x, s[1..], le)
  {
  }

  /** Filter, unfolded once. */
  lemma FilterHead<T(!new)>(s: seq<T>, p: T -> bool)
    requires s != []
    ensures Filter(s, p) == (if p(s[0]) then [s[0]] else []) + Filter(s[1..], p)
  {
  }

  /** Sorting does not change which rows satisfy a condition, nor how often. */
  lemma {:induction false} FilterSortBy<T(!new)>(s: seq<T>, le: (T, T) -> bool, p: T -> bool)
    ensures multiset(Filter(SortBy(s, le), p)) == multiset(Filter(s, p))
  {
    if s != [] {
      var q, x := s[..|s| - 1], s[|s| - 1];
      var xs := if p(x) then multiset{x} else multiset{};
      assert SortBy(s, le) == Insert(x, SortBy(q, le), le);
      FilterSortBy(q, le, p);
      FilterInsert(x, SortBy(q, le), le, p);
      FilterSplitLast(s, p);
      assert multiset(Filter(s, p)) == multiset(Filter(q, p)) + xs;
    }
  }

  lemma {:induction false} InsertAtEnd<T(!new)>(x: T, s: seq<T>, le: (T, T) -> bool)
    requires forall k :: 0 <= k < |s| ==> le(s[k], x)
    ensures Insert(x, s, le) == s + [x]
  {
    if s != [] {
      InsertAtEnd(x, s[1..], le);
      assert s == [s[0]] + s[1..];
    }
  }

  /** The sort is stable: a sequence already in order is left as it is. */
  lemma {:induction false} SortBySortedInput<T(!new)>(s: seq<T>, le: (T, T) -> bool)
    requires SortedBy(s, le)
    ensures SortBy(s, le) == s
  {
    if s != [] {
      var q := s[..|s| - 1];
      assert SortedBy(q, le);
      SortBySortedInput(q, le);
      InsertAtEnd(s[|s| - 1], q, le);
      assert q + [s[|s| - 1]] == s;
    }
  }

  /** Filtering a sequence is filtering all but its last element, then
      adding that element when p accepts it. */
  lemma FilterLast<T(!new)>(s: seq<T>, p: T -> bool)
    requires s != []
    ensures Filter(s, p) == Filter(s[..|s| - 1], p) + (if p(s[|s| - 1]) then [s[|s| - 1]] else [])
  {
    var q, x := s[..|s| - 1], s[|s| - 1];
    assert s == q + [x];
    FilterAppend(q, [x], p);
    assert Filter([x], p) == (if p(x) then [x] else []) + Filter([], p);
  }

  lemma FilterSplitLast<T(!new)>(s: seq<T>, p: T -> bool)
    requires s != []
    ensures multiset(Filter(s, p)) == multiset(Filter(s[..|s| - 1], p)) + (if p(s[|s| - 1]) then multiset{s[|s| - 1]} else multiset{})
  {
    FilterLast(s, p);
  }

  /** Filtering twice is filtering once by the conjunction. */
  lemma {:induction false} FilterFilter<T(!new)>(s: seq<T>, p: T -> bool, q: T -> bool, pq: T -> bool)
    requires forall x :: pq(x) == (p(x) && q(x))
    ensures Filter(Filter(s, p), q) == Filter(s, pq)
  {
    if s != [] {
      FilterFilter(s[1..], p, q, pq);
      FilterAppend(if p(s[0]) then [s[0]] else [], Filter(s[1..], p), q);
      assert Filter([s[0]], q) == (if q(s[0]) then [s[0]] else []) + Filter([], q);
    }
  }

  /** An increasing sequence of naturals below bound has at most bound elements. */
  lemma {:induction false} BoundedIncreasing(pos: seq<nat>, bound: nat)
    requires forall a, b :: 0 <= a < b < |pos| ==> pos[a] < pos[b]
    requires forall n :: 0 <= n < |pos| ==> pos[n] < bound
    ensures |pos| <= bound
    decreases |pos|
  {
    if pos != [] {
      var last := pos[|pos| - 1];
      BoundedIncreasing(pos[..|pos| - 1], last);
    }
  }

  /** When p holds at the last element, the last position is that element's
      index, and the other positions are where p holds in the rest. */
  lemma PositionsLastIn<T>(s: seq<T>, p: T -> bool, pos: seq<nat>)
    requires forall a, b :: 0 <= a < b < |pos| ==> pos[a] < pos[b]
    requires forall n :: 0 <= n < |pos| ==> pos[n] < |s|
    requires forall i :: 0 <= i < |s| ==> (p(s[i]) <==> i in pos)
    requires s != [] && p(s[|s| - 1])
    ensures pos != [] && pos[|pos| - 1] == |s| - 1
    ensures forall i :: 0 <= i < |s| - 1 ==> (p(s[i]) <==> i in pos[..|pos| - 1])
  {
    var last := |s| - 1;
    assert last in pos;
    assert pos[|pos| - 1] == last;
    var pos' := pos[..|pos| - 1];
    forall i | 0 <= i < last ensures p(s[i]) <==> i in pos' {
      if i in pos {
        var m :| 0 <= m < |pos| && pos[m] == i;
        assert pos'[m] == i;
      }
    }
  }

  /** When p fails at the last element, every position is before it. */
  lemma PositionsLastOut<T>(s: seq<T>, p: T -> bool, pos: seq<nat>)
    requires forall n :: 0 <= n < |pos| ==> pos[n] < |s|
    requires forall i :: 0 <= i < |s| ==> (p(s[i]) <==> i in pos)
    requires s != [] && !p(s[|s| - 1])
    ensures forall n :: 0 <= n < |pos| ==> pos[n] < |s| - 1
  {
    forall n | 0 <= n < |pos| ensures pos[n] < |s| - 1 {
      assert pos[n] in pos;
    }
  }

  /** The step of FilterAtPositions that appends a last element p accepts. */
  lemma FilterAtLastIn<T(!new)>(s: seq<T>, p: T -> bool, pos: seq<nat>)
    requires s != [] && pos != [] && pos[|pos| - 1] == |s| - 1 && p(s[|s| - 1])
    requires forall n :: 0 <= n < |pos| - 1 ==> pos[n] < |s| - 1
    requires Filter(s[..|s| - 1], p) == seq(|pos| - 1, n requires 0 <= n < |pos| - 1 => s[..|s| - 1][pos[n]])
    ensures Filter(s, p) == seq(|pos|, n requires 0 <= n < |pos| => s[pos[n]])
  {
    FilterLast(s, p);
    PickedBeforeLast(s, pos);
    PickedSnoc(s, pos);
  }

  /** Picking positions before the last element from s or from s without
      its last element gives the same. */
  lemma PickedBeforeLast<T>(s: seq<T>, pos: seq<nat>)
    requires s != [] && pos != []
    requires forall n :: 0 <= n < |pos| - 1 ==> pos[n] < |s| - 1
    ensures seq(|pos| - 1, n requires 0 <= n < |pos| - 1 => s[..|s| - 1][pos[n]]) ==
      seq(|pos| - 1, n requires 0 <= n < |pos| - 1 => s[pos[n]])
  {
  }

  /** The elements at pos are those at all but its last index, then one. */
  lemma PickedSnoc<T>(s: seq<T>, pos: seq<nat>)
    requires pos != [] && pos[|pos| - 1] < |s|
    requires forall n :: 0 <= n < |pos| - 1 ==> pos[n] < |s|
    ensures seq(|pos|, n requires 0 <= n < |pos| => s[pos[n]]) ==
      seq(|pos| - 1, n requires 0 <= n < |pos| - 1 => s[pos[n]]) + [s[pos[|pos| - 1]]]
  {
  }

  /** The step of FilterAtPositions that appends a last element p rejects. */
  lemma FilterAtLastOut<T(!new)>(s: seq<T>, p: T -> bool, pos: seq<nat>)
    requires s != [] && !p(s[|s| - 1])
    requires forall n :: 0 <= n < |pos| ==> pos[n] < |s| - 1
    requires Filter(s[..|s| - 1], p) == seq(|pos|, n requires 0 <= n < |pos| => s[..|s| - 1][pos[n]])
    ensures Filter(s, p) == seq(|pos|, n requires 0 <= n < |pos| => s[pos[n]])
  {
    var q := s[..|s| - 1];
    var f := Filter(q, p);
    FilterLast(s, p);
    assert Filter(s, p) == f + [];
    forall n | 0 <= n < |pos| ensures f[n] == s[pos[n]] {
      assert f[n] == q[pos[n]];
    }
  }

  /** When p holds exactly at the (increasing) indices pos, filtering by p
      picks the elements at pos, in that order. */
  lemma {:induction false} FilterAtPositions<T(!new)>(s: seq<T>, p: T -> bool, pos: seq<nat>)
    requires forall a, b :: 0 <= a < b < |pos| ==> pos[a] < pos[b]
    requires forall n :: 0 <= n < |pos| ==> pos[n] < |s|
    requires forall i :: 0 <= i < |s| ==> (p(s[i]) <==> i in pos)
    ensures Filter(s, p) == seq(|pos|, n requires 0 <= n < |pos| => s[pos[n]])
    decreases |s|
  {
    if s == [] {
      BoundedIncreasing(pos, 0);
    } else {
      var q := s[..|s| - 1];
      assert forall i :: 0 <= i < |q| ==> q[i] == s[i];
      if p(s[|s| - 1]) {
        PositionsLastIn(s, p, pos);
        assert forall n :: 0 <= n < |pos| - 1 ==> pos[n] < pos[|pos| - 1];
        FilterAtPositions(q, p, pos[..|pos| - 1]);
        FilterAtLastIn(s, p, pos);
      } else {
        PositionsLastOut(s, p, pos);
        FilterAtPositions(q, p, pos);
        FilterAtLastOut(s, p, pos);
      }
    }
  }

  /** Filtering a sorted sequence leaves it sorted. */
  lemma {:induction false} FilterSorted<T(!new)>(s: seq<T>, le: (T, T) -> bool, p: T -> bool)
    requires SortedBy(s, le)
    ensures SortedBy(Filter(s, p), le)
  {
    if s != [] {
      FilterSorted(s[1..], le, p);
      var t := Filter(s[1..], p);
      forall y | y in t ensures le(s[0], y) {
        var k :| 0 <= k < |s[1..]| && s[1..][k] == y;
        assert s[k + 1] == y;
      }
    }
  }

  // ---------------------------------------------------------------------
  // Python's ordering of str values: lexicographic by code point

  /** a < b for Python strings. */
  predicate StrLess(a: string, b: string)
    decreases |a|
  {
    if a == [] then b != []
    else if b == [] then false
    else if a[0] != b[0] then a[0] < b[0]
    else StrLess(a[1..], b[1..])
  }

  /** a <= b for Python strings. */
  predicate StrLe(a: string, b: string) {
    a == b || StrLess(a, b)
  }

  lemma {:induction false} StrLessIrreflexive(a: string)
    ensures !StrLess(a, a)
  {
    if a != [] {
      StrLessIrreflexive(a[1..]);
    }
  }

  lemma {:induction false} StrLessTransitive(a: string, b: string, c: string)
    requires StrLess(a, b) && StrLess(b, c)
    ensures StrLess(a, c)
    decreases |a|
  {
    if a != [] && b != [] && c != [] && a[0] == b[0] && b[0] == c[0] {
      StrLessTransitive(a[1..], b[1..], c[1..]);
    }
  }

  lemma {:induction false} StrLessTotal(a: string, b: string)
    ensures a == b || StrLess(a, b) || StrLess(b, a)
    decreases |a|
  {
    if a != [] && b != [] && a[0] == b[0] {
      StrLessTotal(a[1..], b[1..]);
      if a[1..] == b[1..] {
        assert a == [a[0]] + a[1..] && b == [b[0]] + b[1..];
      }
    }
  }

  /** The names in s that are not columns, sorted and without repetition:
      Python's sorted(set(s) - set(columns)). */
  function MissingSorted(s: seq<string>, columns: set<string>): (r: seq<string>)
    ensures forall c :: c in r <==> c in s && c !in columns
    ensures Distinct(r)
    ensures forall i, j :: 0 <= i < j < |r| ==> StrLess(r[i], r[j])
  {
    var d := Dedup(Filter(s, c => c !in columns));
    var r := SortBy(d, StrLe);
    StrLeTotalPreorder();
    SortBySorted(d, StrLe);
    SortByMembers(d, StrLe);
    DistinctPermutation(d, r);
    r
  }

  lemma StrLeTotalPreorder()
    ensures TotalPreorder(StrLe)
  {
    forall a, b ensures StrLe(a, b) || StrLe(b, a) {
      StrLessTotal(a, b);
    }
    forall a, b, c | StrLe(a, b) && StrLe(b, c) ensures StrLe(a, c) {
      if a != b && b != c {
        StrLessTransitive(a, b, c);
      }
    }
  }
}
