/**
 * pandas' df.groupby(key)[value].shift(lag) on a table given as a sequence
 * of (key, value) rows: every row is numbered within its group in row order
 * (its rank), and the shifted value of a row is the value of the row of the
 * same group whose rank is lag less, or missing when there is none. A
 * positive lag therefore reads the lag-th previous row of the same group,
 * a negative lag the |lag|-th next one; ranks count rows, not periods.
 */
module GroupShift {
  import opened Common

  /** Number of rows of s in group g. */
  function Count<K(==), V>(s: seq<(K, V)>, g: K): nat {
    if s == [] then 0
    else Count(s[..|s| - 1], g) + (if s[|s| - 1].0 == g then 1 else 0)
  }

  /** The indices of the rows of group g, in row order. */
  function Positions<K(==), V>(s: seq<(K, V)>, g: K): (r: seq<nat>)
    ensures |r| == Count(s, g)
    ensures forall j :: 0 <= j < |r| ==> r[j] < |s| && s[r[j]].0 == g
    ensures forall j, k :: 0 <= j < k < |r| ==> r[j] < r[k]
  {
    if s == [] then []
    else Positions(s[..|s| - 1], g) + (if s[|s| - 1].0 == g then [|s| - 1] else [])
  }

  /** The rank of row i in its group: how many earlier rows share its key. */
  function Rank<K(==), V>(s: seq<(K, V)>, i: nat): nat
    requires i < |s|
  {
    Count(s[..i], s[i].0)
  }

  /** The value groupby(key).shift(lag) gives row i. */
  function ShiftAt<K(==), V>(s: seq<(K, V)>, i: nat, lag: int): Option<V>
    requires i < |s|
  {
    var p := Positions(s, s[i].0);
    var j := Rank(s, i) - lag;
    if 0 <= j < |p| then Some(s[p[j]].1) else None
  }

  /** The shifted column, one entry per row. */
  function Shift<K(==), V>(s: seq<(K, V)>, lag: int): (r: seq<Option<V>>)
    ensures |r| == |s|
  {
    seq(|s|, i requires 0 <= i < |s| => ShiftAt(s, i, lag))
  }

  // ---------------------------------------------------------------------
  // Ranks and positions

  lemma {:induction false} CountAppend<K, V>(a: seq<(K, V)>, b: seq<(K, V)>, g: K)
    ensures Count(a + b, g) == Count(a, g) + Count(b, g)
    decreases |b|
  {
    if b == [] {
      assert a + b == a;
    } else {
      var c := b[..|b| - 1];
      assert (a + b)[..|a + b| - 1] == a + c;
      CountAppend(a, c, g);
    }
  }

  lemma CountPrefixStep<K, V>(s: seq<(K, V)>, m: nat, g: K)
    requires m < |s|
    ensures Count(s[..m + 1], g) == Count(s[..m], g) + (if s[m].0 == g then 1 else 0)
  {
    assert s[..m + 1][..m] == s[..m];
  }

  /** A row is found in its group's position list at its own rank. */
  lemma {:induction false} PositionOfRank<K, V>(s: seq<(K, V)>, i: nat)
    requires i < |s|
    ensures Rank(s, i) < Count(s, s[i].0)
    ensures Positions(s, s[i].0)[Rank(s, i)] == i
    decreases |s|
  {
    var p := s[..|s| - 1];
    var g := s[i].0;
    if i == |s| - 1 {
      assert s[..i] == p;
    } else {
      assert s[..i] == p[..i] && p[i] == s[i];
      PositionOfRank(p, i);
    }
  }

  /** The row at position j of a group's list has rank j. */
  lemma {:induction false} RankOfPosition<K, V>(s: seq<(K, V)>, g: K, j: nat)
    requires j < Count(s, g)
    ensures Rank(s, Positions(s, g)[j]) == j
    decreases |s|
  {
    var p := s[..|s| - 1];
    if j < Count(p, g) {
      var q := Positions(p, g)[j];
      assert Positions(s, g)[j] == q;
      assert s[..q] == p[..q] && s[q] == p[q];
      RankOfPosition(p, g, j);
    } else {
      assert Positions(s, g)[j] == |s| - 1;
      assert s[..|s| - 1] == p;
    }
  }

  /** Within a group, row order and rank order agree. */
  lemma RankOrder<K, V>(s: seq<(K, V)>, i: nat, j: nat)
    requires i < |s| && j < |s| && s[i].0 == s[j].0
    ensures i < j <==> Rank(s, i) < Rank(s, j)
    ensures i == j <==> Rank(s, i) == Rank(s, j)
  {
    PositionOfRank(s, i);
    PositionOfRank(s, j);
  }

  // ---------------------------------------------------------------------
  // What a shifted value is

  /** The shifted value of row i is the value of the row of the same group
      whose rank is lag less than row i's, and is missing exactly when the
      group has no such row. */
  lemma ShiftAtRow<K, V>(s: seq<(K, V)>, i: nat, lag: int)
    requires i < |s|
    ensures ShiftAt(s, i, lag).Some? <==>
      exists j :: 0 <= j < |s| && s[j].0 == s[i].0 && Rank(s, j) == Rank(s, i) - lag
    ensures forall j :: 0 <= j < |s| && s[j].0 == s[i].0 && Rank(s, j) == Rank(s, i) - lag ==>
      ShiftAt(s, i, lag) == Some(s[j].1)
  {
    var g := s[i].0;
    var p := Positions(s, g);
    forall j | 0 <= j < |s| && s[j].0 == g && Rank(s, j) == Rank(s, i) - lag
      ensures ShiftAt(s, i, lag) == Some(s[j].1)
    {
      PositionOfRank(s, j);
    }
    if ShiftAt(s, i, lag).Some? {
      var k := Rank(s, i) - lag;
      RankOfPosition(s, g, k);
      assert s[p[k]].0 == g && Rank(s, p[k]) == Rank(s, i) - lag;
    }
  }

  /** With a positive lag the value comes from an earlier row, with a
      negative lag from a later one, and always from the same group. */
  lemma ShiftAtSource<K, V>(s: seq<(K, V)>, i: nat, lag: int)
    requires i < |s| && ShiftAt(s, i, lag).Some?
    ensures exists j :: 0 <= j < |s| && s[j].0 == s[i].0 && Rank(s, j) == Rank(s, i) - lag
                     && ShiftAt(s, i, lag) == Some(s[j].1)
                     && (lag > 0 ==> j < i) && (lag < 0 ==> j > i)
  {
    ShiftAtRow(s, i, lag);
    var j :| 0 <= j < |s| && s[j].0 == s[i].0 && Rank(s, j) == Rank(s, i) - lag;
    RankOrder(s, i, j);
  }

  /** Rows of rank below lag (the group's first lag rows) have no value. */
  lemma ShiftAtDefined<K, V>(s: seq<(K, V)>, i: nat, lag: int)
    requires i < |s|
    ensures ShiftAt(s, i, lag).Some? <==> lag <= Rank(s, i) < Count(s, s[i].0) + lag
  {
    PositionOfRank(s, i);
  }

  // ---------------------------------------------------------------------
  // How many rows of a group have a shifted value

  /** Number of the first m rows that are in group g with rank in [lo, hi). */
  function RanksIn<K(==), V>(s: seq<(K, V)>, g: K, m: nat, lo: int, hi: int): nat
    requires m <= |s|
  {
    if m == 0 then 0
    else RanksIn(s, g, m - 1, lo, hi) + (if s[m - 1].0 == g && lo <= Rank(s, m - 1) < hi then 1 else 0)
  }

  function Max(a: int, b: int): int { if a < b then b else a }
  function Min(a: int, b: int): int { if a < b then a else b }

  lemma {:induction false} RanksInCount<K, V>(s: seq<(K, V)>, g: K, m: nat, lo: int, hi: int)
    requires m <= |s|
    ensures RanksIn(s, g, m, lo, hi) == Max(0, Min(hi, Count(s[..m], g)) - Max(lo, 0))
  {
    if m == 0 {
      assert s[..0] == [];
    } else {
      RanksInCount(s, g, m - 1, lo, hi);
      CountPrefixStep(s, m - 1, g);
    }
  }

  /** Number of rows of group g whose shifted value is defined. */
  function DefinedIn<K(==), V>(s: seq<(K, V)>, g: K, lag: int, m: nat): nat
    requires m <= |s|
  {
    if m == 0 then 0
    else DefinedIn(s, g, lag, m - 1) + (if s[m - 1].0 == g && ShiftAt(s, m - 1, lag).Some? then 1 else 0)
  }

  /** A group of n rows has max(0, n - |lag|) rows with a shifted value. */
  lemma DefinedCount<K, V>(s: seq<(K, V)>, g: K, lag: int)
    ensures DefinedIn(s, g, lag, |s|) == Max(0, Count(s, g) - (if lag < 0 then -lag else lag))
  {
    var n := Count(s, g);
    assert s[..|s|] == s;
    RanksInCount(s, g, |s|, lag, n + lag);
    DefinedAsRanks(s, g, lag, |s|);
  }

  lemma {:induction false} DefinedAsRanks<K, V>(s: seq<(K, V)>, g: K, lag: int, m: nat)
    requires m <= |s|
    ensures DefinedIn(s, g, lag, m) == RanksIn(s, g, m, lag, Count(s, g) + lag)
  {
    if m > 0 {
      DefinedAsRanks(s, g, lag, m - 1);
      ShiftAtDefined(s, m - 1, lag);
    }
  }
}
