/**
 * pandas `Series.value_counts()` with its defaults, applied to the
 * `detected_state` column: missing values are dropped, every distinct value
 * is paired with the number of times it occurs, and the pairs come in
 * non-increasing order of count. pandas fixes no order among equal counts;
 * this model groups in order of first occurrence and then sorts stably, and
 * its properties promise only the non-increasing order.
 */
module Aggregation {
  import opened Patients

  /** One output row: a region label and its number of rows. */
  datatype StateCount = StateCount(state: string, count: nat)

  /** A column of cells, `None` where the cell is missing. */
  type Column = seq<Option<string>>

  // ---------------------------------------------------------------------
  // The column side: what is counted.

  /** Number of cells holding exactly `k`. */
  function Occurrences(col: Column, k: string): (n: nat)
    ensures n <= |col|
  {
    if col == [] then 0
    else Occurrences(col[..|col| - 1], k) + (if col[|col| - 1] == Some(k) then 1 else 0)
  }

  /** Number of cells that are not missing. */
  function NonMissing(col: Column): (n: nat)
    ensures n <= |col|
  {
    if col == [] then 0
    else NonMissing(col[..|col| - 1]) + (if col[|col| - 1].Some? then 1 else 0)
  }

  /** The distinct values present in the column. */
  function Present(col: Column): set<string>
  {
    if col == [] then {}
    else
      Present(col[..|col| - 1]) + (match col[|col| - 1] case Some(k) => {k} case None => {})
  }

  /** A value is present exactly when some cell holds it, and then it occurs at least once. */
  lemma {:induction false} PresentIff(col: Column, k: string)
    ensures k in Present(col) <==> Some(k) in col
    ensures k in Present(col) <==> Occurrences(col, k) >= 1
  {
    if col != [] {
      var n := |col| - 1;
      PresentIff(col[..n], k);
      assert col == col[..n] + [col[n]];
    }
  }

  /** Nothing is present exactly when every cell is missing, that is when no cell counts. */
  lemma {:induction false} NothingPresent(col: Column)
    ensures Present(col) == {} <==> NonMissing(col) == 0
    ensures Present(col) == {} <==> forall i :: 0 <= i < |col| ==> col[i].None?
  {
    if col != [] {
      var n := |col| - 1;
      NothingPresent(col[..n]);
      if col[n].Some? {
        assert col[n].value in Present(col);
      }
      assert forall i :: 0 <= i < n ==> col[..n][i] == col[i];
    }
  }

  /** One more cell adds one to its value's occurrences and, unless missing, to the non-missing cells. */
  lemma AppendCell(col: Column, c: Option<string>, k: string)
    ensures Occurrences(col + [c], k) == Occurrences(col, k) + (if c == Some(k) then 1 else 0)
    ensures NonMissing(col + [c]) == NonMissing(col) + (if c.Some? then 1 else 0)
  {
  }

  /** Every cell counts exactly when no cell is missing. */
  lemma {:induction false} NonMissingAll(col: Column)
    ensures NonMissing(col) == |col| <==> forall i :: 0 <= i < |col| ==> col[i].Some?
  {
    if col != [] {
      var n := |col| - 1;
      NonMissingAll(col[..n]);
      assert forall i :: 0 <= i < n ==> col[..n][i] == col[i];
    }
  }

  // ---------------------------------------------------------------------
  // The output side: what a sequence of pairs says.

  /** The labels that appear in the output. */
  function Keys(r: seq<StateCount>): set<string>
  {
    set e | e in r :: e.state
  }

  /** Each label appears at most once. */
  predicate Distinct(r: seq<StateCount>)
  {
    forall i, j :: 0 <= i < j < |r| ==> r[i].state != r[j].state
  }

  /** Counts never increase along the output. */
  predicate NonIncreasing(r: seq<StateCount>)
  {
    forall i, j :: 0 <= i < j < |r| ==> r[i].count >= r[j].count
  }

  /** The count the first pair labelled `s` carries, 0 when there is none. */
  function CountOf(r: seq<StateCount>, s: string): nat
  {
    if r == [] then 0
    else if r[0].state == s then r[0].count
    else CountOf(r[1..], s)
  }

  /** The sum of all counts. */
  function TotalCount(r: seq<StateCount>): nat
  {
    if r == [] then 0 else r[0].count + TotalCount(r[1..])
  }

  /**
   * What `value_counts` promises of its result `r` on the column `col`: every
   * value present in the column appears exactly once, nothing else appears,
   * each count is that value's number of occurrences, and counts never
   * increase. The order among equal counts is left open.
   */
  ghost predicate IsValueCounts(col: Column, r: seq<StateCount>)
  {
    && Distinct(r)
    && Keys(r) == Present(col)
    && (forall i :: 0 <= i < |r| ==> r[i].count == Occurrences(col, r[i].state))
    && NonIncreasing(r)
  }

  // ---------------------------------------------------------------------
  // Grouping: one pass over the column, in order of first occurrence.

  /** Adds one occurrence of `k` to the tally `t`, appending a new pair when `k` is new. */
  function Bump(t: seq<StateCount>, k: string): (u: seq<StateCount>)
  {
    if t == [] then [StateCount(k, 1)]
    else if t[0].state == k then [StateCount(k, t[0].count + 1)] + t[1..]
    else [t[0]] + Bump(t[1..], k)
  }

  /** Bumping adds one to the count of `k` and leaves every other count alone. */
  lemma {:induction false} BumpCounts(t: seq<StateCount>, k: string, s: string)
    ensures CountOf(Bump(t, k), s) == CountOf(t, s) + (if s == k then 1 else 0)
  {
    if t != [] && t[0].state != k {
      BumpCounts(t[1..], k, s);
      assert Bump(t, k)[1..] == Bump(t[1..], k);
    }
  }

  /** Bumping adds `k` to the labels; a pair it creates or changes is labelled `k` and counts at least 1. */
  lemma {:induction false} BumpMembers(t: seq<StateCount>, k: string)
    ensures Keys(Bump(t, k)) == Keys(t) + {k}
    ensures forall e :: e in Bump(t, k) ==> e in t || (e.state == k && e.count >= 1)
  {
    var u := Bump(t, k);
    if t == [] {
      assert u == [StateCount(k, 1)];
    } else if t[0].state == k {
      assert t == [t[0]] + t[1..];
      assert Keys(t) == {k} + Keys(t[1..]);
      assert Keys(u) == {k} + Keys(t[1..]);
    } else {
      BumpMembers(t[1..], k);
      assert t == [t[0]] + t[1..];
      assert Keys(t) == {t[0].state} + Keys(t[1..]);
      assert Keys(u) == {t[0].state} + Keys(Bump(t[1..], k));
    }
  }

  /** Bumping never repeats a label. */
  lemma {:induction false} BumpDistinct(t: seq<StateCount>, k: string)
    requires Distinct(t)
    ensures Distinct(Bump(t, k))
  {
    if t != [] && t[0].state != k {
      var rest := Bump(t[1..], k);
      BumpDistinct(t[1..], k);
      BumpMembers(t[1..], k);
      forall j | 0 <= j < |rest| ensures rest[j].state != t[0].state {
        assert rest[j] in rest;
        if rest[j] in t[1..] {
          var m :| 0 <= m < |t[1..]| && t[1..][m] == rest[j];
          assert t[m + 1] == rest[j];
        }
      }
    }
  }

  /** Bumping adds one to the sum of the counts. */
  lemma {:induction false} BumpTotal(t: seq<StateCount>, k: string)
    ensures TotalCount(Bump(t, k)) == TotalCount(t) + 1
  {
    if t != [] && t[0].state != k {
      BumpTotal(t[1..], k);
      assert Bump(t, k)[1..] == Bump(t[1..], k);
    } else if t != [] {
      assert Bump(t, k)[1..] == t[1..];
    }
  }

  /** The counts of every non-missing value of `col`, in order of first occurrence. */
  function Tally(col: Column): (t: seq<StateCount>)
  {
    if col == [] then []
    else
      var rest := Tally(col[..|col| - 1]);
      match col[|col| - 1]
      case None => rest
      case Some(k) => Bump(rest, k)
  }

  /** The tally has one pair per present value and counts every value's occurrences. */
  lemma {:induction false} TallyCounts(col: Column)
    ensures Distinct(Tally(col))
    ensures Keys(Tally(col)) == Present(col)
    ensures forall s :: CountOf(Tally(col), s) == Occurrences(col, s)
  {
    if col != [] {
      var n := |col| - 1;
      var rest := Tally(col[..n]);
      TallyCounts(col[..n]);
      if col[n].Some? {
        var k := col[n].value;
        BumpDistinct(rest, k);
        BumpMembers(rest, k);
        forall s ensures CountOf(Tally(col), s) == Occurrences(col, s) {
          BumpCounts(rest, k, s);
        }
      }
    }
  }

  /** Every count in the tally is at least 1, and the counts add up to the non-missing cells. */
  lemma {:induction false} TallyTotal(col: Column)
    ensures forall e :: e in Tally(col) ==> e.count >= 1
    ensures TotalCount(Tally(col)) == NonMissing(col)
  {
    if col != [] {
      var n := |col| - 1;
      var rest := Tally(col[..n]);
      TallyTotal(col[..n]);
      if col[n].Some? {
        BumpMembers(rest, col[n].value);
        BumpTotal(rest, col[n].value);
      }
    }
  }

  /** In a tally without repeated labels, every pair carries the count `CountOf` finds for it. */
  lemma {:induction false} CountOfMembers(t: seq<StateCount>)
    requires Distinct(t)
    ensures forall e :: e in t ==> CountOf(t, e.state) == e.count
  {
    if t != [] {
      CountOfMembers(t[1..]);
      forall e | e in t[1..] ensures e.state != t[0].state {
        var j :| 0 <= j < |t[1..]| && t[1..][j] == e;
        assert t[j + 1] == e;
      }
    }
  }

  // ---------------------------------------------------------------------
  // Sorting by count, largest first.

  /** Inserts `p` before the first pair whose count is not larger than its own. */
  function InsertByCount(p: StateCount, s: seq<StateCount>): (u: seq<StateCount>)
    ensures |u| == |s| + 1
  {
    if s == [] || s[0].count <= p.count then [p] + s
    else [s[0]] + InsertByCount(p, s[1..])
  }

  /** Insertion adds exactly `p` to the pairs and `p.count` to their sum. */
  lemma {:induction false} InsertMembers(p: StateCount, s: seq<StateCount>)
    ensures forall e :: e in InsertByCount(p, s) <==> e == p || e in s
    ensures multiset(InsertByCount(p, s)) == multiset(s) + multiset{p}
    ensures TotalCount(InsertByCount(p, s)) == TotalCount(s) + p.count
  {
    if !(s == [] || s[0].count <= p.count) {
      InsertMembers(p, s[1..]);
      assert s == [s[0]] + s[1..];
      assert InsertByCount(p, s)[1..] == InsertByCount(p, s[1..]);
    } else {
      assert InsertByCount(p, s)[1..] == s;
    }
  }

  /** Insertion into a list sorted by count keeps it sorted. */
  lemma {:induction false} InsertSorted(p: StateCount, s: seq<StateCount>)
    requires NonIncreasing(s)
    ensures NonIncreasing(InsertByCount(p, s))
  {
    if !(s == [] || s[0].count <= p.count) {
      var rest := InsertByCount(p, s[1..]);
      InsertSorted(p, s[1..]);
      InsertMembers(p, s[1..]);
      forall j | 0 <= j < |rest| ensures s[0].count >= rest[j].count {
        assert rest[j] in rest;
        if rest[j] != p {
          var m :| 0 <= m < |s[1..]| && s[1..][m] == rest[j];
          assert s[m + 1] == rest[j];
        }
      }
    }
  }

  /** Inserting a pair with a new label keeps labels distinct. */
  lemma {:induction false} InsertDistinct(p: StateCount, s: seq<StateCount>)
    requires Distinct(s) && p.state !in Keys(s)
    ensures Distinct(InsertByCount(p, s))
  {
    if s == [] || s[0].count <= p.count {
      var u := InsertByCount(p, s);
      forall j | 1 <= j < |u| ensures u[j].state != p.state {
        assert u[j] == s[j - 1];
        assert u[j] in s;
      }
    } else {
      var rest := InsertByCount(p, s[1..]);
      assert Keys(s[1..]) <= Keys(s);
      InsertDistinct(p, s[1..]);
      InsertMembers(p, s[1..]);
      forall j | 0 <= j < |rest| ensures rest[j].state != s[0].state {
        assert rest[j] in rest;
        if rest[j] == p {
          assert s[0] in s;
        } else {
          var m :| 0 <= m < |s[1..]| && s[1..][m] == rest[j];
          assert s[m + 1] == rest[j];
        }
      }
    }
  }

  /** Insertion sort on counts, largest first; equal counts keep their order. */
  function SortByCount(t: seq<StateCount>): (u: seq<StateCount>)
    ensures |u| == |t|
  {
    if t == [] then []
    else InsertByCount(t[0], SortByCount(t[1..]))
  }

  /** Sorting permutes the pairs and keeps the sum of their counts. */
  lemma {:induction false} SortByCountPermutes(t: seq<StateCount>)
    ensures multiset(SortByCount(t)) == multiset(t)
    ensures forall e :: e in SortByCount(t) <==> e in t
    ensures TotalCount(SortByCount(t)) == TotalCount(t)
  {
    if t != [] {
      SortByCountPermutes(t[1..]);
      InsertMembers(t[0], SortByCount(t[1..]));
      assert t == [t[0]] + t[1..];
    }
  }

  /** Sorting orders the pairs by non-increasing count. */
  lemma {:induction false} SortByCountSorts(t: seq<StateCount>)
    ensures NonIncreasing(SortByCount(t))
  {
    if t != [] {
      SortByCountSorts(t[1..]);
      InsertSorted(t[0], SortByCount(t[1..]));
    }
  }

  /** Sorting never repeats a label. */
  lemma {:induction false} SortByCountDistinct(t: seq<StateCount>)
    requires Distinct(t)
    ensures Distinct(SortByCount(t))
  {
    if t != [] {
      var rest := SortByCount(t[1..]);
      SortByCountDistinct(t[1..]);
      SortByCountPermutes(t[1..]);
      assert t[0].state !in Keys(rest) by {
        forall e | e in rest ensures e.state != t[0].state {
          var m :| 0 <= m < |t[1..]| && t[1..][m] == e;
          assert t[m + 1] == e;
        }
      }
      InsertDistinct(t[0], rest);
    }
  }

  // ---------------------------------------------------------------------
  // value_counts and its properties.

  /** `Series.value_counts()`: drop missing cells, group, count, sort by count descending. */
  function ValueCounts(col: Column): (r: seq<StateCount>)
    ensures IsValueCounts(col, r)
    ensures TotalCount(r) == NonMissing(col)
  {
    var t := Tally(col);
    TallyCounts(col);
    TallyTotal(col);
    CountOfMembers(t);
    SortByCountPermutes(t);
    SortByCountSorts(t);
    SortByCountDistinct(t);
    SortByCount(t)
  }

  /** Every count in a result that meets the promise is at least 1. */
  lemma CountsPositive(col: Column, r: seq<StateCount>)
    requires IsValueCounts(col, r)
    ensures forall i :: 0 <= i < |r| ==> r[i].count >= 1
  {
    forall i | 0 <= i < |r| ensures r[i].count >= 1 {
      assert r[i].state in Keys(r);
      PresentIff(col, r[i].state);
    }
  }

  /** A sequence of pairs without repeated labels has as many pairs as labels. */
  lemma {:induction false} DistinctKeysCount(r: seq<StateCount>)
    requires Distinct(r)
    ensures |Keys(r)| == |r|
  {
    if r != [] {
      DistinctKeysCount(r[1..]);
      assert Keys(r) == {r[0].state} + Keys(r[1..]);
      assert r[0].state !in Keys(r[1..]) by {
        forall e | e in r[1..] ensures e.state != r[0].state {
          var j :| 0 <= j < |r[1..]| && r[1..][j] == e;
          assert r[j + 1] == e;
        }
      }
    }
  }

  /**
   * Two results that meet the promise hold the same pairs and have the same
   * length: they can differ only in the order of pairs with equal counts.
   */
  lemma ValueCountsUnique(col: Column, r1: seq<StateCount>, r2: seq<StateCount>)
    requires IsValueCounts(col, r1) && IsValueCounts(col, r2)
    ensures |r1| == |r2| == |Present(col)|
    ensures forall e :: e in r1 <==> e in r2
  {
    DistinctKeysCount(r1);
    DistinctKeysCount(r2);
    forall e | e in r1 ensures e in r2 {
      assert e.state in Keys(r2);
      var f :| f in r2 && f.state == e.state;
      var i :| 0 <= i < |r1| && r1[i] == e;
      var j :| 0 <= j < |r2| && r2[j] == f;
    }
    forall e | e in r2 ensures e in r1 {
      assert e.state in Keys(r1);
      var f :| f in r1 && f.state == e.state;
      var i :| 0 <= i < |r2| && r2[i] == e;
      var j :| 0 <= j < |r1| && r1[j] == f;
    }
  }

  /** The output is empty exactly when every cell of the column is missing. */
  lemma ValueCountsEmpty(col: Column)
    ensures ValueCounts(col) == [] <==> forall i :: 0 <= i < |col| ==> col[i].None?
  {
    var r := ValueCounts(col);
    NothingPresent(col);
    if r != [] {
      assert r[0].state in Keys(r);
    }
  }
}
