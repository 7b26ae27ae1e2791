/**
 * Pair screening and ranking of src/pair_selection.py.
 *
 * Every pair of columns (i, j) with i < j, visited in the nested-loop order,
 * is inner-joined on the rows where both prices are present; a pair whose
 * overlap is shorter than `minObs` is skipped, every other pair is recorded
 * with the p-value of the cointegration test. The records are stable-sorted
 * by p-value; the result is the records with p-value <= threshold, or every
 * record when none qualifies.
 *
 * The Engle-Granger test of statsmodels is a foreign call: it is the oracle
 * `coint`, a function parameter from two aligned series to a p-value.
 */
module PairSelection {
  import opened Wrappers

  type Ticker = string

  /** One recorded pair: the tickers in column order and the test's p-value. */
  datatype Candidate = Candidate(first: Ticker, second: Ticker, pvalue: real)

  /** The price table: one column per ticker, one possibly missing price per row (date). */
  datatype PriceTable = PriceTable(tickers: seq<Ticker>, columns: seq<seq<Option<real>>>)

  /** The cointegration test, reduced to the p-value it returns. */
  type Coint = (seq<real>, seq<real>) -> real

  /** A data frame: one column per ticker and every column over the same rows. */
  predicate WellFormed(t: PriceTable)
  {
    |t.tickers| == |t.columns| &&
    forall c :: 0 <= c < |t.columns| ==> |t.columns[c]| == |t.columns[0]|
  }

  // ---------------------------------------------------------------------------
  // The inner join of two columns

  /** The rows at which both columns hold a price. */
  ghost function BothPresent(a: seq<Option<real>>, b: seq<Option<real>>): set<nat>
  {
    set k: nat | k < |a| && k < |b| && a[k].Some? && b[k].Some?
  }

  /**
   * Both columns with missing values dropped, joined on the row: one pair of
   * prices per row where both are present, in row order.
   */
  function Joined(a: seq<Option<real>>, b: seq<Option<real>>): (d: seq<(real, real)>)
    requires |a| == |b|
    ensures |d| == |BothPresent(a, b)|
    decreases |a|
  {
    if a == [] then []
    else
      var n := |a| - 1;
      var d0 := Joined(a[..n], b[..n]);
      BothPresentSnoc(a, b);
      if a[n].Some? && b[n].Some? then d0 + [(a[n].value, b[n].value)] else d0
  }

  lemma BothPresentSnoc(a: seq<Option<real>>, b: seq<Option<real>>)
    requires |a| == |b| > 0
    ensures var n := |a| - 1;
      BothPresent(a, b) == BothPresent(a[..n], b[..n]) + (if a[n].Some? && b[n].Some? then {n} else {})
    ensures |a| - 1 !in BothPresent(a[..|a| - 1], b[..|b| - 1])
  {
  }

  /**
   * The rows at which both columns hold a price, in increasing order: the
   * row labels the inner join keeps.
   */
  ghost function JoinRows(a: seq<Option<real>>, b: seq<Option<real>>): (rows: seq<nat>)
    requires |a| == |b|
    ensures forall k :: 0 <= k < |rows| ==> rows[k] < |a| && a[rows[k]].Some? && b[rows[k]].Some?
    ensures forall k, l :: 0 <= k < l < |rows| ==> rows[k] < rows[l]
    ensures forall r :: r in rows <==> r in BothPresent(a, b)
    decreases |a|
  {
    if a == [] then []
    else
      var n := |a| - 1;
      var rows0 := JoinRows(a[..n], b[..n]);
      BothPresentSnoc(a, b);
      assert forall k :: 0 <= k < |rows0| ==> a[..n][rows0[k]] == a[rows0[k]] && b[..n][rows0[k]] == b[rows0[k]];
      if a[n].Some? && b[n].Some? then rows0 + [n] else rows0
  }

  /**
   * The joined series holds, in row order, one pair of prices per row where
   * both columns are present: entry k is the two prices of row JoinRows[k].
   */
  lemma {:induction false} JoinedRowsContents(a: seq<Option<real>>, b: seq<Option<real>>)
    requires |a| == |b|
    ensures |Joined(a, b)| == |JoinRows(a, b)|
    ensures forall k :: 0 <= k < |Joined(a, b)| ==>
      Joined(a, b)[k] == (a[JoinRows(a, b)[k]].value, b[JoinRows(a, b)[k]].value)
    decreases |a|
  {
    if a != [] {
      var n := |a| - 1;
      JoinedRowsContents(a[..n], b[..n]);
      var d0, rows0 := Joined(a[..n], b[..n]), JoinRows(a[..n], b[..n]);
      var both := a[n].Some? && b[n].Some?;
      var d, rows := Joined(a, b), JoinRows(a, b);
      assert d == d0 + (if both then [(a[n].value, b[n].value)] else []);
      assert rows == rows0 + (if both then [n] else []);
      forall k | 0 <= k < |d| ensures d[k] == (a[rows[k]].value, b[rows[k]].value) {
        if k < |d0| {
          assert d[k] == d0[k] && rows[k] == rows0[k];
          assert a[..n][rows0[k]] == a[rows0[k]] && b[..n][rows0[k]] == b[rows0[k]];
        }
      }
    }
  }

  function Firsts(d: seq<(real, real)>): (s: seq<real>)
  {
    seq(|d|, k requires 0 <= k < |d| => d[k].0)
  }

  function Seconds(d: seq<(real, real)>): (s: seq<real>)
  {
    seq(|d|, k requires 0 <= k < |d| => d[k].1)
  }

  /** The overlap guard: columns i and j share at least `minObs` rows with both prices present. */
  predicate Enough(t: PriceTable, minObs: int, i: nat, j: nat)
    requires WellFormed(t) && i < |t.columns| && j < |t.columns|
  {
    |Joined(t.columns[i], t.columns[j])| >= minObs
  }

  /** The oracle's p-value on the joined series of columns i and j. */
  function PValueOf(t: PriceTable, coint: Coint, i: nat, j: nat): real
    requires WellFormed(t) && i < |t.columns| && j < |t.columns|
  {
    var d := Joined(t.columns[i], t.columns[j]);
    coint(Firsts(d), Seconds(d))
  }

  /** The record of the pair of columns p. */
  function Record(t: PriceTable, coint: Coint, p: (nat, nat)): Candidate
    requires WellFormed(t) && p.0 < |t.columns| && p.1 < |t.columns|
  {
    Candidate(t.tickers[p.0], t.tickers[p.1], PValueOf(t, coint, p.0, p.1))
  }

  // ---------------------------------------------------------------------------
  // The enumeration of pairs of columns

  predicate LexLess(p: (nat, nat), q: (nat, nat))
  {
    p.0 < q.0 || (p.0 == q.0 && p.1 < q.1)
  }

  predicate LexIncreasing(ps: seq<(nat, nat)>)
  {
    forall k, l :: 0 <= k < l < |ps| ==> LexLess(ps[k], ps[l])
  }

  predicate InRange(ps: seq<(nat, nat)>, n: nat)
  {
    forall k :: 0 <= k < |ps| ==> ps[k].0 < n && ps[k].1 < n
  }

  /** The pairs the inner loop visits for row i before reaching column j: (i, i+1) .. (i, j-1). */
  function RowPairs(i: nat, j: nat): (r: seq<(nat, nat)>)
  {
    seq(if j > i + 1 then j - i - 1 else 0, k requires k >= 0 => (i, i + 1 + k))
  }

  /** The pairs the nested loops visit in rows 0 .. i-1 of n columns. */
  function PairsBefore(i: nat, n: nat): (r: seq<(nat, nat)>)
    requires i <= n
    ensures forall k :: 0 <= k < |r| ==> r[k].0 < i && r[k].0 < r[k].1 < n
  {
    if i == 0 then [] else PairsBefore(i - 1, n) + RowPairs(i - 1, n)
  }

  /** Every pair of columns, in the order the nested loops visit them. */
  function AllPairs(n: nat): seq<(nat, nat)>
  {
    PairsBefore(n, n)
  }

  lemma RowPairsSnoc(i: nat, j: nat)
    requires i < j
    ensures RowPairs(i, j + 1) == RowPairs(i, j) + [(i, j)]
  {
  }

  lemma ConcatIncreasing(a: seq<(nat, nat)>, b: seq<(nat, nat)>)
    requires LexIncreasing(a) && LexIncreasing(b)
    requires forall k, l :: 0 <= k < |a| && 0 <= l < |b| ==> LexLess(a[k], b[l])
    ensures LexIncreasing(a + b)
  {
    forall k, l | 0 <= k < l < |a + b| ensures LexLess((a + b)[k], (a + b)[l]) {
      if l < |a| {
      } else if k < |a| {
        assert (a + b)[l] == b[l - |a|];
      } else {
        assert (a + b)[k] == b[k - |a|] && (a + b)[l] == b[l - |a|];
      }
    }
  }

  /** The loops of rows 0 .. i-1 visit pairs in strictly increasing order. */
  lemma {:induction false} PairsBeforeIncreasing(i: nat, n: nat)
    requires i <= n
    ensures LexIncreasing(PairsBefore(i, n))
  {
    if i > 0 {
      PairsBeforeIncreasing(i - 1, n);
      var p, r := PairsBefore(i - 1, n), RowPairs(i - 1, n);
      assert forall k :: 0 <= k < |r| ==> r[k] == (i - 1, i + k);
      assert LexIncreasing(r);
      assert forall k :: 0 <= k < |p| ==> p[k].0 < i - 1;
      ConcatIncreasing(p, r);
    }
  }

  /** The loops of rows 0 .. i-1 visit every pair (a, b) with a < i and a < b < n. */
  lemma {:induction false} PairsBeforeComplete(i: nat, n: nat)
    requires i <= n
    ensures forall a, b :: 0 <= a < i && a < b < n ==> (a, b) in PairsBefore(i, n)
  {
    if i > 0 {
      PairsBeforeComplete(i - 1, n);
      var p, r := PairsBefore(i - 1, n), RowPairs(i - 1, n);
      assert PairsBefore(i, n) == p + r;
      forall a, b | 0 <= a < i && a < b < n ensures (a, b) in p + r {
        if a == i - 1 {
          assert r[b - i] == (a, b);
          assert (p + r)[|p| + b - i] == (a, b);
        } else {
          assert (a, b) in p;
        }
      }
    }
  }

  /** The loops of rows 0 .. i-1 visit (n - 1) + (n - 2) + ... + (n - i) pairs. */
  lemma {:induction false} PairsBeforeCount(i: nat, n: nat)
    requires i <= n
    ensures 2 * |PairsBefore(i, n)| == i * (2 * n - i - 1)
  {
    if i > 0 {
      PairsBeforeCount(i - 1, n);
      assert |RowPairs(i - 1, n)| == n - i;
      CountStep(i, n);
    }
  }

  lemma CountStep(i: int, n: int)
    ensures (i - 1) * (2 * n - i) + 2 * (n - i) == i * (2 * n - i - 1)
  {
  }

  /** The enumeration: n(n-1)/2 pairs (i, j), all with i < j < n, each exactly once, in increasing order. */
  lemma AllPairsShape(n: nat)
    ensures forall k :: 0 <= k < |AllPairs(n)| ==> AllPairs(n)[k].0 < AllPairs(n)[k].1 < n
    ensures LexIncreasing(AllPairs(n))
    ensures forall i, j :: 0 <= i < j < n ==> (i, j) in AllPairs(n)
    ensures 2 * |AllPairs(n)| == n * (n - 1)
  {
    PairsBeforeIncreasing(n, n);
    PairsBeforeComplete(n, n);
    PairsBeforeCount(n, n);
  }

  // ---------------------------------------------------------------------------
  // Screening: the overlap guard and the records

  /** The pairs of `ps` that pass the overlap guard, in the order of `ps`. */
  function EligiblePairs(t: PriceTable, minObs: int, ps: seq<(nat, nat)>): (r: seq<(nat, nat)>)
    requires WellFormed(t) && InRange(ps, |t.columns|)
    ensures |r| <= |ps| && InRange(r, |t.columns|)
  {
    if ps == [] then []
    else
      var m := |ps| - 1;
      var r0 := EligiblePairs(t, minObs, ps[..m]);
      if Enough(t, minObs, ps[m].0, ps[m].1) then r0 + [ps[m]] else r0
  }

  /** A pair is kept exactly when it is visited and passes the overlap guard. */
  lemma {:induction false} EligibleMembership(t: PriceTable, minObs: int, ps: seq<(nat, nat)>)
    requires WellFormed(t) && InRange(ps, |t.columns|)
    ensures forall p :: p in EligiblePairs(t, minObs, ps) <==> p in ps && Enough(t, minObs, p.0, p.1)
  {
    if ps != [] {
      var m := |ps| - 1;
      EligibleMembership(t, minObs, ps[..m]);
      assert ps == ps[..m] + [ps[m]];
      assert forall p :: p in ps <==> p in ps[..m] || p == ps[m];
    }
  }

  /** Filtering keeps the visiting order: an increasing enumeration stays increasing. */
  lemma {:induction false} EligibleIncreasing(t: PriceTable, minObs: int, ps: seq<(nat, nat)>)
    requires WellFormed(t) && InRange(ps, |t.columns|) && LexIncreasing(ps)
    ensures LexIncreasing(EligiblePairs(t, minObs, ps))
  {
    if ps != [] {
      var m := |ps| - 1;
      var r0 := EligiblePairs(t, minObs, ps[..m]);
      EligibleIncreasing(t, minObs, ps[..m]);
      EligibleMembership(t, minObs, ps[..m]);
      forall k | 0 <= k < |r0| ensures LexLess(r0[k], ps[m]) {
        assert r0[k] in ps[..m];
        var l :| 0 <= l < m && ps[..m][l] == r0[k];
        assert ps[l] == r0[k];
      }
      var r := EligiblePairs(t, minObs, ps);
      if Enough(t, minObs, ps[m].0, ps[m].1) {
        assert r == r0 + [ps[m]];
        forall k, l | 0 <= k < l < |r| ensures LexLess(r[k], r[l]) {
          if l < |r0| {
            assert r[k] == r0[k] && r[l] == r0[l];
          } else {
            assert r[k] == r0[k] && r[l] == ps[m];
          }
        }
      }
    }
  }

  /** The records the loops append while visiting `ps`. */
  function Screened(t: PriceTable, minObs: int, coint: Coint, ps: seq<(nat, nat)>): (r: seq<Candidate>)
    requires WellFormed(t) && InRange(ps, |t.columns|)
  {
    var e := EligiblePairs(t, minObs, ps);
    seq(|e|, k requires 0 <= k < |e| => Record(t, coint, e[k]))
  }

  /** Visiting one more pair appends its record exactly when it passes the guard. */
  lemma ScreenedSnoc(t: PriceTable, minObs: int, coint: Coint, ps: seq<(nat, nat)>, p: (nat, nat))
    requires WellFormed(t) && InRange(ps, |t.columns|) && p.0 < |t.columns| && p.1 < |t.columns|
    ensures InRange(ps + [p], |t.columns|)
    ensures Screened(t, minObs, coint, ps + [p]) ==
      Screened(t, minObs, coint, ps) + (if Enough(t, minObs, p.0, p.1) then [Record(t, coint, p)] else [])
  {
    assert (ps + [p])[..|ps|] == ps;
  }

  /**
   * What the screening records: for every pair of columns i < j, one record
   * exactly when the overlap guard passes, carrying the tickers of i and j and
   * the oracle's p-value; at most n(n-1)/2 records in all.
   */
  lemma ScreenedRecords(t: PriceTable, minObs: int, coint: Coint)
    requires WellFormed(t)
    ensures var n := |t.columns|; var e := EligiblePairs(t, minObs, AllPairs(n));
      && InRange(AllPairs(n), n)
      && (forall k :: 0 <= k < |e| ==> e[k].0 < e[k].1 < n)
      && (forall i, j :: 0 <= i < j < n ==> ((i, j) in e <==> Enough(t, minObs, i, j)))
      && LexIncreasing(e)
      && 2 * |Screened(t, minObs, coint, AllPairs(n))| <= n * (n - 1)
  {
    AllPairsShape(|t.columns|);
    EligibleMembership(t, minObs, AllPairs(|t.columns|));
    EligibleIncreasing(t, minObs, AllPairs(|t.columns|));
  }

  /** Both tickers of a record, as an unordered pair. */
  predicate SameUnorderedPair(c: Candidate, d: Candidate)
  {
    (c.first == d.first && c.second == d.second) || (c.first == d.second && c.second == d.first)
  }

  predicate DistinctTickers(tickers: seq<Ticker>)
  {
    forall k, l :: 0 <= k < l < |tickers| ==> tickers[k] != tickers[l]
  }

  /** Two distinct pairs i < j of distinct column names name two different unordered pairs of tickers. */
  lemma RecordsDistinct(t: PriceTable, coint: Coint, p: (nat, nat), q: (nat, nat))
    requires WellFormed(t) && DistinctTickers(t.tickers)
    requires p.0 < p.1 < |t.columns| && q.0 < q.1 < |t.columns| && LexLess(p, q)
    ensures !SameUnorderedPair(Record(t, coint, p), Record(t, coint, q))
  {
    assert t.tickers[p.0] != t.tickers[q.1];
    assert p.0 != q.0 ==> t.tickers[p.0] != t.tickers[q.0];
    assert p.1 != q.1 ==> t.tickers[p.1] != t.tickers[q.1];
  }

  /**
   * With distinct column names, no record pairs a ticker with itself and no
   * unordered pair of tickers is recorded twice.
   */
  lemma ScreenedPairsDistinct(t: PriceTable, minObs: int, coint: Coint)
    requires WellFormed(t) && DistinctTickers(t.tickers)
    ensures InRange(AllPairs(|t.columns|), |t.columns|)
    ensures var r := Screened(t, minObs, coint, AllPairs(|t.columns|));
      && (forall k :: 0 <= k < |r| ==> r[k].first != r[k].second)
      && (forall k, l :: 0 <= k < l < |r| ==> !SameUnorderedPair(r[k], r[l]))
  {
    var n := |t.columns|;
    ScreenedRecords(t, minObs, coint);
    var e := EligiblePairs(t, minObs, AllPairs(n));
    var r := Screened(t, minObs, coint, AllPairs(n));
    forall k | 0 <= k < |r| ensures r[k].first != r[k].second {
      assert r[k] == Record(t, coint, e[k]);
      assert t.tickers[e[k].0] != t.tickers[e[k].1];
    }
    forall k, l | 0 <= k < l < |r| ensures !SameUnorderedPair(r[k], r[l]) {
      RecordsDistinct(t, coint, e[k], e[l]);
    }
  }

  // ---------------------------------------------------------------------------
  // Ranking: the stable sort by p-value

  predicate SortedByPValue(s: seq<Candidate>)
  {
    forall k, l :: 0 <= k < l < |s| ==> s[k].pvalue <= s[l].pvalue
  }

  /** The records of `s` whose p-value is `v`, in the order of `s`. */
  function WithPValue(s: seq<Candidate>, v: real): seq<Candidate>
  {
    if s == [] then []
    else (if s[0].pvalue == v then [s[0]] else []) + WithPValue(s[1..], v)
  }

  lemma WithPValueCons(x: Candidate, s: seq<Candidate>, v: real)
    ensures WithPValue([x] + s, v) == (if x.pvalue == v then [x] else []) + WithPValue(s, v)
  {
    assert ([x] + s)[1..] == s;
  }

  /** Insertion of `c` before the first record whose p-value is not smaller. */
  function InsertByPValue(c: Candidate, s: seq<Candidate>): (r: seq<Candidate>)
    ensures |r| == |s| + 1 && multiset(r) == multiset(s) + multiset{c}
  {
    if s == [] || s[0].pvalue >= c.pvalue then [c] + s
    else
      assert s == [s[0]] + s[1..];
      [s[0]] + InsertByPValue(c, s[1..])
  }

  /** A lower bound of `c` and of every record of `s` bounds every record after insertion. */
  lemma {:induction false} InsertKeepsLowerBound(c: Candidate, s: seq<Candidate>, lo: real)
    requires lo <= c.pvalue
    requires forall k :: 0 <= k < |s| ==> lo <= s[k].pvalue
    ensures forall k :: 0 <= k < |InsertByPValue(c, s)| ==> lo <= InsertByPValue(c, s)[k].pvalue
  {
    if !(s == [] || s[0].pvalue >= c.pvalue) {
      InsertKeepsLowerBound(c, s[1..], lo);
      var r, t := InsertByPValue(c, s), InsertByPValue(c, s[1..]);
      assert r == [s[0]] + t;
      assert forall k :: 1 <= k < |r| ==> r[k] == t[k - 1];
    }
  }

  /** Insertion into a sorted list keeps it sorted. */
  lemma {:induction false} InsertKeepsSorted(c: Candidate, s: seq<Candidate>)
    requires SortedByPValue(s)
    ensures SortedByPValue(InsertByPValue(c, s))
  {
    var r := InsertByPValue(c, s);
    if s == [] || s[0].pvalue >= c.pvalue {
      assert r == [c] + s;
      assert forall k :: 1 <= k < |r| ==> r[k] == s[k - 1];
    } else {
      var t := InsertByPValue(c, s[1..]);
      InsertKeepsSorted(c, s[1..]);
      InsertKeepsLowerBound(c, s[1..], s[0].pvalue);
      assert r == [s[0]] + t;
      assert forall k :: 1 <= k < |r| ==> r[k] == t[k - 1];
    }
  }

  /** Insertion keeps the order among equal p-values: `c` goes before the records equal to it. */
  lemma {:induction false} InsertKeepsTies(c: Candidate, s: seq<Candidate>, v: real)
    ensures WithPValue(InsertByPValue(c, s), v) == (if c.pvalue == v then [c] else []) + WithPValue(s, v)
  {
    if s == [] || s[0].pvalue >= c.pvalue {
      assert InsertByPValue(c, s) == [c] + s;
      WithPValueCons(c, s, v);
    } else {
      var x, rest := s[0], s[1..];
      var t := InsertByPValue(c, rest);
      assert InsertByPValue(c, s) == [x] + t;
      assert s == [x] + rest;
      InsertKeepsTies(c, rest, v);
      WithPValueCons(x, t, v);
      WithPValueCons(x, rest, v);
      var w := WithPValue(rest, v);
      if c.pvalue == v {
        assert x.pvalue != v;
        assert WithPValue([x] + t, v) == [c] + w;
        assert WithPValue(s, v) == w;
      } else if x.pvalue == v {
        assert WithPValue([x] + t, v) == [x] + w;
        assert WithPValue(s, v) == [x] + w;
      } else {
        assert WithPValue([x] + t, v) == w;
        assert WithPValue(s, v) == w;
      }
    }
  }

  /**
   * Python's list.sort with the p-value as key: the result is sorted by
   * p-value, a permutation of the input, and records with equal p-values keep
   * their relative order (a stable sort).
   */
  function SortByPValue(s: seq<Candidate>): (r: seq<Candidate>)
    ensures |r| == |s| && multiset(r) == multiset(s)
    ensures SortedByPValue(r)
    ensures forall v :: WithPValue(r, v) == WithPValue(s, v)
  {
    if s == [] then []
    else
      assert s == [s[0]] + s[1..];
      var rest := SortByPValue(s[1..]);
      InsertKeepsSorted(s[0], rest);
      assert forall v :: WithPValue(InsertByPValue(s[0], rest), v) == WithPValue(s, v) by {
        forall v ensures WithPValue(InsertByPValue(s[0], rest), v) == WithPValue(s, v) {
          InsertKeepsTies(s[0], rest, v);
          WithPValueCons(s[0], s[1..], v);
        }
      }
      InsertByPValue(s[0], rest)
  }

  // ---------------------------------------------------------------------------
  // Selection: tradable pairs, or every pair as a fallback

  /** The records with p-value at most `threshold`, in order (the `tradable` comprehension). */
  function Tradable(s: seq<Candidate>, threshold: real): (r: seq<Candidate>)
    ensures forall c :: c in r <==> c in s && c.pvalue <= threshold
    ensures r == [] <==> forall k :: 0 <= k < |s| ==> s[k].pvalue > threshold
  {
    if s == [] then []
    else
      var rest := Tradable(s[1..], threshold);
      assert forall c :: c in s <==> c == s[0] || c in s[1..];
      assert forall k :: 1 <= k < |s| ==> s[k] == s[1..][k - 1];
      (if s[0].pvalue <= threshold then [s[0]] else []) + rest
  }

  /** A lower bound of every record still bounds every record after filtering. */
  lemma {:induction false} TradableKeepsLowerBound(s: seq<Candidate>, threshold: real, lo: real)
    requires forall k :: 0 <= k < |s| ==> lo <= s[k].pvalue
    ensures forall k :: 0 <= k < |Tradable(s, threshold)| ==> lo <= Tradable(s, threshold)[k].pvalue
  {
    if s != [] {
      var rest := Tradable(s[1..], threshold);
      TradableKeepsLowerBound(s[1..], threshold, lo);
      assert Tradable(s, threshold) == (if s[0].pvalue <= threshold then [s[0]] else []) + rest;
    }
  }

  /**
   * The comprehension keeps the order of its input: among the records with
   * any one p-value, the kept ones are those of `s`, in the order of `s`,
   * when that p-value is at most `threshold`, and none otherwise.
   */
  lemma {:induction false} TradableKeepsTies(s: seq<Candidate>, threshold: real, v: real)
    ensures WithPValue(Tradable(s, threshold), v) == (if v <= threshold then WithPValue(s, v) else [])
  {
    if s != [] {
      var x, rest := s[0], s[1..];
      var tr := Tradable(rest, threshold);
      TradableKeepsTies(rest, threshold, v);
      assert s == [x] + rest;
      WithPValueCons(x, rest, v);
      if x.pvalue <= threshold {
        assert Tradable(s, threshold) == [x] + tr;
        WithPValueCons(x, tr, v);
      } else {
        assert Tradable(s, threshold) == tr;
      }
    }
  }

  /** Filtering a sorted list keeps it sorted. */
  lemma {:induction false} TradableKeepsSorted(s: seq<Candidate>, threshold: real)
    requires SortedByPValue(s)
    ensures SortedByPValue(Tradable(s, threshold))
  {
    if s != [] {
      var rest := Tradable(s[1..], threshold);
      TradableKeepsSorted(s[1..], threshold);
      TradableKeepsLowerBound(s[1..], threshold, s[0].pvalue);
      assert Tradable(s, threshold) == (if s[0].pvalue <= threshold then [s[0]] else []) + rest;
    }
  }

  /** The returned list: the tradable records when there are any, all records otherwise. */
  function Select(s: seq<Candidate>, threshold: real): seq<Candidate>
  {
    var tradable := Tradable(s, threshold);
    if |tradable| > 0 then tradable else s
  }

  /**
   * The two outcomes of the selection: when some record qualifies, exactly the
   * qualifying records in order; otherwise every record, none of them qualifying.
   */
  lemma SelectOutcomes(s: seq<Candidate>, threshold: real)
    ensures (exists c :: c in s && c.pvalue <= threshold) ==>
      Select(s, threshold) == Tradable(s, threshold) && Select(s, threshold) != []
    ensures (forall c :: c in s ==> c.pvalue > threshold) ==>
      Select(s, threshold) == s
    ensures forall c :: c in Select(s, threshold) ==> c in s
    ensures SortedByPValue(s) ==> SortedByPValue(Select(s, threshold))
  {
    if exists c :: c in s && c.pvalue <= threshold {
      var c :| c in s && c.pvalue <= threshold;
      assert c in Tradable(s, threshold);
    }
    if SortedByPValue(s) {
      TradableKeepsSorted(s, threshold);
    }
  }

  /**
   * The selection keeps the order of its input among equal p-values: when
   * some record qualifies, the records with p-value `v` are those of `s` in
   * order if `v` is at most `threshold` and none otherwise; when none
   * qualifies, all of them in order.
   */
  lemma SelectKeepsTies(s: seq<Candidate>, threshold: real, v: real)
    ensures WithPValue(Select(s, threshold), v) ==
      (if Tradable(s, threshold) != [] && v > threshold then [] else WithPValue(s, v))
  {
    TradableKeepsTies(s, threshold, v);
  }

  /**
   * The result is empty exactly when there is no record, and its head
   * qualifies exactly when some record qualifies (the check a caller makes on
   * the first element).
   */
  lemma SelectHead(s: seq<Candidate>, threshold: real)
    ensures Select(s, threshold) == [] <==> s == []
    ensures s != [] ==>
      (Select(s, threshold)[0].pvalue <= threshold <==> exists c :: c in s && c.pvalue <= threshold)
  {
    SelectOutcomes(s, threshold);
    var tr := Tradable(s, threshold);
    if tr != [] {
      assert tr[0] in tr;
    }
  }

  // ---------------------------------------------------------------------------
  // The whole screening

  /** One step of the inner loop: visiting (i, j) appends its record exactly when it passes the guard. */
  lemma ScreenStep(t: PriceTable, minObs: int, coint: Coint, visited: seq<(nat, nat)>, i: nat, j: nat)
    requires WellFormed(t) && i < j < |t.columns|
    requires visited == PairsBefore(i, |t.columns|) + RowPairs(i, j)
    requires InRange(visited, |t.columns|)
    ensures visited + [(i, j)] == PairsBefore(i, |t.columns|) + RowPairs(i, j + 1)
    ensures InRange(visited + [(i, j)], |t.columns|)
    ensures Screened(t, minObs, coint, visited + [(i, j)]) ==
      Screened(t, minObs, coint, visited) + (if Enough(t, minObs, i, j) then [Record(t, coint, (i, j))] else [])
  {
    ScreenedSnoc(t, minObs, coint, visited, (i, j));
    RowPairsSnoc(i, j);
  }

  /**
   * One pass of the inner loop of find_cointegrated_pairs: for every column
   * j > i in order, the inner join of columns i and j, the overlap guard, and
   * one appended record when it passes.
   */
  method ScreenRow(prices: PriceTable, minObs: int, coint: Coint, i: nat, acc: seq<Candidate>)
    returns (results: seq<Candidate>)
    requires WellFormed(prices) && i < |prices.columns|
    requires InRange(PairsBefore(i, |prices.columns|), |prices.columns|)
    requires acc == Screened(prices, minObs, coint, PairsBefore(i, |prices.columns|))
    ensures InRange(PairsBefore(i + 1, |prices.columns|), |prices.columns|)
    ensures results == Screened(prices, minObs, coint, PairsBefore(i + 1, |prices.columns|))
  {
    var n := |prices.tickers|;
    results := acc;
    ghost var visited: seq<(nat, nat)> := PairsBefore(i, n);
    var j := i + 1;
    assert RowPairs(i, j) == [];
    assert visited == PairsBefore(i, n) + RowPairs(i, j);
    while j < n
      invariant i + 1 <= j <= n
      invariant visited == PairsBefore(i, n) + RowPairs(i, j)
      invariant InRange(visited, n)
      invariant results == Screened(prices, minObs, coint, visited)
    {
      var t1, t2 := prices.tickers[i], prices.tickers[j];
      var data := Joined(prices.columns[i], prices.columns[j]);
      ScreenStep(prices, minObs, coint, visited, i, j);
      if |data| >= minObs {
        var pvalue := coint(Firsts(data), Seconds(data));
        results := results + [Candidate(t1, t2, pvalue)];
      }
      visited := visited + [(i, j)];
      j := j + 1;
    }
  }

  /**
   * The nested loops of find_cointegrated_pairs: for every pair of columns
   * i < j in visiting order, one appended record per pair that passes the
   * overlap guard.
   */
  method ScreenPairs(prices: PriceTable, minObs: int, coint: Coint) returns (results: seq<Candidate>)
    requires WellFormed(prices)
    ensures InRange(AllPairs(|prices.columns|), |prices.columns|)
    ensures results == Screened(prices, minObs, coint, AllPairs(|prices.columns|))
  {
    var n := |prices.tickers|;
    results := [];
    var i := 0;
    while i < n
      invariant 0 <= i <= n
      invariant InRange(PairsBefore(i, n), n)
      invariant results == Screened(prices, minObs, coint, PairsBefore(i, n))
    {
      results := ScreenRow(prices, minObs, coint, i, results);
      i := i + 1;
    }
  }

  /**
   * find_cointegrated_pairs: the screened records, stable-sorted by p-value;
   * the tradable ones when there are any, all of them otherwise.
   */
  method FindCointegratedPairs(prices: PriceTable, pvalThreshold: real, minObs: int, coint: Coint)
    returns (pairs: seq<Candidate>)
    requires WellFormed(prices)
    ensures InRange(AllPairs(|prices.columns|), |prices.columns|)
    ensures pairs == Select(SortByPValue(Screened(prices, minObs, coint, AllPairs(|prices.columns|))), pvalThreshold)
    ensures SortedByPValue(pairs)
    ensures pairs == [] <==> forall i, j :: 0 <= i < j < |prices.columns| ==> !Enough(prices, minObs, i, j)
    ensures |prices.tickers| < 2 ==> pairs == []
    ensures pairs != [] ==>
      (pairs[0].pvalue <= pvalThreshold <==>
        exists i, j :: 0 <= i < j < |prices.columns| && Enough(prices, minObs, i, j)
                       && PValueOf(prices, coint, i, j) <= pvalThreshold)
  {
    var results := ScreenPairs(prices, minObs, coint);
    results := SortByPValue(results);
    var tradable := Tradable(results, pvalThreshold);
    pairs := if |tradable| > 0 then tradable else results;
    RankedOutcome(prices, minObs, coint, pvalThreshold);
  }

  /**
   * The ranked result in terms of the columns: sorted by p-value; empty exactly
   * when no pair passes the overlap guard; and, when not empty, its head is
   * tradable exactly when some pair passing the guard has a tradable p-value.
   */
  lemma RankedOutcome(t: PriceTable, minObs: int, coint: Coint, threshold: real)
    requires WellFormed(t)
    ensures InRange(AllPairs(|t.columns|), |t.columns|)
    ensures var r := Select(SortByPValue(Screened(t, minObs, coint, AllPairs(|t.columns|))), threshold);
      && SortedByPValue(r)
      && (r == [] <==> forall i, j :: 0 <= i < j < |t.columns| ==> !Enough(t, minObs, i, j))
      && (r != [] ==>
           (r[0].pvalue <= threshold <==>
             exists i, j :: 0 <= i < j < |t.columns| && Enough(t, minObs, i, j)
                            && PValueOf(t, coint, i, j) <= threshold))
  {
    AllPairsShape(|t.columns|);
    var s := Screened(t, minObs, coint, AllPairs(|t.columns|));
    var sorted := SortByPValue(s);
    assert Select(sorted, threshold) == [] <==> s == [] by {
      SelectHead(sorted, threshold);
      SortKeepsEmpty(s);
    }
    assert s == [] <==> forall i, j :: 0 <= i < j < |t.columns| ==> !Enough(t, minObs, i, j) by {
      ScreenedEmpty(t, minObs, coint);
    }
    assert (exists c :: c in sorted && c.pvalue <= threshold) <==>
      exists i, j :: 0 <= i < j < |t.columns| && Enough(t, minObs, i, j)
                     && PValueOf(t, coint, i, j) <= threshold by {
      SortKeepsMembers(s);
      ScreenedQualifying(t, minObs, coint, threshold);
    }
    SelectOutcomes(sorted, threshold);
    SelectHead(sorted, threshold);
  }

  /** Sorting neither adds nor loses a record: the sorted list is empty exactly when its input is. */
  lemma SortKeepsEmpty(s: seq<Candidate>)
    ensures SortByPValue(s) == [] <==> s == []
  {
    assert |SortByPValue(s)| == |s|;
  }

  /** Sorting neither adds nor loses a record: the sorted list holds exactly the records of its input. */
  lemma SortKeepsMembers(s: seq<Candidate>)
    ensures forall c :: c in SortByPValue(s) <==> c in s
  {
    var sorted := SortByPValue(s);
    forall c ensures c in sorted <==> c in s {
      assert c in sorted <==> c in multiset(sorted);
    }
  }

  /** The screening records nothing exactly when no pair of columns passes the overlap guard. */
  lemma ScreenedEmpty(t: PriceTable, minObs: int, coint: Coint)
    requires WellFormed(t)
    ensures InRange(AllPairs(|t.columns|), |t.columns|)
    ensures Screened(t, minObs, coint, AllPairs(|t.columns|)) == [] <==>
      forall i, j :: 0 <= i < j < |t.columns| ==> !Enough(t, minObs, i, j)
  {
    var n := |t.columns|;
    ScreenedRecords(t, minObs, coint);
    var e := EligiblePairs(t, minObs, AllPairs(n));
    if e == [] {
      forall i, j | 0 <= i < j < n ensures !Enough(t, minObs, i, j) {
        assert (i, j) !in e;
      }
    } else {
      assert e[0] in e;
      assert Enough(t, minObs, e[0].0, e[0].1);
    }
  }

  /**
   * The screening records a record with a p-value at most `threshold` exactly
   * when some pair of columns passes the overlap guard with such a p-value.
   */
  lemma ScreenedQualifying(t: PriceTable, minObs: int, coint: Coint, threshold: real)
    requires WellFormed(t)
    ensures InRange(AllPairs(|t.columns|), |t.columns|)
    ensures (exists c :: c in Screened(t, minObs, coint, AllPairs(|t.columns|)) && c.pvalue <= threshold) <==>
      exists i, j :: 0 <= i < j < |t.columns| && Enough(t, minObs, i, j)
                     && PValueOf(t, coint, i, j) <= threshold
  {
    var n := |t.columns|;
    AllPairsShape(n);
    var r := Screened(t, minObs, coint, AllPairs(n));
    if exists c :: c in r && c.pvalue <= threshold {
      var c :| c in r && c.pvalue <= threshold;
      ScreenedRecordSound(t, minObs, coint, c);
    }
    if exists i, j :: 0 <= i < j < n && Enough(t, minObs, i, j) && PValueOf(t, coint, i, j) <= threshold {
      var i, j :| 0 <= i < j < n && Enough(t, minObs, i, j) && PValueOf(t, coint, i, j) <= threshold;
      ScreenedRecordComplete(t, minObs, coint, i, j);
    }
  }

  /** Every record of the screening is that of a pair of columns i < j passing the overlap guard. */
  lemma ScreenedRecordSound(t: PriceTable, minObs: int, coint: Coint, c: Candidate)
    requires WellFormed(t) && InRange(AllPairs(|t.columns|), |t.columns|)
    requires c in Screened(t, minObs, coint, AllPairs(|t.columns|))
    ensures exists i, j :: 0 <= i < j < |t.columns| && Enough(t, minObs, i, j)
                           && c == Record(t, coint, (i, j)) && c.pvalue == PValueOf(t, coint, i, j)
  {
    var n := |t.columns|;
    ScreenedRecords(t, minObs, coint);
    var e := EligiblePairs(t, minObs, AllPairs(n));
    var r := Screened(t, minObs, coint, AllPairs(n));
    var k :| 0 <= k < |r| && r[k] == c;
    assert c == Record(t, coint, e[k]);
    assert e[k] in e;
    var i, j := e[k].0, e[k].1;
    assert e[k] == (i, j);
  }

  /** Every pair of columns i < j passing the overlap guard has its record in the screening. */
  lemma ScreenedRecordComplete(t: PriceTable, minObs: int, coint: Coint, i: nat, j: nat)
    requires WellFormed(t) && i < j < |t.columns| && Enough(t, minObs, i, j)
    ensures InRange(AllPairs(|t.columns|), |t.columns|)
    ensures Record(t, coint, (i, j)) in Screened(t, minObs, coint, AllPairs(|t.columns|))
  {
    var n := |t.columns|;
    ScreenedRecords(t, minObs, coint);
    var e := EligiblePairs(t, minObs, AllPairs(n));
    var r := Screened(t, minObs, coint, AllPairs(n));
    assert (i, j) in e;
    var k :| 0 <= k < |e| && e[k] == (i, j);
    assert r[k] == Record(t, coint, (i, j));
  }
}
