/**
 * `build_rankings` of app/plot.py (lines 27-32): the K coldest and the K
 * warmest districts of the filtered table, projected to the ranking columns.
 */
module Plot {
  import opened Wrappers
  import opened Seqs
  import opened Estimation

  /** The K the dashboard asks for. */
  const DefaultK: int := 15

  /** The ranking columns: `__UBIGEO__`, `__NOMBRE__`, `__DEP__` and the metrics (the band is dropped). */
  datatype RankRow = RankRow(code: string, name: Option<string>, dep: Option<string>, metrics: Metrics)

  /** The ranking columns of a row: everything but the band, which `WithBand` puts back. */
  function Project(row: Row): (r: RankRow)
    ensures WithBand(r, row.band) == row
    ensures r.metrics == row.metrics
  {
    RankRow(row.code, row.name, row.dep, row.metrics)
  }

  /** A ranking row with its band column restored. */
  function WithBand(r: RankRow, band: Option<string>): Row
  {
    Row(r.code, r.name, band, r.metrics, r.dep)
  }

  /** `a` may come before `b` in the requested direction. */
  predicate Precedes(a: real, b: real, ascending: bool)
  {
    if ascending then a <= b else a >= b
  }

  predicate Ordered(s: seq<Row>, ascending: bool)
  {
    forall i, j :: 0 <= i < j < |s| ==> Precedes(s[i].metrics.mean, s[j].metrics.mean, ascending)
  }

  /** Places `x` in an ordered sequence before the first row it may precede. */
  function Insert(x: Row, s: seq<Row>, ascending: bool): (r: seq<Row>)
    requires Ordered(s, ascending)
    ensures Ordered(r, ascending)
    ensures multiset(r) == multiset(s) + multiset{x}
    decreases |s|
  {
    if s == [] then [x]
    else if Precedes(x.metrics.mean, s[0].metrics.mean, ascending) then
      assert forall y :: y in s ==> Precedes(x.metrics.mean, y.metrics.mean, ascending);
      OrderedCons(x, s, ascending);
      assert multiset([x] + s) == multiset{x} + multiset(s);
      [x] + s
    else
      var rest := Insert(x, s[1..], ascending);
      assert s == [s[0]] + s[1..];
      HeadPrecedesInsertion(x, s, rest, ascending);
      OrderedCons(s[0], rest, ascending);
      assert multiset([s[0]] + rest) == multiset{s[0]} + multiset(rest);
      [s[0]] + rest
  }

  /** The head of an ordered sequence precedes every row of its tail with a later row inserted. */
  lemma HeadPrecedesInsertion(x: Row, s: seq<Row>, rest: seq<Row>, ascending: bool)
    requires s != [] && Ordered(s, ascending) && !Precedes(x.metrics.mean, s[0].metrics.mean, ascending)
    requires multiset(rest) == multiset(s[1..]) + multiset{x}
    ensures forall y :: y in rest ==> Precedes(s[0].metrics.mean, y.metrics.mean, ascending)
  {
    forall y | y in rest ensures Precedes(s[0].metrics.mean, y.metrics.mean, ascending) {
      assert y in multiset(rest);
      if y != x {
        assert y in multiset(s[1..]);
        var j :| 0 <= j < |s[1..]| && s[1..][j] == y;
        assert s[j + 1] == y;
      }
    }
  }

  /** A row that may precede every row of an ordered sequence can go in front of it. */
  lemma OrderedCons(a: Row, s: seq<Row>, ascending: bool)
    requires Ordered(s, ascending)
    requires forall y :: y in s ==> Precedes(a.metrics.mean, y.metrics.mean, ascending)
    ensures Ordered([a] + s, ascending)
  {
    var t := [a] + s;
    forall i, j | 0 <= i < j < |t| ensures Precedes(t[i].metrics.mean, t[j].metrics.mean, ascending) {
      assert t[j] == s[j - 1];
      if i > 0 { assert t[i] == s[i - 1]; }
    }
  }

  /**
   * `sort_values("mean", ascending=...)`: the rows reordered by mean.  Rows
   * with equal means may come out in any order in pandas; this model keeps
   * them in input order, and nothing below depends on it.
   */
  function SortByMean(s: seq<Row>, ascending: bool): (r: seq<Row>)
    ensures Ordered(r, ascending)
    ensures multiset(r) == multiset(s)
    decreases |s|
  {
    if s == [] then []
    else
      assert s == [s[0]] + s[1..];
      Insert(s[0], SortByMean(s[1..], ascending), ascending)
  }

  /** How many rows `head(k)` keeps of `n`: the first k, or all but the last -k when k is negative. */
  function HeadCount(k: int, n: nat): (h: nat)
    ensures h <= n
    ensures k >= 0 ==> h == (if k < n then k else n)
    ensures k < 0 ==> n - h == (if -k < n then -k else n)
  {
    if k >= 0 then (if k < n then k else n)
    else if n + k > 0 then n + k else 0
  }

  /**
   * One ranking: sort by mean, `head(k)`, project to the ranking columns.
   * It has `head`'s row count; it is ordered by mean; it is drawn from the
   * projected input rows; and no input row left out comes before any row
   * kept.
   */
  function Ranking(dfBand: seq<Row>, k: int, ascending: bool): (r: seq<RankRow>)
    ensures |r| == HeadCount(k, |dfBand|)
    ensures forall i, j :: 0 <= i < j < |r| ==> Precedes(r[i].metrics.mean, r[j].metrics.mean, ascending)
    ensures multiset(r) <= multiset(Map(Project, dfBand))
    ensures forall x, i :: x in multiset(Map(Project, dfBand)) - multiset(r) && 0 <= i < |r| ==>
      Precedes(r[i].metrics.mean, x.metrics.mean, ascending)
  {
    var sorted := SortByMean(dfBand, ascending);
    var h := HeadCount(k, |dfBand|);
    assert |sorted| == |multiset(sorted)| == |dfBand|;
    var r := Map(Project, sorted[..h]);
    RankingSplit(dfBand, sorted, h);
    KeptRows(sorted, h, ascending);
    r
  }

  /** The projected input is the projected kept prefix plus the projected rest of the sorted rows. */
  lemma RankingSplit(dfBand: seq<Row>, sorted: seq<Row>, h: nat)
    requires multiset(sorted) == multiset(dfBand) && h <= |sorted|
    ensures multiset(Map(Project, dfBand)) == multiset(Map(Project, sorted[..h])) + multiset(Map(Project, sorted[h..]))
    ensures multiset(Map(Project, dfBand)) - multiset(Map(Project, sorted[..h])) == multiset(Map(Project, sorted[h..]))
  {
    var kept, rest := Map(Project, sorted[..h]), Map(Project, sorted[h..]);
    MapPermutation(Project, sorted, dfBand);
    MapSplit(Project, sorted, h);
    assert multiset(Map(Project, dfBand)) == multiset(kept) + multiset(rest);
    MultisetCancel(multiset(kept), multiset(rest));
  }

  /** The kept prefix of an ordered sequence is ordered, and precedes every row after it. */
  lemma KeptRows(sorted: seq<Row>, h: nat, ascending: bool)
    requires Ordered(sorted, ascending) && h <= |sorted|
    ensures forall i, j :: 0 <= i < j < h ==>
      Precedes(Map(Project, sorted[..h])[i].metrics.mean, Map(Project, sorted[..h])[j].metrics.mean, ascending)
    ensures forall x, i :: x in multiset(Map(Project, sorted[h..])) && 0 <= i < h ==>
      Precedes(Map(Project, sorted[..h])[i].metrics.mean, x.metrics.mean, ascending)
  {
    var kept, rest := Map(Project, sorted[..h]), Map(Project, sorted[h..]);
    forall x: RankRow, i | x in multiset(rest) && 0 <= i < h
      ensures Precedes(kept[i].metrics.mean, x.metrics.mean, ascending)
    {
      var j :| 0 <= j < |rest| && rest[j] == x;
      assert sorted[h..][j] == sorted[h + j];
      assert kept[i] == Project(sorted[i]);
    }
  }

  lemma MultisetCancel<T>(a: multiset<T>, b: multiset<T>)
    ensures (a + b) - a == b
  {
  }

  /**
   * `r` lists rows of `dfBand`, projected, with the lowest means first: it
   * is non-decreasing in mean, drawn from the projected rows, and no row
   * left out has a smaller mean than a row kept.
   */
  predicate LowestFirst(r: seq<RankRow>, dfBand: seq<Row>)
  {
    (forall i, j :: 0 <= i < j < |r| ==> r[i].metrics.mean <= r[j].metrics.mean) &&
    multiset(r) <= multiset(Map(Project, dfBand)) &&
    (forall x, i :: x in multiset(Map(Project, dfBand)) - multiset(r) && 0 <= i < |r| ==> r[i].metrics.mean <= x.metrics.mean)
  }

  /** `r` lists rows of `dfBand`, projected, with the highest means first. */
  predicate HighestFirst(r: seq<RankRow>, dfBand: seq<Row>)
  {
    (forall i, j :: 0 <= i < j < |r| ==> r[i].metrics.mean >= r[j].metrics.mean) &&
    multiset(r) <= multiset(Map(Project, dfBand)) &&
    (forall x, i :: x in multiset(Map(Project, dfBand)) - multiset(r) && 0 <= i < |r| ==> r[i].metrics.mean >= x.metrics.mean)
  }

  /**
   * `build_rankings`: the coldest rows (ascending by mean) and the warmest
   * rows (descending by mean), each `head(k)` long.
   */
  function BuildRankings(dfBand: seq<Row>, k: int): (r: (seq<RankRow>, seq<RankRow>))
    ensures |r.0| == HeadCount(k, |dfBand|) && |r.1| == HeadCount(k, |dfBand|)
    ensures k >= 0 ==> |r.0| == (if k < |dfBand| then k else |dfBand|)
    ensures LowestFirst(r.0, dfBand)
    ensures HighestFirst(r.1, dfBand)
  {
    TopRanking(dfBand, k);
    BottomRanking(dfBand, k);
    (Ranking(dfBand, k, true), Ranking(dfBand, k, false))
  }

  /** The dashboard's rankings: 15 rows each, or every row when there are fewer. */
  lemma DefaultRankings(dfBand: seq<Row>)
    ensures var r := BuildRankings(dfBand, DefaultK);
      |r.0| == |r.1| == (if |dfBand| < 15 then |dfBand| else 15)
  {
  }

  /** The ascending ranking lists the lowest means first. */
  lemma TopRanking(dfBand: seq<Row>, k: int)
    ensures LowestFirst(Ranking(dfBand, k, true), dfBand)
  {
  }

  /** The descending ranking lists the highest means first. */
  lemma BottomRanking(dfBand: seq<Row>, k: int)
    ensures HighestFirst(Ranking(dfBand, k, false), dfBand)
  {
  }


}
