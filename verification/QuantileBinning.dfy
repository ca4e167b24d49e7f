/** The list and dictionary logic of quantile binning, over an abstract
    quantile summary `S`. What a summary does when asked for a quantile, merged
    with another or fed a value is passed in as the total functions `query`,
    `merge` and `insert`; the summaries computed from the data are passed in as
    `computed`, to be used when nothing is cached yet. */
module QuantileBinning {
  import opened Wrappers

  /** Column name to that column's summary. */
  type SummaryDict<S> = map<string, S>

  /** Python exceptions the binning code can raise. `LookupError` is the common
      base of the KeyError and IndexError a column lookup can raise. */
  datatype BinningError = ZeroDivisionError | ValueError | KeyError | LookupError

  // ---------------------------------------------------------------------------
  // Percentiles and split points
  // ---------------------------------------------------------------------------

  /** `[i * (1.0 / bin_num) for i in range(1, bin_num)]`, with exact reals in
      place of floats: the inner edges of `bin_num` equal-width bins. */
  function PercentileRates(binNum: int): (r: Result<seq<real>, BinningError>)
    ensures r.Failure? <==> binNum == 0
    ensures r.Failure? ==> r.error == ZeroDivisionError
    ensures r.Success? ==> |r.value| == if binNum > 1 then binNum - 1 else 0
    ensures r.Success? ==> forall j :: 0 <= j < |r.value| ==> r.value[j] * binNum as real == (j + 1) as real
    ensures r.Success? ==> forall j :: 0 <= j < |r.value| ==> 0.0 < r.value[j] < 1.0
    ensures r.Success? ==> forall i, j :: 0 <= i < j < |r.value| ==> r.value[i] < r.value[j]
  {
    if binNum == 0 then Failure(ZeroDivisionError)
    else
      var rates := seq(if binNum > 1 then binNum - 1 else 0, j => Rate(binNum, j));
      assert forall j :: 0 <= j < |rates| ==> rates[j] * binNum as real == (j + 1) as real && 0.0 < rates[j] < 1.0 by {
        forall j | 0 <= j < |rates| { RateBounds(binNum, j); }
      }
      assert forall i, j :: 0 <= i < j < |rates| ==> rates[i] < rates[j] by {
        forall i, j | 0 <= i < j < |rates| { RateMonotone(binNum, i, j); }
      }
      Success(rates)
  }

  /** The `j`-th percentile, `(j + 1) * (1.0 / bin_num)`. */
  function Rate(binNum: int, j: int): real
    requires binNum != 0
  {
    (j + 1) as real * (1.0 / binNum as real)
  }

  lemma RateBounds(binNum: int, j: int)
    requires 0 <= j < binNum - 1
    ensures Rate(binNum, j) * binNum as real == (j + 1) as real
    ensures 0.0 < Rate(binNum, j) < 1.0
  {
    var n, k := binNum as real, (j + 1) as real;
    assert Rate(binNum, j) == k / n;
    assert k / n < 1.0 by {
      assert k < n;
    }
  }

  lemma RateMonotone(binNum: int, i: int, j: int)
    requires 0 <= i < j < binNum - 1
    ensures Rate(binNum, i) < Rate(binNum, j)
  {
    var n := binNum as real;
    assert Rate(binNum, i) == (i + 1) as real / n;
    assert Rate(binNum, j) == (j + 1) as real / n;
  }

  /** Position of the first `x` in `xs`, or `|xs|` when there is none. */
  function FirstIndex<T(==)>(xs: seq<T>, x: T): (i: nat)
    ensures i <= |xs|
    ensures i < |xs| <==> x in xs
    ensures i < |xs| ==> xs[i] == x
    ensures forall k :: 0 <= k < i ==> xs[k] != x
    decreases |xs|
  {
    if |xs| == 0 then 0
    else if xs[0] == x then 0
    else 1 + FirstIndex(xs[1..], x)
  }

  /** Appending an element moves no first occurrence, and a new element first
      occurs at the end. */
  lemma FirstIndexAppend<T>(xs: seq<T>, y: T)
    ensures forall x :: x in xs ==> FirstIndex(xs + [y], x) == FirstIndex(xs, x)
    ensures y !in xs ==> FirstIndex(xs + [y], y) == |xs|
  {
    forall x | x in xs
      ensures FirstIndex(xs + [y], x) == FirstIndex(xs, x)
    {
      var a := FirstIndex(xs + [y], x);
      var b := FirstIndex(xs, x);
      assert (xs + [y])[b] == x;
      assert a <= b;
      assert xs[a] == (xs + [y])[a];
    }
    if y !in xs {
      assert (xs + [y])[|xs|] == y;
    }
  }

  /** `ys` is `xs` with repeats removed, keeping first occurrences in order:
      no element twice, the same elements, ordered by where they first occur. */
  ghost predicate DedupOf<T>(xs: seq<T>, ys: seq<T>) {
    && (forall i, j :: 0 <= i < j < |ys| ==> ys[i] != ys[j])
    && (forall i :: 0 <= i < |ys| ==> ys[i] in xs)
    && (forall i :: 0 <= i < |xs| ==> xs[i] in ys)
    && OrderedByFirstIndex(xs, ys)
  }

  /** `ys` is strictly ordered by where its elements first occur in `xs`. */
  ghost predicate OrderedByFirstIndex<T>(xs: seq<T>, ys: seq<T>) {
    forall i, j :: 0 <= i < j < |ys| ==> FirstIndex(xs, ys[i]) < FirstIndex(xs, ys[j])
  }

  /** Two non-empty such lists with the same elements start alike: each head
      occurs in the other list, and only at its front. */
  lemma SameHead<T>(xs: seq<T>, ys1: seq<T>, ys2: seq<T>)
    requires OrderedByFirstIndex(xs, ys1) && OrderedByFirstIndex(xs, ys2)
    requires forall y :: y in ys1 <==> y in ys2
    requires |ys1| > 0 && |ys2| > 0
    ensures ys1[0] == ys2[0]
  {
    assert ys1[0] in ys1 && ys2[0] in ys2;
    var p :| 0 <= p < |ys2| && ys2[p] == ys1[0];
    var q :| 0 <= q < |ys1| && ys1[q] == ys2[0];
    assert p == 0 || q == 0;
  }

  /** Dropping a common head leaves tails with the same elements, because an
      ordered list never repeats its head. */
  lemma SameTailMembers<T>(xs: seq<T>, ys1: seq<T>, ys2: seq<T>)
    requires OrderedByFirstIndex(xs, ys1) && OrderedByFirstIndex(xs, ys2)
    requires forall y :: y in ys1 <==> y in ys2
    requires |ys1| > 0 && |ys2| > 0 && ys1[0] == ys2[0]
    ensures forall y :: y in ys1[1..] <==> y in ys2[1..]
  {
    forall y
      ensures y in ys1[1..] <==> y in ys2[1..]
    {
      if y in ys1[1..] {
        var i :| 1 <= i < |ys1| && ys1[i] == y;
        assert y in ys1;
        var j :| 0 <= j < |ys2| && ys2[j] == y;
        assert j != 0;
        assert ys2[1..][j - 1] == y;
      }
      if y in ys2[1..] {
        var j :| 1 <= j < |ys2| && ys2[j] == y;
        assert y in ys2;
        var i :| 0 <= i < |ys1| && ys1[i] == y;
        assert i != 0;
        assert ys1[1..][i - 1] == y;
      }
    }
  }

  /** Two lists with the same elements, both strictly ordered by first
      occurrence in `xs`, are the same list. */
  lemma {:induction false} OrderedByFirstIndexUnique<T>(xs: seq<T>, ys1: seq<T>, ys2: seq<T>)
    requires OrderedByFirstIndex(xs, ys1) && OrderedByFirstIndex(xs, ys2)
    requires forall y :: y in ys1 <==> y in ys2
    ensures ys1 == ys2
    decreases |ys1|
  {
    assert |ys1| == 0 || ys1[0] in ys1;
    assert |ys2| == 0 || ys2[0] in ys2;
    if |ys1| > 0 && |ys2| > 0 {
      SameHead(xs, ys1, ys2);
      SameTailMembers(xs, ys1, ys2);
      assert OrderedByFirstIndex(xs, ys1[1..]) && OrderedByFirstIndex(xs, ys2[1..]);
      OrderedByFirstIndexUnique(xs, ys1[1..], ys2[1..]);
      assert ys1 == [ys1[0]] + ys1[1..];
      assert ys2 == [ys2[0]] + ys2[1..];
    }
  }

  /** `DedupOf` pins the result down completely: there is only one
      de-duplication of a list. */
  lemma DedupOfUnique<T>(xs: seq<T>, ys1: seq<T>, ys2: seq<T>)
    requires DedupOf(xs, ys1) && DedupOf(xs, ys2)
    ensures ys1 == ys2
  {
    forall y
      ensures y in ys1 <==> y in ys2
    {
      if y in ys1 {
        var i :| 0 <= i < |ys1| && ys1[i] == y;
        var k :| 0 <= k < |xs| && xs[k] == y;
      }
      if y in ys2 {
        var i :| 0 <= i < |ys2| && ys2[i] == y;
        var k :| 0 <= k < |xs| && xs[k] == y;
      }
    }
    OrderedByFirstIndexUnique(xs, ys1, ys2);
  }

  /** Every element of `xs + [x]` is in `zs` when those of `xs` are and `x` is. */
  lemma CoversSnoc<T>(xs: seq<T>, zs: seq<T>, x: T)
    requires forall i :: 0 <= i < |xs| ==> xs[i] in zs
    requires x in zs
    ensures forall i :: 0 <= i < |xs + [x]| ==> (xs + [x])[i] in zs
  {
    forall i | 0 <= i < |xs + [x]|
      ensures (xs + [x])[i] in zs
    {
      if i < |xs| {
        assert (xs + [x])[i] == xs[i];
      }
    }
  }

  /** A repeated answer leaves the de-duplicated list as it is. */
  lemma DedupOfRepeat<T>(xs: seq<T>, ys: seq<T>, x: T)
    requires DedupOf(xs, ys) && x in ys
    ensures DedupOf(xs + [x], ys)
  {
    FirstIndexAppend(xs, x);
    CoversSnoc(xs, ys, x);
  }

  /** A new answer is appended to the de-duplicated list. */
  lemma DedupOfNew<T>(xs: seq<T>, ys: seq<T>, x: T)
    requires DedupOf(xs, ys) && x !in ys
    ensures DedupOf(xs + [x], ys + [x])
  {
    FirstIndexAppend(xs, x);
    var xs', ys' := xs + [x], ys + [x];
    assert x !in xs;
    forall i | 0 <= i < |ys|
      ensures FirstIndex(xs', ys'[i]) == FirstIndex(xs, ys[i]) < |xs|
    {
      assert ys'[i] == ys[i];
    }
    assert FirstIndex(xs', ys'[|ys|]) == |xs|;
    forall i | 0 <= i < |ys'|
      ensures ys'[i] in xs'
    {
    }
    CoversSnoc(xs, ys', x);
    assert OrderedByFirstIndex(xs', ys');
  }

  /** The summary's answer for each percentile, in order. */
  function Queries<S, V>(summary: S, rates: seq<real>, query: (S, real) -> V): (qs: seq<V>)
    ensures |qs| == |rates|
  {
    seq(|rates|, i requires 0 <= i < |rates| => query(summary, rates[i]))
  }

  /** The inner loop of `fit_split_points`: query each percentile and append
      the answer unless it is already in the list. */
  method SplitPointsOf<S, V(==)>(summary: S, rates: seq<real>, query: (S, real) -> V) returns (points: seq<V>)
    ensures DedupOf(Queries(summary, rates, query), points)
    ensures |points| <= |rates|
  {
    ghost var qs := Queries(summary, rates, query);
    points := [];
    for k := 0 to |rates|
      invariant DedupOf(qs[..k], points)
      invariant |points| <= k
    {
      var sp := query(summary, rates[k]);
      assert qs[..k + 1] == qs[..k] + [sp];
      if sp !in points {
        DedupOfNew(qs[..k], points, sp);
        points := points + [sp];
      } else {
        DedupOfRepeat(qs[..k], points, sp);
      }
    }
    assert qs[..|rates|] == qs;
  }

  /** The summaries to work from: the cached ones when there are any, the
      ones just computed otherwise. */
  function CachedSummary<S>(cache: Option<SummaryDict<S>>, computed: SummaryDict<S>): SummaryDict<S> {
    if cache.Some? then cache.value else computed
  }

  /** `fit_split_points`: computes the percentiles, takes the summaries from
      the cache (filling it on first use), and gives every column the
      de-duplicated answers of its summary. Returns the split points and the
      cache afterwards. */
  method FitSplitPoints<S, V(==)>(binNum: int, cache: Option<SummaryDict<S>>, computed: SummaryDict<S>, query: (S, real) -> V)
    returns (r: Result<map<string, seq<V>>, BinningError>, cache': Option<SummaryDict<S>>)
    ensures binNum == 0 ==> r == Failure(ZeroDivisionError) && cache' == cache
    ensures binNum != 0 ==> r.Success?
    ensures binNum != 0 && cache.Some? ==> cache' == cache
    ensures binNum != 0 && cache.None? ==> cache' == Some(computed)
    ensures r.Success? ==> cache'.Some? && r.value.Keys == cache'.value.Keys
    ensures r.Success? ==> forall c :: c in r.value ==>
              DedupOf(Queries(cache'.value[c], PercentileRates(binNum).value, query), r.value[c])
    ensures r.Success? ==> forall c :: c in r.value ==>
              |r.value[c]| <= if binNum > 1 then binNum - 1 else 0
  {
    var rates := PercentileRates(binNum);
    if rates.Failure? {
      return Failure(rates.error), cache;
    }
    var summary := CachedSummary(cache, computed);
    cache' := Some(summary);
    var splitPoints: map<string, seq<V>> := map[];
    var pending := summary.Keys;
    while pending != {}
      invariant pending <= summary.Keys
      invariant splitPoints.Keys == summary.Keys - pending
      invariant forall c :: c in splitPoints ==>
                  DedupOf(Queries(summary[c], rates.value, query), splitPoints[c])
                  && |splitPoints[c]| <= |rates.value|
      decreases pending
    {
      var c :| c in pending;
      var points := SplitPointsOf(summary[c], rates.value, query);
      splitPoints := splitPoints[c := points];
      pending := pending - {c};
    }
    r := Success(splitPoints);
  }

  // ---------------------------------------------------------------------------
  // Merging summaries
  // ---------------------------------------------------------------------------

  /** `merge_summary_dict`: `None` on either side yields the other side; two
      dicts merge column by column over the columns of the first, each merged
      with the second's summary for that column (or `None` if it has none). */
  function MergeSummaryDict<S>(d1: Option<SummaryDict<S>>, d2: Option<SummaryDict<S>>, merge: (S, Option<S>) -> S)
    : (r: Option<SummaryDict<S>>)
    ensures d1.None? && d2.None? ==> r.None?
    ensures d1.None? ==> r == d2
    ensures d2.None? ==> r == d1
    ensures d1.Some? && d2.Some? ==> r.Some? && r.value.Keys == d1.value.Keys
    ensures d1.Some? && d2.Some? ==> forall c :: c in r.value ==> r.value[c] == merge(d1.value[c], Get(d2.value, c))
  {
    if d1.None? && d2.None? then None
    else if d1.None? then d2
    else if d2.None? then d1
    else Some(map c | c in d1.value :: merge(d1.value[c], Get(d2.value, c)))
  }

  /** Folding the per-partition dicts together, left to right. */
  function ReduceSummaryDicts<S>(parts: seq<Option<SummaryDict<S>>>, merge: (S, Option<S>) -> S): Option<SummaryDict<S>>
    requires |parts| >= 1
    decreases |parts|
  {
    if |parts| == 1 then parts[0]
    else MergeSummaryDict(ReduceSummaryDicts(parts[..|parts| - 1], merge), parts[|parts| - 1], merge)
  }

  /** When every partition produced a dict, the reduced dict has exactly the
      columns of the first one: columns only later partitions have are dropped. */
  lemma {:induction false} ReduceKeepsFirstColumns<S>(parts: seq<Option<SummaryDict<S>>>, merge: (S, Option<S>) -> S)
    requires |parts| >= 1
    requires forall i :: 0 <= i < |parts| ==> parts[i].Some?
    ensures ReduceSummaryDicts(parts, merge).Some?
    ensures ReduceSummaryDicts(parts, merge).value.Keys == parts[0].value.Keys
    decreases |parts|
  {
    if |parts| > 1 {
      ReduceKeepsFirstColumns(parts[..|parts| - 1], merge);
    }
  }

  // ---------------------------------------------------------------------------
  // Querying
  // ---------------------------------------------------------------------------

  /** The `query_points` argument: an int or float, a dict, or anything else. */
  datatype QueryPoints = Number(point: real) | PerColumn(points: map<string, real>) | OtherType

  /** Normalises `query_points` into a per-column dict: a number is used for
      every column of `cols`, a dict is taken as it is, anything else raises
      ValueError. */
  function QueryDict(cols: seq<string>, qp: QueryPoints): (r: Result<map<string, real>, BinningError>)
    ensures r.Failure? <==> qp.OtherType?
    ensures r.Failure? ==> r.error == ValueError
    ensures qp.Number? ==> r.Success? && (forall c :: c in r.value <==> c in cols)
    ensures qp.Number? ==> forall c :: c in r.value ==> r.value[c] == qp.point
    ensures qp.PerColumn? ==> r == Success(qp.points)
  {
    match qp
    case Number(x) => Success(map c | c in cols :: x)
    case PerColumn(points) => Success(points)
    case OtherType => Failure(ValueError)
  }

  /** A query's answer and the summary cache afterwards. */
  datatype Answer<S, V> = Answer(result: Result<map<string, V>, BinningError>, cache: Option<SummaryDict<S>>)

  /** `query_quantile_point`: fills the cache on first use (before the type of
      `query_points` is even looked at), then asks each queried column's
      summary for its point; a column without a summary raises KeyError. */
  function QueryQuantilePoint<S, V>(cache: Option<SummaryDict<S>>, computed: SummaryDict<S>, cols: seq<string>,
                                   qp: QueryPoints, query: (S, real) -> V): (a: Answer<S, V>)
    ensures cache.Some? ==> a.cache == cache
    ensures cache.None? ==> a.cache == Some(computed)
    ensures a.result.Success? <==>
              QueryDict(cols, qp).Success? && QueryDict(cols, qp).value.Keys <= a.cache.value.Keys
    ensures a.result.Failure? ==> a.result.error == if qp.OtherType? then ValueError else KeyError
    ensures a.result.Success? ==> a.result.value.Keys == QueryDict(cols, qp).value.Keys
    ensures a.result.Success? ==> forall c :: c in a.result.value ==>
              a.result.value[c] == query(a.cache.value[c], QueryDict(cols, qp).value[c])
  {
    var summary := CachedSummary(cache, computed);
    var result := match QueryDict(cols, qp)
      case Failure(e) => Failure(e)
      case Success(qd) =>
        if qd.Keys <= summary.Keys then Success(map c | c in qd :: query(summary[c], qd[c]))
        else Failure(KeyError);
    Answer(result, Some(summary))
  }

  /** A single number is asked of every listed column: the answer has exactly
      the columns of `cols`, each the summary's quantile at that number. */
  lemma NumberQueriesEveryColumn<S, V>(cache: Option<SummaryDict<S>>, computed: SummaryDict<S>, cols: seq<string>,
                                       x: real, query: (S, real) -> V)
    requires forall c :: c in cols ==> c in CachedSummary(cache, computed)
    ensures var a := QueryQuantilePoint(cache, computed, cols, Number(x), query);
            && a.result.Success?
            && (forall c :: c in a.result.value <==> c in cols)
            && (forall c :: c in a.result.value ==> a.result.value[c] == query(CachedSummary(cache, computed)[c], x))
  {
  }

  // ---------------------------------------------------------------------------
  // Inserting data
  // ---------------------------------------------------------------------------

  /** One data row: an `Instance` carrying a feature vector, or a bare vector. */
  datatype Row = Instance(features: seq<real>) | Plain(values: seq<real>)

  function Features(row: Row): seq<real> {
    match row
    case Instance(features) => features
    case Plain(values) => values
  }

  /** Every summarised column has an index in `colsDict` that the row reaches. */
  predicate RowFits(row: Row, cols: set<string>, colsDict: map<string, nat>) {
    forall c :: c in cols ==> c in colsDict && colsDict[c] < |Features(row)|
  }

  /** Column `c` can be read from every row. */
  predicate ColumnFits(rows: seq<Row>, colsDict: map<string, nat>, c: string) {
    forall j :: 0 <= j < |rows| ==> c in colsDict && colsDict[c] < |Features(rows[j])|
  }

  /** Every summarised column can be read from every row. */
  predicate AllRowsFit(rows: seq<Row>, cols: set<string>, colsDict: map<string, nat>) {
    forall c :: c in cols ==> ColumnFits(rows, colsDict, c)
  }

  /** Column `c`'s value in each row, in row order. */
  function ColumnValues(rows: seq<Row>, colsDict: map<string, nat>, c: string): (vs: seq<real>)
    requires ColumnFits(rows, colsDict, c)
    ensures |vs| == |rows|
  {
    seq(|rows|, j requires 0 <= j < |rows| => Features(rows[j])[colsDict[c]])
  }

  /** A summary after being fed `values` one by one. */
  function InsertAll<S>(s: S, values: seq<real>, insert: (S, real) -> S): S
    decreases |values|
  {
    if |values| == 0 then s
    else insert(InsertAll(s, values[..|values| - 1], insert), values[|values| - 1])
  }

  /** Feeding one more value is one more `insert`. */
  lemma InsertAllSnoc<S>(s: S, values: seq<real>, v: real, insert: (S, real) -> S)
    ensures InsertAll(s, values + [v], insert) == insert(InsertAll(s, values, insert), v)
  {
    assert (values + [v])[..|values|] == values;
  }

  /** A column readable from rows `0..k-1` and from row `k` is readable from rows `0..k`. */
  lemma ColumnFitsSnoc(rows: seq<Row>, colsDict: map<string, nat>, c: string, k: nat)
    requires k < |rows|
    requires ColumnFits(rows[..k], colsDict, c)
    requires c in colsDict && colsDict[c] < |Features(rows[k])|
    ensures ColumnFits(rows[..k + 1], colsDict, c)
  {
    var longer := rows[..k + 1];
    forall j | 0 <= j < |longer|
      ensures colsDict[c] < |Features(longer[j])|
    {
      if j < k {
        assert longer[j] == rows[..k][j];
      }
    }
  }

  /** One more row adds that row's value at the end of the column. */
  lemma ColumnValuesSnoc(rows: seq<Row>, colsDict: map<string, nat>, c: string, k: nat)
    requires k < |rows|
    requires ColumnFits(rows[..k + 1], colsDict, c)
    ensures ColumnFits(rows[..k], colsDict, c)
    ensures ColumnValues(rows[..k + 1], colsDict, c)
            == ColumnValues(rows[..k], colsDict, c) + [Features(rows[k])[colsDict[c]]]
  {
    assert rows[..k + 1][..k] == rows[..k];
    assert rows[..k + 1][k] == rows[k];
  }

  /** One row fed to every summary: each column's summary gets that column's value. */
  function InsertRow<S>(current: SummaryDict<S>, row: Row, colsDict: map<string, nat>, insert: (S, real) -> S)
    : (next: SummaryDict<S>)
    requires RowFits(row, current.Keys, colsDict)
    ensures next.Keys == current.Keys
  {
    map c | c in current :: insert(current[c], Features(row)[colsDict[c]])
  }

  /** Feeding row `k` to summaries that have absorbed rows `0..k-1` gives the
      summaries of rows `0..k`. */
  lemma InsertRowStep<S>(rows: seq<Row>, summaries: SummaryDict<S>, colsDict: map<string, nat>,
                         insert: (S, real) -> S, k: nat, current: SummaryDict<S>)
    requires k < |rows|
    requires current.Keys == summaries.Keys
    requires AllRowsFit(rows[..k], summaries.Keys, colsDict)
    requires RowFits(rows[k], summaries.Keys, colsDict)
    requires forall c :: c in summaries.Keys ==>
               current[c] == InsertAll(summaries[c], ColumnValues(rows[..k], colsDict, c), insert)
    ensures AllRowsFit(rows[..k + 1], summaries.Keys, colsDict)
    ensures forall c :: c in summaries.Keys ==>
              InsertRow(current, rows[k], colsDict, insert)[c]
              == InsertAll(summaries[c], ColumnValues(rows[..k + 1], colsDict, c), insert)
  {
    var next := InsertRow(current, rows[k], colsDict, insert);
    forall c | c in summaries.Keys
      ensures ColumnFits(rows[..k + 1], colsDict, c)
      ensures next[c] == InsertAll(summaries[c], ColumnValues(rows[..k + 1], colsDict, c), insert)
    {
      ColumnFitsSnoc(rows, colsDict, c, k);
      ColumnValuesSnoc(rows, colsDict, c, k);
      InsertAllSnoc(summaries[c], ColumnValues(rows[..k], colsDict, c), Features(rows[k])[colsDict[c]], insert);
    }
  }

  /** One row that cannot be read makes the whole input unreadable. */
  lemma RowMisfit(rows: seq<Row>, k: nat, cols: set<string>, colsDict: map<string, nat>)
    requires k < |rows| && !RowFits(rows[k], cols, colsDict)
    ensures !AllRowsFit(rows, cols, colsDict)
  {
    var c :| c in cols && !(c in colsDict && colsDict[c] < |Features(rows[k])|);
    assert !ColumnFits(rows, colsDict, c);
  }

  /** `insert_datas` on dense data: row by row, each summary is fed its
      column's value. A column missing from `colsDict`, or an index past the
      end of a row, raises. */
  method InsertDatas<S>(rows: seq<Row>, summaries: SummaryDict<S>, colsDict: map<string, nat>, insert: (S, real) -> S)
    returns (r: Result<SummaryDict<S>, BinningError>)
    ensures r.Success? <==> AllRowsFit(rows, summaries.Keys, colsDict)
    ensures r.Failure? ==> r.error == LookupError
    ensures r.Success? ==> r.value.Keys == summaries.Keys
    ensures r.Success? ==> forall c :: c in summaries.Keys ==>
              r.value[c] == InsertAll(summaries[c], ColumnValues(rows, colsDict, c), insert)
  {
    var current := summaries;
    for k := 0 to |rows|
      invariant current.Keys == summaries.Keys
      invariant AllRowsFit(rows[..k], summaries.Keys, colsDict)
      invariant forall c :: c in summaries.Keys ==>
                  current[c] == InsertAll(summaries[c], ColumnValues(rows[..k], colsDict, c), insert)
    {
      if !RowFits(rows[k], summaries.Keys, colsDict) {
        RowMisfit(rows, k, summaries.Keys, colsDict);
        return Failure(LookupError);
      }
      InsertRowStep(rows, summaries, colsDict, insert, k, current);
      current := InsertRow(current, rows[k], colsDict, insert);
    }
    assert rows[..|rows|] == rows;
    return Success(current);
  }
}
