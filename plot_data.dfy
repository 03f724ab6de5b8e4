/** The lists the plot functions of fasta_analyzer.py build before they draw:
    one point per record, filtered by "has a coverage" and sorted into three
    length bins or three GC bins. */
module PlotData {
  import opened Wrappers
  import opened Numbers
  import opened FastaRecord

  /** `LENGTH_LARGE`, `LENGTH_SMALL`, `GC_LARGE` and `GC_SMALL`. */
  const LengthLarge: nat := 100000
  const LengthSmall: nat := 10000
  const GcLarge: real := 55.0
  const GcSmall: real := 40.0

  /** What the plot loops read from one record: `header()`, `length()`,
      `gccount()` and `getcoverage()`. */
  datatype Stats = Stats(name: string, length: nat, gc: Number, cov: Number)

  function StatsOf(f: Fasta): Stats
    reads f`cov
  {
    Stats(f.name, f.Length(), GcContent(f.sequence), f.cov)
  }

  /** `keys` is an order in which `for key in dictionary` can visit `d`:
      every key exactly once. */
  ghost predicate Enumerates(keys: seq<string>, d: map<string, Fasta>) {
    && KeysIn(keys, d)
    && (forall k :: k in d ==> k in keys)
    && forall i, j :: 0 <= i < j < |keys| ==> keys[i] != keys[j]
  }

  /** Every entry of `keys` is a key of `d`. */
  predicate KeysIn(keys: seq<string>, d: map<string, Fasta>) {
    forall j :: 0 <= j < |keys| ==> keys[j] in d
  }

  /** The records `keys` visits: the only ones a plot loop touches. */
  function Visited(d: map<string, Fasta>, keys: seq<string>): (s: set<Fasta>)
    requires KeysIn(keys, d)
    ensures forall j :: 0 <= j < |keys| ==> d[keys[j]] in s
    ensures forall o :: o in s ==> exists j :: 0 <= j < |keys| && d[keys[j]] == o
    ensures s <= d.Values
  {
    if keys == [] then {} else Visited(d, keys[..|keys| - 1]) + {d[keys[|keys| - 1]]}
  }

  /** The records of `d` in the order `keys` visits them. */
  function Rows(d: map<string, Fasta>, keys: seq<string>): (rows: seq<Stats>)
    requires KeysIn(keys, d)
    reads d.Values`cov
    ensures |rows| == |keys|
  {
    if keys == [] then [] else Rows(d, keys[..|keys| - 1]) + [StatsOf(d[keys[|keys| - 1]])]
  }

  lemma {:induction false} RowsSnoc(d: map<string, Fasta>, keys: seq<string>, i: nat)
    requires i < |keys| && KeysIn(keys, d)
    ensures Rows(d, keys[..i + 1]) == Rows(d, keys[..i]) + [StatsOf(d[keys[i]])]
  {
    assert keys[..i + 1][..i] == keys[..i];
  }

  /** Row `j` is the record under `keys[j]`. */
  lemma {:induction false} RowsAt(d: map<string, Fasta>, keys: seq<string>, j: nat)
    requires j < |keys| && KeysIn(keys, d)
    ensures Rows(d, keys)[j] == StatsOf(d[keys[j]])
  {
    if j < |keys| - 1 {
      RowsAt(d, keys[..|keys| - 1], j);
    }
  }

  /** Every row of the table is the record under the matching key. */
  lemma RowsAll(d: map<string, Fasta>, keys: seq<string>)
    requires KeysIn(keys, d)
    ensures forall j :: 0 <= j < |keys| ==> Rows(d, keys)[j] == StatsOf(d[keys[j]])
  {
    forall j | 0 <= j < |keys|
      ensures Rows(d, keys)[j] == StatsOf(d[keys[j]])
    {
      RowsAt(d, keys, j);
    }
  }

  /** A key sequence without repeats holds as many keys as it is long. */
  lemma {:induction false} DistinctKeysCount(keys: seq<string>)
    requires forall i, j :: 0 <= i < j < |keys| ==> keys[i] != keys[j]
    ensures |set k | k in keys| == |keys|
  {
    if keys != [] {
      var front, last := keys[..|keys| - 1], keys[|keys| - 1];
      DistinctKeysCount(front);
      assert keys == front + [last];
      assert (set k | k in keys) == (set k | k in front) + {last};
    }
  }

  /** When `keys` enumerates the dictionary, the table the plot loops walk
      has exactly one row per record, and every record has its row. */
  lemma OneRowPerRecord(d: map<string, Fasta>, keys: seq<string>)
    requires Enumerates(keys, d)
    ensures |Rows(d, keys)| == |d|
    ensures forall k :: k in d ==> StatsOf(d[k]) in Rows(d, keys)
  {
    DistinctKeysCount(keys);
    assert d.Keys == set k | k in keys;
    RowsAll(d, keys);
    forall k | k in d
      ensures StatsOf(d[k]) in Rows(d, keys)
    {
      var j :| 0 <= j < |keys| && keys[j] == k;
      assert Rows(d, keys)[j] == StatsOf(d[k]);
    }
  }

  /** The first `i + 1` rows are the first `i` and row `i`. */
  lemma PrefixSnoc(rows: seq<Stats>, i: nat)
    requires i < |rows|
    ensures rows[..i + 1] == rows[..i] + [rows[i]]
  {
  }

  /** The columns the loops append to their lists. */
  function Names(rows: seq<Stats>): seq<string> {
    if rows == [] then [] else Names(rows[..|rows| - 1]) + [rows[|rows| - 1].name]
  }

  function Lengths(rows: seq<Stats>): seq<nat> {
    if rows == [] then [] else Lengths(rows[..|rows| - 1]) + [rows[|rows| - 1].length]
  }

  function Gcs(rows: seq<Stats>): seq<Number> {
    if rows == [] then [] else Gcs(rows[..|rows| - 1]) + [rows[|rows| - 1].gc]
  }

  function Covs(rows: seq<Stats>): seq<Number> {
    if rows == [] then [] else Covs(rows[..|rows| - 1]) + [rows[|rows| - 1].cov]
  }

  lemma {:induction false} ColumnsSnoc(rows: seq<Stats>, r: Stats)
    ensures Names(rows + [r]) == Names(rows) + [r.name]
    ensures Lengths(rows + [r]) == Lengths(rows) + [r.length]
    ensures Gcs(rows + [r]) == Gcs(rows) + [r.gc]
    ensures Covs(rows + [r]) == Covs(rows) + [r.cov]
  {
    assert (rows + [r])[..|rows|] == rows;
  }

  /** Each column holds one entry per row, taken from that row. */
  lemma {:induction false} ColumnsAt(rows: seq<Stats>)
    ensures |Names(rows)| == |Lengths(rows)| == |Gcs(rows)| == |Covs(rows)| == |rows|
    ensures forall j :: 0 <= j < |rows| ==>
              && Names(rows)[j] == rows[j].name && Lengths(rows)[j] == rows[j].length
              && Gcs(rows)[j] == rows[j].gc && Covs(rows)[j] == rows[j].cov
  {
    if rows != [] {
      ColumnsAt(rows[..|rows| - 1]);
    }
  }

  datatype Bin = Small | Medium | Large

  /** The length bin of `covgcplot`: the chain `> LENGTH_LARGE`,
      `LENGTH_SMALL <= .. <= LENGTH_LARGE`, `< LENGTH_SMALL`; its final `else`
      is never taken. */
  function LengthBin(length: nat): (b: Option<Bin>)
    ensures b.Some?
    ensures b == Some(Large) <==> length > LengthLarge
    ensures b == Some(Medium) <==> LengthSmall <= length <= LengthLarge
    ensures b == Some(Small) <==> length < LengthSmall
  {
    if length > LengthLarge then Some(Large)
    else if LengthSmall <= length <= LengthLarge then Some(Medium)
    else if length < LengthSmall then Some(Small)
    else None
  }

  /** The GC bin of `covlenplot`: the same chain on `gccount()` against
      `GC_LARGE` and `GC_SMALL`. Every comparison with NaN is false, so a
      record without a, c, g or t falls through to the `else: pass`. */
  function GcBin(gc: Number): (b: Option<Bin>)
    ensures b.None? <==> gc.NaN?
    ensures b == Some(Large) <==> Greater(gc, GcLarge)
    ensures b == Some(Medium) <==> Between(GcSmall, gc, GcLarge)
    ensures b == Some(Small) <==> Less(gc, GcSmall)
  {
    if Greater(gc, GcLarge) then Some(Large)
    else if Between(GcSmall, gc, GcLarge) then Some(Medium)
    else if Less(gc, GcSmall) then Some(Small)
    else None
  }

  /** The tests the loops make before appending: the coverage is not NaN,
      and, for a binned list, the bin. */
  datatype Criterion = HasCoverage | LengthIn(lengthBin: Option<Bin>) | GcIn(gcBin: Option<Bin>)

  predicate Meets(r: Stats, c: Criterion) {
    !IsNaN(r.cov) &&
    match c
    case HasCoverage => true
    case LengthIn(b) => LengthBin(r.length) == b
    case GcIn(b) => GcBin(r.gc) == b
  }

  /** The rows that meet `c`, in order. */
  function Select(rows: seq<Stats>, c: Criterion): seq<Stats> {
    if rows == [] then []
    else
      var last := rows[|rows| - 1];
      Select(rows[..|rows| - 1], c) + (if Meets(last, c) then [last] else [])
  }

  lemma {:induction false} SelectSnoc(rows: seq<Stats>, r: Stats, c: Criterion)
    ensures Select(rows + [r], c) == Select(rows, c) + (if Meets(r, c) then [r] else [])
  {
    assert (rows + [r])[..|rows|] == rows;
  }

  /** A row is selected exactly when it is one of the rows and meets the
      criterion; selection never grows the list. */
  lemma {:induction false} SelectMembers(rows: seq<Stats>, c: Criterion)
    ensures |Select(rows, c)| <= |rows|
    ensures forall x :: x in Select(rows, c) <==> x in rows && Meets(x, c)
  {
    if rows != [] {
      var front, last := rows[..|rows| - 1], rows[|rows| - 1];
      SelectMembers(front, c);
      assert rows == front + [last];
    }
  }

  /** The rows of `rows` that meet `c`, as a multiset, and the same for a
      single row. */
  function Picked(rows: seq<Stats>, c: Criterion): multiset<Stats> {
    multiset(Select(rows, c))
  }

  function PickedRow(r: Stats, c: Criterion): multiset<Stats> {
    if Meets(r, c) then multiset{r} else multiset{}
  }

  lemma {:induction false} PickedSnoc(rows: seq<Stats>, r: Stats, c: Criterion)
    ensures Picked(rows + [r], c) == Picked(rows, c) + PickedRow(r, c)
  {
    SelectSnoc(rows, r, c);
  }

  /** A row with a coverage is in exactly one length bin. */
  lemma OneLengthBin(r: Stats)
    ensures PickedRow(r, LengthIn(Some(Small))) + PickedRow(r, LengthIn(Some(Medium)))
            + PickedRow(r, LengthIn(Some(Large))) == PickedRow(r, HasCoverage)
    ensures PickedRow(r, LengthIn(None)) == multiset{}
  {
  }

  /** A row with a coverage is in exactly one GC bin, or in none when its GC
      content is NaN. */
  lemma OneGcBin(r: Stats)
    ensures PickedRow(r, GcIn(Some(Small))) + PickedRow(r, GcIn(Some(Medium)))
            + (PickedRow(r, GcIn(Some(Large))) + PickedRow(r, GcIn(None))) == PickedRow(r, HasCoverage)
  {
  }

  /** Multiset sums grow term by term. */
  lemma SumStep3(s: multiset<Stats>, m: multiset<Stats>, l: multiset<Stats>, a: multiset<Stats>,
                 es: multiset<Stats>, em: multiset<Stats>, el: multiset<Stats>, ea: multiset<Stats>)
    requires s + m + l == a && es + em + el == ea
    ensures (s + es) + (m + em) + (l + el) == a + ea
  {
  }

  /** The three length bins of the rows hold, together, the rows with a
      coverage; no row has no length bin. */
  predicate LengthBinsCover(rows: seq<Stats>) {
    && Picked(rows, LengthIn(Some(Small))) + Picked(rows, LengthIn(Some(Medium)))
       + Picked(rows, LengthIn(Some(Large))) == Picked(rows, HasCoverage)
    && Picked(rows, LengthIn(None)) == multiset{}
  }

  /** The three GC bins of the rows and the rows with a NaN GC content hold,
      together, the rows with a coverage. */
  predicate GcBinsCover(rows: seq<Stats>) {
    Picked(rows, GcIn(Some(Small))) + Picked(rows, GcIn(Some(Medium)))
    + (Picked(rows, GcIn(Some(Large))) + Picked(rows, GcIn(None))) == Picked(rows, HasCoverage)
  }

  /** Every row with a coverage falls in exactly one length bin, so the
      three length-binned lists of `covgcplot` together hold the same rows
      as its list of all points. */
  lemma {:induction false} LengthBinsPartition(rows: seq<Stats>)
    ensures LengthBinsCover(rows)
  {
    if rows != [] {
      var front, last := rows[..|rows| - 1], rows[|rows| - 1];
      assert rows == front + [last];
      LengthBinsPartition(front);
      LengthBinsStep(front, last);
    }
  }

  lemma {:induction false} LengthBinsStep(front: seq<Stats>, last: Stats)
    requires LengthBinsCover(front)
    ensures LengthBinsCover(front + [last])
  {
    PickedSnoc(front, last, LengthIn(Some(Small)));
    PickedSnoc(front, last, LengthIn(Some(Medium)));
    PickedSnoc(front, last, LengthIn(Some(Large)));
    PickedSnoc(front, last, LengthIn(None));
    PickedSnoc(front, last, HasCoverage);
    OneLengthBin(last);
    SumStep3(Picked(front, LengthIn(Some(Small))), Picked(front, LengthIn(Some(Medium))),
             Picked(front, LengthIn(Some(Large))), Picked(front, HasCoverage),
             PickedRow(last, LengthIn(Some(Small))), PickedRow(last, LengthIn(Some(Medium))),
             PickedRow(last, LengthIn(Some(Large))), PickedRow(last, HasCoverage));
  }

  /** Every row with a coverage falls in one GC bin or, when its GC content
      is NaN, in none: the three GC-binned lists of `covlenplot` and the
      rows it skips together hold the same rows as its list of all points. */
  lemma {:induction false} GcBinsPartition(rows: seq<Stats>)
    ensures GcBinsCover(rows)
  {
    if rows != [] {
      var front, last := rows[..|rows| - 1], rows[|rows| - 1];
      assert rows == front + [last];
      GcBinsPartition(front);
      GcBinsStep(front, last);
    }
  }

  lemma {:induction false} GcBinsStep(front: seq<Stats>, last: Stats)
    requires GcBinsCover(front)
    ensures GcBinsCover(front + [last])
  {
    PickedSnoc(front, last, GcIn(Some(Small)));
    PickedSnoc(front, last, GcIn(Some(Medium)));
    PickedSnoc(front, last, GcIn(Some(Large)));
    PickedSnoc(front, last, GcIn(None));
    PickedSnoc(front, last, HasCoverage);
    OneGcBin(last);
    SumStep3(Picked(front, GcIn(Some(Small))), Picked(front, GcIn(Some(Medium))),
             Picked(front, GcIn(Some(Large))) + Picked(front, GcIn(None)), Picked(front, HasCoverage),
             PickedRow(last, GcIn(Some(Small))), PickedRow(last, GcIn(Some(Medium))),
             PickedRow(last, GcIn(Some(Large))) + PickedRow(last, GcIn(None)), PickedRow(last, HasCoverage));
  }

  /** The rows `covlenplot` counts among all points but draws in no GC bin
      are exactly those with a coverage and a NaN GC content. */
  lemma {:induction false} GcUnbinned(rows: seq<Stats>, x: Stats)
    ensures x in Select(rows, GcIn(None)) <==> x in rows && !IsNaN(x.cov) && IsNaN(x.gc)
  {
    SelectMembers(rows, GcIn(None));
  }

  /** A plotted series: the x list and the y list of one scatter call. */
  datatype Series<X, Y> = Series(xs: seq<X>, ys: seq<Y>)

  /** The points of the rows that meet `c`, coverage against GC content. */
  function CovGc(rows: seq<Stats>, c: Criterion): Series<Number, Number> {
    Series(Covs(Select(rows, c)), Gcs(Select(rows, c)))
  }

  lemma {:induction false} CovGcSnoc(rows: seq<Stats>, r: Stats, c: Criterion)
    ensures CovGc(rows + [r], c)
            == if Meets(r, c) then Series(CovGc(rows, c).xs + [r.cov], CovGc(rows, c).ys + [r.gc]) else CovGc(rows, c)
  {
    SelectSnoc(rows, r, c);
    ColumnsSnoc(Select(rows, c), r);
    if !Meets(r, c) {
      assert Select(rows, c) + [] == Select(rows, c);
    }
  }

  /** The points of the rows that meet `c`, coverage against length. */
  function CovLen(rows: seq<Stats>, c: Criterion): Series<Number, nat> {
    Series(Covs(Select(rows, c)), Lengths(Select(rows, c)))
  }

  lemma {:induction false} CovLenSnoc(rows: seq<Stats>, r: Stats, c: Criterion)
    ensures CovLen(rows + [r], c)
            == if Meets(r, c) then Series(CovLen(rows, c).xs + [r.cov], CovLen(rows, c).ys + [r.length]) else CovLen(rows, c)
  {
    SelectSnoc(rows, r, c);
    ColumnsSnoc(Select(rows, c), r);
    if !Meets(r, c) {
      assert Select(rows, c) + [] == Select(rows, c);
    }
  }

  /** A series pairs its x and y lists point by point, one point per
      selected row, and every plotted coverage is a number: NaN coverages
      are never drawn. */
  lemma {:induction false} PointsHaveCoverage(rows: seq<Stats>, c: Criterion)
    ensures |CovGc(rows, c).xs| == |CovGc(rows, c).ys| == |CovLen(rows, c).ys| <= |rows|
    ensures forall j :: 0 <= j < |CovGc(rows, c).xs| ==> CovGc(rows, c).xs[j].Num?
  {
    var picked := Select(rows, c);
    ColumnsAt(picked);
    SelectMembers(rows, c);
    forall j | 0 <= j < |picked|
      ensures Covs(picked)[j].Num?
    {
      assert picked[j] in picked;
    }
  }

  /** The names of the rows that meet `c`. */
  function NamesOf(rows: seq<Stats>, c: Criterion): seq<string> {
    Names(Select(rows, c))
  }

  lemma {:induction false} NamesOfSnoc(rows: seq<Stats>, r: Stats, c: Criterion)
    ensures NamesOf(rows + [r], c) == NamesOf(rows, c) + (if Meets(r, c) then [r.name] else [])
  {
    SelectSnoc(rows, r, c);
    ColumnsSnoc(Select(rows, c), r);
    if !Meets(r, c) {
      assert Select(rows, c) + [] == Select(rows, c);
    }
  }

  /** The lists `lengcplot` returns: `xlist`, `ylist`, `namelist`. */
  datatype LenGcLists = LenGcLists(xs: seq<nat>, ys: seq<Number>, names: seq<string>)

  function LenGcOf(rows: seq<Stats>): LenGcLists {
    LenGcLists(Lengths(rows), Gcs(rows), Names(rows))
  }

  /** The lists `covgcplot` returns: all points, the three length bins, and
      the names of all points. */
  datatype CovGcLists = CovGcLists(all: Series<Number, Number>, small: Series<Number, Number>,
                                   medium: Series<Number, Number>, large: Series<Number, Number>,
                                   names: seq<string>)

  function CovGcOf(rows: seq<Stats>): CovGcLists {
    CovGcLists(CovGc(rows, HasCoverage), CovGc(rows, LengthIn(Some(Small))), CovGc(rows, LengthIn(Some(Medium))),
               CovGc(rows, LengthIn(Some(Large))), NamesOf(rows, HasCoverage))
  }

  /** The lists `covlenplot` returns: all points, the three GC bins, and the
      names of all points. */
  datatype CovLenLists = CovLenLists(all: Series<Number, nat>, small: Series<Number, nat>,
                                     medium: Series<Number, nat>, large: Series<Number, nat>,
                                     names: seq<string>)

  function CovLenOf(rows: seq<Stats>): CovLenLists {
    CovLenLists(CovLen(rows, HasCoverage), CovLen(rows, GcIn(Some(Small))), CovLen(rows, GcIn(Some(Medium))),
                CovLen(rows, GcIn(Some(Large))), NamesOf(rows, HasCoverage))
  }

  /** The fields `gccount()` leaves in a record. */
  ghost predicate HasCache(f: Fasta)
    reads f`gc, f`total, f`content
  {
    f.gc == Some(GcBases(f.sequence)) && f.total == Some(AcgtBases(f.sequence))
    && f.content == Some(GcContent(f.sequence))
  }

  /** Every record `keys` visits has its `gccount()` cache filled; with
      `coveredOnly`, every such record that has a coverage (the coverage
      plots call `gccount()` only inside their `isNaN` test). */
  ghost predicate Cached(d: map<string, Fasta>, keys: seq<string>, coveredOnly: bool)
    requires KeysIn(keys, d)
    reads d.Values`gc, d.Values`total, d.Values`content, d.Values`cov
  {
    forall j :: 0 <= j < |keys| && (coveredOnly ==> !IsNaN(d[keys[j]].cov)) ==> HasCache(d[keys[j]])
  }

  /** The `gccount()` call a loop makes on the record of `keys[i]`. */
  method Visit(d: map<string, Fasta>, keys: seq<string>, i: nat, f: Fasta, ghost coveredOnly: bool) returns (gc: Number)
    requires i < |keys| && KeysIn(keys, d) && f == d[keys[i]]
    requires Cached(d, keys[..i], coveredOnly)
    modifies f`gc, f`total, f`content
    ensures gc == GcContent(f.sequence)
    ensures Cached(d, keys[..i + 1], coveredOnly)
  {
    gc := f.GcCount();
    ghost var visited, before := keys[..i + 1], keys[..i];
    forall j | 0 <= j < |visited| && (coveredOnly ==> !IsNaN(d[visited[j]].cov))
      ensures HasCache(d[visited[j]])
    {
      var o := d[keys[j]];
      assert visited[j] == keys[j];
      if o != f {
        assert before[j] == keys[j];
        assert old(HasCache(o));
        assert o.gc == old(o.gc) && o.total == old(o.total) && o.content == old(o.content);
      }
    }
  }

  /** A record without a coverage is passed over by the coverage plots. */
  lemma {:induction false} CachedSkip(d: map<string, Fasta>, keys: seq<string>, i: nat)
    requires i < |keys| && KeysIn(keys, d) && IsNaN(d[keys[i]].cov)
    requires Cached(d, keys[..i], true)
    ensures Cached(d, keys[..i + 1], true)
  {
    ghost var visited, before := keys[..i + 1], keys[..i];
    forall j | 0 <= j < |visited| && !IsNaN(d[visited[j]].cov)
      ensures HasCache(d[visited[j]])
    {
      assert visited[j] == before[j];
    }
  }

  /** `lengcplot(dictionary)`: length, GC content and name of every record. */
  method LenGcPlot(d: map<string, Fasta>, keys: seq<string>) returns (lists: LenGcLists)
    requires KeysIn(keys, d)
    modifies Visited(d, keys)`gc, Visited(d, keys)`total, Visited(d, keys)`content
    ensures lists == LenGcOf(old(Rows(d, keys)))
    ensures Cached(d, keys, false)
  {
    ghost var rows := Rows(d, keys);
    RowsAll(d, keys);
    lists := LenGcLists([], [], []);
    var i := 0;
    while i < |keys|
      invariant 0 <= i <= |keys|
      invariant lists == LenGcOf(rows[..i])
      invariant Cached(d, keys[..i], false)
    {
      lists := LenGcStep(d, keys, i, d[keys[i]], lists, rows);
      i := i + 1;
    }
    assert rows[..i] == rows && keys[..i] == keys;
  }

  /** One turn of the loop: visit the record under `keys[i]` and append
      its point. */
  method LenGcStep(d: map<string, Fasta>, keys: seq<string>, i: nat, f: Fasta, lists: LenGcLists, ghost rows: seq<Stats>)
    returns (lists': LenGcLists)
    requires i < |keys| && KeysIn(keys, d) && f == d[keys[i]]
    requires |rows| == |keys| && rows[i] == StatsOf(f)
    requires lists == LenGcOf(rows[..i]) && Cached(d, keys[..i], false)
    modifies f`gc, f`total, f`content
    ensures lists' == LenGcOf(rows[..i + 1]) && Cached(d, keys[..i + 1], false)
  {
    PrefixSnoc(rows, i);
    var gc := Visit(d, keys, i, f, false);
    lists' := AddLenGc(lists, Stats(f.name, f.Length(), gc, f.cov), rows[..i]);
  }

  /** The list updates of that turn. */
  method AddLenGc(lists: LenGcLists, r: Stats, ghost rows: seq<Stats>) returns (lists': LenGcLists)
    requires lists == LenGcOf(rows)
    ensures lists' == LenGcOf(rows + [r])
  {
    ColumnsSnoc(rows, r);
    lists' := LenGcLists(lists.xs + [r.length], lists.ys + [r.gc], lists.names + [r.name]);
  }

  /** `covgcplot(dictionary)`: coverage against GC content of the records
      with a coverage, and the same points split into the three length
      bins. Only those records are asked for `gccount()`. */
  method CovGcPlot(d: map<string, Fasta>, keys: seq<string>) returns (lists: CovGcLists)
    requires KeysIn(keys, d)
    modifies Visited(d, keys)`gc, Visited(d, keys)`total, Visited(d, keys)`content
    ensures lists == CovGcOf(old(Rows(d, keys)))
    ensures Cached(d, keys, true)
    ensures forall o :: o in d.Values && IsNaN(o.cov) ==> unchanged(o`gc, o`total, o`content)
  {
    ghost var rows := Rows(d, keys);
    RowsAll(d, keys);
    lists := CovGcOf([]);
    var i := 0;
    while i < |keys|
      invariant 0 <= i <= |keys|
      invariant lists == CovGcOf(rows[..i])
      invariant Cached(d, keys[..i], true)
      invariant forall o :: o in d.Values && IsNaN(o.cov) ==> unchanged(o`gc, o`total, o`content)
    {
      lists := CovGcStep(d, keys, i, d[keys[i]], lists, rows);
      i := i + 1;
    }
    assert rows[..i] == rows && keys[..i] == keys;
  }

  /** One turn of the loop: if the record under `keys[i]` has a coverage,
      visit it and append its point. */
  method CovGcStep(d: map<string, Fasta>, keys: seq<string>, i: nat, f: Fasta, lists: CovGcLists, ghost rows: seq<Stats>)
    returns (lists': CovGcLists)
    requires i < |keys| && KeysIn(keys, d) && f == d[keys[i]]
    requires |rows| == |keys| && rows[i] == StatsOf(f)
    requires lists == CovGcOf(rows[..i]) && Cached(d, keys[..i], true)
    modifies f`gc, f`total, f`content
    ensures lists' == CovGcOf(rows[..i + 1]) && Cached(d, keys[..i + 1], true)
    ensures IsNaN(f.cov) ==> unchanged(f`gc, f`total, f`content)
  {
    PrefixSnoc(rows, i);
    if IsNaN(f.Coverage()) {
      CachedSkip(d, keys, i);
      NoCovGcPoint(rows[..i], rows[i]);
      lists' := lists;
    } else {
      var gc := Visit(d, keys, i, f, true);
      lists' := AddCovGc(lists, Stats(f.name, f.Length(), gc, f.cov), rows[..i]);
    }
  }

  /** A row without a coverage adds no point. */
  lemma NoCovGcPoint(rows: seq<Stats>, r: Stats)
    requires IsNaN(r.cov)
    ensures CovGcOf(rows + [r]) == CovGcOf(rows)
  {
    CovGcSnoc(rows, r, HasCoverage);
    CovGcSnoc(rows, r, LengthIn(Some(Small)));
    CovGcSnoc(rows, r, LengthIn(Some(Medium)));
    CovGcSnoc(rows, r, LengthIn(Some(Large)));
    NamesOfSnoc(rows, r, HasCoverage);
  }

  /** The list updates for a record with a coverage. */
  method AddCovGc(lists: CovGcLists, r: Stats, ghost rows: seq<Stats>) returns (lists': CovGcLists)
    requires lists == CovGcOf(rows) && !IsNaN(r.cov)
    ensures lists' == CovGcOf(rows + [r])
  {
    CovGcSnoc(rows, r, HasCoverage);
    CovGcSnoc(rows, r, LengthIn(Some(Small)));
    CovGcSnoc(rows, r, LengthIn(Some(Medium)));
    CovGcSnoc(rows, r, LengthIn(Some(Large)));
    NamesOfSnoc(rows, r, HasCoverage);
    lists' := lists.(all := Series(lists.all.xs + [r.cov], lists.all.ys + [r.gc]),
                     names := lists.names + [r.name]);
    if r.length > LengthLarge {
      lists' := lists'.(large := Series(lists.large.xs + [r.cov], lists.large.ys + [r.gc]));
    } else if LengthSmall <= r.length <= LengthLarge {
      lists' := lists'.(medium := Series(lists.medium.xs + [r.cov], lists.medium.ys + [r.gc]));
    } else if r.length < LengthSmall {
      lists' := lists'.(small := Series(lists.small.xs + [r.cov], lists.small.ys + [r.gc]));
    }
  }

  /** `covlenplot(dictionary)`: coverage against length of the records with
      a coverage, and the same points split into the three GC bins. Only
      those records are asked for `gccount()`. */
  method CovLenPlot(d: map<string, Fasta>, keys: seq<string>) returns (lists: CovLenLists)
    requires KeysIn(keys, d)
    modifies Visited(d, keys)`gc, Visited(d, keys)`total, Visited(d, keys)`content
    ensures lists == CovLenOf(old(Rows(d, keys)))
    ensures Cached(d, keys, true)
    ensures forall o :: o in d.Values && IsNaN(o.cov) ==> unchanged(o`gc, o`total, o`content)
  {
    ghost var rows := Rows(d, keys);
    RowsAll(d, keys);
    lists := CovLenOf([]);
    var i := 0;
    while i < |keys|
      invariant 0 <= i <= |keys|
      invariant lists == CovLenOf(rows[..i])
      invariant Cached(d, keys[..i], true)
      invariant forall o :: o in d.Values && IsNaN(o.cov) ==> unchanged(o`gc, o`total, o`content)
    {
      lists := CovLenStep(d, keys, i, d[keys[i]], lists, rows);
      i := i + 1;
    }
    assert rows[..i] == rows && keys[..i] == keys;
  }

  /** One turn of the loop: if the record under `keys[i]` has a coverage,
      visit it and append its point. */
  method CovLenStep(d: map<string, Fasta>, keys: seq<string>, i: nat, f: Fasta, lists: CovLenLists, ghost rows: seq<Stats>)
    returns (lists': CovLenLists)
    requires i < |keys| && KeysIn(keys, d) && f == d[keys[i]]
    requires |rows| == |keys| && rows[i] == StatsOf(f)
    requires lists == CovLenOf(rows[..i]) && Cached(d, keys[..i], true)
    modifies f`gc, f`total, f`content
    ensures lists' == CovLenOf(rows[..i + 1]) && Cached(d, keys[..i + 1], true)
    ensures IsNaN(f.cov) ==> unchanged(f`gc, f`total, f`content)
  {
    PrefixSnoc(rows, i);
    if IsNaN(f.Coverage()) {
      CachedSkip(d, keys, i);
      NoCovLenPoint(rows[..i], rows[i]);
      lists' := lists;
    } else {
      var gc := Visit(d, keys, i, f, true);
      lists' := AddCovLen(lists, Stats(f.name, f.Length(), gc, f.cov), rows[..i]);
    }
  }

  /** A row without a coverage adds no point. */
  lemma NoCovLenPoint(rows: seq<Stats>, r: Stats)
    requires IsNaN(r.cov)
    ensures CovLenOf(rows + [r]) == CovLenOf(rows)
  {
    CovLenSnoc(rows, r, HasCoverage);
    CovLenSnoc(rows, r, GcIn(Some(Small)));
    CovLenSnoc(rows, r, GcIn(Some(Medium)));
    CovLenSnoc(rows, r, GcIn(Some(Large)));
    NamesOfSnoc(rows, r, HasCoverage);
  }

  /** The list updates for a record with a coverage. */
  method AddCovLen(lists: CovLenLists, r: Stats, ghost rows: seq<Stats>) returns (lists': CovLenLists)
    requires lists == CovLenOf(rows) && !IsNaN(r.cov)
    ensures lists' == CovLenOf(rows + [r])
  {
    CovLenSnoc(rows, r, HasCoverage);
    CovLenSnoc(rows, r, GcIn(Some(Small)));
    CovLenSnoc(rows, r, GcIn(Some(Medium)));
    CovLenSnoc(rows, r, GcIn(Some(Large)));
    NamesOfSnoc(rows, r, HasCoverage);
    lists' := lists.(all := Series(lists.all.xs + [r.cov], lists.all.ys + [r.length]),
                     names := lists.names + [r.name]);
    if Greater(r.gc, GcLarge) {
      lists' := lists'.(large := Series(lists.large.xs + [r.cov], lists.large.ys + [r.length]));
    } else if Between(GcSmall, r.gc, GcLarge) {
      lists' := lists'.(medium := Series(lists.medium.xs + [r.cov], lists.medium.ys + [r.length]));
    } else if Less(r.gc, GcSmall) {
      lists' := lists'.(small := Series(lists.small.xs + [r.cov], lists.small.ys + [r.length]));
    }
  }

  /** `covhistogram(dictionary)`: the coverages that are not NaN. */
  method CovHistogram(d: map<string, Fasta>, keys: seq<string>) returns (hist: seq<Number>)
    requires KeysIn(keys, d)
    ensures hist == Covs(Select(Rows(d, keys), HasCoverage))
  {
    hist := [];
    var i := 0;
    while i < |keys|
      invariant 0 <= i <= |keys|
      invariant hist == Covs(Select(Rows(d, keys[..i]), HasCoverage))
    {
      hist := AddCoverage(d, keys, i, hist);
      i := i + 1;
    }
    assert keys[..i] == keys;
  }

  /** One turn of `covhistogram`'s loop. */
  method AddCoverage(d: map<string, Fasta>, keys: seq<string>, i: nat, hist: seq<Number>) returns (hist': seq<Number>)
    requires i < |keys| && KeysIn(keys, d)
    requires hist == Covs(Select(Rows(d, keys[..i]), HasCoverage))
    ensures hist' == Covs(Select(Rows(d, keys[..i + 1]), HasCoverage))
  {
    var cov := d[keys[i]].Coverage();
    RowsSnoc(d, keys, i);
    CovGcSnoc(Rows(d, keys[..i]), StatsOf(d[keys[i]]), HasCoverage);
    hist' := hist;
    if !IsNaN(cov) {
      hist' := hist + [cov];
    }
  }

  /** `lenhistogram(dictionary)`: the length of every record. */
  method LenHistogram(d: map<string, Fasta>, keys: seq<string>) returns (hist: seq<nat>)
    requires KeysIn(keys, d)
    ensures hist == Lengths(Rows(d, keys))
  {
    hist := [];
    var i := 0;
    while i < |keys|
      invariant 0 <= i <= |keys|
      invariant hist == Lengths(Rows(d, keys[..i]))
    {
      hist := AddLength(d, keys, i, hist);
      i := i + 1;
    }
    assert keys[..i] == keys;
  }

  /** One turn of `lenhistogram`'s loop. */
  method AddLength(d: map<string, Fasta>, keys: seq<string>, i: nat, hist: seq<nat>) returns (hist': seq<nat>)
    requires i < |keys| && KeysIn(keys, d)
    requires hist == Lengths(Rows(d, keys[..i]))
    ensures hist' == Lengths(Rows(d, keys[..i + 1]))
  {
    var f := d[keys[i]];
    RowsSnoc(d, keys, i);
    ColumnsSnoc(Rows(d, keys[..i]), StatsOf(f));
    hist' := hist + [f.Length()];
  }
}
