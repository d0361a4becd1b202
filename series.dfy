/**
 * `create_sentiment_df`: the per-author sentiment maps (date string to
 * score) laid out as a frame indexed by the last seven calendar dates, one
 * column per author plus an `Overall` column holding the row mean.
 */
module SeriesAligner {
  import opened Calendar
  import opened Dicts

  /** Length of the window, which ends on (and includes) today. */
  const WindowDays: nat := 7

  const OverallName: string := "Overall"

  /** A frame cell: a score, or `None`/`NaN` when the author has no score for that date. */
  datatype Cell = Missing | Score(value: real)

  datatype Column = Column(name: string, cells: seq<Cell>)

  /** A frame: its index (the `date` column after `set_index`) and its columns, left to right. */
  datatype Frame = Frame(index: seq<string>, columns: seq<Column>)

  /** `DataFrame.empty`: no rows or no columns. */
  predicate IsEmpty(f: Frame)
  {
    |f.index| == 0 || |f.columns| == 0
  }

  /** The ISO strings of the seven days ending on `today`, oldest first. */
  function WindowDates(today: int): seq<string>
  {
    seq(WindowDays, i => Iso(today - (WindowDays - 1) + i))
  }

  /** The cell of an author's column on `date`. */
  function CellFor(sentiment: map<string, int>, date: string): Cell
  {
    if date in sentiment then Score(sentiment[date] as real) else Missing
  }

  /** The `author_sentiment` list once the inner loop has seen `dates`. */
  function Cells(sentiment: map<string, int>, dates: seq<string>): seq<Cell>
  {
    if dates == [] then []
    else Cells(sentiment, dates[..|dates| - 1]) + [CellFor(sentiment, dates[|dates| - 1])]
  }

  function SentimentOf(data: map<string, map<string, int>>, author: string): map<string, int>
  {
    if author in data then data[author] else map[]
  }

  /** The author columns once the outer loop has seen `authors`. */
  function AuthorColumns(authors: seq<string>, data: map<string, map<string, int>>, dates: seq<string>): seq<Column>
  {
    if authors == [] then []
    else
      var a := authors[|authors| - 1];
      AuthorColumns(authors[..|authors| - 1], data, dates) + [Column(a, Cells(SentimentOf(data, a), dates))]
  }

  function CellAt(cells: seq<Cell>, i: int): Cell
  {
    if 0 <= i < |cells| then cells[i] else Missing
  }

  /** Row `i` across `columns`, left to right. */
  function RowCells(columns: seq<Column>, i: int): seq<Cell>
  {
    if columns == [] then [] else [CellAt(columns[0].cells, i)] + RowCells(columns[1..], i)
  }

  /** The scores present in a row, in order. */
  function Present(cells: seq<Cell>): seq<real>
  {
    if cells == [] then []
    else (if cells[0].Score? then [cells[0].value] else []) + Present(cells[1..])
  }

  function Sum(xs: seq<real>): real
  {
    if xs == [] then 0.0 else xs[0] + Sum(xs[1..])
  }

  /** `mean(axis=1)` for one row: missing cells are skipped, and a row with no score has no mean. */
  function Mean(cells: seq<Cell>): Cell
  {
    var p := Present(cells);
    if |p| == 0 then Missing else Score(Sum(p) / (|p| as real))
  }

  /** The `Overall` column: the mean of each of the seven rows. */
  function OverallColumn(columns: seq<Column>): Column
  {
    Column(OverallName, seq(WindowDays, i => Mean(RowCells(columns, i))))
  }

  /** The frame `create_sentiment_df` returns for `data` on day `today`. */
  function AlignedFrame(data: Dict<string, map<string, int>>, today: int): Frame
  {
    var dates := WindowDates(today);
    var columns := AuthorColumns(data.keys, data.entries, dates);
    var df := Frame(dates, columns);
    if IsEmpty(df) then df else Frame(dates, columns + [OverallColumn(columns)])
  }

  // ---------------------------------------------------------------------
  // The operation

  method CreateSentimentDf(data: Dict<string, map<string, int>>, today: int) returns (frame: Frame)
    requires data.Valid()
    ensures frame == AlignedFrame(data, today)
  {
    var dates := WindowDates(today);
    var columns: seq<Column> := [];
    for a := 0 to |data.keys|
      invariant columns == AuthorColumns(data.keys[..a], data.entries, dates)
    {
      var author := data.keys[a];
      var sentiment := data.entries[author];
      var authorSentiment: seq<Cell> := [];
      for i := 0 to |dates|
        invariant authorSentiment == Cells(sentiment, dates[..i])
      {
        assert dates[..i + 1][..i] == dates[..i];
        if dates[i] in sentiment {
          authorSentiment := authorSentiment + [Score(sentiment[dates[i]] as real)];
        } else {
          authorSentiment := authorSentiment + [Missing];
        }
      }
      assert dates[..|dates|] == dates;
      assert data.keys[..a + 1][..a] == data.keys[..a];
      columns := columns + [Column(author, authorSentiment)];
    }
    assert data.keys[..|data.keys|] == data.keys;
    frame := Frame(dates, columns);
    if !IsEmpty(frame) {
      frame := Frame(dates, columns + [OverallColumn(columns)]);
    }
  }

  // ---------------------------------------------------------------------
  // The index

  /** Seven consecutive days, oldest first, ending today. */
  lemma WindowShape(today: int)
    ensures |WindowDates(today)| == WindowDays
    ensures forall i :: 0 <= i < WindowDays ==> WindowDates(today)[i] == Iso(today - 6 + i)
    ensures WindowDates(today)[WindowDays - 1] == Iso(today)
  {
  }

  /**
   * The index holds exactly the ISO dates of the last seven days, so its
   * seven labels are distinct.
   */
  lemma WindowLabels(today: int)
    ensures forall d :: Iso(d) in WindowDates(today) <==> today - 6 <= d <= today
  {
    forall d ensures Iso(d) in WindowDates(today) <==> today - 6 <= d <= today {
      WindowMembership(today, d);
    }
  }

  /** The index holds the ISO date of day `d` exactly when `d` is one of the last seven days. */
  lemma WindowMembership(today: int, d: int)
    ensures Iso(d) in WindowDates(today) <==> today - 6 <= d <= today
  {
    if Iso(d) in WindowDates(today) {
      WindowOnlyHoldsItsDays(today, d);
    }
    if today - 6 <= d <= today {
      WindowHoldsItsDays(today, d);
    }
  }

  lemma WindowHoldsItsDays(today: int, d: int)
    requires today - 6 <= d <= today
    ensures Iso(d) in WindowDates(today)
  {
    assert WindowDates(today)[d - today + 6] == Iso(d);
  }

  lemma WindowOnlyHoldsItsDays(today: int, d: int)
    requires Iso(d) in WindowDates(today)
    ensures today - 6 <= d <= today
  {
    var i := WindowPosition(today, Iso(d));
    IsoInjective(d, today - 6 + i);
  }

  /** Position `i` of the index holds the date of day `today - 6 + i` and of no other day. */
  lemma WindowSlotDay(today: int, i: int, d: int)
    requires 0 <= i < WindowDays && WindowDates(today)[i] == Iso(d)
    ensures d == today - 6 + i
  {
    WindowLabel(today, i, Iso(d));
    IsoInjective(d, today - 6 + i);
  }

  /** The label at position `i` of the index, whatever string it is compared with. */
  lemma WindowLabel(today: int, i: int, date: string)
    requires 0 <= i < WindowDays && WindowDates(today)[i] == date
    ensures date == Iso(today - 6 + i)
  {
  }

  /** A label of the index is the date of one of the last seven days. */
  lemma WindowPosition(today: int, date: string) returns (i: int)
    requires date in WindowDates(today)
    ensures 0 <= i < WindowDays && date == Iso(today - 6 + i)
  {
    i :| 0 <= i < WindowDays && WindowDates(today)[i] == date;
  }

  // ---------------------------------------------------------------------
  // The author columns

  lemma {:induction false} CellsSpec(sentiment: map<string, int>, dates: seq<string>)
    ensures |Cells(sentiment, dates)| == |dates|
    ensures forall i :: 0 <= i < |dates| ==> Cells(sentiment, dates)[i] == CellFor(sentiment, dates[i])
    decreases |dates|
  {
    if dates != [] {
      CellsSpec(sentiment, dates[..|dates| - 1]);
    }
  }

  lemma {:induction false} AuthorColumnsSpec(authors: seq<string>, data: map<string, map<string, int>>, dates: seq<string>)
    ensures |AuthorColumns(authors, data, dates)| == |authors|
    ensures forall a :: 0 <= a < |authors| ==>
      AuthorColumns(authors, data, dates)[a] == Column(authors[a], Cells(SentimentOf(data, authors[a]), dates))
    decreases |authors|
  {
    if authors != [] {
      AuthorColumnsSpec(authors[..|authors| - 1], data, dates);
    }
  }

  /**
   * The frame is indexed by the window; it has one column per author in
   * insertion order, then `Overall` when there is at least one author, and
   * no column at all when there is none.
   */
  lemma FrameColumns(data: Dict<string, map<string, int>>, today: int)
    ensures AlignedFrame(data, today).index == WindowDates(today)
    ensures |data.keys| == 0 ==> AlignedFrame(data, today).columns == []
    ensures |data.keys| > 0 ==>
      |AlignedFrame(data, today).columns| == |data.keys| + 1 &&
      AlignedFrame(data, today).columns[|data.keys|].name == OverallName
    ensures forall a :: 0 <= a < |data.keys| ==> AlignedFrame(data, today).columns[a].name == data.keys[a]
    ensures forall c :: c in AlignedFrame(data, today).columns ==> |c.cells| == WindowDays
  {
    var dates := WindowDates(today);
    AuthorColumnsSpec(data.keys, data.entries, dates);
    forall a | 0 <= a < |data.keys| {
      CellsSpec(SentimentOf(data.entries, data.keys[a]), dates);
    }
  }

  /** An author's cell on the `i`-th day of the window is that day's score, or missing when the map has none. */
  lemma FrameCell(data: Dict<string, map<string, int>>, today: int, a: int, i: int)
    requires data.Valid()
    requires 0 <= a < |data.keys| && 0 <= i < WindowDays
    ensures var f := AlignedFrame(data, today);
            var m := data.entries[data.keys[a]];
            var d := Iso(today - 6 + i);
            a < |f.columns| && i < |f.columns[a].cells| &&
            f.columns[a].cells[i] == if d in m then Score(m[d] as real) else Missing
  {
    var dates := WindowDates(today);
    FrameColumns(data, today);
    AuthorColumnsSpec(data.keys, data.entries, dates);
    CellsSpec(data.entries[data.keys[a]], dates);
  }

  /** Dates two sentiment maps agree on. */
  predicate AgreeOn(m1: map<string, int>, m2: map<string, int>, dates: seq<string>)
  {
    forall d :: d in dates ==> (d in m1 <==> d in m2) && (d in m1 ==> m1[d] == m2[d])
  }

  lemma {:induction false} CellsAgree(m1: map<string, int>, m2: map<string, int>, dates: seq<string>)
    requires AgreeOn(m1, m2, dates)
    ensures Cells(m1, dates) == Cells(m2, dates)
    decreases |dates|
  {
    if dates != [] {
      var init := dates[..|dates| - 1];
      assert AgreeOn(m1, m2, init) by {
        forall d | d in init ensures d in dates {
        }
      }
      CellsAgree(m1, m2, init);
    }
  }

  /**
   * Scores for dates outside the window do not matter: two registries with
   * the same authors whose maps agree on the window give the same frame.
   */
  lemma OutsideWindowIgnored(d1: Dict<string, map<string, int>>, d2: Dict<string, map<string, int>>, today: int)
    requires d1.Valid() && d2.Valid() && d1.keys == d2.keys
    requires forall k :: k in d1.entries ==> AgreeOn(d1.entries[k], d2.entries[k], WindowDates(today))
    ensures AlignedFrame(d1, today) == AlignedFrame(d2, today)
  {
    var dates := WindowDates(today);
    AuthorColumnsSpec(d1.keys, d1.entries, dates);
    AuthorColumnsSpec(d2.keys, d2.entries, dates);
    var c1, c2 := AuthorColumns(d1.keys, d1.entries, dates), AuthorColumns(d2.keys, d2.entries, dates);
    forall a | 0 <= a < |d1.keys| ensures c1[a] == c2[a] {
      CellsAgree(d1.entries[d1.keys[a]], d2.entries[d1.keys[a]], dates);
    }
    assert c1 == c2;
  }

  // ---------------------------------------------------------------------
  // The Overall column

  lemma {:induction false} RowCellsSpec(columns: seq<Column>, i: int)
    ensures |RowCells(columns, i)| == |columns|
    ensures forall c :: 0 <= c < |columns| ==> RowCells(columns, i)[c] == CellAt(columns[c].cells, i)
    decreases |columns|
  {
    if columns != [] {
      RowCellsSpec(columns[1..], i);
    }
  }

  /** The `Overall` cell of a row is the mean of the author cells of that row. */
  lemma OverallCell(data: Dict<string, map<string, int>>, today: int, i: int)
    requires |data.keys| > 0 && 0 <= i < WindowDays
    ensures var f := AlignedFrame(data, today);
            var n := |data.keys|;
            |f.columns| == n + 1 &&
            (forall c :: c in f.columns ==> |c.cells| == WindowDays) &&
            |RowCells(f.columns[..n], i)| == n &&
            (forall a :: 0 <= a < n ==> RowCells(f.columns[..n], i)[a] == f.columns[a].cells[i]) &&
            f.columns[n].cells[i] == Mean(RowCells(f.columns[..n], i))
  {
    var f := AlignedFrame(data, today);
    var n := |data.keys|;
    FrameColumns(data, today);
    var columns := AuthorColumns(data.keys, data.entries, WindowDates(today));
    assert f.columns[..n] == columns;
    RowCellsSpec(columns, i);
  }

  lemma {:induction false} PresentEmpty(cells: seq<Cell>)
    ensures Present(cells) == [] <==> forall i :: 0 <= i < |cells| ==> cells[i] == Missing
    decreases |cells|
  {
    if cells != [] {
      PresentEmpty(cells[1..]);
      if Present(cells) == [] {
        forall i | 0 <= i < |cells| ensures cells[i] == Missing {
          if i > 0 {
            assert cells[i] == cells[1..][i - 1];
          }
        }
      }
    }
  }

  /** A row has no mean exactly when every cell in it is missing. */
  lemma MeanMissing(cells: seq<Cell>)
    ensures Mean(cells) == Missing <==> forall i :: 0 <= i < |cells| ==> cells[i] == Missing
  {
    PresentEmpty(cells);
  }

  /** `n * x`, by repeated addition. */
  function Times(n: nat, x: real): real
  {
    if n == 0 then 0.0 else Times(n - 1, x) + x
  }

  lemma {:induction false} TimesIsProduct(n: nat, x: real)
    ensures Times(n, x) == (n as real) * x
  {
    if n > 0 {
      TimesIsProduct(n - 1, x);
      assert (n as real) * x == ((n - 1) as real) * x + x;
    }
  }

  lemma {:induction false} PresentBounds(cells: seq<Cell>, lo: real, hi: real)
    requires forall i :: 0 <= i < |cells| && cells[i].Score? ==> lo <= cells[i].value <= hi
    ensures Times(|Present(cells)|, lo) <= Sum(Present(cells)) <= Times(|Present(cells)|, hi)
    decreases |cells|
  {
    if cells != [] {
      assert forall i :: 0 <= i < |cells| - 1 ==> cells[1..][i] == cells[i + 1];
      PresentBounds(cells[1..], lo, hi);
      var rest := Present(cells[1..]);
      if cells[0].Score? {
        var p := Present(cells);
        assert p == [cells[0].value] + rest;
        assert p[1..] == rest;
        assert Sum(p) == cells[0].value + Sum(rest);
        assert lo <= cells[0].value <= hi;
        assert Times(|p|, lo) == Times(|rest|, lo) + lo;
        assert Times(|p|, hi) == Times(|rest|, hi) + hi;
      } else {
        assert Present(cells) == [] + rest;
        assert Present(cells) == rest;
      }
    }
  }

  /** The mean of a row lies between any bounds on its scores. */
  lemma MeanBounds(cells: seq<Cell>, lo: real, hi: real)
    requires forall i :: 0 <= i < |cells| && cells[i].Score? ==> lo <= cells[i].value <= hi
    ensures Mean(cells).Score? ==> lo <= Mean(cells).value <= hi
  {
    var p := Present(cells);
    if |p| > 0 {
      PresentBounds(cells, lo, hi);
      TimesIsProduct(|p|, lo);
      TimesIsProduct(|p|, hi);
      QuotientBounds(Sum(p), |p| as real, lo, hi);
    }
  }

  lemma QuotientBounds(s: real, n: real, lo: real, hi: real)
    requires n > 0.0 && n * lo <= s <= n * hi
    ensures lo <= s / n <= hi
  {
    assert (s / n) * n == s;
  }

  /** Scores of 80 and 60 with a missing cell between them give an Overall of 70. */
  lemma MeanExample()
    ensures Mean([Score(80.0), Missing, Score(60.0)]) == Score(70.0)
  {
    var cells := [Score(80.0), Missing, Score(60.0)];
    assert cells[1..][1..] == [Score(60.0)];
    assert Present(cells) == [80.0, 60.0];
    assert Sum([80.0, 60.0]) == 140.0;
  }

  /**
   * When every score is between `lo` and `hi` (0 and 100 for the chart),
   * so is every `Overall` value.
   */
  lemma OverallBounds(data: Dict<string, map<string, int>>, today: int, i: int, lo: int, hi: int)
    requires data.Valid() && |data.keys| > 0 && 0 <= i < WindowDays
    requires forall k, d :: k in data.entries && d in data.entries[k] ==> lo <= data.entries[k][d] <= hi
    ensures var f := AlignedFrame(data, today);
            var n := |data.keys|;
            n < |f.columns| && i < |f.columns[n].cells| &&
            (f.columns[n].cells[i].Score? ==> lo as real <= f.columns[n].cells[i].value <= hi as real)
  {
    var f := AlignedFrame(data, today);
    var n := |data.keys|;
    OverallCell(data, today, i);
    var row := RowCells(f.columns[..n], i);
    forall a | 0 <= a < |row| && row[a].Score? ensures lo as real <= row[a].value <= hi as real {
      FrameCell(data, today, a, i);
    }
    MeanBounds(row, lo as real, hi as real);
  }

  // ---------------------------------------------------------------------
  // Examples

  /** The window on 2024-01-07 starts on 2024-01-01, and no later day of it renders as that date. */
  lemma WindowExample()
    ensures WindowDates(19729)[0] == "2024-01-01"
    ensures forall i :: 1 <= i < WindowDays ==> WindowDates(19729)[i] != "2024-01-01"
  {
    IsoExample();
    WindowShape(19729);
    forall i | 1 <= i < WindowDays ensures WindowDates(19729)[i] != "2024-01-01" {
      if WindowDates(19729)[i] == Iso(19723) {
        WindowSlotDay(19729, i, 19723);
      }
    }
  }

  /** With a single author, `Overall` repeats that author's column. */
  lemma SingleAuthorOverall(data: Dict<string, map<string, int>>, today: int, i: int)
    requires |data.keys| == 1 && 0 <= i < WindowDays
    ensures var f := AlignedFrame(data, today);
            |f.columns| == 2 && i < |f.columns[0].cells| && i < |f.columns[1].cells| &&
            f.columns[1].cells[i] == f.columns[0].cells[i]
  {
    var f := AlignedFrame(data, today);
    OverallCell(data, today, i);
    var row := RowCells(f.columns[..1], i);
    assert row == [f.columns[0].cells[i]];
    assert row[1..] == [];
    if row[0].Score? {
      assert Present(row) == [row[0].value];
      assert Sum([row[0].value]) == row[0].value;
    } else {
      assert Present(row) == [];
    }
  }
}
