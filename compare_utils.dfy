/** scripts/compare_utils.py: the per-country files read into one frame
    (`load_country_data`), the per-country summary table
    (`generate_summary_table`), and the comparison of the countries by ANOVA
    and Kruskal–Wallis (`perform_stat_tests`, `interpret_p_value`). */
module CompareUtils {
  import opened Seqs
  import opened Stats
  import opened Frames

  // ---------------------------------------------------------------------
  // load_country_data
  // ---------------------------------------------------------------------

  /** What `os.path.exists` and `pd.read_csv` find at a path: nothing, a file
      without data (`EmptyDataError`), or a parsed frame. */
  datatype CsvFile = NoFile | Blank | Parsed(frame: Frame)

  /** The columns every country file must have. */
  const Required: seq<string> := ["Timestamp", "GHI", "DNI", "DHI"]

  /** One pass of the loop: the existence check, `read_csv(path,
      parse_dates=['Timestamp'])` (which fails on its own when `Timestamp` is
      absent), the check for the other required columns, and the tag. */
  function LoadOne(country: string, path: string, disk: string -> CsvFile): (r: Result<Frame>)
    ensures r.Ok? <==> disk(path).Parsed? && forall n :: n in Required ==> n in disk(path).frame.names
    ensures r.Ok? ==> r.value == Tag(disk(path).frame, country)
    ensures r.Err? && r.error.MissingColumns? ==>
      && disk(path).Parsed? && "Timestamp" in disk(path).frame.names
      && r.error.missing == Absent(Required, disk(path).frame.names) && |r.error.missing| > 0
  {
    match disk(path)
    case NoFile => Err(FileNotFound(path))
    case Blank => Err(EmptyCsv(path))
    case Parsed(f) =>
      if "Timestamp" !in f.names then Err(ParseDatesMissing(path))
      else
        var missing := Absent(Required, f.names);
        if |missing| > 0 then
          assert missing[0] in missing;
          Err(MissingColumns(missing, path))
        else Ok(Tag(f, country))
  }

  /** The pass for one entry `(country, path)` of the dictionary. */
  function Loader(disk: string -> CsvFile): ((string, string)) -> Result<Frame>
  {
    (entry: (string, string)) => LoadOne(entry.0, entry.1, disk)
  }

  /** The pass for the `k`-th entry. */
  function LoadAt(files: seq<(string, string)>, k: nat, disk: string -> CsvFile): Result<Frame>
    requires k < |files|
  {
    Loader(disk)(files[k])
  }

  /** `df_list` after the passes over `files`, or the first exception. */
  function LoadAll(files: seq<(string, string)>, disk: string -> CsvFile): Result<seq<Frame>>
  {
    Collect(files, Loader(disk))
  }

  /** The loop succeeds exactly when every file loads; it then holds one
      tagged frame per file, in dictionary order. */
  lemma LoadAllResult(files: seq<(string, string)>, disk: string -> CsvFile)
    ensures LoadAll(files, disk).Ok? <==> forall k :: 0 <= k < |files| ==> LoadAt(files, k, disk).Ok?
    ensures LoadAll(files, disk).Ok? ==>
      && |LoadAll(files, disk).value| == |files|
      && forall k :: 0 <= k < |files| ==> LoadAll(files, disk).value[k] == LoadAt(files, k, disk).value
  {
    CollectResult(files, Loader(disk));
    assert forall k :: 0 <= k < |files| ==> LoadAt(files, k, disk) == Loader(disk)(files[k]);
  }

  /** Otherwise it raises the exception of the first file that fails. */
  lemma LoadAllFailure(files: seq<(string, string)>, disk: string -> CsvFile)
    requires LoadAll(files, disk).Err?
    ensures exists k ::
      && 0 <= k < |files| && LoadAt(files, k, disk).Err?
      && LoadAll(files, disk).error == LoadAt(files, k, disk).error
      && forall j :: 0 <= j < k ==> LoadAt(files, j, disk).Ok?
  {
    CollectFailure(files, Loader(disk));
    var k :| 0 <= k < |files| && Loader(disk)(files[k]).Err?
      && LoadAll(files, disk).error == Loader(disk)(files[k]).error
      && forall j :: 0 <= j < k ==> Loader(disk)(files[j]).Ok?;
    assert LoadAt(files, k, disk) == Loader(disk)(files[k]);
    assert forall j :: 0 <= j < k ==> LoadAt(files, j, disk) == Loader(disk)(files[j]);
  }

  /** The labels of all parts, part by part. */
  function AllNames(parts: seq<Frame>): (r: seq<string>)
    ensures forall n :: n in r <==> exists k :: 0 <= k < |parts| && n in parts[k].names
    decreases |parts|
  {
    if |parts| == 0 then []
    else
      var init := parts[..|parts| - 1];
      var r := AllNames(init) + parts[|parts| - 1].names;
      assert forall k :: 0 <= k < |init| ==> init[k] == parts[k];
      r
  }

  /** Number of rows of all parts together. */
  function TotalHeight(parts: seq<Frame>): nat
    decreases |parts|
  {
    if |parts| == 0 then 0 else TotalHeight(parts[..|parts| - 1]) + parts[|parts| - 1].height
  }

  /** One part's share of column `n`: its cells, or `NaN` in each of its rows
      when it has no such column. */
  function Piece(p: Frame, n: string): (c: seq<Cell>)
    ensures |c| == p.height
  {
    if n in p.names then Col(p, n) else Repeat(Missing, p.height)
  }

  /** Column `n` of the parts stacked one after the other. */
  function Stacked(parts: seq<Frame>, n: string): (c: seq<Cell>)
    ensures |c| == TotalHeight(parts)
    decreases |parts|
  {
    if |parts| == 0 then [] else Stacked(parts[..|parts| - 1], n) + Piece(parts[|parts| - 1], n)
  }

  /** `pd.concat(df_list, ignore_index=True)`: the labels of the parts in order
      of first appearance, the rows of the parts one after the other, `NaN`
      where a part lacks a column; an empty list raises. The index is not
      modelled: rows are positions, numbered from 0 in the result. The
      contract fixes the shape; `StackedRow` and `StackedOrigin` say which
      row of which part each row of the result is. */
  function Concat(parts: seq<Frame>): (r: Result<Frame>)
    ensures r.Ok? <==> |parts| > 0
    ensures r.Err? ==> r.error == NoObjectsToConcatenate
    ensures r.Ok? ==> r.value.names == Dedup(AllNames(parts)) && r.value.height == TotalHeight(parts)
    ensures r.Ok? ==> forall n :: n in r.value.names ==> Col(r.value, n) == Stacked(parts, n)
  {
    if |parts| == 0 then Err(NoObjectsToConcatenate)
    else
      var names := Dedup(AllNames(parts));
      Ok(Table(names, seq(|names|, j requires 0 <= j < |names| => Stacked(parts, names[j])), TotalHeight(parts)))
  }

  lemma {:induction false} OffsetBound(parts: seq<Frame>, k: nat)
    requires k < |parts|
    ensures TotalHeight(parts[..k]) + parts[k].height <= TotalHeight(parts)
    decreases |parts|
  {
    var last := |parts| - 1;
    if k < last {
      var init := parts[..last];
      assert init[..k] == parts[..k] && init[k] == parts[k];
      OffsetBound(init, k);
    } else {
      assert parts[..k] == parts[..last];
    }
  }

  /** The position in the stack of row `i` of part `k`. */
  function RowOf(parts: seq<Frame>, k: nat, i: nat): (r: nat)
    requires k < |parts| && i < parts[k].height
    ensures r < TotalHeight(parts)
  {
    OffsetBound(parts, k);
    TotalHeight(parts[..k]) + i
  }

  /** Parts that all have the same labels (the usual case) give a result with
      exactly those labels, in that order. */
  lemma {:induction false} ConcatSameLabels(parts: seq<Frame>, names: seq<string>)
    requires |parts| > 0 && Distinct(names)
    requires forall k :: 0 <= k < |parts| ==> parts[k].names == names
    ensures Concat(parts).Ok? && Concat(parts).value.names == names
    decreases |parts|
  {
    var init := parts[..|parts| - 1];
    assert AllNames(parts) == AllNames(init) + names;
    if |init| == 0 {
      assert AllNames(parts) == names;
      DedupDistinct(names);
    } else {
      assert forall k :: 0 <= k < |init| ==> init[k] == parts[k];
      ConcatSameLabels(init, names);
      assert forall n :: n in names ==> n in AllNames(init) by {
        assert init[0].names == names;
      }
      DedupCovered(AllNames(init), names);
    }
  }

  /** Row `i` of part `k` is row `RowOf(parts, k, i)` of the stack. */
  lemma {:induction false} StackedRow(parts: seq<Frame>, n: string, k: nat, i: nat)
    requires k < |parts| && i < parts[k].height
    ensures Stacked(parts, n)[RowOf(parts, k, i)] == Piece(parts[k], n)[i]
    decreases |parts|
  {
    var last := |parts| - 1;
    var init := parts[..last];
    if k == last {
      assert parts[..k] == init;
    } else {
      assert init[..k] == parts[..k];
      assert init[k] == parts[k];
      StackedRow(init, n, k, i);
    }
  }

  /** Every row of the stack comes from some part. */
  lemma {:induction false} StackedOrigin(parts: seq<Frame>, i: nat)
    requires i < TotalHeight(parts)
    ensures exists k, r :: 0 <= k < |parts| && 0 <= r < parts[k].height && i == RowOf(parts, k, r)
    decreases |parts|
  {
    var last := |parts| - 1;
    var init := parts[..last];
    if i >= TotalHeight(init) {
      assert parts[..last] == init;
      assert i == RowOf(parts, last, i - TotalHeight(init));
    } else {
      StackedOrigin(init, i);
      var k, r :| 0 <= k < |init| && 0 <= r < init[k].height && i == RowOf(init, k, r);
      assert init[..k] == parts[..k] && init[k] == parts[k];
      assert i == RowOf(parts, k, r);
    }
  }

  /** The frame `load_country_data` returns. */
  function LoadCountry(files: seq<(string, string)>, disk: string -> CsvFile): Result<Frame>
  {
    match LoadAll(files, disk)
    case Err(e) => Err(e)
    case Ok(parts) => Concat(parts)
  }

  /** `load_country_data(files_dict)`, the dictionary given as its entries
      `(country, path)` in iteration order and the file system as `disk`. */
  method LoadCountryData(files: seq<(string, string)>, disk: string -> CsvFile) returns (r: Result<DataFrame>)
    ensures r.Ok? ==> fresh(r.value)
    ensures Yields(r, LoadCountry(files, disk))
  {
    var dfList: seq<Frame> := [];
    var i := 0;
    while i < |files|
      invariant 0 <= i <= |files|
      invariant LoadAll(files[..i], disk) == Ok(dfList)
    {
      var (country, path) := files[i];
      CollectNext(files, Loader(disk), i);
      match disk(path)
      case NoFile =>
        CollectStops(files, Loader(disk), i + 1);
        return Err(FileNotFound(path));
      case Blank =>
        CollectStops(files, Loader(disk), i + 1);
        return Err(EmptyCsv(path));
      case Parsed(f) =>
        if "Timestamp" !in f.names {
          CollectStops(files, Loader(disk), i + 1);
          return Err(ParseDatesMissing(path));
        }
        var missing := Absent(Required, f.names);
        if |missing| > 0 {
          CollectStops(files, Loader(disk), i + 1);
          return Err(MissingColumns(missing, path));
        }
        var df := new DataFrame(f);
        df.SetItem("Country", Repeat(Text(country), f.height));
        dfList := dfList + [df.frame];
      i := i + 1;
    }
    assert files[..i] == files;
    if |dfList| == 0 {
      return Err(NoObjectsToConcatenate);
    }
    var d := new DataFrame(Concat(dfList).value);
    r := Ok(d);
  }

  /** `load_country_data` succeeds exactly when the dictionary is not empty and
      every file loads; otherwise it raises the exception of the first file
      that fails, or the one of `pd.concat([])`. */
  lemma LoadCountryOutcome(files: seq<(string, string)>, disk: string -> CsvFile)
    ensures LoadCountry(files, disk).Ok? <==>
      |files| > 0 && forall k :: 0 <= k < |files| ==> LoadAt(files, k, disk).Ok?
    ensures LoadCountry(files, disk).Err? ==>
      || (LoadCountry(files, disk).error == NoObjectsToConcatenate && |files| == 0)
      || exists k ::
           && 0 <= k < |files| && LoadAt(files, k, disk).Err?
           && LoadCountry(files, disk).error == LoadAt(files, k, disk).error
           && forall j :: 0 <= j < k ==> LoadAt(files, j, disk).Ok?
  {
    LoadAllResult(files, disk);
    if LoadAll(files, disk).Err? {
      LoadAllFailure(files, disk);
    }
  }

  /** Its rows are those of the files in dictionary order: row `i` of the
      `k`-th file is row `RowOf(parts, k, i)`, with `NaN` in the columns that
      file lacks. */
  lemma LoadCountryRows(files: seq<(string, string)>, disk: string -> CsvFile)
    requires LoadCountry(files, disk).Ok?
    ensures
      var g, parts := LoadCountry(files, disk).value, LoadAll(files, disk).value;
      && |parts| == |files|
      && g.height == TotalHeight(parts)
      && (forall n, k, i :: n in g.names && 0 <= k < |parts| && 0 <= i < parts[k].height ==>
            Col(g, n)[RowOf(parts, k, i)] == Piece(parts[k], n)[i])
  {
    LoadAllResult(files, disk);
    var g, parts := LoadCountry(files, disk).value, LoadAll(files, disk).value;
    forall n, k, i | n in g.names && 0 <= k < |parts| && 0 <= i < parts[k].height
      ensures Col(g, n)[RowOf(parts, k, i)] == Piece(parts[k], n)[i]
    {
      StackedRow(parts, n, k, i);
    }
  }

  /** A loaded file carries its key in every row. */
  lemma LoadedTag(files: seq<(string, string)>, disk: string -> CsvFile, k: nat)
    requires k < |files| && LoadAt(files, k, disk).Ok?
    ensures "Country" in LoadAt(files, k, disk).value.names
    ensures forall i :: 0 <= i < LoadAt(files, k, disk).value.height ==>
      Col(LoadAt(files, k, disk).value, "Country")[i] == Text(files[k].0)
  {
    assert LoadAt(files, k, disk) == LoadOne(files[k].0, files[k].1, disk);
  }

  /** The `Country` cell of row `i` of the `k`-th file is the `k`-th key. */
  lemma LoadCountryTagged(files: seq<(string, string)>, disk: string -> CsvFile)
    requires LoadCountry(files, disk).Ok?
    ensures
      var g, parts := LoadCountry(files, disk).value, LoadAll(files, disk).value;
      && |parts| == |files|
      && "Country" in g.names
      && (forall k, i :: 0 <= k < |parts| && 0 <= i < parts[k].height ==>
            Col(g, "Country")[RowOf(parts, k, i)] == Text(files[k].0))
  {
    LoadCountryRows(files, disk);
    LoadAllResult(files, disk);
    var g, parts := LoadCountry(files, disk).value, LoadAll(files, disk).value;
    assert "Country" in parts[0].names by {
      LoadedTag(files, disk, 0);
    }
    assert "Country" in AllNames(parts);
    forall k, i | 0 <= k < |parts| && 0 <= i < parts[k].height
      ensures Col(g, "Country")[RowOf(parts, k, i)] == Text(files[k].0)
    {
      LoadedTag(files, disk, k);
      assert Piece(parts[k], "Country")[i] == Text(files[k].0);
    }
  }

  /** Every row carries one of the keys in its `Country` cell. */
  lemma LoadCountryTags(files: seq<(string, string)>, disk: string -> CsvFile)
    requires LoadCountry(files, disk).Ok?
    ensures
      var g := LoadCountry(files, disk).value;
      && "Country" in g.names
      && forall i :: 0 <= i < g.height ==>
           exists k :: 0 <= k < |files| && Col(g, "Country")[i] == Text(files[k].0)
  {
    LoadCountryRows(files, disk);
    LoadCountryTagged(files, disk);
    var g, parts := LoadCountry(files, disk).value, LoadAll(files, disk).value;
    forall i | 0 <= i < g.height
      ensures exists k :: 0 <= k < |files| && Col(g, "Country")[i] == Text(files[k].0)
    {
      StackedOrigin(parts, i);
      var k, r :| 0 <= k < |parts| && 0 <= r < parts[k].height && i == RowOf(parts, k, r);
      assert Col(g, "Country")[RowOf(parts, k, r)] == Text(files[k].0);
    }
  }

  // ---------------------------------------------------------------------
  // df.groupby('Country')
  // ---------------------------------------------------------------------

  /** `notna` of one cell. */
  function Present(x: Cell): bool
  {
    !x.Missing?
  }

  /** The groups of `df.groupby('Country')`: the distinct non-missing
      `Country` values, sorted. */
  function GroupKeys(f: Frame): seq<Cell>
    requires "Country" in f.names
  {
    var c := Col(f, "Country");
    SortBy(Dedup(Mask(c, Map(c, Present))), KeyLe)
  }

  /** One key per distinct `Country` value of the frame, missing values aside,
      in strictly ascending order. */
  lemma GroupKeysSpec(f: Frame)
    requires "Country" in f.names
    ensures Distinct(GroupKeys(f))
    ensures forall i, j :: 0 <= i < j < |GroupKeys(f)| ==>
      KeyLe(GroupKeys(f)[i], GroupKeys(f)[j]) && GroupKeys(f)[i] != GroupKeys(f)[j]
    ensures forall x :: x in GroupKeys(f) <==> Present(x) && x in Col(f, "Country")
  {
    var c := Col(f, "Country");
    var d := Dedup(Mask(c, Map(c, Present)));
    KeyLeTotalPreorder();
    SortBySorted(d, KeyLe);
    DistinctPerm(d, GroupKeys(f));
    MaskWhereMultiset(c, Present);
    forall x
      ensures x in GroupKeys(f) <==> Present(x) && x in Col(f, "Country")
    {
      assert x in GroupKeys(f) <==> x in multiset(d);
      assert x in Mask(c, Map(c, Present)) <==> x in multiset(Mask(c, Map(c, Present)));
    }
  }

  /** The cells of column `col` in the rows whose `Country` is `key`. */
  function GroupCells(f: Frame, col: string, key: Cell): (c: seq<Cell>)
    requires "Country" in f.names && col in f.names
  {
    var country := Col(f, "Country");
    Mask(Col(f, col), Map(country, (x: Cell) => x == key))
  }

  /** `group[col].dropna()` for the group of `key`. */
  function Sample(f: Frame, col: string, key: Cell): (s: seq<Cell>)
    requires "Country" in f.names && col in f.names
  {
    var cells := GroupCells(f, col, key);
    Mask(cells, Map(cells, Present))
  }

  /** The rows that feed the sample of `key`: the group's rows whose `col` is present. */
  function SampleRows(f: Frame, col: string, key: Cell): (m: seq<bool>)
    requires "Country" in f.names && col in f.names
    ensures |m| == f.height
    ensures forall r :: 0 <= r < f.height ==> (m[r] <==> Col(f, "Country")[r] == key && Present(Col(f, col)[r]))
  {
    And(Map(Col(f, "Country"), (x: Cell) => x == key), Map(Col(f, col), Present))
  }

  /** Dropping the missing cells of a group is one filter over the rows. */
  lemma SampleAsOneFilter(f: Frame, col: string, key: Cell)
    requires "Country" in f.names && col in f.names
    ensures Sample(f, col, key) == Mask(Col(f, col), SampleRows(f, col, key))
  {
    var c, rows := Col(f, col), Map(Col(f, "Country"), (x: Cell) => x == key);
    MapMask(c, rows, Present);
    MaskOfMask(c, rows, Map(c, Present));
  }

  /** A sample holds exactly the non-missing cells of the rows of its group,
      read top to bottom with every such row taken once. */
  lemma SampleSpec(f: Frame, col: string, key: Cell)
    requires "Country" in f.names && col in f.names
    ensures forall x :: x in Sample(f, col, key) <==>
      Present(x) && exists r :: 0 <= r < f.height && Col(f, "Country")[r] == key && Col(f, col)[r] == x
    ensures var m := SampleRows(f, col, key);
      && |Sample(f, col, key)| == |TrueIndices(m)|
      && (forall j :: 0 <= j < |Sample(f, col, key)| ==>
            TrueIndices(m)[j] < f.height && Sample(f, col, key)[j] == Col(f, col)[TrueIndices(m)[j]])
      && (forall k, l :: 0 <= k < l < |TrueIndices(m)| ==> TrueIndices(m)[k] < TrueIndices(m)[l])
      && (forall r :: 0 <= r < f.height && m[r] ==> r in TrueIndices(m))
  {
    SampleAsOneFilter(f, col, key);
    MaskPositions(Col(f, col), SampleRows(f, col, key));
    var cells := GroupCells(f, col, key);
    var rows := Map(Col(f, "Country"), (x: Cell) => x == key);
    forall x
      ensures x in Sample(f, col, key) <==>
        Present(x) && exists r :: 0 <= r < f.height && Col(f, "Country")[r] == key && Col(f, col)[r] == x
    {
      InMask(cells, Map(cells, Present), x);
      InMask(Col(f, col), rows, x);
    }
  }

  /** The cells of column `col` in the rows that belong to some group. */
  function Grouped(f: Frame, col: string): seq<Cell>
    requires "Country" in f.names && col in f.names
  {
    Mask(Col(f, col), Map(Col(f, "Country"), Present))
  }

  // ---------------------------------------------------------------------
  // generate_summary_table
  // ---------------------------------------------------------------------

  const StatNames: seq<string> := ["mean", "median", "std"]

  /** Position of statistic `s` of the `i`-th metric among the statistics
      columns. */
  function StatColumn(i: nat, s: nat): nat
  {
    3 * i + s
  }

  /** `'_'.join((metric, stat))` for every metric and statistic, metric by
      metric. */
  function SummaryNames(metrics: seq<string>): (r: seq<string>)
    ensures |r| == 3 * |metrics|
  {
    seq(3 * |metrics|, j requires 0 <= j < 3 * |metrics| => metrics[j / 3] + "_" + StatNames[j % 3])
  }

  /** The label of statistic `s` of the `i`-th metric: metric-major, with the
      statistics in the order mean, median, std. */
  lemma SummaryNamesAt(metrics: seq<string>, i: nat, s: nat)
    requires i < |metrics| && s < 3
    ensures StatColumn(i, s) < |SummaryNames(metrics)|
    ensures SummaryNames(metrics)[StatColumn(i, s)] == metrics[i] + "_" + StatNames[s]
  {
    var j := StatColumn(i, s);
    assert j / 3 == i && j % 3 == s;
  }

  /** The joined labels tell metric and statistic apart. */
  lemma JoinInjective(m1: string, s1: nat, m2: string, s2: nat)
    requires s1 < 3 && s2 < 3 && m1 + "_" + StatNames[s1] == m2 + "_" + StatNames[s2]
    ensures m1 == m2 && s1 == s2
  {
    var w := m1 + "_" + StatNames[s1];
    var t1, t2 := StatNames[s1], StatNames[s2];
    assert w == m2 + "_" + t2;
    assert w[|w| - 1] == t1[|t1| - 1] == (if s1 == 2 then 'd' else 'n');
    assert w[|w| - 1] == t2[|t2| - 1] == (if s2 == 2 then 'd' else 'n');
    if s1 < 2 && s2 < 2 {
      assert w[|w| - 5] == (if s1 == 0 then '_' else t1[1]);
      assert w[|w| - 5] == (if s2 == 0 then '_' else t2[1]);
    }
    assert s1 == s2;
    assert m1 == w[..|m1|] && m2 == w[..|m2|];
  }

  /** No joined label is `Country`, which holds no underscore. */
  lemma NotCountry(m: string, s: nat)
    requires s < 3
    ensures m + "_" + StatNames[s] != "Country"
  {
    var w := m + "_" + StatNames[s];
    assert w[|m|] == '_';
    assert forall k :: 0 <= k < 7 ==> "Country"[k] != '_';
  }

  /** The label of the statistics column `j`. */
  lemma SummaryLabel(metrics: seq<string>, j: nat)
    requires j < 3 * |metrics|
    ensures j / 3 < |metrics| && j % 3 < 3
    ensures SummaryNames(metrics)[j] == metrics[j / 3] + "_" + StatNames[j % 3]
  {
    assert j == StatColumn(j / 3, j % 3);
  }

  /** Two statistics columns of distinct metrics carry distinct labels. */
  lemma LabelsDiffer(metrics: seq<string>, a: nat, b: nat)
    requires Distinct(metrics) && a < b < 3 * |metrics|
    ensures SummaryNames(metrics)[a] != SummaryNames(metrics)[b]
  {
    SummaryLabel(metrics, a);
    SummaryLabel(metrics, b);
    if SummaryNames(metrics)[a] == SummaryNames(metrics)[b] {
      JoinInjective(metrics[a / 3], a % 3, metrics[b / 3], b % 3);
      assert false;
    }
  }

  /** No statistics column is labelled `Country`. */
  lemma LabelNotCountry(metrics: seq<string>, j: nat)
    requires j < 3 * |metrics|
    ensures SummaryNames(metrics)[j] != "Country"
  {
    SummaryLabel(metrics, j);
    NotCountry(metrics[j / 3], j % 3);
  }

  /** With distinct metrics the table's labels are distinct. */
  lemma SummaryNamesDistinct(metrics: seq<string>)
    requires Distinct(metrics)
    ensures Distinct(["Country"] + SummaryNames(metrics))
  {
    var labels := SummaryNames(metrics);
    var names := ["Country"] + labels;
    forall a, b | 0 <= a < b < |names|
      ensures names[a] != names[b]
    {
      assert names[b] == labels[b - 1];
      if a == 0 {
        LabelNotCountry(metrics, b - 1);
      } else {
        assert names[a] == labels[a - 1];
        LabelsDiffer(metrics, a - 1, b - 1);
      }
    }
  }

  /** One statistic of one group's readings, rounded to 2 places: `mean`,
      `median`, or `std` with `ddof=1` (its square root taken by `sqrt`);
      `NaN` when there are too few readings. */
  function Aggregate(xs: seq<real>, stat: nat, sqrt: real -> real): Cell
    requires stat < 3
  {
    if stat == 0 then (if |xs| == 0 then Missing else Num(Round(Mean(xs), 2)))
    else if stat == 1 then (match Median(xs) case None => Missing case Some(m) => Num(Round(m, 2)))
    else if |xs| < 2 then Missing
    else Num(Round(sqrt(SampleVariance(xs)), 2))
  }

  /** The first metric whose grouped cells hold text: the column the
      aggregation fails on. */
  function FirstText(f: Frame, metrics: seq<string>): (r: Option<string>)
    requires "Country" in f.names && forall m :: m in metrics ==> m in f.names
    ensures r.None? <==> forall m :: m in metrics ==> !HasText(Grouped(f, m))
    ensures r.Some? ==> r.value in metrics && HasText(Grouped(f, r.value))
  {
    if |metrics| == 0 then None
    else if HasText(Grouped(f, metrics[0])) then Some(metrics[0])
    else
      assert forall m :: m in metrics <==> m == metrics[0] || m in metrics[1..];
      FirstText(f, metrics[1..])
  }

  /** One statistics column: statistic `s` of `metric` for each key. */
  function StatCells(f: Frame, metric: string, s: nat, keys: seq<Cell>, sqrt: real -> real): (c: seq<Cell>)
    requires "Country" in f.names && metric in f.names && s < 3
    ensures |c| == |keys|
  {
    seq(|keys|, k requires 0 <= k < |keys| => Aggregate(Values(Sample(f, metric, keys[k])), s, sqrt))
  }

  /** The statistics columns, metric-major. */
  function StatColumns(f: Frame, metrics: seq<string>, keys: seq<Cell>, sqrt: real -> real): (cols: seq<seq<Cell>>)
    requires "Country" in f.names && forall i :: 0 <= i < |metrics| ==> metrics[i] in f.names
    ensures |cols| == 3 * |metrics| && forall j :: 0 <= j < |cols| ==> |cols[j]| == |keys|
  {
    seq(3 * |metrics|, j requires 0 <= j < 3 * |metrics| => StatCells(f, metrics[j / 3], j % 3, keys, sqrt))
  }

  lemma NoneAbsent(wanted: seq<string>, present: seq<string>)
    requires |Absent(wanted, present)| == 0
    ensures forall i :: 0 <= i < |wanted| ==> wanted[i] in present
  {
  }

  /** `generate_summary_table(df, metrics)`: a `Country` column with one row
      per group, then the `{metric}_{stat}` columns. */
  function Summary(f: Frame, metrics: seq<string>, sqrt: real -> real): Result<Frame>
  {
    if "Country" !in f.names then Err(KeyError("Country"))
    else if |Absent(metrics, f.names)| > 0 then Err(NotInIndex(Absent(metrics, f.names)))
    else
      match FirstText(f, metrics)
      case Some(m) => Err(TypeError(m))
      case None =>
        var keys := GroupKeys(f);
        NoneAbsent(metrics, f.names);
        Ok(Table(["Country"] + SummaryNames(metrics), [keys] + StatColumns(f, metrics, keys, sqrt), |keys|))
  }

  /** The table exists exactly when `Country` and every metric are columns and
      no grouped cell of a metric is text; otherwise the first of these
      checks to fail names the error. */
  lemma SummaryOutcome(f: Frame, metrics: seq<string>, sqrt: real -> real)
    ensures Summary(f, metrics, sqrt).Ok? <==>
      && "Country" in f.names
      && forall m :: m in metrics ==> m in f.names && !HasText(Grouped(f, m))
    ensures "Country" !in f.names ==> Summary(f, metrics, sqrt) == Err(KeyError("Country"))
    ensures "Country" in f.names && (exists m :: m in metrics && m !in f.names) ==>
      Summary(f, metrics, sqrt) == Err(NotInIndex(Absent(metrics, f.names)))
  {
    var missing := Absent(metrics, f.names);
    if |missing| > 0 {
      assert missing[0] in missing;
    }
  }

  /** The statistics column of statistic `s` of the `i`-th metric. */
  lemma StatColumnsAt(f: Frame, metrics: seq<string>, keys: seq<Cell>, sqrt: real -> real, i: nat, s: nat)
    requires "Country" in f.names && forall i :: 0 <= i < |metrics| ==> metrics[i] in f.names
    requires i < |metrics| && s < 3
    ensures StatColumn(i, s) < |StatColumns(f, metrics, keys, sqrt)|
    ensures StatColumns(f, metrics, keys, sqrt)[StatColumn(i, s)] == StatCells(f, metrics[i], s, keys, sqrt)
  {
    var j := StatColumn(i, s);
    assert j / 3 == i && j % 3 == s;
  }

  /** The table has the `Country` column of the group keys in ascending
      order, one row per group, then the `{metric}_{stat}` columns; the cell
      of statistic `s` of the `i`-th metric in the row of key `k` is that
      statistic of the readings of that metric in the rows of `k`. */
  lemma SummaryResult(f: Frame, metrics: seq<string>, sqrt: real -> real)
    requires Summary(f, metrics, sqrt).Ok?
    ensures
      var g, keys := Summary(f, metrics, sqrt).value, GroupKeys(f);
      && g.names == ["Country"] + SummaryNames(metrics)
      && g.height == |keys|
      && Col(g, "Country") == keys
      && forall i, s, k :: 0 <= i < |metrics| && 0 <= s < 3 && 0 <= k < |keys| ==>
           g.cols[1 + StatColumn(i, s)][k] == Aggregate(Values(Sample(f, metrics[i], keys[k])), s, sqrt)
  {
    var g, keys := Summary(f, metrics, sqrt).value, GroupKeys(f);
    var body := StatColumns(f, metrics, keys, sqrt);
    assert g == Table(["Country"] + SummaryNames(metrics), [keys] + body, |keys|);
    assert IndexOf(g.names, "Country") == 0;
    forall i, s, k | 0 <= i < |metrics| && 0 <= s < 3 && 0 <= k < |keys|
      ensures g.cols[1 + StatColumn(i, s)][k] == Aggregate(Values(Sample(f, metrics[i], keys[k])), s, sqrt)
    {
      StatColumnsAt(f, metrics, keys, sqrt, i, s);
      assert g.cols[1 + StatColumn(i, s)] == body[StatColumn(i, s)];
    }
  }

  /** With distinct metrics, `summary[f"{metric}_{stat}"]` finds the column of
      that statistic of that metric. */
  lemma SummaryLabelPosition(metrics: seq<string>, i: nat, s: nat)
    requires Distinct(metrics) && i < |metrics| && s < 3
    ensures metrics[i] + "_" + StatNames[s] in ["Country"] + SummaryNames(metrics)
    ensures IndexOf(["Country"] + SummaryNames(metrics), metrics[i] + "_" + StatNames[s]) == 1 + StatColumn(i, s)
  {
    var names := ["Country"] + SummaryNames(metrics);
    SummaryNamesDistinct(metrics);
    SummaryNamesAt(metrics, i, s);
    assert names[1 + StatColumn(i, s)] == metrics[i] + "_" + StatNames[s];
    IndexOfDistinct(names, 1 + StatColumn(i, s));
  }

  // ---------------------------------------------------------------------
  // interpret_p_value, perform_stat_tests
  // ---------------------------------------------------------------------

  /** `interpret_p_value(p_val, alpha=0.05)`: significant exactly below
      `alpha`, so not at `alpha` itself. */
  function InterpretPValue(p: real, alpha: real := 0.05): (verdict: string)
    ensures verdict == "Significant" <==> p < alpha
    ensures verdict == "Not significant" <==> p >= alpha
  {
    if p < alpha then "Significant" else "Not significant"
  }

  /** One test's entry: the statistic to 2 places, the p-value to 4 places,
      and the verdict on the unrounded p-value. */
  datatype TestResult = TestResult(statistic: real, pValue: real, significance: string)

  /** The entry of one metric. */
  datatype MetricTests = MetricTests(anova: TestResult, kruskalWallis: TestResult)

  /** A test of scipy (`f_oneway` or `kruskal`) applied to the samples of the
      groups, giving `(statistic, p)`. */
  type Test = seq<seq<Cell>> -> (real, real)

  function Entry(outcome: (real, real)): TestResult
  {
    TestResult(Round(outcome.0, 2), Round(outcome.1, 4), InterpretPValue(outcome.1))
  }

  /** The verdict follows the unrounded p-value: one that rounds to 0.05 can
      still be significant. */
  lemma VerdictBeforeRounding()
    ensures Entry((0.0, 0.04996)).pValue == 0.05
    ensures Entry((0.0, 0.04996)).significance == "Significant"
  {
    assert Pow10(4) == 10000.0 by {
      assert Pow10(0) == 1.0;
      assert Pow10(1) == 10.0;
      assert Pow10(2) == 100.0;
      assert Pow10(3) == 1000.0;
    }
    assert Mul(0.04996, 10000.0) == 499.6;
    assert RoundHalfEven(499.6) == 500;
  }

  /** The samples, one per group in key order. */
  function Groups(f: Frame, metric: string): (groups: seq<seq<Cell>>)
    requires "Country" in f.names && (|GroupKeys(f)| > 0 ==> metric in f.names)
    ensures |groups| == |GroupKeys(f)|
  {
    var keys := GroupKeys(f);
    seq(|keys|, k requires 0 <= k < |keys| => Sample(f, metric, keys[k]))
  }

  /** The body of the loop for one metric: the grouping (`Country` absent:
      `KeyError`), `group[metric]` in each group (absent: `KeyError`), the two
      tests. */
  function MetricEntry(f: Frame, metric: string, anova: Test, kruskal: Test): Result<MetricTests>
  {
    if "Country" !in f.names then Err(KeyError("Country"))
    else if |GroupKeys(f)| > 0 && metric !in f.names then Err(KeyError(metric))
    else
      var groups := Groups(f, metric);
      Ok(MetricTests(Entry(anova(groups)), Entry(kruskal(groups))))
  }

  function EntryFor(f: Frame, anova: Test, kruskal: Test): string -> Result<MetricTests>
  {
    (metric: string) => MetricEntry(f, metric, anova, kruskal)
  }

  /** The dictionary built by `results[metric] = ...` in order. */
  function ToMap(metrics: seq<string>, entries: seq<MetricTests>): map<string, MetricTests>
    requires |metrics| == |entries|
    decreases |metrics|
  {
    if |metrics| == 0 then map[]
    else ToMap(metrics[..|metrics| - 1], entries[..|entries| - 1])[metrics[|metrics| - 1] := entries[|entries| - 1]]
  }

  /** The dictionary `perform_stat_tests` returns. */
  function StatTests(f: Frame, metrics: seq<string>, anova: Test, kruskal: Test): Result<map<string, MetricTests>>
  {
    match Collect(metrics, EntryFor(f, anova, kruskal))
    case Err(e) => Err(e)
    case Ok(entries) => Ok(ToMap(metrics, entries))
  }

  /** `perform_stat_tests(df, metrics)` with scipy's `f_oneway` and `kruskal`
      given as `anova` and `kruskal`. */
  method PerformStatTests(df: DataFrame, anova: Test, kruskal: Test, metrics: seq<string> := ["GHI", "DNI", "DHI"])
    returns (r: Result<map<string, MetricTests>>)
    ensures r == StatTests(df.frame, metrics, anova, kruskal)
  {
    var results: map<string, MetricTests> := map[];
    ghost var entries: seq<MetricTests> := [];
    var i := 0;
    while i < |metrics|
      invariant 0 <= i <= |metrics|
      invariant Collect(metrics[..i], EntryFor(df.frame, anova, kruskal)) == Ok(entries)
      invariant results == ToMap(metrics[..i], entries)
    {
      var metric := metrics[i];
      CollectNext(metrics, EntryFor(df.frame, anova, kruskal), i);
      var e := MetricEntry(df.frame, metric, anova, kruskal);
      if e.Err? {
        CollectStops(metrics, EntryFor(df.frame, anova, kruskal), i + 1);
        return Err(e.error);
      }
      results := results[metric := e.value];
      entries := entries + [e.value];
      assert metrics[..i + 1][..i] == metrics[..i];
      i := i + 1;
    }
    assert metrics[..i] == metrics;
    r := Ok(results);
  }

  /** The entries of `ToMap`: one per listed metric, the last one written. */
  lemma {:induction false} ToMapSpec(metrics: seq<string>, entries: seq<MetricTests>, values: string -> MetricTests)
    requires |metrics| == |entries|
    requires forall k :: 0 <= k < |metrics| ==> entries[k] == values(metrics[k])
    ensures forall m :: m in ToMap(metrics, entries) <==> m in metrics
    ensures forall m :: m in metrics ==> ToMap(metrics, entries)[m] == values(m)
    decreases |metrics|
  {
    if |metrics| > 0 {
      var n := |metrics| - 1;
      assert forall k :: 0 <= k < n ==> metrics[..n][k] == metrics[k] && entries[..n][k] == entries[k];
      ToMapSpec(metrics[..n], entries[..n], values);
      assert forall m :: m in metrics <==> m in metrics[..n] || m == metrics[n];
    }
  }

  /** `perform_stat_tests` succeeds exactly when the metric list is empty or
      `Country` is a column and each metric is one (needed only when there
      is a group). Its dictionary then has exactly one entry per listed
      metric, computed from that metric's samples. */
  lemma StatTestsResult(f: Frame, metrics: seq<string>, anova: Test, kruskal: Test)
    ensures StatTests(f, metrics, anova, kruskal).Ok? <==>
      forall m :: m in metrics ==> "Country" in f.names && (|GroupKeys(f)| > 0 ==> m in f.names)
    ensures StatTests(f, metrics, anova, kruskal).Ok? ==>
      var d := StatTests(f, metrics, anova, kruskal).value;
      && (forall m :: m in d <==> m in metrics)
      && forall m :: m in metrics ==> MetricEntry(f, m, anova, kruskal).Ok? && d[m] == MetricEntry(f, m, anova, kruskal).value
  {
    var step := EntryFor(f, anova, kruskal);
    CollectResult(metrics, step);
    assert forall k :: 0 <= k < |metrics| ==> step(metrics[k]) == MetricEntry(f, metrics[k], anova, kruskal);
    assert (forall k :: 0 <= k < |metrics| ==> step(metrics[k]).Ok?) <==>
      forall m :: m in metrics ==> MetricEntry(f, m, anova, kruskal).Ok? by {
      forall m | m in metrics
        ensures exists k :: 0 <= k < |metrics| && metrics[k] == m
      {
        var k :| 0 <= k < |metrics| && metrics[k] == m;
      }
    }
    if StatTests(f, metrics, anova, kruskal).Ok? {
      var entries := Collect(metrics, step).value;
      var values := (m: string) => if MetricEntry(f, m, anova, kruskal).Ok? then MetricEntry(f, m, anova, kruskal).value
        else MetricTests(Entry((0.0, 1.0)), Entry((0.0, 1.0)));
      ToMapSpec(metrics, entries, values);
    }
  }

  /** Each entry reports both tests on the per-country samples, in key order,
      with missing cells dropped: rounded statistic and p-value, and the
      verdict of the unrounded p-value. */
  lemma MetricEntryResult(f: Frame, metric: string, anova: Test, kruskal: Test)
    requires MetricEntry(f, metric, anova, kruskal).Ok?
    ensures "Country" in f.names
    ensures
      var t, groups := MetricEntry(f, metric, anova, kruskal).value, Groups(f, metric);
      && |groups| == |GroupKeys(f)|
      && (forall k :: 0 <= k < |groups| ==> groups[k] == Sample(f, metric, GroupKeys(f)[k]))
      && t.anova.pValue == Round(anova(groups).1, 4)
      && t.anova.statistic == Round(anova(groups).0, 2)
      && (t.anova.significance == "Significant" <==> anova(groups).1 < 0.05)
      && t.kruskalWallis.pValue == Round(kruskal(groups).1, 4)
      && t.kruskalWallis.statistic == Round(kruskal(groups).0, 2)
      && (t.kruskalWallis.significance == "Significant" <==> kruskal(groups).1 < 0.05)
  {
  }
}
