/** app/utils.py: `load_data`, which tags a freshly read frame with its
    country and strips the column labels, and `get_top_regions`, which lists
    the rows with the largest readings of a column. */
module AppUtils {
  import opened Seqs
  import opened Frames

  // ---------------------------------------------------------------------
  // load_data
  // ---------------------------------------------------------------------

  /** The characters for which Python's `str.isspace` holds. */
  const Whitespace: set<char> := {
    '\t', '\n', '\U{0b}', '\U{0c}', '\r', '\U{1c}', '\U{1d}', '\U{1e}', '\U{1f}', ' ',
    '\U{85}', '\U{a0}', '\U{1680}',
    '\U{2000}', '\U{2001}', '\U{2002}', '\U{2003}', '\U{2004}', '\U{2005}',
    '\U{2006}', '\U{2007}', '\U{2008}', '\U{2009}', '\U{200a}',
    '\U{2028}', '\U{2029}', '\U{202f}', '\U{205f}', '\U{3000}'
  }

  predicate IsSpace(ch: char)
  {
    ch in Whitespace
  }

  /** The length of the whitespace run that `s` starts with. */
  function LeadingSpaces(s: string): (n: nat)
    ensures n <= |s|
    ensures forall k :: 0 <= k < n ==> IsSpace(s[k])
    ensures n < |s| ==> !IsSpace(s[n])
    decreases |s|
  {
    if |s| > 0 && IsSpace(s[0]) then 1 + LeadingSpaces(s[1..]) else 0
  }

  /** The length of the whitespace run that `s` ends with. */
  function TrailingSpaces(s: string): (n: nat)
    ensures n <= |s|
    ensures forall k :: |s| - n <= k < |s| ==> IsSpace(s[k])
    ensures n < |s| ==> !IsSpace(s[|s| - n - 1])
    decreases |s|
  {
    if |s| > 0 && IsSpace(s[|s| - 1]) then 1 + TrailingSpaces(s[..|s| - 1]) else 0
  }

  /** `s.lstrip()`: the longest whitespace prefix removed. */
  function TrimStart(s: string): string
  {
    s[LeadingSpaces(s)..]
  }

  /** `s.rstrip()`: the longest whitespace suffix removed. */
  function TrimEnd(s: string): string
  {
    s[..|s| - TrailingSpaces(s)]
  }

  /** `s.strip()`, which `df.columns.str.strip()` applies to every label. */
  function Strip(s: string): string
  {
    TrimEnd(TrimStart(s))
  }

  /** Stripping keeps one run of consecutive characters of the label, inner
      whitespace included, and removes only whitespace around it. */
  lemma StripSpec(s: string)
    ensures
      var i := |s| - |TrimStart(s)|;
      var j := i + |Strip(s)|;
      && j <= |s| && Strip(s) == s[i..j]
      && (forall k :: 0 <= k < i ==> IsSpace(s[k]))
      && (forall k :: j <= k < |s| ==> IsSpace(s[k]))
  {
    var i := LeadingSpaces(s);
    var t := s[i..];
    var m := TrailingSpaces(t);
    assert Strip(s) == t[..|t| - m];
    forall k | i + |t| - m <= k < |s|
      ensures IsSpace(s[k])
    {
      assert s[k] == t[k - i];
    }
  }

  /** The stripped label neither starts nor ends with whitespace. */
  lemma StripEnds(s: string)
    ensures |Strip(s)| > 0 ==> !IsSpace(Strip(s)[0]) && !IsSpace(Strip(s)[|Strip(s)| - 1])
  {
    var t := TrimStart(s);
    var u := TrimEnd(t);
    if |u| > 0 {
      assert u[0] == t[0];
    }
  }

  /** A label that is already stripped is left as it is. */
  lemma StripStripped(s: string)
    requires |s| > 0 ==> !IsSpace(s[0]) && !IsSpace(s[|s| - 1])
    ensures Strip(s) == s
  {
  }

  /** Stripping twice is stripping once. */
  lemma StripIdempotent(s: string)
    ensures Strip(Strip(s)) == Strip(s)
  {
    StripEnds(s);
    StripStripped(Strip(s));
  }

  /** `if country_name:` — `None` and the empty string are false. */
  predicate Truthy(country: Option<string>)
  {
    country.Some? && |country.value| > 0
  }

  /** The frame after `df["Country"] = country_name`, if that runs. */
  function Tagged(read: Frame, country: Option<string>): Frame
  {
    if Truthy(country) then Tag(read, country.value) else read
  }

  /** The frame `load_data` returns once `read_csv` has produced `read`. */
  function Loaded(read: Frame, country: Option<string>): Frame
  {
    Rename(Tagged(read, country), Map(Tagged(read, country).names, Strip))
  }

  /** Where `df["Country"] = ...` writes: the first `Country` column, or a
      new last one. */
  function TagAt(names: seq<string>): nat
  {
    if "Country" in names then IndexOf(names, "Country") else |names|
  }

  /** `load_data(url, country_name)`, from the frame `read` that
      `pd.read_csv(url)` produced: `df["Country"] = country_name` when the
      name is truthy, then `df.columns = df.columns.str.strip()`. */
  method LoadData(read: Frame, country: Option<string> := None) returns (df: DataFrame)
    ensures fresh(df) && df.frame == Loaded(read, country)
  {
    df := new DataFrame(read);
    if country.Some? && |country.value| > 0 {
      df.SetItem("Country", Repeat(Text(country.value), df.frame.height));
    }
    df.SetColumns(Map(df.frame.names, Strip));
  }

  /** The labels of the loaded frame: those of the file, then `Country` when
      a tag is added and the file has no such column, each stripped. The
      number of rows is that of the file. */
  lemma LoadedLabels(read: Frame, country: Option<string>)
    ensures Loaded(read, country).height == read.height
    ensures Loaded(read, country).names ==
      Map(if Truthy(country) && "Country" !in read.names then read.names + ["Country"] else read.names, Strip)
  {
  }

  /** Without a truthy name the cells are those of the file. */
  lemma LoadedUntagged(read: Frame, country: Option<string>)
    requires !Truthy(country)
    ensures Loaded(read, country).cols == read.cols
  {
  }

  /** Where `df["Country"] = name` puts the tag: over the first `Country`
      column, or in a new last column. */
  lemma TagCells(read: Frame, name: string)
    ensures
      var g, at := Tag(read, name), TagAt(read.names);
      && at < |g.names| && g.names[at] == "Country"
      && g.cols == (if at < |read.names| then read.cols[at := Repeat(Text(name), read.height)]
                    else read.cols + [Repeat(Text(name), read.height)])
  {
  }

  /** With a truthy name the `Country` column (the file's first one, or a new
      last one) holds the name in every row, and every other column of the
      file keeps its cells. */
  lemma LoadedTagged(read: Frame, name: string)
    requires |name| > 0
    ensures
      var g, at := Loaded(read, Some(name)), TagAt(read.names);
      && at < |g.cols|
      && g.cols[at] == Repeat(Text(name), read.height)
      && forall k :: 0 <= k < |read.names| && k != at ==> g.cols[k] == read.cols[k]
  {
    assert Loaded(read, Some(name)).cols == Tag(read, name).cols;
    TagCells(read, name);
  }

  /** The tagged column keeps its label `Country` through the strip. */
  lemma LoadedTagLabel(read: Frame, name: string)
    requires |name| > 0
    ensures var g, at := Loaded(read, Some(name)), TagAt(read.names);
      at < |g.names| && g.names[at] == "Country"
  {
    var tagged := Tag(read, name);
    var at := TagAt(read.names);
    TagCells(read, name);
    assert Loaded(read, Some(name)).names == Map(tagged.names, Strip);
    StripCountry();
  }

  lemma StripCountry()
    ensures Strip("Country") == "Country"
  {
    StripStripped("Country");
  }

  /** Every label of the loaded frame is free of surrounding whitespace. */
  lemma LoadedStripped(read: Frame, country: Option<string>)
    ensures forall k :: 0 <= k < |Loaded(read, country).names| ==>
      var n := Loaded(read, country).names[k];
      |n| > 0 ==> !IsSpace(n[0]) && !IsSpace(n[|n| - 1])
  {
    var g := Loaded(read, country);
    forall k | 0 <= k < |g.names|
      ensures |g.names[k]| > 0 ==> !IsSpace(g.names[k][0]) && !IsSpace(g.names[k][|g.names[k]| - 1])
    {
      StripEnds(Tagged(read, country).names[k]);
    }
  }

  // ---------------------------------------------------------------------
  // get_top_regions
  // ---------------------------------------------------------------------

  /** The order of `sort_values(by=column, ascending=False)`: larger values
      first (strings in reverse order), missing cells last. */
  predicate Ahead(a: Cell, b: Cell)
  {
    b.Missing? || (!a.Missing? && KeyLe(b, a))
  }

  /** On numbers `Ahead` is `>=`; a missing cell goes after every other. */
  lemma AheadMeaning(a: Cell, b: Cell)
    ensures a.Num? && b.Num? ==> (Ahead(a, b) <==> b.x <= a.x)
    ensures a.Missing? ==> (Ahead(a, b) <==> b.Missing?)
    ensures Ahead(a, Missing)
  {
  }

  lemma AheadTotalPreorder()
    ensures TotalPreorder(Ahead)
  {
    KeyLeTotalPreorder();
  }

  /** A cell together with its row. */
  type Keyed = (Cell, nat)

  function AheadKeyed(p: Keyed, q: Keyed): bool
  {
    Ahead(p.0, q.0)
  }

  lemma AheadKeyedTotalPreorder()
    ensures TotalPreorder(AheadKeyed)
  {
    AheadTotalPreorder();
    forall p: Keyed, q: Keyed, o: Keyed | AheadKeyed(p, q) && AheadKeyed(q, o)
      ensures AheadKeyed(p, o)
    {
    }
  }

  function Rows(c: seq<Cell>): (r: seq<Keyed>)
    ensures |r| == |c| && forall i :: 0 <= i < |c| ==> r[i] == (c[i], i)
  {
    seq(|c|, i requires 0 <= i < |c| => (c[i], i))
  }

  function RowOfKeyed(p: Keyed): nat
  {
    p.1
  }

  /** Every entry of the sorted rows is one of the rows. */
  lemma SortedRowsAre(c: seq<Cell>, k: nat)
    requires k < |c|
    ensures var p := SortBy(Rows(c), AheadKeyed)[k]; p.1 < |c| && p.0 == c[p.1]
  {
    var s := SortBy(Rows(c), AheadKeyed);
    assert s[k] in multiset(Rows(c));
  }

  /** The rows of the column in the order `sort_values` puts them. */
  function SortOrder(c: seq<Cell>): (rows: seq<nat>)
    ensures |rows| == |c| && forall k :: 0 <= k < |rows| ==> rows[k] < |c|
  {
    var s := SortBy(Rows(c), AheadKeyed);
    forall k | 0 <= k < |s|
      ensures s[k].1 < |c|
    {
      SortedRowsAre(c, k);
    }
    Map(s, RowOfKeyed)
  }

  /** The sort is a reordering of the rows, each taken once, that puts them
      in `Ahead` order. */
  lemma SortOrderSpec(c: seq<Cell>)
    ensures Distinct(SortOrder(c))
    ensures forall i :: 0 <= i < |c| ==> i in SortOrder(c)
    ensures forall k, l :: 0 <= k < l < |c| ==> Ahead(c[SortOrder(c)[k]], c[SortOrder(c)[l]])
  {
    var rows, s := SortOrder(c), SortBy(Rows(c), AheadKeyed);
    AheadKeyedTotalPreorder();
    SortBySorted(Rows(c), AheadKeyed);
    forall k | 0 <= k < |c|
      ensures rows[k] == s[k].1 && c[rows[k]] == s[k].0
    {
      SortedRowsAre(c, k);
    }
    assert Distinct(Rows(c));
    DistinctPerm(Rows(c), s);
    forall i | 0 <= i < |c|
      ensures i in rows
    {
      assert Rows(c)[i] in multiset(s);
      var k :| 0 <= k < |s| && s[k] == Rows(c)[i];
      assert rows[k] == i;
    }
  }

  /** The number of rows `head(n)` keeps out of `height`: the first `n`, or
      all but the last `-n` when `n` is negative. */
  function HeadCount(n: int, height: nat): (count: nat)
    ensures count <= height
    ensures n >= 0 ==> count == if n < height then n else height
    ensures n < 0 ==> count == if height + n > 0 then height + n else 0
  {
    if n >= 0 then (if n < height then n else height)
    else if height + n > 0 then height + n else 0
  }

  /** A column of numbers and strings together, which `sort_values` cannot
      order. */
  predicate Mixed(c: seq<Cell>)
  {
    HasText(c) && exists i :: 0 <= i < |c| && c[i].Num?
  }

  /** The labels `get_top_regions` projects on. */
  function Wanted(f: Frame, column: string): seq<string>
  {
    if "Region" in f.names then ["Region", "Country", column] else ["Country", column]
  }

  /** `get_top_regions(df, column, top_n)`: the rows sorted by `column`,
      largest first, projected on `Region` (when the frame has it),
      `Country` and `column`, the first `top_n` of them. */
  function TopRegions(f: Frame, column: string := "GHI", topN: int := 5): Result<Frame>
  {
    if column !in f.names then Err(KeyError(column))
    else if Mixed(Col(f, column)) then Err(TypeError(column))
    else
      match Project(Pick(f, SortOrder(Col(f, column))), Wanted(f, column))
      case Err(e) => Err(e)
      case Ok(g) => Ok(Take(g, HeadCount(topN, g.height)))
  }

  /** The call succeeds exactly when `column` and `Country` are columns and
      `column` does not mix numbers and strings. Otherwise it raises, in
      this order, the `KeyError` of the sort, its `TypeError`, or the error
      of the projection naming `Country`. */
  lemma TopRegionsOutcome(f: Frame, column: string, topN: int)
    ensures TopRegions(f, column, topN).Ok? <==>
      column in f.names && !Mixed(Col(f, column)) && "Country" in f.names
    ensures column !in f.names ==> TopRegions(f, column, topN) == Err(KeyError(column))
    ensures column in f.names && Mixed(Col(f, column)) ==> TopRegions(f, column, topN) == Err(TypeError(column))
    ensures column in f.names && !Mixed(Col(f, column)) && "Country" !in f.names ==>
      TopRegions(f, column, topN) == Err(NotInIndex(["Country"]))
  {
    if column in f.names && "Country" !in f.names {
      assert Absent([column], f.names) == [] by {
        assert [column][1..] == [];
      }
      assert Absent(["Country", column], f.names) == ["Country"] by {
        assert ["Country", column][1..] == [column];
      }
      assert Absent(["Region", "Country", column], f.names) == (if "Region" in f.names then [] else ["Region"]) + ["Country"] by {
        assert ["Region", "Country", column][1..] == ["Country", column];
      }
    }
  }

  /** The result has the projected labels and `min(top_n, rows)` rows (for a
      non-negative `top_n`); its `k`-th row is row `SortOrder(...)[k]` of the
      input. */
  lemma TopRegionsRows(f: Frame, column: string, topN: int)
    requires TopRegions(f, column, topN).Ok?
    ensures var g := TopRegions(f, column, topN).value;
      && g.names == Wanted(f, column)
      && g.height == HeadCount(topN, f.height)
      && forall j, k :: 0 <= j < |g.names| && 0 <= k < g.height ==>
           g.cols[j][k] == Col(f, g.names[j])[SortOrder(Col(f, column))[k]]
  {
    var rows := SortOrder(Col(f, column));
    var sorted := Pick(f, rows);
    var g := TopRegions(f, column, topN).value;
    var p := Project(sorted, Wanted(f, column)).value;
    forall j, k | 0 <= j < |g.names| && 0 <= k < g.height
      ensures g.cols[j][k] == Col(f, g.names[j])[rows[k]]
    {
      assert g.cols[j] == p.cols[j][..g.height];
      assert p.cols[j] == Col(sorted, g.names[j]);
    }
  }

  /** The sorted rows that follow the first `count` come after each of them. */
  lemma SortOrderTop(c: seq<Cell>, count: nat, i: nat)
    requires count <= |c| && i < |c| && i !in SortOrder(c)[..count]
    ensures forall k :: 0 <= k < count ==> Ahead(c[SortOrder(c)[k]], c[i])
  {
    var rows := SortOrder(c);
    SortOrderSpec(c);
    assert i in rows;
    var m :| 0 <= m < |rows| && rows[m] == i;
    assert m >= count;
  }

  /** The `column` cells of the result are those of the sorted rows. */
  lemma TopRegionsColumn(f: Frame, column: string, topN: int)
    requires TopRegions(f, column, topN).Ok?
    ensures var g := TopRegions(f, column, topN).value;
      && column in f.names && column in g.names && g.height <= f.height
      && forall k :: 0 <= k < g.height ==> Col(g, column)[k] == Col(f, column)[SortOrder(Col(f, column))[k]]
  {
    var g := TopRegions(f, column, topN).value;
    TopRegionsRows(f, column, topN);
    var at := IndexOf(g.names, column);
    assert g.names[at] == column;
  }

  /** The `column` cells of the result come in `Ahead` order: non-increasing
      numbers, missing cells last. */
  lemma TopRegionsOrdered(f: Frame, column: string, topN: int)
    requires TopRegions(f, column, topN).Ok?
    ensures var g := TopRegions(f, column, topN).value;
      && column in g.names
      && forall k, l :: 0 <= k < l < g.height ==> Ahead(Col(g, column)[k], Col(g, column)[l])
  {
    TopRegionsColumn(f, column, topN);
    SortOrderSpec(Col(f, column));
  }

  /** Top-N selection: every input row left out of the result comes after
      each returned row in `Ahead` order, so a left-out number is at most the
      smallest returned one, and a returned cell is missing only when every
      left-out cell is. */
  lemma TopRegionsSelects(f: Frame, column: string, topN: int, i: nat)
    requires TopRegions(f, column, topN).Ok? && i < f.height
    requires i !in SortOrder(Col(f, column))[..TopRegions(f, column, topN).value.height]
    ensures var g := TopRegions(f, column, topN).value;
      forall k :: 0 <= k < g.height ==> Ahead(Col(g, column)[k], Col(f, column)[i])
  {
    TopRegionsColumn(f, column, topN);
    SortOrderTop(Col(f, column), TopRegions(f, column, topN).value.height, i);
  }
}
