/** The pandas `DataFrame` as the toolkit uses it: named columns of equal
    length whose cells are numbers, text or missing (`NaN`), the column
    operations the scripts apply (`df[col]`, `df[col] = ...`, `df[mask]`,
    `drop(columns=..., errors='ignore')`, `df[[...]]`, `head`), the errors
    pandas raises on the way, and the mutable `DataFrame` object that the
    copy-then-update functions of the toolkit work on. */
module Frames {
  import opened Seqs
  import opened Stats

  /** One cell: pandas' `NaN`/`None`, a number, or a string such as a country name. */
  datatype Cell = Missing | Num(x: real) | Text(s: string)

  /** Columns stored column-major; `height` is the number of rows. */
  datatype Table = Table(names: seq<string>, cols: seq<seq<Cell>>, height: nat)

  predicate WellShaped(t: Table)
  {
    |t.names| == |t.cols| && forall i :: 0 <= i < |t.cols| ==> |t.cols[i]| == t.height
  }

  type Frame = t: Table | WellShaped(t) witness Table([], [], 0)

  /** The exceptions the modelled functions raise. */
  datatype Error =
    | KeyError(key: string)                               // column lookup of an absent label
    | NotInIndex(keys: seq<string>)                       // `df[[...]]` with absent labels
    | TypeError(column: string)                           // numeric operation on a text column
    | MissingColumns(missing: seq<string>, path: string)  // required columns absent from a file
    | FileNotFound(path: string)
    | EmptyCsv(path: string)                              // `EmptyDataError` turned into `ValueError`
    | ParseDatesMissing(path: string)                     // `parse_dates` names an absent column
    | NoObjectsToConcatenate                              // `pd.concat([])`

  datatype Result<+T> = Ok(value: T) | Err(error: Error)

  /** Position of the first column called `name`. */
  function IndexOf(names: seq<string>, name: string): (i: nat)
    requires name in names
    ensures i < |names| && names[i] == name && name !in names[..i]
  {
    if names[0] == name then 0
    else
      var j := IndexOf(names[1..], name);
      assert names[..j + 1] == [names[0]] + names[1..][..j];
      j + 1
  }

  lemma IndexOfDistinct(names: seq<string>, k: nat)
    requires Distinct(names) && k < |names|
    ensures IndexOf(names, names[k]) == k
  {
  }

  /** `df[name]` for a label that is present. */
  function Col(f: Frame, name: string): (c: seq<Cell>)
    requires name in f.names
    ensures |c| == f.height
  {
    f.cols[IndexOf(f.names, name)]
  }

  lemma ColAt(f: Frame, k: nat)
    requires Distinct(f.names) && k < |f.names|
    ensures Col(f, f.names[k]) == f.cols[k]
  {
    IndexOfDistinct(f.names, k);
  }

  /** Frames with distinct labels are equal once their labels, heights and
      columns agree. */
  lemma FrameExt(f: Frame, g: Frame)
    requires Distinct(f.names) && f.names == g.names && f.height == g.height
    requires forall n :: n in f.names ==> Col(f, n) == Col(g, n)
    ensures f == g
  {
    forall k | 0 <= k < |f.cols|
      ensures f.cols[k] == g.cols[k]
    {
      ColAt(f, k);
      ColAt(g, k);
    }
  }

  lemma IndexOfExtend(names: seq<string>, extra: seq<string>, n: string)
    requires n in names
    ensures IndexOf(names + extra, n) == IndexOf(names, n)
  {
    if names[0] != n {
      assert (names + extra)[1..] == names[1..] + extra;
      IndexOfExtend(names[1..], extra, n);
    }
  }

  /** `df[name] = c`: overwrites the column called `name` where it stands, or
      appends a new column called `name` at the right end. */
  function Assign(f: Frame, name: string, c: seq<Cell>): (g: Frame)
    requires |c| == f.height
    ensures g.height == f.height
    ensures g.names == if name in f.names then f.names else f.names + [name]
    ensures Col(g, name) == c
    ensures forall n :: n in f.names && n != name ==> Col(g, n) == Col(f, n)
  {
    if name in f.names then
      Table(f.names, f.cols[IndexOf(f.names, name) := c], f.height)
    else
      var g := Table(f.names + [name], f.cols + [c], f.height);
      forall n | n in f.names
        ensures IndexOf(g.names, n) == IndexOf(f.names, n)
      {
        IndexOfExtend(f.names, [name], n);
      }
      assert IndexOf(g.names, name) == |f.names|;
      g
  }

  /** `names` without any occurrence of `x`. */
  function Remove(names: seq<string>, x: string): (r: seq<string>)
    ensures forall n :: n in r <==> n in names && n != x
  {
    if |names| == 0 then []
    else (if names[0] == x then [] else [names[0]]) + Remove(names[1..], x)
  }

  lemma RemoveDistinct(names: seq<string>, x: string)
    requires Distinct(names)
    ensures Distinct(Remove(names, x))
  {
    if |names| > 0 {
      RemoveDistinct(names[1..], x);
      assert names[0] !in names[1..];
    }
  }

  /** `df.drop(columns=name, errors='ignore')`: every column called `name`
      disappears, and dropping an absent label changes nothing. */
  function Drop(f: Frame, name: string): (g: Frame)
    ensures g.height == f.height
    ensures g.names == Remove(f.names, name)
    decreases |f.names|
  {
    if |f.names| == 0 then f
    else
      var rest := Drop(Tail(f), name);
      if f.names[0] == name then rest
      else Table([f.names[0]] + rest.names, [f.cols[0]] + rest.cols, f.height)
  }

  /** The frame without its first column. */
  function Tail(f: Frame): (t: Frame)
    requires |f.names| > 0
    ensures t.height == f.height && t.names == f.names[1..] && t.cols == f.cols[1..]
  {
    Table(f.names[1..], f.cols[1..], f.height)
  }

  lemma TailCol(f: Frame, n: string)
    requires |f.names| > 0 && n in f.names && n != f.names[0]
    ensures n in Tail(f).names && Col(Tail(f), n) == Col(f, n)
  {
  }

  /** A column put in front does not hide the columns behind it. */
  lemma ConsCol(head: string, c: seq<Cell>, rest: Frame, n: string)
    requires |c| == rest.height && n in rest.names && n != head
    ensures var g: Frame := Table([head] + rest.names, [c] + rest.cols, rest.height);
      n in g.names && Col(g, n) == Col(rest, n)
  {
    var names := [head] + rest.names;
    assert names[1..] == rest.names;
  }

  /** The columns that stay keep their cells. */
  lemma {:induction false} DropCol(f: Frame, name: string, n: string)
    requires n in Drop(f, name).names
    ensures n in f.names && Col(Drop(f, name), n) == Col(f, n)
    decreases |f.names|
  {
    var rest := Drop(Tail(f), name);
    if f.names[0] == name {
      DropCol(Tail(f), name, n);
      TailCol(f, n);
    } else if n != f.names[0] {
      ConsCol(f.names[0], f.cols[0], rest, n);
      DropCol(Tail(f), name, n);
      TailCol(f, n);
    }
  }

  lemma {:induction false} DropAbsent(f: Frame, name: string)
    requires name !in f.names
    ensures Drop(f, name) == f
    decreases |f.names|
  {
    if |f.names| > 0 {
      DropAbsent(Tail(f), name);
      assert f.names == [f.names[0]] + Tail(f).names;
      assert f.cols == [f.cols[0]] + Tail(f).cols;
    }
  }

  /** `df[mask]`: the rows whose mask entry is `true`, in their original order,
      in every column. */
  function Select(f: Frame, mask: seq<bool>): (g: Frame)
    requires |mask| == f.height
    ensures g.names == f.names && g.height == CountTrue(mask)
    ensures forall n :: n in f.names ==> Col(g, n) == Mask(Col(f, n), mask)
  {
    Table(f.names, seq(|f.cols|, i requires 0 <= i < |f.cols| => Mask(f.cols[i], mask)), CountTrue(mask))
  }

  /** `df.columns = names`: new labels, same columns in the same places. */
  function Rename(f: Frame, names: seq<string>): (g: Frame)
    requires |names| == |f.names|
    ensures g.names == names && g.cols == f.cols && g.height == f.height
  {
    Table(names, f.cols, f.height)
  }

  /** The rows at the given positions, in the given order (the row reordering
      that `sort_values` performs). */
  function Pick(f: Frame, rows: seq<nat>): (g: Frame)
    requires forall k :: 0 <= k < |rows| ==> rows[k] < f.height
    ensures g.names == f.names && g.height == |rows|
    ensures forall n, k :: n in f.names && 0 <= k < |rows| ==> Col(g, n)[k] == Col(f, n)[rows[k]]
  {
    Table(f.names,
      seq(|f.cols|, i requires 0 <= i < |f.cols| =>
        seq(|rows|, k requires 0 <= k < |rows| => f.cols[i][rows[k]])),
      |rows|)
  }

  /** The first `count` rows. */
  function Take(f: Frame, count: nat): (g: Frame)
    requires count <= f.height
    ensures g.names == f.names && g.height == count
    ensures forall n :: n in f.names ==> Col(g, n) == Col(f, n)[..count]
  {
    Table(f.names, seq(|f.cols|, i requires 0 <= i < |f.cols| => f.cols[i][..count]), count)
  }

  /** `df[names]` with a list of labels: those columns in the listed order, or
      the error listing the labels that are absent. */
  function Project(f: Frame, names: seq<string>): (r: Result<Frame>)
    ensures r.Ok? <==> forall n :: n in names ==> n in f.names
    ensures r.Ok? ==> r.value.names == names && r.value.height == f.height
    ensures r.Ok? ==> forall k :: 0 <= k < |names| ==> r.value.cols[k] == Col(f, names[k])
    ensures r.Err? ==> r.error == NotInIndex(Absent(names, f.names))
  {
    var absent := Absent(names, f.names);
    if |absent| > 0 then
      assert absent[0] in absent;
      Err(NotInIndex(absent))
    else Ok(Table(names, seq(|names|, k requires 0 <= k < |names| => Col(f, names[k])), f.height))
  }

  /** The entries of `wanted` that are not in `present`, in order. */
  function Absent(wanted: seq<string>, present: seq<string>): (r: seq<string>)
    ensures forall n :: n in r <==> n in wanted && n !in present
  {
    if |wanted| == 0 then []
    else (if wanted[0] in present then [] else [wanted[0]]) + Absent(wanted[1..], present)
  }

  /** The same cell `n` times: a scalar broadcast to every row. */
  function Repeat(x: Cell, n: nat): (c: seq<Cell>)
    ensures |c| == n && forall i :: 0 <= i < n ==> c[i] == x
  {
    seq(n, _ => x)
  }

  /** `df['Country'] = country`: the name broadcast to every row. */
  function Tag(f: Frame, country: string): (g: Frame)
    ensures g.height == f.height
    ensures g.names == if "Country" in f.names then f.names else f.names + ["Country"]
    ensures forall i :: 0 <= i < g.height ==> Col(g, "Country")[i] == Text(country)
    ensures forall n :: n in f.names && n != "Country" ==> Col(g, n) == Col(f, n)
  {
    Assign(f, "Country", Repeat(Text(country), f.height))
  }

  predicate HasText(c: seq<Cell>)
  {
    exists i :: 0 <= i < |c| && c[i].Text?
  }

  predicate NoMissing(c: seq<Cell>)
  {
    forall i :: 0 <= i < |c| ==> !c[i].Missing?
  }

  /** The numbers of a column in row order, skipping missing cells: what
      pandas' reductions (`median`, `mean`, `std`) see. */
  function Values(c: seq<Cell>): (xs: seq<real>)
    ensures |xs| <= |c|
  {
    if |c| == 0 then []
    else (if c[0].Num? then [c[0].x] else []) + Values(c[1..])
  }

  lemma {:induction false} ValuesComplete(c: seq<Cell>, i: nat)
    requires i < |c| && c[i].Num?
    ensures c[i].x in Values(c)
  {
    if i > 0 {
      ValuesComplete(c[1..], i - 1);
    }
  }

  lemma {:induction false} ValuesSound(c: seq<Cell>, x: real)
    requires x in Values(c)
    ensures exists i :: 0 <= i < |c| && c[i] == Num(x)
  {
    if !(c[0].Num? && c[0].x == x) {
      assert x in Values(c[1..]);
      ValuesSound(c[1..], x);
      var i :| 0 <= i < |c[1..]| && c[1..][i] == Num(x);
      assert c[i + 1] == Num(x);
    }
  }

  /** A column of numbers only: every cell reaches `Values`. */
  lemma {:induction false} ValuesAllNum(c: seq<Cell>)
    requires forall i :: 0 <= i < |c| ==> c[i].Num?
    ensures |Values(c)| == |c|
    ensures forall i :: 0 <= i < |c| ==> Values(c)[i] == c[i].x
  {
    if |c| > 0 {
      ValuesAllNum(c[1..]);
    }
  }

  /** `fillna(v)`: missing cells become `v`; with `v` itself missing (the
      median of a column without numbers) nothing changes. */
  function FillMissing(c: seq<Cell>, v: Option<real>): (d: seq<Cell>)
    ensures |d| == |c|
  {
    seq(|c|, i requires 0 <= i < |c| => if c[i].Missing? && v.Some? then Num(v.value) else c[i])
  }

  /** Filling replaces exactly the missing cells, and with a value at hand it
      leaves none behind. */
  lemma FillMissingSpec(c: seq<Cell>, v: Option<real>)
    ensures forall i :: 0 <= i < |c| && !c[i].Missing? ==> FillMissing(c, v)[i] == c[i]
    ensures forall i :: 0 <= i < |c| && c[i].Missing? ==>
      FillMissing(c, v)[i] == if v.Some? then Num(v.value) else Missing
    ensures v.Some? ==> NoMissing(FillMissing(c, v))
  {
  }

  /** Filling and then filtering rows equals filtering and then filling. */
  lemma {:induction false} MaskFillMissing(c: seq<Cell>, m: seq<bool>, v: Option<real>)
    requires |c| == |m|
    ensures Mask(FillMissing(c, v), m) == FillMissing(Mask(c, m), v)
    decreases |c|
  {
    if |c| > 0 {
      MaskFillMissing(c[1..], m[1..], v);
      assert FillMissing(c, v)[1..] == FillMissing(c[1..], v);
      var head := if m[0] then [c[0]] else [];
      assert Mask(c, m) == head + Mask(c[1..], m[1..]);
      assert FillMissing(head + Mask(c[1..], m[1..]), v)
          == FillMissing(head, v) + FillMissing(Mask(c[1..], m[1..]), v);
    }
  }

  /** `df[col].fillna(df[col].median())`. */
  function ImputeMedian(c: seq<Cell>): (d: seq<Cell>)
    ensures |d| == |c|
  {
    FillMissing(c, Median(Values(c)))
  }

  /** Median imputation leaves no missing cell in a column that has a number,
      and every filled cell lies between the smallest and largest reading. */
  lemma ImputeMedianSpec(c: seq<Cell>, lo: real, hi: real)
    requires forall i :: 0 <= i < |c| && c[i].Num? ==> lo <= c[i].x <= hi
    ensures |Values(c)| > 0 ==> NoMissing(ImputeMedian(c))
    ensures forall i :: 0 <= i < |c| && ImputeMedian(c)[i].Num? ==> lo <= ImputeMedian(c)[i].x <= hi
  {
    var xs := Values(c);
    if |xs| > 0 {
      forall k | 0 <= k < |xs|
        ensures lo <= xs[k] <= hi
      {
        ValuesSound(c, xs[k]);
      }
      MedianWithin(xs, lo, hi);
    }
  }

  /** The pandas object. The toolkit's functions copy it, overwrite and drop
      columns of the copy in place, and rebind it to filtered frames. */
  class DataFrame {
    var frame: Frame

    constructor (f: Frame)
      ensures frame == f
    {
      frame := f;
    }

    /** `df.copy()`. */
    method Copy() returns (d: DataFrame)
      ensures fresh(d) && d.frame == frame
    {
      d := new DataFrame(frame);
    }

    /** `df[name] = c`. */
    method SetItem(name: string, c: seq<Cell>)
      requires |c| == frame.height
      modifies this
      ensures frame == Assign(old(frame), name, c)
    {
      frame := Assign(frame, name, c);
    }

    /** `df.drop(columns=name, inplace=True, errors='ignore')`. */
    method DropColumn(name: string)
      modifies this
      ensures frame == Drop(old(frame), name)
    {
      frame := Drop(frame, name);
    }

    /** `df[mask]`: a new object holding the kept rows. */
    method Where(mask: seq<bool>) returns (d: DataFrame)
      requires |mask| == frame.height
      ensures fresh(d) && d.frame == Select(frame, mask)
    {
      d := new DataFrame(Select(frame, mask));
    }

    /** `df.columns = names`. */
    method SetColumns(names: seq<string>)
      requires |names| == |frame.names|
      modifies this
      ensures frame == Rename(old(frame), names)
    {
      frame := Rename(frame, names);
    }
  }

  // ---------------------------------------------------------------------
  // The order of cells
  // ---------------------------------------------------------------------

  /** Python's `<=` on strings: code point by code point, a prefix first. */
  predicate StrLe(a: string, b: string)
    decreases |a|
  {
    |a| == 0 || (|b| > 0 && (a[0] < b[0] || (a[0] == b[0] && StrLe(a[1..], b[1..]))))
  }

  lemma {:induction false} StrLeTotal(a: string, b: string)
    ensures StrLe(a, b) || StrLe(b, a)
    decreases |a|
  {
    if |a| > 0 && |b| > 0 && a[0] == b[0] {
      StrLeTotal(a[1..], b[1..]);
    }
  }

  lemma {:induction false} StrLeTrans(a: string, b: string, c: string)
    requires StrLe(a, b) && StrLe(b, c)
    ensures StrLe(a, c)
    decreases |a|
  {
    if |a| > 0 && a[0] == b[0] && b[0] == c[0] {
      StrLeTrans(a[1..], b[1..], c[1..]);
    }
  }

  lemma {:induction false} StrLeAntisymmetric(a: string, b: string)
    requires StrLe(a, b) && StrLe(b, a)
    ensures a == b
    decreases |a|
  {
    if |a| > 0 {
      StrLeAntisymmetric(a[1..], b[1..]);
      assert a == [a[0]] + a[1..] && b == [b[0]] + b[1..];
    }
  }

  /** The order in which pandas sorts cells (group keys, `sort_values`):
      numbers first, by value, then strings (its fallback for keys of mixed
      types); missing cells last. */
  predicate KeyLe(a: Cell, b: Cell)
  {
    match a
    case Num(x) => !b.Num? || x <= b.x
    case Text(t) => b.Missing? || (b.Text? && StrLe(t, b.s))
    case Missing => b.Missing?
  }

  lemma KeyLeTotalPreorder()
    ensures TotalPreorder(KeyLe)
  {
    forall a: Cell, b: Cell
      ensures KeyLe(a, b) || KeyLe(b, a)
    {
      if a.Text? && b.Text? {
        StrLeTotal(a.s, b.s);
      }
    }
    forall a: Cell, b: Cell, c: Cell | KeyLe(a, b) && KeyLe(b, c)
      ensures KeyLe(a, c)
    {
      if a.Text? && b.Text? && c.Text? {
        StrLeTrans(a.s, b.s, c.s);
      }
    }
  }

  lemma KeyLeAntisymmetric(a: Cell, b: Cell)
    requires KeyLe(a, b) && KeyLe(b, a)
    ensures a == b
  {
    if a.Text? && b.Text? {
      StrLeAntisymmetric(a.s, b.s);
    }
  }

  /** The object a function returned, or the exception it raised, agrees with
      the value-level outcome `s`. */
  ghost predicate Yields(r: Result<DataFrame>, s: Result<Frame>)
    reads if r.Ok? then {r.value} else {}
  {
    match r
    case Ok(d) => s == Ok(d.frame)
    case Err(e) => s == Err(e)
  }

  /** The loop `for col in columns: df = step(df, col)` of the toolkit's
      functions, stopping at the first exception. */
  function Fold(f: Frame, columns: seq<string>, step: (Frame, string) -> Result<Frame>): Result<Frame>
    decreases |columns|
  {
    if |columns| == 0 then Ok(f)
    else
      match Fold(f, columns[..|columns| - 1], step)
      case Err(e) => Err(e)
      case Ok(g) => step(g, columns[|columns| - 1])
  }

  /** One more pass of the loop. */
  lemma FoldNext(f: Frame, columns: seq<string>, i: nat, step: (Frame, string) -> Result<Frame>)
    requires i < |columns|
    ensures Fold(f, columns[..i + 1], step) ==
      match Fold(f, columns[..i], step)
      case Err(e) => Err(e)
      case Ok(g) => step(g, columns[i])
  {
    assert columns[..i + 1][..i] == columns[..i];
  }

  /** Once a pass raises, the loop ends with that exception. */
  lemma {:induction false} FoldStops(f: Frame, columns: seq<string>, i: nat, step: (Frame, string) -> Result<Frame>)
    requires i <= |columns| && Fold(f, columns[..i], step).Err?
    ensures Fold(f, columns, step) == Fold(f, columns[..i], step)
    decreases |columns| - i
  {
    if i < |columns| {
      FoldNext(f, columns, i, step);
      FoldStops(f, columns, i + 1, step);
    } else {
      assert columns[..i] == columns;
    }
  }

  /** The loop `for x in xs: out.append(step(x))`, stopping at the first
      exception. */
  function Collect<A, B>(xs: seq<A>, step: A -> Result<B>): (r: Result<seq<B>>)
    ensures r.Ok? ==> |r.value| == |xs|
    decreases |xs|
  {
    if |xs| == 0 then Ok([])
    else
      match Collect(xs[..|xs| - 1], step)
      case Err(e) => Err(e)
      case Ok(ys) =>
        match step(xs[|xs| - 1])
        case Err(e) => Err(e)
        case Ok(y) => Ok(ys + [y])
  }

  lemma CollectNext<A, B>(xs: seq<A>, step: A -> Result<B>, i: nat)
    requires i < |xs|
    ensures Collect(xs[..i + 1], step) ==
      match Collect(xs[..i], step)
      case Err(e) => Err(e)
      case Ok(ys) =>
        match step(xs[i])
        case Err(e) => Err(e)
        case Ok(y) => Ok(ys + [y])
  {
    assert xs[..i + 1][..i] == xs[..i];
  }

  /** Once a step raises, the loop ends with that exception. */
  lemma {:induction false} CollectStops<A, B>(xs: seq<A>, step: A -> Result<B>, i: nat)
    requires i <= |xs| && Collect(xs[..i], step).Err?
    ensures Collect(xs, step) == Collect(xs[..i], step)
    decreases |xs| - i
  {
    if i < |xs| {
      CollectNext(xs, step, i);
      CollectStops(xs, step, i + 1);
    } else {
      assert xs[..i] == xs;
    }
  }

  /** The loop succeeds exactly when every step does, and then holds their
      results in order. */
  lemma {:induction false} CollectResult<A, B>(xs: seq<A>, step: A -> Result<B>)
    ensures Collect(xs, step).Ok? <==> forall k :: 0 <= k < |xs| ==> step(xs[k]).Ok?
    ensures Collect(xs, step).Ok? ==>
      && |Collect(xs, step).value| == |xs|
      && forall k :: 0 <= k < |xs| ==> Collect(xs, step).value[k] == step(xs[k]).value
    decreases |xs|
  {
    if |xs| > 0 {
      var init := xs[..|xs| - 1];
      CollectResult(init, step);
      assert forall k :: 0 <= k < |init| ==> init[k] == xs[k];
    }
  }

  /** Otherwise it raises the exception of the first step that fails. */
  lemma {:induction false} CollectFailure<A, B>(xs: seq<A>, step: A -> Result<B>)
    requires Collect(xs, step).Err?
    ensures exists k ::
      && 0 <= k < |xs| && step(xs[k]).Err? && Collect(xs, step).error == step(xs[k]).error
      && forall j :: 0 <= j < k ==> step(xs[j]).Ok?
    decreases |xs|
  {
    var n := |xs| - 1;
    var init := xs[..n];
    assert forall k :: 0 <= k < n ==> init[k] == xs[k];
    if Collect(init, step).Err? {
      CollectFailure(init, step);
      var k :| 0 <= k < n && step(init[k]).Err? && Collect(init, step).error == step(init[k]).error
        && forall j :: 0 <= j < k ==> step(init[j]).Ok?;
      assert step(xs[k]).Err?;
    } else {
      CollectResult(init, step);
      assert step(xs[n]).Err?;
    }
  }
}
