/** scripts/data_cleaning.py: `handle_negative_irradiance`, which blanks
    negative readings, and `clean_outliers_and_missing`, which drops the rows
    whose stored z-score is out of range, fills the remaining gaps of each
    listed column with its median and removes the helper z-score columns. */
module DataCleaning {
  import opened Seqs
  import opened Stats
  import opened Frames
  import opened OutlierDetection

  // ---------------------------------------------------------------------
  // handle_negative_irradiance
  // ---------------------------------------------------------------------

  /** `where(cell >= 0, NaN)` on one cell: a negative reading becomes missing. */
  function ClipNegative(x: Cell): Cell
  {
    if x.Num? && x.x < 0.0 then Missing else x
  }

  /** `df[col].where(df[col] >= 0, np.nan)`: no negative reading is left, the
      non-negative readings stay, and the only change is a reading turned
      missing. */
  function MaskNegatives(c: seq<Cell>): (d: seq<Cell>)
    ensures |d| == |c|
    ensures forall i :: 0 <= i < |c| ==> !(d[i].Num? && d[i].x < 0.0)
    ensures forall i :: 0 <= i < |c| && c[i].Num? && c[i].x >= 0.0 ==> d[i] == c[i]
    ensures forall i :: 0 <= i < |c| && d[i] != c[i] ==> c[i].Num? && d[i].Missing?
  {
    Map(c, ClipNegative)
  }

  /** Blanking twice blanks nothing more, and text stays where it was. */
  lemma MaskNegativesIdempotent(c: seq<Cell>)
    ensures MaskNegatives(MaskNegatives(c)) == MaskNegatives(c)
    ensures HasText(MaskNegatives(c)) <==> HasText(c)
  {
    var d := MaskNegatives(c);
    if HasText(c) {
      var i :| 0 <= i < |c| && c[i].Text?;
      assert d[i].Text?;
    }
  }

  /** One pass of the loop: `df[col]` (absent label: `KeyError`), the
      comparison `>= 0` (text: `TypeError`), then `df[col] = ...`. */
  function NegativeStep(g: Frame, col: string): Result<Frame>
  {
    if col !in g.names then Err(KeyError(col))
    else if HasText(Col(g, col)) then Err(TypeError(col))
    else Ok(Assign(g, col, MaskNegatives(Col(g, col))))
  }

  /** The frame `handle_negative_irradiance` returns. */
  function NegativesToMissing(f: Frame, columns: seq<string>): Result<Frame>
  {
    Fold(f, columns, NegativeStep)
  }

  /** `handle_negative_irradiance(df, columns)`: works on a copy, so `df` is untouched. */
  method HandleNegativeIrradiance(df: DataFrame, columns: seq<string>) returns (r: Result<DataFrame>)
    ensures r.Ok? ==> fresh(r.value)
    ensures Yields(r, NegativesToMissing(df.frame, columns))
  {
    var out := df.Copy();
    var i := 0;
    while i < |columns|
      invariant 0 <= i <= |columns|
      invariant fresh(out)
      invariant NegativesToMissing(df.frame, columns[..i]) == Ok(out.frame)
    {
      var col := columns[i];
      FoldNext(df.frame, columns, i, NegativeStep);
      if col !in out.frame.names {
        FoldStops(df.frame, columns, i + 1, NegativeStep);
        return Err(KeyError(col));
      }
      var c := Col(out.frame, col);
      if HasText(c) {
        FoldStops(df.frame, columns, i + 1, NegativeStep);
        return Err(TypeError(col));
      }
      out.SetItem(col, MaskNegatives(c));
      i := i + 1;
    }
    assert columns[..i] == columns;
    r := Ok(out);
  }

  /** The state after `i` passes: same labels and rows, the columns seen so
      far blanked, the rest as they were. */
  predicate NegState(f: Frame, columns: seq<string>, i: nat, g: Frame)
    requires i <= |columns|
  {
    && g.names == f.names
    && g.height == f.height
    && (forall c :: c in columns[..i] ==> c in f.names && !HasText(Col(f, c)))
    && (forall n :: n in f.names ==>
          Col(g, n) == if n in columns[..i] then MaskNegatives(Col(f, n)) else Col(f, n))
  }

  lemma NegStateStep(f: Frame, columns: seq<string>, i: nat, g: Frame)
    requires i < |columns| && NegState(f, columns, i, g)
    ensures NegativeStep(g, columns[i]).Ok? <==> columns[i] in f.names && !HasText(Col(f, columns[i]))
    ensures NegativeStep(g, columns[i]).Ok? ==> NegState(f, columns, i + 1, NegativeStep(g, columns[i]).value)
  {
    var col := columns[i];
    assert columns[..i + 1] == columns[..i] + [col];
    if col in f.names {
      MaskNegativesIdempotent(Col(f, col));
    }
  }

  lemma NegativesPrefixStep(f: Frame, columns: seq<string>, i: nat, g: Frame)
    requires i < |columns|
    requires NegativesToMissing(f, columns[..i]) == Ok(g) && NegState(f, columns, i, g)
    ensures NegativesToMissing(f, columns[..i + 1]).Ok? <==> columns[i] in f.names && !HasText(Col(f, columns[i]))
    ensures NegativesToMissing(f, columns[..i + 1]).Ok? ==>
      NegState(f, columns, i + 1, NegativesToMissing(f, columns[..i + 1]).value)
  {
    FoldNext(f, columns, i, NegativeStep);
    NegStateStep(f, columns, i, g);
  }

  lemma {:induction false} NegativesPrefix(f: Frame, columns: seq<string>, i: nat)
    requires i <= |columns|
    ensures NegativesToMissing(f, columns[..i]).Ok? <==>
      forall j :: 0 <= j < i ==> columns[j] in f.names && !HasText(Col(f, columns[j]))
    ensures NegativesToMissing(f, columns[..i]).Ok? ==> NegState(f, columns, i, NegativesToMissing(f, columns[..i]).value)
  {
    if i == 0 {
      assert columns[..0] == [];
    } else {
      NegativesPrefix(f, columns, i - 1);
      var prev := NegativesToMissing(f, columns[..i - 1]);
      if prev.Ok? {
        NegativesPrefixStep(f, columns, i - 1, prev.value);
      } else {
        FoldNext(f, columns, i - 1, NegativeStep);
      }
    }
  }

  /** `handle_negative_irradiance` succeeds exactly when every listed column is
      present and text-free (a column listed twice included). It then keeps
      the labels and the rows; each listed column loses its negative readings
      and every other column is unchanged. */
  lemma NegativesResult(f: Frame, columns: seq<string>)
    ensures NegativesToMissing(f, columns).Ok? <==>
      forall c :: c in columns ==> c in f.names && !HasText(Col(f, c))
    ensures NegativesToMissing(f, columns).Ok? ==>
      var g := NegativesToMissing(f, columns).value;
      && g.names == f.names
      && g.height == f.height
      && forall n :: n in f.names ==>
           Col(g, n) == if n in columns then MaskNegatives(Col(f, n)) else Col(f, n)
  {
    NegativesPrefix(f, columns, |columns|);
    assert columns[..|columns|] == columns;
  }

  /** Running `handle_negative_irradiance` a second time on its own output
      changes nothing. */
  lemma NegativesIdempotent(f: Frame, columns: seq<string>)
    requires Distinct(f.names)
    requires NegativesToMissing(f, columns).Ok?
    ensures NegativesToMissing(NegativesToMissing(f, columns).value, columns) == NegativesToMissing(f, columns)
  {
    var g := NegativesToMissing(f, columns).value;
    NegativesResult(f, columns);
    forall c | c in columns
      ensures c in g.names && !HasText(Col(g, c))
    {
      MaskNegativesIdempotent(Col(f, c));
    }
    NegativesResult(g, columns);
    var h := NegativesToMissing(g, columns).value;
    forall n | n in g.names
      ensures Col(g, n) == Col(h, n)
    {
      if n in columns {
        MaskNegativesIdempotent(Col(f, n));
      }
    }
    FrameExt(g, h);
  }

  // ---------------------------------------------------------------------
  // clean_outliers_and_missing
  // ---------------------------------------------------------------------

  function Abs(x: real): real
  {
    if x < 0.0 then -x else x
  }

  /** `z.abs() <= z_threshold` on one cell; `NaN` compares false. */
  function Within(thr: real): Cell -> bool
  {
    (z: Cell) => z.Num? && Abs(z.x) <= thr
  }

  /** The rows `df[df[z_col].abs() <= z_threshold]` keeps. */
  function KeepMask(z: seq<Cell>, thr: real): (m: seq<bool>)
    ensures |m| == |z|
  {
    Map(z, Within(thr))
  }

  /** One pass of the loop for column `col`: the filter on its helper, then
      the fill of the column and the drop of the helper. */
  function CleanStep(g: Frame, col: string, thr: real): Result<Frame>
  {
    match Narrowed(g, col, thr)
    case Err(e) => Err(e)
    case Ok(h) => FillPass(h, col)
  }

  /** `if z_col in df: df = df[df[z_col].abs() <= z_threshold]`; `abs` of a
      text cell raises `TypeError`. */
  function Narrowed(g: Frame, col: string, thr: real): Result<Frame>
  {
    var z := ZName(col);
    if z !in g.names then Ok(g)
    else if HasText(Col(g, z)) then Err(TypeError(z))
    else Ok(Select(g, KeepMask(Col(g, z), thr)))
  }

  /** `df[col]` (absent label: `KeyError`), its median (text: `TypeError`),
      then the fill and the drop of the helper. */
  function FillPass(h: Frame, col: string): Result<Frame>
  {
    if col !in h.names then Err(KeyError(col))
    else if HasText(Col(h, col)) then Err(TypeError(col))
    else Ok(FillAndDrop(h, col))
  }

  /** `df[col] = df[col].fillna(df[col].median())`, then
      `df.drop(columns=z_col, inplace=True, errors='ignore')`. */
  function FillAndDrop(h: Frame, col: string): Frame
    requires col in h.names
  {
    Drop(Assign(h, col, ImputeMedian(Col(h, col))), ZName(col))
  }

  function CleanStepWith(thr: real): (Frame, string) -> Result<Frame>
  {
    (g, col) => CleanStep(g, col, thr)
  }

  /** The frame `clean_outliers_and_missing` returns. */
  function Clean(f: Frame, columns: seq<string>, thr: real): Result<Frame>
  {
    Fold(f, columns, CleanStepWith(thr))
  }

  /** `clean_outliers_and_missing(df, columns, z_threshold=3)`: works on a
      copy (the filter rebinds the local name to a new frame), so `df` is
      untouched. */
  method CleanOutliersAndMissing(df: DataFrame, columns: seq<string>, thr: real := 3.0)
    returns (r: Result<DataFrame>)
    ensures r.Ok? ==> fresh(r.value)
    ensures Yields(r, Clean(df.frame, columns, thr))
  {
    var out := df.Copy();
    var i := 0;
    while i < |columns|
      invariant 0 <= i <= |columns|
      invariant fresh(out)
      invariant Clean(df.frame, columns[..i], thr) == Ok(out.frame)
    {
      var col := columns[i];
      var z := ZName(col);
      var g := out.frame;
      CleanNext(df.frame, columns, thr, i);
      if z in g.names {
        var zc := Col(g, z);
        if HasText(zc) {
          assert CleanStep(g, col, thr) == Err(TypeError(z));
          FoldStops(df.frame, columns, i + 1, CleanStepWith(thr));
          return Err(TypeError(z));
        }
        out := out.Where(KeepMask(zc, thr));
      }
      var h := out.frame;
      assert Narrowed(g, col, thr) == Ok(h);
      if col !in h.names {
        assert CleanStep(g, col, thr) == Err(KeyError(col));
        FoldStops(df.frame, columns, i + 1, CleanStepWith(thr));
        return Err(KeyError(col));
      }
      var c := Col(h, col);
      if HasText(c) {
        assert CleanStep(g, col, thr) == Err(TypeError(col));
        FoldStops(df.frame, columns, i + 1, CleanStepWith(thr));
        return Err(TypeError(col));
      }
      out.SetItem(col, ImputeMedian(c));
      out.DropColumn(z);
      assert out.frame == FillAndDrop(h, col);
      i := i + 1;
    }
    assert columns[..i] == columns;
    r := Ok(out);
  }

  // What the loop computes, stated on the input frame.

  /** `names` without any of `xs`, in the original order. */
  function RemoveAll(names: seq<string>, xs: seq<string>): (r: seq<string>)
    ensures forall n :: n in r <==> n in names && n !in xs
    decreases |xs|
  {
    if |xs| == 0 then names else Remove(RemoveAll(names, xs[..|xs| - 1]), xs[|xs| - 1])
  }

  /** The rows the filter of `col` keeps, judged on the input frame; every
      row when the frame has no helper for `col`. */
  function KeepFor(f: Frame, col: string, thr: real): (m: seq<bool>)
    ensures |m| == f.height
  {
    if ZName(col) in f.names then KeepMask(Col(f, ZName(col)), thr) else Ones(f.height)
  }

  /** The rows that survive the filters of the first `i` columns. */
  function Survivors(f: Frame, cols: seq<string>, thr: real, i: nat): (m: seq<bool>)
    requires i <= |cols|
    ensures |m| == f.height
  {
    if i == 0 then Ones(f.height)
    else And(Survivors(f, cols, thr, i - 1), KeepFor(f, cols[i - 1], thr))
  }

  /** The value the gaps of `cols[j]` get: the median over the rows that
      survive the filters up to and including that of `cols[j]`. */
  function FillValue(f: Frame, cols: seq<string>, thr: real, j: nat): Option<real>
    requires j < |cols| && cols[j] in f.names
  {
    Median(Values(Mask(Col(f, cols[j]), Survivors(f, cols, thr, j + 1))))
  }

  /** No text in the rows the mask keeps. */
  predicate TextFreeOn(c: seq<Cell>, keep: seq<bool>)
    requires |c| == |keep|
  {
    |c| == 0 || ((keep[0] ==> !c[0].Text?) && TextFreeOn(c[1..], keep[1..]))
  }

  /** The filtered column has text exactly when a kept row holds text. */
  lemma {:induction false} TextFreeOnMask(c: seq<Cell>, keep: seq<bool>)
    requires |c| == |keep|
    ensures TextFreeOn(c, keep) <==> !HasText(Mask(c, keep))
  {
    if |c| > 0 {
      TextFreeOnMask(c[1..], keep[1..]);
      var rest := Mask(c[1..], keep[1..]);
      var m := Mask(c, keep);
      if keep[0] {
        assert m == [c[0]] + rest;
        assert m[0] == c[0];
        if HasText(rest) {
          var k :| 0 <= k < |rest| && rest[k].Text?;
          assert m[k + 1].Text?;
        }
        if HasText(m) && !c[0].Text? {
          var k :| 0 <= k < |m| && m[k].Text?;
          assert rest[k - 1].Text?;
        }
      } else {
        assert m == rest;
      }
    }
  }

  /** The same, row by row. */
  lemma {:induction false} TextFreeOnRows(c: seq<Cell>, keep: seq<bool>)
    requires |c| == |keep|
    ensures TextFreeOn(c, keep) <==> forall k :: 0 <= k < |c| && keep[k] ==> !c[k].Text?
  {
    if |c| > 0 {
      TextFreeOnRows(c[1..], keep[1..]);
      if TextFreeOn(c, keep) {
        forall k | 0 <= k < |c| && keep[k]
          ensures !c[k].Text?
        {
          if k > 0 {
            assert keep[1..][k - 1] && c[1..][k - 1] == c[k];
          }
        }
      } else if keep[0] ==> !c[0].Text? {
        var k :| 0 <= k < |c| - 1 && keep[1..][k] && c[1..][k].Text?;
        assert keep[k + 1] && c[k + 1].Text?;
      }
    }
  }

  /** Pass `j` goes through: the helper (if any) is text-free on the rows
      that reach it, and the column is present and text-free on the rows that
      survive its filter. */
  predicate StepOk(f: Frame, cols: seq<string>, thr: real, j: nat)
    requires j < |cols|
  {
    && (ZName(cols[j]) in f.names ==> TextFreeOn(Col(f, ZName(cols[j])), Survivors(f, cols, thr, j)))
    && cols[j] in f.names
    && TextFreeOn(Col(f, cols[j]), Survivors(f, cols, thr, j + 1))
  }

  /** Which passes go through. */
  function Passes(f: Frame, cols: seq<string>, thr: real): nat -> bool
  {
    (j: nat) => j < |cols| && StepOk(f, cols, thr, j)
  }

  /** The columns are distinct and none is the helper of another: the shape
      the notebooks call it with. */
  predicate Plain(cols: seq<string>)
  {
    && Distinct(cols)
    && forall a, b :: a in cols && b in cols ==> ZName(a) != b
  }

  /** The frame once `done` columns are filled and their helpers dropped, and
      the rows filtered by the first `seen` helpers. */
  predicate Shape(f: Frame, cols: seq<string>, thr: real, done: nat, seen: nat, g: Frame)
    requires done <= seen <= |cols|
  {
    var keep := Survivors(f, cols, thr, seen);
    && g.names == RemoveAll(f.names, ZNames(cols[..done]))
    && g.height == CountTrue(keep)
    && (forall n :: n in g.names && n !in cols[..done] ==> Col(g, n) == Mask(Col(f, n), keep))
    && (forall j :: 0 <= j < done ==>
          && cols[j] in f.names && cols[j] in g.names
          && Col(g, cols[j]) == FillMissing(Mask(Col(f, cols[j]), keep), FillValue(f, cols, thr, j)))
  }

  lemma CleanNext(f: Frame, cols: seq<string>, thr: real, i: nat)
    requires i < |cols|
    ensures Clean(f, cols[..i + 1], thr) ==
      match Clean(f, cols[..i], thr)
      case Err(e) => Err(e)
      case Ok(g) => CleanStep(g, cols[i], thr)
  {
    FoldNext(f, cols, i, CleanStepWith(thr));
  }

  lemma RemoveAllNext(names: seq<string>, cols: seq<string>, i: nat)
    requires i < |cols|
    ensures RemoveAll(names, ZNames(cols[..i + 1])) == Remove(RemoveAll(names, ZNames(cols[..i])), ZName(cols[i]))
  {
    ZNamesPrefix(cols, i);
    var xs := ZNames(cols[..i + 1]);
    assert xs[..|xs| - 1] == ZNames(cols[..i]);
  }

  /** No listed column is among the helpers of the listed columns, and the
      helper of `cols[i]` is not among those of the columns before it. */
  lemma NotAHelper(cols: seq<string>, i: nat, done: nat)
    requires Plain(cols) && i < |cols| && done <= |cols|
    ensures cols[i] !in ZNames(cols[..done])
    ensures i >= done ==> ZName(cols[i]) !in ZNames(cols[..done])
    ensures cols[i] !in cols[..i]
  {
    var zs := ZNames(cols[..done]);
    forall j | 0 <= j < done
      ensures zs[j] != cols[i] && (i >= done ==> zs[j] != ZName(cols[i]))
    {
      assert cols[j] in cols && cols[i] in cols;
      ZNameInjective(cols[j], cols[i]);
    }
  }

  /** Without a helper in the frame, the pass filters nothing. */
  lemma NoFilterShape(f: Frame, cols: seq<string>, thr: real, i: nat, g: Frame)
    requires Plain(cols) && i < |cols| && Shape(f, cols, thr, i, i, g)
    requires ZName(cols[i]) !in g.names
    ensures ZName(cols[i]) !in f.names
    ensures Shape(f, cols, thr, i, i + 1, g)
  {
    NotAHelper(cols, i, i);
    AndOnes(Survivors(f, cols, thr, i));
  }

  /** The helper, read on the frame so far, is the input's helper on the rows
      kept so far. */
  lemma HelperSoFar(f: Frame, cols: seq<string>, thr: real, i: nat, g: Frame)
    requires Plain(cols) && i < |cols| && Shape(f, cols, thr, i, i, g)
    requires ZName(cols[i]) in g.names
    ensures ZName(cols[i]) in f.names
    ensures Col(g, ZName(cols[i])) == Mask(Col(f, ZName(cols[i])), Survivors(f, cols, thr, i))
  {
    NotAHelper(cols, i, i);
    var z := ZName(cols[i]);
    forall j | 0 <= j < i
      ensures cols[j] != z
    {
      assert cols[j] in cols && cols[i] in cols;
    }
    assert z !in cols[..i];
  }

  /** With a helper in the frame, the pass narrows every column to the rows
      whose score is within the threshold. */
  lemma FilterShape(f: Frame, cols: seq<string>, thr: real, i: nat, g: Frame)
    requires Plain(cols) && i < |cols| && Shape(f, cols, thr, i, i, g)
    requires ZName(cols[i]) in g.names
    ensures Shape(f, cols, thr, i, i + 1, Select(g, KeepMask(Col(g, ZName(cols[i])), thr)))
  {
    var z := ZName(cols[i]);
    HelperSoFar(f, cols, thr, i, g);
    var keep := Survivors(f, cols, thr, i);
    var k := KeepFor(f, cols[i], thr);
    var narrow := KeepMask(Col(g, z), thr);
    MapMask(Col(f, z), keep, Within(thr));
    assert narrow == Mask(k, keep);
    var h := Select(g, narrow);
    CountTrueMask(keep, k);
    forall n | n in h.names && n !in cols[..i]
      ensures Col(h, n) == Mask(Col(f, n), And(keep, k))
    {
      MaskOfMask(Col(f, n), keep, k);
    }
    forall j | 0 <= j < i
      ensures Col(h, cols[j]) == FillMissing(Mask(Col(f, cols[j]), And(keep, k)), FillValue(f, cols, thr, j))
    {
      var c := Col(f, cols[j]);
      MaskFillMissing(Mask(c, keep), narrow, FillValue(f, cols, thr, j));
      MaskOfMask(c, keep, k);
    }
  }

  lemma InPrefixNext(cols: seq<string>, i: nat)
    requires i < |cols|
    ensures forall x :: x in cols[..i + 1] <==> x in cols[..i] || x == cols[i]
  {
    assert cols[..i + 1] == cols[..i] + [cols[i]];
  }

  /** The fill and the drop of the helper complete pass `i`. */
  lemma FillShape(f: Frame, cols: seq<string>, thr: real, i: nat, h: Frame)
    requires Plain(cols) && i < |cols| && Shape(f, cols, thr, i, i + 1, h)
    requires cols[i] in h.names
    ensures cols[i] in f.names
    ensures Col(h, cols[i]) == Mask(Col(f, cols[i]), Survivors(f, cols, thr, i + 1))
    ensures Shape(f, cols, thr, i + 1, i + 1, FillAndDrop(h, cols[i]))
  {
    NotAHelper(cols, i, i);
    InPrefixNext(cols, i);
    RemoveAllNext(f.names, cols, i);
    FillKeeps(f, cols, thr, i, h);
    FillDone(f, cols, thr, i, h);
  }

  /** Columns outside the listed ones keep their (filtered) cells. */
  lemma FillKeeps(f: Frame, cols: seq<string>, thr: real, i: nat, h: Frame)
    requires Plain(cols) && i < |cols| && Shape(f, cols, thr, i, i + 1, h)
    requires cols[i] in h.names
    ensures forall n :: n in FillAndDrop(h, cols[i]).names && n !in cols[..i + 1] ==>
      n in f.names && Col(FillAndDrop(h, cols[i]), n) == Mask(Col(f, n), Survivors(f, cols, thr, i + 1))
  {
    var col, z := cols[i], ZName(cols[i]);
    var a := Assign(h, col, ImputeMedian(Col(h, col)));
    InPrefixNext(cols, i);
    forall n | n in Drop(a, z).names && n !in cols[..i + 1]
      ensures n in f.names && Col(Drop(a, z), n) == Mask(Col(f, n), Survivors(f, cols, thr, i + 1))
    {
      DropCol(a, z, n);
    }
  }

  /** The listed columns handled so far hold their filled cells. */
  lemma FillDone(f: Frame, cols: seq<string>, thr: real, i: nat, h: Frame)
    requires Plain(cols) && i < |cols| && Shape(f, cols, thr, i, i + 1, h)
    requires cols[i] in h.names
    ensures forall j :: 0 <= j < i + 1 ==>
      && cols[j] in f.names && cols[j] in FillAndDrop(h, cols[i]).names
      && Col(FillAndDrop(h, cols[i]), cols[j]) == FillMissing(Mask(Col(f, cols[j]), Survivors(f, cols, thr, i + 1)), FillValue(f, cols, thr, j))
  {
    var col, z := cols[i], ZName(cols[i]);
    var keep := Survivors(f, cols, thr, i + 1);
    NotAHelper(cols, i, i);
    var a := Assign(h, col, ImputeMedian(Col(h, col)));
    var e := Drop(a, z);
    assert Col(h, col) == Mask(Col(f, col), keep);
    assert Col(a, col) == FillMissing(Mask(Col(f, col), keep), FillValue(f, cols, thr, i));
    forall j | 0 <= j < i + 1
      ensures cols[j] in f.names && cols[j] in e.names
      ensures Col(e, cols[j]) == FillMissing(Mask(Col(f, cols[j]), keep), FillValue(f, cols, thr, j))
    {
      assert cols[j] in cols && col in cols;
      DropCol(a, z, cols[j]);
      if j < i {
        assert cols[j] != col;
        assert Col(a, cols[j]) == Col(h, cols[j]);
      }
    }
  }

  lemma CleanStepShape(f: Frame, cols: seq<string>, thr: real, i: nat, g: Frame)
    requires Plain(cols) && i < |cols| && Shape(f, cols, thr, i, i, g)
    ensures CleanStep(g, cols[i], thr).Ok? <==> StepOk(f, cols, thr, i)
    ensures CleanStep(g, cols[i], thr).Ok? ==> Shape(f, cols, thr, i + 1, i + 1, CleanStep(g, cols[i], thr).value)
  {
    var col, z := cols[i], ZName(cols[i]);
    var h := if z in g.names then Select(g, KeepMask(Col(g, z), thr)) else g;
    if z in g.names {
      HelperSoFar(f, cols, thr, i, g);
      TextFreeOnMask(Col(f, z), Survivors(f, cols, thr, i));
      if !HasText(Col(g, z)) {
        FilterShape(f, cols, thr, i, g);
      }
    } else {
      NoFilterShape(f, cols, thr, i, g);
    }
    if z in g.names ==> !HasText(Col(g, z)) {
      NotAHelper(cols, i, i);
      assert col in h.names <==> col in f.names;
      if col in h.names {
        FillShape(f, cols, thr, i, h);
        TextFreeOnMask(Col(f, col), Survivors(f, cols, thr, i + 1));
      }
    }
  }

  /** Before the loop: every row, every label, nothing filled. */
  lemma ShapeStart(f: Frame, cols: seq<string>, thr: real)
    ensures Clean(f, cols[..0], thr) == Ok(f)
    ensures Shape(f, cols, thr, 0, 0, f)
  {
    assert cols[..0] == [];
    assert ZNames([]) == [];
    CountTrueOnes(f.height);
    forall n | n in f.names
      ensures Col(f, n) == Mask(Col(f, n), Ones(f.height))
    {
      MaskOnes(Col(f, n));
    }
  }

  /** One more pass, read on the input frame. */
  lemma CleanPrefixStep(f: Frame, cols: seq<string>, thr: real, i: nat, g: Frame)
    requires Plain(cols) && i < |cols|
    requires Clean(f, cols[..i], thr) == Ok(g) && Shape(f, cols, thr, i, i, g)
    ensures Clean(f, cols[..i + 1], thr).Ok? <==> StepOk(f, cols, thr, i)
    ensures Clean(f, cols[..i + 1], thr).Ok? ==> Shape(f, cols, thr, i + 1, i + 1, Clean(f, cols[..i + 1], thr).value)
  {
    CleanNext(f, cols, thr, i);
    CleanStepShape(f, cols, thr, i, g);
  }

  lemma {:induction false} CleanPrefix(f: Frame, cols: seq<string>, thr: real, i: nat)
    requires Plain(cols) && i <= |cols|
    ensures Clean(f, cols[..i], thr).Ok? <==> AllBelow(Passes(f, cols, thr), i)
    ensures Clean(f, cols[..i], thr).Ok? ==> Shape(f, cols, thr, i, i, Clean(f, cols[..i], thr).value)
  {
    if i == 0 {
      ShapeStart(f, cols, thr);
    } else {
      CleanPrefix(f, cols, thr, i - 1);
      var prev := Clean(f, cols[..i - 1], thr);
      if prev.Ok? {
        CleanPrefixStep(f, cols, thr, i - 1, prev.value);
      } else {
        CleanNext(f, cols, thr, i - 1);
      }
    }
  }

  /** `clean_outliers_and_missing` succeeds exactly when every pass does. It
      then returns the input's labels without the helpers of the listed
      columns, keeps exactly the rows that pass every filter (`Survivors`), leaves
      the cells of the other columns as they were on those rows, and fills
      each listed column's gaps with its median over the rows that reached
      its own pass. */
  lemma CleanResult(f: Frame, cols: seq<string>, thr: real)
    requires Plain(cols)
    ensures Clean(f, cols, thr).Ok? <==> forall j :: 0 <= j < |cols| ==> StepOk(f, cols, thr, j)
    ensures Clean(f, cols, thr).Ok? ==>
      var g, keep := Clean(f, cols, thr).value, Survivors(f, cols, thr, |cols|);
      && g.names == RemoveAll(f.names, ZNames(cols))
      && g.height == CountTrue(keep)
      && (forall n :: n in g.names && n !in cols ==> Col(g, n) == Mask(Col(f, n), keep))
      && (forall j :: 0 <= j < |cols| ==>
            && cols[j] in f.names && cols[j] in g.names
            && Col(g, cols[j]) == FillMissing(Mask(Col(f, cols[j]), keep), FillValue(f, cols, thr, j)))
  {
    var p := Passes(f, cols, thr);
    assert cols[..|cols|] == cols;
    CleanPrefix(f, cols, thr, |cols|);
    assert AllBelow(p, |cols|) <==> forall j :: 0 <= j < |cols| ==> StepOk(f, cols, thr, j) by {
      AllBelowForall(p, |cols|);
      forall j | 0 <= j < |cols|
        ensures p(j) == StepOk(f, cols, thr, j)
      {
      }
    }
  }

  /** Whether row `r` passes the filter of `cols[j]`. */
  function PassesAt(f: Frame, cols: seq<string>, thr: real, r: nat): nat -> bool
  {
    (j: nat) => j < |cols| && r < f.height && (ZName(cols[j]) in f.names ==> Within(thr)(Col(f, ZName(cols[j]))[r]))
  }

  lemma {:induction false} SurvivorsPass(f: Frame, cols: seq<string>, thr: real, i: nat, r: nat)
    requires i <= |cols| && r < f.height
    ensures Survivors(f, cols, thr, i)[r] == AllBelow(PassesAt(f, cols, thr, r), i)
  {
    if i > 0 {
      SurvivorsPass(f, cols, thr, i - 1, r);
      assert KeepFor(f, cols[i - 1], thr)[r] == PassesAt(f, cols, thr, r)(i - 1);
    }
  }

  /** A row survives exactly when, for every listed column whose helper the
      input has, the helper holds a number within the threshold in that row. */
  lemma SurvivorRows(f: Frame, cols: seq<string>, thr: real, i: nat, r: nat)
    requires i <= |cols| && r < f.height
    ensures Survivors(f, cols, thr, i)[r] <==>
      forall j :: 0 <= j < i && ZName(cols[j]) in f.names ==> Within(thr)(Col(f, ZName(cols[j]))[r])
  {
    var p := PassesAt(f, cols, thr, r);
    SurvivorsPass(f, cols, thr, i, r);
    AllBelowForall(p, i);
    assert (forall j: nat :: j < i ==> p(j)) <==>
      forall j :: 0 <= j < i && ZName(cols[j]) in f.names ==> Within(thr)(Col(f, ZName(cols[j]))[r]);
  }

  /** After the call no helper column of a processed column remains, whether
      or not it was there to begin with. */
  lemma CleanDropsHelpers(f: Frame, cols: seq<string>, thr: real)
    requires Plain(cols) && Clean(f, cols, thr).Ok?
    ensures forall j :: 0 <= j < |cols| ==> ZName(cols[j]) !in Clean(f, cols, thr).value.names
  {
    CleanResult(f, cols, thr);
    forall j | 0 <= j < |cols|
      ensures ZName(cols[j]) in ZNames(cols)
    {
      assert ZNames(cols)[j] == ZName(cols[j]);
    }
  }

  /** The median of column `cols[j]` exists exactly when a row that survives
      its filter holds a number in it. */
  lemma FillValueExists(f: Frame, cols: seq<string>, thr: real, j: nat)
    requires j < |cols| && cols[j] in f.names
    ensures FillValue(f, cols, thr, j).Some? <==>
      exists r :: 0 <= r < f.height && Survivors(f, cols, thr, j + 1)[r] && Col(f, cols[j])[r].Num?
  {
    var c, keep := Col(f, cols[j]), Survivors(f, cols, thr, j + 1);
    var kept := Mask(c, keep);
    if exists r :: 0 <= r < f.height && keep[r] && c[r].Num? {
      var r :| 0 <= r < f.height && keep[r] && c[r].Num?;
      InMask(c, keep, c[r]);
      var k :| 0 <= k < |kept| && kept[k] == c[r];
      ValuesComplete(kept, k);
    }
    if |Values(kept)| > 0 {
      ValuesSound(kept, Values(kept)[0]);
      var k :| 0 <= k < |kept| && kept[k] == Num(Values(kept)[0]);
      InMask(c, keep, kept[k]);
    }
  }

  /** A processed column whose median exists at its step has no missing cell
      in the result: the later steps only remove rows. */
  lemma CleanFillsGaps(f: Frame, cols: seq<string>, thr: real, j: nat)
    requires Plain(cols) && Clean(f, cols, thr).Ok? && j < |cols|
    requires cols[j] in f.names && FillValue(f, cols, thr, j).Some?
    ensures cols[j] in Clean(f, cols, thr).value.names
    ensures NoMissing(Col(Clean(f, cols, thr).value, cols[j]))
  {
    CleanResult(f, cols, thr);
    var keep := Survivors(f, cols, thr, |cols|);
    FillMissingSpec(Mask(Col(f, cols[j]), keep), FillValue(f, cols, thr, j));
  }
}
