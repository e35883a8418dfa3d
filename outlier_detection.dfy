/** `compute_z_scores` of scripts/outlier_detection.py: for every listed
    column, a helper column `{col}_zscore` holding scipy's standard score of
    the column after its missing cells are filled with the column's median.
    The square root inside `zscore` is a parameter `sqrt`. */
module OutlierDetection {
  import opened Seqs
  import opened Stats
  import opened Frames

  /** The helper column `f'{col}_zscore'`. */
  function ZName(col: string): (z: string)
    ensures |z| == |col| + 7 && z[..|col|] == col
  {
    col + "_zscore"
  }

  /** Distinct columns have distinct helpers, and no helper is its own column. */
  lemma ZNameInjective(a: string, b: string)
    ensures ZName(a) == ZName(b) ==> a == b
    ensures ZName(a) != a
  {
    if ZName(a) == ZName(b) {
      assert a == ZName(a)[..|a|] == ZName(b)[..|b|] == b;
    }
  }

  /** The helpers of a list of columns, in order. */
  function ZNames(cols: seq<string>): (zs: seq<string>)
    ensures |zs| == |cols| && forall j :: 0 <= j < |cols| ==> zs[j] == ZName(cols[j])
  {
    seq(|cols|, j requires 0 <= j < |cols| => ZName(cols[j]))
  }

  /** The readings `zscore` sees: the column with its gaps filled by the median. */
  function Filled(c: seq<Cell>): (xs: seq<real>)
  {
    Values(ImputeMedian(c))
  }

  /** The population variance of the filled readings (0 for none). */
  function FilledVariance(c: seq<Cell>): real
  {
    if |Filled(c)| == 0 then 0.0 else PopVariance(Filled(c))
  }

  /** The population standard deviation that `zscore` divides by. */
  function Deviation(c: seq<Cell>, sqrt: real -> real): real
  {
    sqrt(FilledVariance(c))
  }

  /** `zscore(c.fillna(c.median()))` with scipy's defaults (`ddof=0`, NaN
      propagated): a column that is still not all numbers after the fill, or
      has zero deviation, scores NaN in every row. */
  function ZScoreColumn(c: seq<Cell>, sqrt: real -> real): (z: seq<Cell>)
    ensures |z| == |c|
  {
    var xs := Filled(c);
    if |xs| == 0 || |xs| != |c| || FilledVariance(c) == 0.0 || Deviation(c, sqrt) == 0.0 then
      Repeat(Missing, |c|)
    else
      Scores(xs, Deviation(c, sqrt))
  }

  /** The standard scores of `xs` against deviation `sd`, as cells. */
  function Scores(xs: seq<real>, sd: real): (z: seq<Cell>)
    requires |xs| > 0 && sd != 0.0
    ensures |z| == |xs|
  {
    var zs := Standardize(xs, Mean(xs), sd);
    seq(|xs|, i requires 0 <= i < |xs| => Num(zs[i]))
  }

  /** Row `i` scores `(x - mean) / sd`, where `x` is the reading in that row. */
  lemma ScoresAt(xs: seq<real>, sd: real, i: nat, x: real)
    requires |xs| > 0 && sd != 0.0 && i < |xs| && xs[i] == x
    ensures Scores(xs, sd)[i] == Num(Score(x, Mean(xs), sd))
  {
    StandardizeAt(xs, Mean(xs), sd, i);
  }

  /** Where the variance and the deviation are both nonzero, the helper column
      is the score column. */
  lemma ZScoreColumnScores(c: seq<Cell>, sqrt: real -> real)
    requires !HasText(c) && |Values(c)| > 0
    requires FilledVariance(c) != 0.0 && Deviation(c, sqrt) != 0.0
    ensures |Filled(c)| == |c| > 0
    ensures ZScoreColumn(c, sqrt) == Scores(Filled(c), Deviation(c, sqrt))
  {
    FilledComplete(c);
  }

  /** A text-free column with at least one reading is all numbers once filled. */
  lemma FilledComplete(c: seq<Cell>)
    requires !HasText(c) && |Values(c)| > 0
    ensures |Filled(c)| == |c|
    ensures forall i :: 0 <= i < |c| ==> ImputeMedian(c)[i].Num? && Filled(c)[i] == ImputeMedian(c)[i].x
  {
    FillMissingSpec(c, Median(Values(c)));
    ValuesAllNum(ImputeMedian(c));
  }

  /** The filled readings: a reading stays, a gap becomes the median. */
  lemma FilledAt(c: seq<Cell>, i: nat)
    requires !HasText(c) && |Values(c)| > 0 && i < |c|
    ensures |Filled(c)| == |c|
    ensures c[i].Num? ==> Filled(c)[i] == c[i].x
    ensures c[i].Missing? ==> Filled(c)[i] == Median(Values(c)).value
  {
    FilledComplete(c);
    FillMissingSpec(c, Median(Values(c)));
  }

  /** A gap in the column scores as its median does: the median is filled in
      before standardising. */
  lemma ZScoreOfGap(c: seq<Cell>, sqrt: real -> real, i: nat)
    requires !HasText(c) && |Values(c)| > 0 && i < |c| && c[i].Missing?
    requires FilledVariance(c) != 0.0 && Deviation(c, sqrt) != 0.0
    ensures |Filled(c)| > 0
    ensures ZScoreColumn(c, sqrt)[i] == Num(Score(Median(Values(c)).value, Mean(Filled(c)), Deviation(c, sqrt)))
  {
    var xs, sd, m := Filled(c), Deviation(c, sqrt), Median(Values(c)).value;
    assert ZScoreColumn(c, sqrt) == Scores(xs, sd) by {
      ZScoreColumnScores(c, sqrt);
    }
    assert Scores(xs, sd)[i] == Num(Score(m, Mean(xs), sd)) by {
      ZScoreColumnScores(c, sqrt);
      FilledAt(c, i);
      ScoresAt(xs, sd, i, m);
    }
  }

  /** The scores of the helper column, read back as numbers. */
  lemma ZScoreValues(c: seq<Cell>, sqrt: real -> real)
    requires !HasText(c) && |Values(c)| > 0
    requires FilledVariance(c) != 0.0 && Deviation(c, sqrt) != 0.0
    ensures Values(ZScoreColumn(c, sqrt)) == Standardize(Filled(c), Mean(Filled(c)), Deviation(c, sqrt))
  {
    ZScoreColumnScores(c, sqrt);
    ValuesAllNum(Scores(Filled(c), Deviation(c, sqrt)));
  }

  /** The scores of a column sum to zero and their squares sum to the number
      of rows: mean 0 and unit (population) variance. */
  lemma ZScoresStandardized(c: seq<Cell>, sqrt: real -> real)
    requires !HasText(c) && |Values(c)| > 0
    requires Deviation(c, sqrt) > 0.0 && Sq(Deviation(c, sqrt)) == FilledVariance(c)
    ensures Sum(Values(ZScoreColumn(c, sqrt))) == 0.0
    ensures Sum(Squares(Values(ZScoreColumn(c, sqrt)))) == |c| as real
  {
    SqPositive(Deviation(c, sqrt));
    ZScoreValues(c, sqrt);
    FilledComplete(c);
    ZScoresSumToZero(Filled(c), Deviation(c, sqrt));
    ZScoresUnitVariance(Filled(c), Deviation(c, sqrt));
  }

  /** Scores keep the order of the readings, and a reading equal to the mean
      of the filled column scores 0. */
  lemma ZScoresOrdered(c: seq<Cell>, sqrt: real -> real, i: nat, j: nat)
    requires !HasText(c) && |Values(c)| > 0 && i < |c| && j < |c|
    requires FilledVariance(c) != 0.0 && Deviation(c, sqrt) > 0.0
    requires c[i].Num? && c[j].Num?
    ensures ZScoreColumn(c, sqrt)[i].Num? && ZScoreColumn(c, sqrt)[j].Num?
    ensures c[i].x <= c[j].x ==> ZScoreColumn(c, sqrt)[i].x <= ZScoreColumn(c, sqrt)[j].x
    ensures c[i].x == Mean(Filled(c)) ==> ZScoreColumn(c, sqrt)[i].x == 0.0
  {
    ZScoreColumnScores(c, sqrt);
    FilledAt(c, i);
    FilledAt(c, j);
    ScoresAt(Filled(c), Deviation(c, sqrt), i, Filled(c)[i]);
    ScoresAt(Filled(c), Deviation(c, sqrt), j, Filled(c)[j]);
    ZScoresMonotone(Filled(c), Deviation(c, sqrt), i, j);
    StandardizeAt(Filled(c), Mean(Filled(c)), Deviation(c, sqrt), i);
    StandardizeAt(Filled(c), Mean(Filled(c)), Deviation(c, sqrt), j);
  }

  /** One pass of the loop: `df[col]` (absent label: `KeyError`), its median
      (text: `TypeError`), then `df[f'{col}_zscore'] = ...`. */
  function ZScoreStep(g: Frame, col: string, sqrt: real -> real): Result<Frame>
  {
    if col !in g.names then Err(KeyError(col))
    else if HasText(Col(g, col)) then Err(TypeError(col))
    else Ok(Assign(g, ZName(col), ZScoreColumn(Col(g, col), sqrt)))
  }

  function ZScoreStepWith(sqrt: real -> real): (Frame, string) -> Result<Frame>
  {
    (g, col) => ZScoreStep(g, col, sqrt)
  }

  /** The frame `compute_z_scores` returns. */
  function ZScores(f: Frame, columns: seq<string>, sqrt: real -> real): Result<Frame>
  {
    Fold(f, columns, ZScoreStepWith(sqrt))
  }

  /** `compute_z_scores(df, columns)`: works on a copy, so `df` is untouched. */
  method ComputeZScores(df: DataFrame, columns: seq<string>, sqrt: real -> real) returns (r: Result<DataFrame>)
    ensures r.Ok? ==> fresh(r.value)
    ensures Yields(r, ZScores(df.frame, columns, sqrt))
  {
    var out := df.Copy();
    var i := 0;
    while i < |columns|
      invariant 0 <= i <= |columns|
      invariant fresh(out)
      invariant ZScores(df.frame, columns[..i], sqrt) == Ok(out.frame)
    {
      var col := columns[i];
      FoldNext(df.frame, columns, i, ZScoreStepWith(sqrt));
      if col !in out.frame.names {
        FoldStops(df.frame, columns, i + 1, ZScoreStepWith(sqrt));
        return Err(KeyError(col));
      }
      var c := Col(out.frame, col);
      if HasText(c) {
        FoldStops(df.frame, columns, i + 1, ZScoreStepWith(sqrt));
        return Err(TypeError(col));
      }
      out.SetItem(ZName(col), ZScoreColumn(c, sqrt));
      i := i + 1;
    }
    assert columns[..i] == columns;
    r := Ok(out);
  }

  /** The columns are distinct, present in neither helper form in the frame,
      and none is the helper of another: the shape the notebooks call it with. */
  predicate FreshHelpers(f: Frame, columns: seq<string>)
  {
    && Distinct(columns)
    && (forall c :: c in columns ==> ZName(c) !in f.names)
    && (forall a, b :: a in columns && b in columns ==> ZName(a) != b)
  }

  /** The state after `i` passes. */
  predicate ZState(f: Frame, columns: seq<string>, sqrt: real -> real, i: nat, g: Frame)
    requires i <= |columns|
  {
    && g.names == f.names + ZNames(columns[..i])
    && g.height == f.height
    && (forall n :: n in f.names ==> Col(g, n) == Col(f, n))
    && (forall c :: c in columns[..i] ==> c in f.names)
    && (forall c :: c in columns[..i] ==> Col(g, ZName(c)) == ZScoreColumn(Col(f, c), sqrt))
  }

  lemma ZNamesPrefix(columns: seq<string>, i: nat)
    requires i < |columns|
    ensures ZNames(columns[..i + 1]) == ZNames(columns[..i]) + [ZName(columns[i])]
  {
  }

  /** Neither a listed column nor its helper is among the helpers added so far. */
  lemma HelpersSoFar(f: Frame, columns: seq<string>, i: nat)
    requires FreshHelpers(f, columns) && i < |columns|
    ensures columns[i] !in ZNames(columns[..i]) && ZName(columns[i]) !in ZNames(columns[..i])
    ensures ZName(columns[i]) !in f.names
  {
    var col := columns[i];
    forall j | 0 <= j < i
      ensures ZNames(columns[..i])[j] != col && ZNames(columns[..i])[j] != ZName(col)
    {
      assert columns[j] in columns && col in columns;
      ZNameInjective(columns[j], col);
    }
  }

  lemma ZStateAssign(f: Frame, columns: seq<string>, sqrt: real -> real, i: nat, g: Frame)
    requires FreshHelpers(f, columns) && i < |columns| && ZState(f, columns, sqrt, i, g)
    requires columns[i] in f.names
    ensures ZName(columns[i]) !in g.names
    ensures ZState(f, columns, sqrt, i + 1, Assign(g, ZName(columns[i]), ZScoreColumn(Col(f, columns[i]), sqrt)))
  {
    var col := columns[i];
    var z := ZName(col);
    HelpersSoFar(f, columns, i);
    ZNamesPrefix(columns, i);
    var g' := Assign(g, z, ZScoreColumn(Col(f, col), sqrt));
    assert columns[..i + 1] == columns[..i] + [col];
    forall c | c in columns[..i]
      ensures Col(g', ZName(c)) == ZScoreColumn(Col(f, c), sqrt)
    {
      assert c in columns && col in columns;
      ZNameInjective(c, col);
      assert ZName(c) != z;
    }
  }

  lemma ZStateStep(f: Frame, columns: seq<string>, sqrt: real -> real, i: nat, g: Frame)
    requires FreshHelpers(f, columns) && i < |columns| && ZState(f, columns, sqrt, i, g)
    ensures ZScoreStep(g, columns[i], sqrt).Ok? <==> columns[i] in f.names && !HasText(Col(f, columns[i]))
    ensures ZScoreStep(g, columns[i], sqrt).Ok? ==> ZState(f, columns, sqrt, i + 1, ZScoreStep(g, columns[i], sqrt).value)
  {
    HelpersSoFar(f, columns, i);
    if columns[i] in f.names {
      ZStateAssign(f, columns, sqrt, i, g);
    }
  }

  lemma {:induction false} ZScoresPrefix(f: Frame, columns: seq<string>, sqrt: real -> real, i: nat)
    requires FreshHelpers(f, columns) && i <= |columns|
    ensures ZScores(f, columns[..i], sqrt).Ok? <==>
      forall j :: 0 <= j < i ==> columns[j] in f.names && !HasText(Col(f, columns[j]))
    ensures ZScores(f, columns[..i], sqrt).Ok? ==> ZState(f, columns, sqrt, i, ZScores(f, columns[..i], sqrt).value)
  {
    if i == 0 {
      assert columns[..0] == [];
      assert ZNames([]) == [];
    } else {
      ZScoresPrefix(f, columns, sqrt, i - 1);
      FoldNext(f, columns, i - 1, ZScoreStepWith(sqrt));
      var prev := ZScores(f, columns[..i - 1], sqrt);
      if prev.Ok? {
        ZStateStep(f, columns, sqrt, i - 1, prev.value);
      }
    }
  }

  /** `compute_z_scores` succeeds exactly when every listed column is present
      and text-free. It then keeps every original column (gaps included) as it
      was and appends one helper per listed column, in the listed order, holding
      that column's scores; the row count is unchanged. */
  lemma ZScoresResult(f: Frame, columns: seq<string>, sqrt: real -> real)
    requires FreshHelpers(f, columns)
    ensures ZScores(f, columns, sqrt).Ok? <==>
      forall c :: c in columns ==> c in f.names && !HasText(Col(f, c))
    ensures ZScores(f, columns, sqrt).Ok? ==>
      var g := ZScores(f, columns, sqrt).value;
      && g.names == f.names + ZNames(columns)
      && g.height == f.height
      && (forall n :: n in f.names ==> Col(g, n) == Col(f, n))
      && (forall c :: c in columns ==> Col(g, ZName(c)) == ZScoreColumn(Col(f, c), sqrt))
  {
    ZScoresPrefix(f, columns, sqrt, |columns|);
    assert columns[..|columns|] == columns;
    if ZScores(f, columns, sqrt).Ok? {
      forall c | c in columns
        ensures c in f.names
      {
        var j :| 0 <= j < |columns| && columns[j] == c;
      }
    }
  }
}
