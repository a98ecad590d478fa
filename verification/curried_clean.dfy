/**
  The curried column cleaners of dataframe/clean.py: the same six operations as
  philosofool/dataframe/clean.py, each wrapped by `df_composable`, so that the arguments
  come first and the frame last, ready to be chained into a pipeline of frame transforms.
*/
module CurriedClean {
  import opened Wrappers
  import FrameClean

  type Frame<V> = FrameClean.Frame<V>

  /** `col_strip(string, columns)(df)`. */
  function ColStrip<V(!new)>(chars: string, columns: Option<seq<string>>): (internal: Frame<V> -> Frame<V>)
    ensures forall df :: internal(df) == FrameClean.ColStrip(df, chars, columns)
  {
    FrameClean.DfComposable(
      (df: Frame<V>, args: (string, Option<seq<string>>)) => FrameClean.ColStrip(df, args.0, args.1)
    )((chars, columns))
  }

  /** `col_replace(old, new, columns, count)(df)`. */
  function ColReplace<V(!new)>(pattern: string, replacement: string, columns: Option<seq<string>>, count: int): (internal: Frame<V> -> Frame<V>)
    ensures forall df :: internal(df) == FrameClean.ColReplace(df, pattern, replacement, columns, count)
  {
    FrameClean.DfComposable(
      (df: Frame<V>, args: (string, string, Option<seq<string>>, int)) =>
        FrameClean.ColReplace(df, args.0, args.1, args.2, args.3)
    )((pattern, replacement, columns, count))
  }

  /** `col_truncate(stop, start, columns)(df)`. */
  function ColTruncate<V(!new)>(stop: Option<int>, start: int, columns: Option<seq<string>>): (internal: Frame<V> -> Frame<V>)
    ensures forall df :: internal(df) == FrameClean.ColTruncate(df, stop, start, columns)
  {
    FrameClean.DfComposable(
      (df: Frame<V>, args: (Option<int>, int, Option<seq<string>>)) =>
        FrameClean.ColTruncate(df, args.0, args.1, args.2)
    )((stop, start, columns))
  }

  /** `col_lambda_clean(map_fn, filter_fn, columns)(df)`. */
  function ColLambdaClean<V(!new)>(mapFn: string -> string, filterFn: Option<string -> bool>, columns: Option<seq<string>>): (internal: Frame<V> -> Frame<V>)
    ensures forall df :: internal(df) == FrameClean.ColLambdaClean(df, mapFn, filterFn, columns)
  {
    FrameClean.DfComposable(
      (df: Frame<V>, args: (string -> string, Option<string -> bool>, Option<seq<string>>)) =>
        FrameClean.ColLambdaClean(df, args.0, args.1, args.2)
    )((mapFn, filterFn, columns))
  }

  /** `add_col(col, value)(df)`. */
  function AddCol<V(!new)>(col: string, value: V): (internal: Frame<V> -> Frame<V>)
    ensures forall df :: internal(df) == FrameClean.AddCol(df, col, value)
  {
    FrameClean.DfComposable(
      (df: Frame<V>, args: (string, V)) => FrameClean.AddCol(df, args.0, args.1)
    )((col, value))
  }

  /** `reorder_cols(left, right)(df)`. */
  function ReorderCols<V(!new)>(left: seq<string>, right: seq<string>): (internal: Frame<V> -> Result<Frame<V>, FrameClean.FrameError>)
    ensures forall df :: internal(df) == FrameClean.ReorderCols(df, left, right)
  {
    FrameClean.DfComposable(
      (df: Frame<V>, args: (seq<string>, seq<string>)) => FrameClean.ReorderCols(df, args.0, args.1)
    )((left, right))
  }

  /** The module's own tests, run on the frame with columns 'abc' and 'xyz'. */
  lemma CurriedExamples()
    ensures "xy" in FrameClean.Labels(ColStrip("z", None)(FrameClean.TestFrame()))
    ensures "def" in FrameClean.Labels(ColReplace("abc", "def", None, -1)(FrameClean.TestFrame()))
    ensures "ab" in FrameClean.Labels(ColTruncate(Some(2), 0, None)(FrameClean.TestFrame()))
    ensures "cba" in FrameClean.Labels(ColLambdaClean(FrameClean.Reverse, None, None)(FrameClean.TestFrame()))
    ensures ReorderCols(["xyz"], [])(FrameClean.TestFrame()) ==
      Success([FrameClean.Column("xyz", 2), FrameClean.Column("abc", 1)])
  {
    FrameClean.StripExample();
    FrameClean.ReplaceExample();
    FrameClean.TruncateExample();
    FrameClean.LambdaCleanExample();
    FrameClean.ReorderExample();
  }
}
