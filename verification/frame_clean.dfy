/**
  Column-name cleaning for data frames (philosofool/dataframe/clean.py).

  Only a frame's column labels and their order matter here, so a frame is its sequence of
  columns, each a name with opaque column data. Every operation returns a new frame.
*/
module FrameClean {
  import opened Wrappers
  import PyStr

  datatype Column<V> = Column(name: string, data: V)

  type Frame<V> = seq<Column<V>>

  /** pandas' KeyError for a column selection, listing the requested labels the frame lacks. */
  datatype FrameError = KeyError(missing: seq<string>)

  function Labels<V>(df: Frame<V>): (ls: seq<string>)
    ensures |ls| == |df|
    ensures forall i :: 0 <= i < |df| ==> ls[i] == df[i].name
  {
    seq(|df|, i requires 0 <= i < |df| => df[i].name)
  }

  /**
    `df_composable(func)`: the curried form of `func`, taking the other arguments first and the
    frame last, so that `df_composable(func)(*args)(df) == func(df, *args)`. Several arguments
    travel together as one tuple `args`.
  */
  function DfComposable<V(!new), A(!new), R>(func: (Frame<V>, A) -> R): (composed: A -> Frame<V> -> R)
    ensures forall args, df :: composed(args)(df) == func(df, args)
  {
    args => df => func(df, args)
  }

  ghost predicate Distinct(s: seq<string>)
  {
    forall i, j :: 0 <= i < j < |s| ==> s[i] != s[j]
  }

  /** `[x for x in ls if keep(x)]`. */
  function FilterLabels(ls: seq<string>, keep: string -> bool): (r: seq<string>)
    ensures |r| <= |ls|
    ensures forall x :: x in r <==> x in ls && keep(x)
  {
    if ls == [] then []
    else if keep(ls[0]) then [ls[0]] + FilterLabels(ls[1..], keep)
    else FilterLabels(ls[1..], keep)
  }

  /** Filtering keeps the original order: it distributes over concatenation. */
  lemma {:induction false} FilterLabelsAppend(a: seq<string>, b: seq<string>, keep: string -> bool)
    ensures FilterLabels(a + b, keep) == FilterLabels(a, keep) + FilterLabels(b, keep)
  {
    if a != [] {
      assert (a + b)[0] == a[0];
      assert (a + b)[1..] == a[1..] + b;
      FilterLabelsAppend(a[1..], b, keep);
      if keep(a[0]) {
        assert FilterLabels(a + b, keep) == [a[0]] + FilterLabels(a[1..] + b, keep);
        assert FilterLabels(a, keep) == [a[0]] + FilterLabels(a[1..], keep);
      } else {
        assert FilterLabels(a + b, keep) == FilterLabels(a[1..] + b, keep);
        assert FilterLabels(a, keep) == FilterLabels(a[1..], keep);
      }
    } else {
      assert a + b == b;
    }
  }

  lemma {:induction false} FilterLabelsDistinct(ls: seq<string>, keep: string -> bool)
    requires Distinct(ls)
    ensures Distinct(FilterLabels(ls, keep))
  {
    if ls != [] {
      FilterLabelsDistinct(ls[1..], keep);
      var rest := FilterLabels(ls[1..], keep);
      assert ls[0] !in ls[1..];
      assert ls[0] !in rest;
    }
  }

  /**
    `df.rename(columns={col: f(col) for col in selection})`: each column whose label is in
    `selection` is relabelled by `f`; every other column keeps its label. Positions and data
    are unchanged, and a selected name the frame does not have is ignored.
  */
  function Rename<V>(df: Frame<V>, selection: seq<string>, f: string -> string): (r: Frame<V>)
    ensures |r| == |df|
    ensures forall i :: 0 <= i < |df| ==> r[i].data == df[i].data
    ensures forall i :: 0 <= i < |df| && df[i].name !in selection ==> r[i] == df[i]
    ensures forall i :: 0 <= i < |df| && df[i].name in selection ==> r[i].name == f(df[i].name)
  {
    seq(|df|, i requires 0 <= i < |df| =>
      if df[i].name in selection then Column(f(df[i].name), df[i].data) else df[i])
  }

  /** `columns`, or all of the frame's labels when it is None. */
  function Selection<V>(df: Frame<V>, columns: Option<seq<string>>): seq<string>
  {
    if columns.Some? then columns.value else Labels(df)
  }

  /** `col_strip(df, string, columns)`. */
  function ColStrip<V>(df: Frame<V>, chars: string, columns: Option<seq<string>>): (r: Frame<V>)
    ensures |r| == |df|
    ensures forall i :: 0 <= i < |df| ==> r[i].data == df[i].data
    ensures forall i :: 0 <= i < |df| && df[i].name in Selection(df, columns) ==>
      r[i].name == PyStr.Strip(df[i].name, chars) && PyStr.IsStripped(df[i].name, chars, r[i].name)
    ensures forall i :: 0 <= i < |df| && df[i].name !in Selection(df, columns) ==> r[i] == df[i]
    ensures columns.None? ==> forall i :: 0 <= i < |df| ==> PyStr.IsStripped(df[i].name, chars, r[i].name)
  {
    Rename(df, Selection(df, columns), name => PyStr.Strip(name, chars))
  }

  /** `col_replace(df, old, new, columns, count)`; `count == -1` replaces every occurrence. */
  function ColReplace<V>(df: Frame<V>, pattern: string, replacement: string, columns: Option<seq<string>>, count: int): (r: Frame<V>)
    ensures |r| == |df|
    ensures forall i :: 0 <= i < |df| ==> r[i].data == df[i].data
    ensures forall i :: 0 <= i < |df| && df[i].name in Selection(df, columns) ==>
      r[i].name == PyStr.Replace(df[i].name, pattern, replacement, count)
    ensures forall i :: 0 <= i < |df| && df[i].name !in Selection(df, columns) ==> r[i] == df[i]
    ensures pattern != [] ==> forall i :: 0 <= i < |df| && !PyStr.Occurs(df[i].name, pattern) ==> r[i] == df[i]
  {
    Rename(df, Selection(df, columns), name => PyStr.Replace(name, pattern, replacement, count))
  }

  /** `col_truncate(df, stop, start, columns)`: each selected label becomes `label[start:stop]`. */
  function ColTruncate<V>(df: Frame<V>, stop: Option<int>, start: int, columns: Option<seq<string>>): (r: Frame<V>)
    ensures |r| == |df|
    ensures forall i :: 0 <= i < |df| ==> r[i].data == df[i].data
    ensures forall i :: 0 <= i < |df| && df[i].name in Selection(df, columns) ==>
      r[i].name == PyStr.Slice(df[i].name, start, stop)
    ensures forall i :: 0 <= i < |df| && df[i].name !in Selection(df, columns) ==> r[i] == df[i]
    ensures forall i :: 0 <= i < |df| ==> |r[i].name| <= |df[i].name|
  {
    Rename(df, Selection(df, columns), name => PyStr.Slice(name, start, stop))
  }

  /**
    `col_lambda_clean(df, map_fn, filter_fn, columns)`. When `filter_fn` is given it alone
    decides which labels are mapped, and `columns` is ignored.
  */
  function ColLambdaClean<V>(df: Frame<V>, mapFn: string -> string, filterFn: Option<string -> bool>, columns: Option<seq<string>>): (r: Frame<V>)
    ensures |r| == |df|
    ensures forall i :: 0 <= i < |df| ==> r[i].data == df[i].data
    ensures filterFn.Some? ==> forall i :: 0 <= i < |df| ==>
      r[i].name == if filterFn.value(df[i].name) then mapFn(df[i].name) else df[i].name
    ensures filterFn.None? ==> forall i :: 0 <= i < |df| ==>
      r[i].name == if df[i].name in Selection(df, columns) then mapFn(df[i].name) else df[i].name
  {
    var selection :=
      if filterFn.Some? then FilterLabels(Labels(df), filterFn.value)
      else Selection(df, columns);
    Rename(df, selection, mapFn)
  }

  /**
    `add_col(df, col, value)`: on a copy, `df[col] = value`. An existing column keeps its
    position and takes the new data; otherwise the column is appended at the end. All other
    columns are unchanged, and the input frame, a value, is untouched.
  */
  function AddCol<V>(df: Frame<V>, col: string, value: V): (r: Frame<V>)
    ensures col in Labels(df) ==> Labels(r) == Labels(df)
    ensures col !in Labels(df) ==> Labels(r) == Labels(df) + [col]
    ensures forall i :: 0 <= i < |r| && r[i].name == col ==> r[i].data == value
    ensures forall i :: 0 <= i < |df| && df[i].name != col ==> r[i] == df[i]
  {
    if col in Labels(df) then
      seq(|df|, i requires 0 <= i < |df| => if df[i].name == col then Column(col, value) else df[i])
    else
      df + [Column(col, value)]
  }

  /** The columns of `df` labelled `label`, in frame order. */
  function ColumnsLabelled<V>(df: Frame<V>, name: string): (r: Frame<V>)
    ensures forall c :: c in r ==> c in df && c.name == name
  {
    if df == [] then []
    else if df[0].name == name then [df[0]] + ColumnsLabelled(df[1..], name)
    else ColumnsLabelled(df[1..], name)
  }

  /** The columns for each label of `labels` in turn. */
  function Gather<V>(df: Frame<V>, labels: seq<string>): (r: Frame<V>)
    ensures forall c :: c in r ==> c in df
  {
    if labels == [] then [] else ColumnsLabelled(df, labels[0]) + Gather(df, labels[1..])
  }

  /** `df[labels]`: the columns for each label in order, or a KeyError naming the absent labels. */
  function SelectColumns<V>(df: Frame<V>, labels: seq<string>): (r: Result<Frame<V>, FrameError>)
    ensures r.Failure? <==> exists l :: l in labels && l !in Labels(df)
    ensures r.Failure? ==> forall l :: l in r.error.missing <==> l in labels && l !in Labels(df)
    ensures r.Success? ==> forall c :: c in r.value ==> c in df
    ensures r.Success? && Distinct(Labels(df)) ==> Labels(r.value) == labels
  {
    var missing := FilterLabels(labels, l => l !in Labels(df));
    if missing != [] then
      assert missing[0] in missing;
      Failure(KeyError(missing))
    else
      assert Distinct(Labels(df)) ==> Labels(Gather(df, labels)) == labels by {
        if Distinct(Labels(df)) {
          GatherLabels(df, labels);
        }
      }
      Success(Gather(df, labels))
  }

  /** The labels of `df` that are in neither `left` nor `right`, in frame order. */
  function OtherLabels<V>(df: Frame<V>, left: seq<string>, right: seq<string>): (other: seq<string>)
    ensures forall x :: x in other <==> x in Labels(df) && x !in left && x !in right
  {
    FilterLabels(Labels(df), col => col !in left + right)
  }

  /**
    `reorder_cols(df, left, right)`: the columns `left + other + right`, where `other` is the
    frame's remaining labels in frame order. It fails exactly when `left` or `right` names a
    name the frame does not have.
  */
  function ReorderCols<V>(df: Frame<V>, left: seq<string>, right: seq<string>): (r: Result<Frame<V>, FrameError>)
    ensures r.Failure? <==> exists l :: l in left + right && l !in Labels(df)
    ensures r.Success? ==> forall c :: c in r.value ==> c in df
    ensures r.Success? && Distinct(Labels(df)) ==> Labels(r.value) == left + OtherLabels(df, left, right) + right
  {
    var other := OtherLabels(df, left, right);
    SelectColumns(df, left + other + right)
  }

  lemma {:induction false} ColumnsLabelledAbsent<V>(df: Frame<V>, name: string)
    requires name !in Labels(df)
    ensures ColumnsLabelled(df, name) == []
  {
    if df != [] {
      assert Labels(df[1..]) == Labels(df)[1..];
      ColumnsLabelledAbsent(df[1..], name);
    }
  }

  /** With distinct labels, a present label selects exactly one column. */
  lemma {:induction false} ColumnsLabelledUnique<V>(df: Frame<V>, name: string)
    requires Distinct(Labels(df)) && name in Labels(df)
    ensures |ColumnsLabelled(df, name)| == 1
  {
    assert Labels(df[1..]) == Labels(df)[1..];
    if df[0].name == name {
      assert name !in Labels(df)[1..];
      ColumnsLabelledAbsent(df[1..], name);
    } else {
      ColumnsLabelledUnique(df[1..], name);
    }
  }

  lemma {:induction false} GatherLabels<V>(df: Frame<V>, labels: seq<string>)
    requires Distinct(Labels(df))
    requires forall l :: l in labels ==> l in Labels(df)
    ensures Labels(Gather(df, labels)) == labels
  {
    if labels != [] {
      ColumnsLabelledUnique(df, labels[0]);
      GatherLabels(df, labels[1..]);
      var first := ColumnsLabelled(df, labels[0]);
      assert first[0] in first;
      assert Labels(first + Gather(df, labels[1..])) == Labels(first) + Labels(Gather(df, labels[1..]));
    }
  }

  lemma {:induction false} DistinctCount(s: seq<string>)
    requires Distinct(s)
    ensures forall x :: multiset(s)[x] == if x in s then 1 else 0
  {
    if s != [] {
      DistinctCount(s[1..]);
      assert s == [s[0]] + s[1..];
      assert s[0] !in s[1..];
    }
  }

  /**
    On a frame with distinct labels, when `left` and `right` together name distinct labels of
    the frame, `reorder_cols` succeeds and its labels are a rearrangement of the frame's labels
    (each output column being a column of the input). The order `left + other + right` holds
    without distinctness of `left + right`, by `ReorderCols`' own contract.
  */
  lemma ReorderColsPermutes<V>(df: Frame<V>, left: seq<string>, right: seq<string>)
    requires Distinct(Labels(df))
    requires Distinct(left + right)
    requires forall l :: l in left + right ==> l in Labels(df)
    ensures ReorderCols(df, left, right).Success?
    ensures Labels(ReorderCols(df, left, right).value) == left + OtherLabels(df, left, right) + right
    ensures multiset(Labels(ReorderCols(df, left, right).value)) == multiset(Labels(df))
  {
    var other := OtherLabels(df, left, right);
    var order := left + other + right;
    assert forall l :: l in order ==> l in Labels(df);
    GatherLabels(df, order);
    FilterLabelsDistinct(Labels(df), col => col !in left + right);
    DistinctCount(left + right);
    DistinctCount(other);
    DistinctCount(Labels(df));
    forall x ensures multiset(order)[x] == multiset(Labels(df))[x] {
      assert multiset(order)[x] == multiset(left + right)[x] + multiset(other)[x];
    }
  }

  /** The repository's test frame: columns 'abc' and 'xyz'. */
  function TestFrame(): Frame<int>
  {
    [Column("abc", 1), Column("xyz", 2)]
  }

  /** `''.join(reversed(x))`. */
  function Reverse(s: string): string
  {
    if s == [] then [] else Reverse(s[1..]) + [s[0]]
  }

  /** The repository's tests of the label cleaners on the frame with columns 'abc' and 'xyz'. */
  lemma StripExample()
    ensures Labels(ColStrip(TestFrame(), "z", None)) == ["abc", "xy"]
  {
    PyStr.StripExamples();
    var r := ColStrip(TestFrame(), "z", None);
    assert r[0].name == "abc" && r[1].name == "xy";
  }

  lemma ReplaceExample()
    ensures Labels(ColReplace(TestFrame(), "abc", "def", None, -1)) == ["def", "xyz"]
  {
    assert PyStr.Replace("abc", "abc", "def", -1) == "def";
    assert PyStr.Replace("xyz", "abc", "def", -1) == "xyz";
  }

  lemma TruncateExample()
    ensures Labels(ColTruncate(TestFrame(), Some(2), 0, None)) == ["ab", "xy"]
  {
    assert PyStr.Slice("abc", 0, Some(2)) == "ab";
    assert PyStr.Slice("xyz", 0, Some(2)) == "xy";
  }

  lemma LambdaCleanExample()
    ensures Labels(ColLambdaClean(TestFrame(), Reverse, None, None)) == ["cba", "zyx"]
  {
    assert Reverse("abc") == "cba";
    assert Reverse("xyz") == "zyx";
  }

  /** `reorder_cols(df, ['xyz'], [])` puts 'xyz' first. */
  lemma ReorderExample()
    ensures ReorderCols(TestFrame(), ["xyz"], []) == Success([Column("xyz", 2), Column("abc", 1)])
  {
    var df := TestFrame();
    assert Labels(df) == ["abc", "xyz"];
    assert OtherLabels(df, ["xyz"], []) == ["abc"];
    var order := ["xyz"] + ["abc"] + [];
    assert order == ["xyz", "abc"];
    assert FilterLabels(order, l => l !in Labels(df)) == [];
    assert ColumnsLabelled(df, "xyz") == [Column("xyz", 2)];
    assert ColumnsLabelled(df, "abc") == [Column("abc", 1)];
    assert Gather(df, ["abc"]) == [Column("abc", 1)];
    assert Gather(df, order) == [Column("xyz", 2), Column("abc", 1)];
  }
}
