# phi-utils core, modelled in Dafny

This project models the algorithmic core of the `philosofool` utilities:

- **Ancestor discovery** (`Graph`, graph.dfy). `get_ancestors` searches a dependency graph depth first. A graph maps each node to the nodes it directly depends on. The search threads one mutable `seen` set through all of its recursive calls. The set is a `SeenSet` object here, so the aliasing of the caller's set is modelled: `None` or an empty set is replaced by a fresh set, and a non-empty set is extended in place and returned. Walk-based reachability is the reference definition. The method is proved to return the initial set plus exactly the nodes reachable from the start without stepping onto an initial node. It terminates on cycles, with a measure that counts the unvisited nodes.
- **Synonym normalisation** (`Synonyms`, synonyms.dfy). A `Concordance` holds its own copy of a synonym map. The constructor maps every standard name to itself. `Normalize` applies one of three lookup policies: strict, pass-through, or fallback to `default`.
- **Function composition** (`Functional`, functional.dfy). A callable is a unary function value together with its optional annotation map. `_compose_2` runs `f` and then `g` and merges their annotations. `compose_function` is the `reduce` of `_compose_2` over its arguments.
- **Column-label cleaning** (`FrameClean`, frame_clean.dfy, and `CurriedClean`, curried_clean.dfy). A data frame is a sequence of columns, each a label with opaque data. The cleaners rename the selected labels with `str.strip`, `str.replace`, slicing or an arbitrary function. `add_col` sets a column on a copy. `reorder_cols` arranges the columns as `left + other + right`. The Python string operations themselves are in `PyStr` (pystr.dfy). `CurriedClean` holds the `df_composable` forms from dataframe/clean.py, each proved equal to its plain counterpart.

`Wrappers` (wrappers.dfy) provides `Option` and `Result`, used for Python's `None` arguments and for raised errors.

## Model

| member | source | states |
|---|---|---|
| `Graph.GetAncestors` | philosofool/data_science/graph.py:7-17 | A null or empty `seen` gives a fresh result and the caller's set stays untouched. A non-empty `seen` is the object returned. Every direct predecessor is in the result, and so are all predecessors of every node the search added. The result is exactly the initial set plus the nodes reachable from `value` whose walk avoids the initial set, so `value` is included only if it was already there or lies on a cycle |
| `Graph.ExpandedIsExact` | philosofool/data_science/graph.py:9-17 | A set that keeps the initial nodes, holds the start's predecessors, is closed under predecessors for every added node, and adds only reachable nodes equals the initial set plus the reachable nodes |
| `Graph.ExpandedContainsReachable` | philosofool/data_science/graph.py:12-16 | Completeness: every node reachable while avoiding the initial set is in any such closed set |
| `Graph.ExtendSound` | philosofool/data_science/graph.py:15-16 | After `seen.add(p)` and the recursive call on `p`, every node added is still reachable from the outer `value` |
| `Graph.NodesBound` | philosofool/data_science/graph.py:13-16 | Adding an unseen predecessor strictly shrinks the set of unvisited nodes, so the recursion terminates on cyclic graphs |
| `Graph.LeafHasNoAncestors` | philosofool/data_science/graph.py:10-11 | A node that is not a key of the graph reaches nothing, so it is a leaf and not an error |
| `Graph.ReachableTransitive` | philosofool/data_science/graph.py:7-8 | An ancestor of an ancestor is an ancestor |
| `Graph.ExampleAncestors` | philosofool/tests/test_data_science.py:5-11 | In the test graph, the ancestors of `'a'` are exactly b, c, d, e and f, and `'a'` is not among them |
| `Graph.ExampleSearch` | philosofool/data_science/graph.py:20-26 | Running the search on the test graph with no `seen` set returns `{'b','c','d','e','f'}` |
| `Synonyms.Concordance.constructor` | philosofool/data_science/clean.py:24-30 | Each standard name maps to itself and overrides any earlier synonym. Other keys keep their values. `standard_names` is present exactly when it was given. The stored preprocess is the given one |
| `Synonyms.Concordance.Normalize` | philosofool/data_science/clean.py:32-47 | The strict policy fails with KeyError exactly when `preprocess(value)` is missing, and otherwise returns its mapping. With no `default`, the preprocessed value comes back unchanged. Otherwise a known key gives its mapping and an unknown key gives `default(key)` |
| `Synonyms.StandardNameIsFixed` | philosofool/data_science/clean.py:27-30 | With identity preprocessing, a standard name normalises to itself under every policy |
| `Synonyms.NormalizeIdempotent` | philosofool/data_science/clean.py:42-47 | Suppose every synonym points at a standard name, preprocessing is the identity and `default` is the identity (its default). Then normalising a normalised value changes nothing |
| `Synonyms.StrikeoutExample` | philosofool/data_science/clean.py:4-7 | With synonyms K and SO for SO: K normalises to SO. A missing key fails strictly, passes through without a default, and goes through `default` otherwise |
| `Functional.CollectAnnotations` | philosofool/functional/functional.py:9-13 | Returns the object's annotations as a value, so nothing is aliased, or `{}` when the attribute is missing |
| `Functional.Compose2` | philosofool/functional/functional.py:16-34 | The composite computes `g(f(x))`. Its annotations keep every non-`return` entry of f. `return` is g's return annotation, and is absent when g has none, even if f had one |
| `Functional.ComposeFunction` | philosofool/functional/functional.py:37-39 | Fails exactly on an empty argument list. A single function comes back unchanged. Two or more give a callable with annotations |
| `Functional.ComposeFunctionAppliesInOrder` | philosofool/functional/functional.py:37-39 | The composed callable equals applying the functions left to right, checked against an independent fold |
| `Functional.ComposeFunctionAnnotations` | philosofool/functional/functional.py:22-27 | The annotations of a pipeline of two or more functions: the non-`return` entries are the first function's, and `return` is the last function's, or absent |
| `PyStr.Strip` | philosofool/dataframe/clean.py:19 | `s.strip(chars)`: the result is a contiguous part of `s`. Everything cut off either end is in `chars`, and the result neither starts nor ends with a character of `chars` |
| `PyStr.IsStrippedUnique` | philosofool/dataframe/clean.py:19 | The property above determines the stripped string, so it fully specifies `Strip` |
| `PyStr.StripExamples` | philosofool/dataframe/clean.py:67 | `'xyz'.strip('z') == 'xy'` and `'abc'.strip('z') == 'abc'` |
| `PyStr.Replace` | philosofool/dataframe/clean.py:25 | `s.replace(old, new, count)` with `count == -1` meaning all. A zero count or an absent non-empty `old` leaves `s` unchanged |
| `PyStr.ReplaceLeftmost` | philosofool/dataframe/clean.py:25 | With a non-empty `old` first occurring at `i` and a non-zero count, the text before `i` is kept, that occurrence becomes `new`, and replacing resumes after it with one fewer replacement allowed: leftmost first, no overlap, at most `count` |
| `PyStr.ReplaceEmptyPattern` | philosofool/dataframe/clean.py:25 | With an empty `old` and no limit, the result has length `len(s) + (len(s) + 1) * len(new)`; for each `k` a copy of `new` starts at `k * (len(new) + 1)` and is followed by `s[k]`, and the result ends with a copy of `new` |
| `PyStr.ReplaceBySelf` | philosofool/dataframe/clean.py:25 | Replacing a string by itself is the identity, for every count and an empty `old` too |
| `PyStr.Slice` | philosofool/dataframe/clean.py:31 | `s[start:stop]` is a contiguous part of `s` that begins at the normalised start index and ends at the normalised stop index, or is empty when stop does not exceed start. In-range indices give exactly `s[start..stop]` |
| `PyStr.SliceIndex` | philosofool/dataframe/clean.py:31 | A Python slice index: a negative index counts from the end, and any index is clamped to the string |
| `PyStr.SliceSplit` | philosofool/dataframe/clean.py:31 | `s[:k] + s[k:] == s` for every integer `k`, negative ones included |
| `FrameClean.DfComposable` | philosofool/dataframe/clean.py:5-13 | `df_composable(f)(args)(df) == f(df, args)` for all arguments and frames |
| `FrameClean.Rename` | philosofool/dataframe/clean.py:40 | `df.rename` keeps the column count, positions and data. It relabels the selected labels and leaves every other column as it was |
| `FrameClean.ColStrip` | philosofool/dataframe/clean.py:15-19 | Every selected label is stripped, and the default selection is all labels. Other columns are unchanged and data is kept |
| `FrameClean.ColReplace` | philosofool/dataframe/clean.py:21-25 | Selected labels get `replace(old, new, count)`. Other columns are unchanged, and so is any label without an occurrence of `old` |
| `FrameClean.ColTruncate` | philosofool/dataframe/clean.py:27-31 | Selected labels become `label[start:stop]`, so no label grows. Other columns are unchanged |
| `FrameClean.ColLambdaClean` | philosofool/dataframe/clean.py:33-40 | With a `filter_fn`, exactly the labels passing it are mapped and `columns` is ignored. Without one, the selected labels are mapped |
| `FrameClean.AddCol` | philosofool/dataframe/clean.py:42-46 | An existing label keeps its position and takes the new data. A new label is appended at the end. Every other column is unchanged |
| `FrameClean.FilterLabels` | philosofool/dataframe/clean.py:62 | A list comprehension keeps exactly the labels that pass the test |
| `FrameClean.FilterLabelsAppend` | philosofool/dataframe/clean.py:62 | Filtering distributes over concatenation, so `other` keeps the frame's order |
| `FrameClean.SelectColumns` | philosofool/dataframe/clean.py:63 | `df[labels]` fails with a KeyError exactly when a label is absent, and names exactly the absent labels. On success every column comes from the frame, and on a frame with distinct labels the result is labelled exactly `labels`, in order |
| `FrameClean.OtherLabels` | philosofool/dataframe/clean.py:62 | `other` holds exactly the frame's labels that are in neither `left` nor `right` |
| `FrameClean.ReorderCols` | philosofool/dataframe/clean.py:48-63 | Fails exactly when `left` or `right` names a label the frame lacks. Otherwise it returns only columns of the frame, and on a frame with distinct labels they are labelled `left + other + right`, repeated names included |
| `FrameClean.GatherLabels` | philosofool/dataframe/clean.py:63 | With distinct labels, selecting present labels yields columns labelled exactly as requested, in order |
| `FrameClean.ReorderColsPermutes` | philosofool/dataframe/clean.py:61-63 | For distinct labels and distinct, present `left`/`right`: the call succeeds and its labels are a rearrangement (same multiset) of the frame's labels |
| `FrameClean.StripExample` | philosofool/dataframe/clean.py:65-67 | Stripping `'z'` turns the labels `abc, xyz` into `abc, xy` |
| `FrameClean.ReplaceExample` | philosofool/dataframe/clean.py:68 | Replacing `'abc'` with `'def'` gives the labels `def, xyz` |
| `FrameClean.TruncateExample` | philosofool/dataframe/clean.py:69 | Truncating at 2 gives the labels `ab, xy` |
| `FrameClean.LambdaCleanExample` | philosofool/dataframe/clean.py:70 | The reversing map gives the labels `cba, zyx` |
| `FrameClean.ReorderExample` | philosofool/dataframe/clean.py:72-74 | `reorder_cols(df, ['xyz'], [])` gives the columns `xyz, abc` with their data |
| `CurriedClean.ColStrip` | dataframe/clean.py:15-20 | `col_strip(string, columns)(df)` equals the plain `col_strip(df, string, columns)` |
| `CurriedClean.ColReplace` | dataframe/clean.py:22-27 | The curried `col_replace` equals the plain one on every frame |
| `CurriedClean.ColTruncate` | dataframe/clean.py:29-34 | The curried `col_truncate` equals the plain one on every frame |
| `CurriedClean.ColLambdaClean` | dataframe/clean.py:36-44 | The curried `col_lambda_clean` equals the plain one on every frame, so a given `filter_fn` still overrides `columns` |
| `CurriedClean.AddCol` | dataframe/clean.py:46-51 | The curried `add_col` equals the plain one, a copy with the column set |
| `CurriedClean.ReorderCols` | dataframe/clean.py:53-69 | The curried `reorder_cols` equals the plain one on every frame |
| `CurriedClean.CurriedExamples` | dataframe/clean.py:71-80 | The module's tests through the curried forms: `xy`, `def`, `ab` and `cba` appear, and the reordering is `xyz, abc` |

## Left out

- The metric-graph evaluator (topological ordering, the compute and recalculate policies, `add_metrics`, cycle and missing-function errors) is not modelled; only `get_ancestors` is.
- philosofool/data_sources/utils.py (`read_yml`) is not modelled. It is only file input and a YAML library call.
- Graph.GetAncestors: Python's recursion-depth limit is not modelled. The source recurses once per newly seen node (philosofool/data_science/graph.py:16), so a chain of ancestors deeper than about 1000 raises RecursionError there, while the model returns the full set.
- Graph.GetAncestors: each node's predecessors are a sequence, iterated in order. Python accepts any iterable. A one-shot generator, or a predecessor collection mutated during the search, is not modelled. The result does not depend on the order.
- Synonyms.Concordance.Normalize: it reads the preprocessing function the constructor stored. In the source, the constructor stores it as `self.prepreocess` (philosofool/data_science/clean.py:26), while `normalize` reads `self.preprocess` (line 42). So, as written, `normalize` raises AttributeError unless a caller sets that attribute. The model follows the evident intent.
- Synonyms.Concordance.Normalize: `raise_error: False` (line 32) is an annotation, not a default, so the argument is required here too. `default(value)` is evaluated eagerly in the source. Dafny functions are total, so an exception raised by `default` when the key is present is not modelled.
- Synonyms.Concordance.constructor: `standard_names` is a finite sequence, read as often as needed. The source accepts any iterable and reads it twice (philosofool/data_science/clean.py:28-29). A one-shot iterator, such as a generator, is used up by the first pass. `self.standard_names` then holds the names while `syn_set` gets none of them, so `Valid()` would not hold. That input is not modelled.
- Synonyms.Concordance.constructor: `syn_set.copy()` is implicit, because the synonym map is a value. The caller's dictionary cannot be changed, but that holds by construction rather than by proof.
- Functional.Compose2: callables are unary functions from one type to itself. Python's `*args/**kwargs`, differing argument and result types, and `functools.wraps` metadata are not modelled. Annotation values are their text, so a `return` annotation that is literally the string 'no typing provided' is dropped, as in the source.
- FrameClean.AddCol: a pandas frame is a mutable object, but here it is a value. So "the input frame is unmodified" holds by construction rather than through the copy. Row data, dtypes, the index and broadcasting of `value` are opaque.
- FrameClean.Column: column labels are strings. pandas accepts any hashable label, and the label cleaners would raise on a non-string label (`col.strip`, `col[start:stop]`). Non-string labels are not modelled.
- FrameClean.SelectColumns: pandas' error message text is not modelled. The error carries the absent labels in request order.
- PyStr.Strip: `str.strip(None)`, which strips whitespace, is not modelled. The character set is always a string.
- FrameClean.ColTruncate: `start=None` is not modelled. `stop=None` is.
- The import-time test calls at dataframe/clean.py:82-83 are not code to model. The tests they run are stated as the example lemmas above.
