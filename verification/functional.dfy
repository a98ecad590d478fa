/**
  Function composition with annotation merging (philosofool/functional/functional.py).

  A Python callable is modelled as a unary function value together with its optional
  `__annotations__` dictionary; an annotation value is represented by its text.
*/
module Functional {
  import opened Wrappers

  type Annotations = map<string, string>

  const ReturnKey: string := "return"

  /** The placeholder `_compose_2` uses for "g has no return annotation". */
  const NoTyping: string := "no typing provided"

  /** A callable: what it computes, and its `__annotations__` (None when the attribute is missing). */
  datatype Callable<!T> = Callable(call: T -> T, annotations: Option<Annotations>)

  /** `reduce()` of an empty sequence with no initial value raises a TypeError. */
  datatype ComposeError = EmptyReduce

  /** `_collect_annotations(obj)`: a copy of the object's annotations, or `{}` when it has none. */
  function CollectAnnotations<T>(obj: Callable<T>): (r: Annotations)
    ensures obj.annotations.Some? ==> r == obj.annotations.value
    ensures obj.annotations.None? ==> r == map[]
  {
    match obj.annotations
    case Some(a) => a
    case None => map[]
  }

  /**
    `_compose_2(f, g)`: the callable that runs `f` and then `g`. Its annotations are f's,
    except that the `return` entry is g's return annotation, and is absent when g has none
    (or when g's is the placeholder text itself).
  */
  function Compose2<T(!new)>(f: Callable<T>, g: Callable<T>): (h: Callable<T>)
    ensures forall x :: h.call(x) == g.call(f.call(x))
    ensures h.annotations.Some?
    ensures forall k :: k != ReturnKey ==>
      (k in h.annotations.value <==> k in CollectAnnotations(f)) &&
      (k in h.annotations.value ==> h.annotations.value[k] == CollectAnnotations(f)[k])
    ensures ReturnKey in h.annotations.value <==>
      ReturnKey in CollectAnnotations(g) && CollectAnnotations(g)[ReturnKey] != NoTyping
    ensures ReturnKey in h.annotations.value ==>
      h.annotations.value[ReturnKey] == CollectAnnotations(g)[ReturnKey]
  {
    var annotations := CollectAnnotations(f);
    var gAnnotations := CollectAnnotations(g);
    var returnAnnotation := if ReturnKey in gAnnotations then gAnnotations[ReturnKey] else NoTyping;
    var updated := annotations[ReturnKey := returnAnnotation];
    var merged := if updated[ReturnKey] == NoTyping then updated - {ReturnKey} else updated;
    Callable(x => g.call(f.call(x)), Some(merged))
  }

  /**
    `compose_function(*funcs)`: `functools.reduce(_compose_2, funcs)`, a left fold.
    Fails on no functions; a single function is returned unchanged.
  */
  function ComposeFunction<T(!new)>(funcs: seq<Callable<T>>): (r: Result<Callable<T>, ComposeError>)
    ensures r.Failure? <==> funcs == []
    ensures |funcs| == 1 ==> r == Success(funcs[0])
    ensures |funcs| >= 2 ==> r.value.annotations.Some?
  {
    if |funcs| == 0 then Failure(EmptyReduce)
    else if |funcs| == 1 then Success(funcs[0])
    else Success(Compose2(ComposeFunction(funcs[..|funcs| - 1]).value, funcs[|funcs| - 1]))
  }

  /** Reference meaning of a pipeline: feed `x` to the first function, its result to the next, and so on. */
  function ApplyInOrder<T>(funcs: seq<Callable<T>>, x: T): T
  {
    if funcs == [] then x else ApplyInOrder(funcs[1..], funcs[0].call(x))
  }

  /** Running a pipeline is running all but its last function, then the last one. */
  lemma {:induction false} ApplyInOrderLast<T>(funcs: seq<Callable<T>>, x: T)
    requires funcs != []
    ensures ApplyInOrder(funcs, x) == funcs[|funcs| - 1].call(ApplyInOrder(funcs[..|funcs| - 1], x))
  {
    if |funcs| > 1 {
      var rest := funcs[1..];
      ApplyInOrderLast(rest, funcs[0].call(x));
      assert rest[..|rest| - 1] == funcs[..|funcs| - 1][1..];
    }
  }

  /** The composed callable applies the functions from left to right. */
  lemma {:induction false} ComposeFunctionAppliesInOrder<T(!new)>(funcs: seq<Callable<T>>, x: T)
    requires funcs != []
    ensures ComposeFunction(funcs).value.call(x) == ApplyInOrder(funcs, x)
  {
    if |funcs| > 1 {
      var init, last := funcs[..|funcs| - 1], funcs[|funcs| - 1];
      ComposeFunctionAppliesInOrder(init, x);
      ApplyInOrderLast(funcs, x);
    }
  }

  /**
    Annotations of a composed pipeline of two or more functions: every entry of the first
    function other than `return` survives unchanged, and `return` is the last function's
    return annotation, or absent when it has none.
  */
  lemma {:induction false} ComposeFunctionAnnotations<T(!new)>(funcs: seq<Callable<T>>, k: string)
    requires |funcs| >= 2
    ensures var a := ComposeFunction(funcs).value.annotations.value;
      && (k != ReturnKey ==> (k in a <==> k in CollectAnnotations(funcs[0])))
      && (k != ReturnKey && k in a ==> a[k] == CollectAnnotations(funcs[0])[k])
      && (k == ReturnKey ==> (k in a <==>
            k in CollectAnnotations(funcs[|funcs| - 1]) && CollectAnnotations(funcs[|funcs| - 1])[k] != NoTyping))
      && (k == ReturnKey && k in a ==> a[k] == CollectAnnotations(funcs[|funcs| - 1])[k])
  {
    if |funcs| > 2 {
      ComposeFunctionAnnotations(funcs[..|funcs| - 1], k);
    }
  }
}
