/**
  Synonym normalisation (philosofool/data_science/clean.py): a `Concordance` maps the
  variant spellings of a name to its standard form.
*/
module Synonyms {
  import opened Wrappers

  /** Python's `KeyError` raised by a strict lookup, carrying the missing key. */
  datatype LookupError<T> = KeyError(key: T)

  /** The set of names in an optional `standard_names` iterable (none when it is absent). */
  function NameSet<T>(names: Option<seq<T>>): set<T>
  {
    if names.Some? then set k | k in names.value else {}
  }

  class Concordance<T(==)> {
    /** `self.syn_set`: the object's own copy of the synonym dictionary. */
    var synSet: map<T, T>
    /** `self.standard_names`, or None when the attribute was never set. */
    var standardNames: Option<set<T>>
    /** The preprocessing function applied to every value before lookup. */
    var preprocess: T -> T

    /** Every standard name is a key of the synonym dictionary and maps to itself. */
    ghost predicate Valid()
      reads this
    {
      standardNames.Some? ==>
        forall k :: k in standardNames.value ==> k in synSet && synSet[k] == k
    }

    /**
      `Concordance(syn_set, standard_names, preprocess)`. Because `syn_set` is a map value,
      the caller's dictionary cannot be changed by the object (the source copies it).
    */
    constructor (synSet: map<T, T>, standardNames: Option<seq<T>>, preprocess: T -> T)
      ensures Valid()
      ensures this.preprocess == preprocess
      ensures this.standardNames == if standardNames.Some? then Some(NameSet(standardNames)) else None
      ensures this.synSet.Keys == synSet.Keys + NameSet(standardNames)
      ensures forall k :: k in NameSet(standardNames) ==> this.synSet[k] == k
      ensures forall k :: k in synSet && k !in NameSet(standardNames) ==> this.synSet[k] == synSet[k]
    {
      this.synSet := synSet;
      this.preprocess := preprocess;
      if standardNames.Some? {
        this.standardNames := Some(set k | k in standardNames.value);
        var standardDict := map k | k in standardNames.value :: k;
        this.synSet := this.synSet + standardDict;
      } else {
        this.standardNames := None;
      }
    }

    /**
      `normalize(value, raise_error, default)`; `default == None` is Python's `default=None`.
      The key is `preprocess(value)`. A strict lookup fails exactly when the key is missing;
      with no `default` the key itself is returned; otherwise a known key gives its standard
      name and an unknown key gives `default(key)`.
    */
    function Normalize(value: T, raiseError: bool, default: Option<T -> T>): (r: Result<T, LookupError<T>>)
      reads this
      ensures r.Failure? <==> raiseError && preprocess(value) !in synSet
      ensures r.Failure? ==> r.error == KeyError(preprocess(value))
      ensures (raiseError || default.Some?) && preprocess(value) in synSet ==>
        r == Success(synSet[preprocess(value)])
      ensures !raiseError && default.None? ==> r == Success(preprocess(value))
      ensures !raiseError && default.Some? && preprocess(value) !in synSet ==>
        r == Success(default.value(preprocess(value)))
    {
      var key := preprocess(value);
      if raiseError then
        if key in synSet then Success(synSet[key]) else Failure(KeyError(key))
      else if default.None? then
        Success(key)
      else
        // `default(value)` is evaluated before the lookup, whether or not it is needed.
        var fallback := default.value(key);
        if key in synSet then Success(synSet[key]) else Success(fallback)
    }
  }

  /** With the identity preprocessing, a standard name normalises to itself under every policy. */
  lemma StandardNameIsFixed<T>(c: Concordance<T>, name: T, raiseError: bool, default: Option<T -> T>)
    requires c.Valid()
    requires c.standardNames.Some? && name in c.standardNames.value
    requires forall x :: c.preprocess(x) == x
    ensures c.Normalize(name, raiseError, default) == Success(name)
  {
  }

  /**
    When every synonym in `syn_set` points at one of the `standard_names`, a concordance built
    from them with the identity preprocessing is idempotent: normalising a normalised value
    changes nothing, under the strict policy and under the default fallback.
  */
  lemma NormalizeIdempotent<T>(c: Concordance<T>, synSet: map<T, T>, names: seq<T>, value: T, raiseError: bool)
    requires c.Valid()
    requires c.standardNames == Some(NameSet(Some(names)))
    requires c.synSet.Keys == synSet.Keys + NameSet(Some(names))
    requires forall k :: k in synSet && k !in NameSet(Some(names)) ==> c.synSet[k] == synSet[k]
    requires forall k :: k in synSet ==> synSet[k] in names
    requires forall x :: c.preprocess(x) == x
    ensures var once := c.Normalize(value, raiseError, Some(x => x));
      once.Success? ==> c.Normalize(once.value, raiseError, Some(x => x)) == once
  {
  }

  /** The docstring's example: K and SO both normalise to the standard name SO. */
  lemma StrikeoutExample(c: Concordance<string>)
    requires c.synSet == map["K" := "SO", "SO" := "SO"] && c.standardNames == Some({"SO"})
    requires forall x :: c.preprocess(x) == x
    ensures c.Normalize("K", true, None) == Success("SO")
    ensures c.Normalize("BB", true, None) == Failure(KeyError("BB"))
    ensures c.Normalize("BB", false, None) == Success("BB")
    ensures c.Normalize("BB", false, Some(x => "?")) == Success("?")
  {
  }
}
