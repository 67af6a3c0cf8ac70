/** Helpers that fill in optional arguments (`arg_tricks.py`). Python's `None` is `Option.None`. */
module ArgTricks {
  import opened Results

  /** `default(optional, default_value)`: the argument when given, else the default. */
  function Default<A>(optional: Option<A>, defaultValue: A): (r: A)
    ensures optional.Some? ==> r == optional.value
    ensures optional.None? ==> r == defaultValue
  {
    if optional.None? then defaultValue else optional.value
  }

  /**
   * `default_eval(optional, default_fn)`: the argument when given, else `default_fn()`.
   * The function is only needed, so only has to be callable, when the argument is missing.
   */
  function DefaultEval<A>(optional: Option<A>, defaultFn: () --> A): (r: A)
    requires optional.None? ==> defaultFn.requires()
    ensures optional.Some? ==> r == optional.value
    ensures optional.None? ==> r == defaultFn()
  {
    if optional.None? then defaultFn() else optional.value
  }

  /**
   * `defaults(optionals, default_vals)`: `default` applied pairwise; `zip` stops at the
   * shorter of the two sequences.
   */
  function Defaults<A>(optionals: seq<Option<A>>, defaultVals: seq<A>): (r: seq<A>)
    ensures |r| == if |optionals| < |defaultVals| then |optionals| else |defaultVals|
    ensures forall i :: 0 <= i < |r| ==> r[i] == Default(optionals[i], defaultVals[i])
  {
    if optionals == [] || defaultVals == [] then []
    else [Default(optionals[0], defaultVals[0])] + Defaults(optionals[1..], defaultVals[1..])
  }

  /** Evaluating the default lazily gives what the eager helper gives. */
  lemma DefaultEvalIsDefault<A>(optional: Option<A>, defaultFn: () --> A)
    requires defaultFn.requires()
    ensures DefaultEval(optional, defaultFn) == Default(optional, defaultFn())
  {
  }

  /** Filling in a value that was already filled in changes nothing. */
  lemma DefaultIdempotent<A>(optional: Option<A>, defaultValue: A)
    ensures Default(Some(Default(optional, defaultValue)), defaultValue) == Default(optional, defaultValue)
  {
  }

  /** The same holds element by element for `defaults`. */
  lemma DefaultsIdempotent<A>(optionals: seq<Option<A>>, defaultVals: seq<A>)
    ensures var once := Defaults(optionals, defaultVals);
      Defaults(seq(|once|, i requires 0 <= i < |once| => Some(once[i])), defaultVals) == once
  {
  }
}
