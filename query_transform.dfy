/** src/query/transform-query-params.ts: `transformQueryParams`, which pours a
    container's entries into an empty container of the requested form. */
module QueryTransform {
  import opened Wrappers
  import opened EntryLists
  import opened QueryTypes
  import opened QueryUtil

  /** What `transformQueryParams(params, options)` returns: the reducer of the requested
      form folded over the entries of `params`, from that form's empty container. */
  function Transform(params: Params, options: QueryOptions): (r: Result<Params, QueryError>)
    ensures r.Err? <==> GetOptionsForm(options) == StringForm && Entries(params) != []
    ensures r.Ok? ==> FormOf(r.value) == GetOptionsForm(options)
  {
    var form := GetOptionsForm(options);
    Fold(form, Initial(form), Entries(params))
  }

  method TransformQueryParams(params: Params, options: QueryOptions) returns (r: Result<Params, QueryError>)
    ensures r == Transform(params, options)
  {
    var form := GetOptionsForm(options);
    var state := Initial(form);
    var es := Entries(params);
    for i := 0 to |es|
      invariant FormOf(state) == form
      invariant Fold(form, Initial(form), es[..i]) == Ok(state)
    {
      FoldStep(form, Initial(form), es, i, state);
      var next := ApplyReducer(form, state, es[i].0, es[i].1);
      if next.Err? {
        return next;
      }
      state := next.value;
    }
    assert es[..|es|] == es;
    return Ok(state);
  }

  /** The result has the requested form ("object" by default) and never holds a key twice
      where the form forbids it; it is an error only for the "string" form with entries. */
  lemma TransformForm(params: Params, options: QueryOptions)
    ensures Transform(params, options).Err? <==> GetOptionsForm(options) == StringForm && Entries(params) != []
    ensures Transform(params, options).Ok? ==> FormOf(Transform(params, options).value) == GetOptionsForm(options)
    ensures Transform(params, options).Ok? ==> WellFormed(Transform(params, options).value)
  {
    var form := GetOptionsForm(options);
    var es := Entries(params);
    match form
    case MapForm =>
      FoldMap([], es);
      SetAllSpec([], es);
    case RecordForm =>
      FoldRecord([], es);
      SetAllSpec([], es);
    case _ =>
  }

  /** Without entries the result is the empty container of the requested form. */
  lemma TransformEmpty(params: Params, options: QueryOptions)
    requires Entries(params) == []
    ensures Transform(params, options) == Ok(Initial(GetOptionsForm(options)))
  {
  }

  /** Transforming into pairs keeps every entry, repeats included, in order. */
  lemma TransformToPairs(params: Params)
    ensures Transform(params, QueryOptions(Some(PairsForm))) == Ok(PairsParams(Entries(params)))
  {
    FoldPairs([], Entries(params));
    assert [] + Entries(params) == Entries(params);
  }

  /** Transforming into a map gives every key the value of its last entry. */
  lemma TransformToMap(params: Params)
    ensures Transform(params, QueryOptions(Some(MapForm))) == Ok(MapParams(SetAll([], Entries(params))))
    ensures forall k :: Lookup(SetAll([], Entries(params)), k) == LastValue(Entries(params), k)
  {
    FoldMap([], Entries(params));
    SetAllSpec([], Entries(params));
    forall k {
      LastValueFound(Entries(params), k);
    }
  }

  /** Transforming into a record gives every key the value of its last entry. */
  lemma TransformToRecord(params: Params)
    ensures Transform(params, QueryOptions(Some(RecordForm))) == Ok(RecordParams(SetAll([], Entries(params))))
  {
    FoldRecord([], Entries(params));
  }

  /** Transforming into a `URLSearchParams` (the default) `set`s the text of every value
      that is not null or undefined. */
  lemma TransformToObject(params: Params, options: QueryOptions)
    requires GetOptionsForm(options) == ObjectForm
    ensures Transform(params, options) == Ok(ObjectParams(SetAll([], Stored(Entries(params)))))
  {
    FoldObject([], Entries(params));
    if Entries(params) == [] {
      assert Stored(Entries(params)) == [];
    }
  }

  /** Transforming a result of a transform into the same form again gives it back: the
      entries of a map or record hold no key twice, and a `URLSearchParams` that went
      through `set` calls holds no key twice either. */
  lemma TransformAgain(params: Params, options: QueryOptions)
    requires Transform(params, options).Ok?
    ensures Transform(Transform(params, options).value, options) == Transform(params, options)
  {
    var form := GetOptionsForm(options);
    var es := Entries(params);
    var out := Transform(params, options).value;
    match form
    case MapForm =>
      TransformToMap(params);
      SetAllSpec([], es);
      TransformToMap(out);
      SetAllCopies(SetAll([], es));
    case RecordForm =>
      TransformToRecord(params);
      SetAllSpec([], es);
      TransformToRecord(out);
      SetAllCopies(SetAll([], es));
    case PairsForm =>
      TransformToPairs(params);
      TransformToPairs(out);
    case ObjectForm =>
      TransformToObject(params, options);
      var q := SetAll([], Stored(es));
      TransformToObject(out, options);
      StoredObjectEntries(q);
      SetAllSpec([], Stored(es));
      SetAllCopies(q);
    case StringForm =>
  }
}
