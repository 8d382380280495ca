/** src/query/parse-query-params.ts: `parseQueryParams`, which keeps the entries whose
    key is asked for, can insist that every asked-for key is present, and returns them in
    the requested form. */
module QueryParse {
  import opened Wrappers
  import opened Lodash
  import opened HumanizeList
  import opened EntryLists
  import opened QueryTypes
  import opened QueryUtil
  import opened QueryTransform

  /** `ParseQueryParamOptions`: `keys`, `strict` and `form` may each be left out. */
  datatype ParseOptions = ParseOptions(keys: Option<seq<string>>, strict: Option<bool>, form: Option<Form>)

  /** `options.keys === undefined || options.keys.includes(k)`. */
  predicate Wanted(k: string, keys: Option<seq<string>>) {
    keys.None? || k in keys.value
  }

  /** The entries the loop reduces: those with a wanted key, in iteration order. */
  function Selected(es: seq<(string, Value)>, keys: Option<seq<string>>): (r: seq<(string, Value)>)
    ensures |r| <= |es|
    ensures keys.None? ==> r == es
    ensures forall x :: x in r <==> x in es && Wanted(x.0, keys)
    decreases |es|
  {
    if es == [] then []
    else
      var n := |es| - 1;
      var init := Selected(es[..n], keys);
      assert es == es[..n] + [es[n]];
      if Wanted(es[n].0, keys) then init + [es[n]] else init
  }

  /** The formatter `` v => `'${v}'` ``. */
  function Quoted(v: Item): string {
    "'" + ItemToString(v) + "'"
  }

  function KeyItems(ks: seq<string>): (r: seq<Item>)
    ensures |r| == |ks|
    ensures forall i :: 0 <= i < |ks| ==> r[i] == Text(ks[i])
    decreases |ks|
  {
    if ks == [] then [] else [Text(ks[0])] + KeyItems(ks[1..])
  }

  const MissingKeysPrefix := "The following query parameter(s) were not present in the provided input: "

  /** The message of the strict-mode error: the missing keys quoted and joined with "and". */
  function MissingKeysMessage(missing: seq<string>): string {
    MissingKeysPrefix + Humanize(KeyItems(missing), HumanizeOptions(Some(And), None, None, Some(Quoted)))
  }

  /** What `parseQueryParams(base, options)` returns or throws. The reducer of the
      requested form (`"object"` by default) is folded over the selected entries. With
      `keys` given and `strict` not `false`, it throws when the number of selected
      entries, repeats included, differs from the number of keys, listing the keys not
      seen. Otherwise a requested form is applied once more with `transformQueryParams`. */
  function Parse(base: Params, options: ParseOptions): (r: Result<Params, QueryError>)
    ensures r.Err? && r.error.MissingKeys? ==> options.keys.Some? && options.strict != Some(false)
    ensures r.Err? && !r.error.MissingKeys? ==> r.error == DetachedReducer
    ensures r.Ok? && options.form.Some? ==> FormOf(r.value) == options.form.value
  {
    var form := GetOptionsForm(QueryOptions(options.form));
    var kept := Selected(Entries(base), options.keys);
    var state :- Fold(form, Initial(form), kept);
    if options.keys.Some? && options.strict != Some(false) && |kept| != |options.keys.value| then
      var missing := Difference(options.keys.value, KeysOf(kept));
      Err(MissingKeys(missing, MissingKeysMessage(missing)))
    else if options.form.Some? then
      Transform(state, QueryOptions(options.form))
    else
      Ok(state)
  }

  method ParseQueryParams(base: Params, options: ParseOptions) returns (r: Result<Params, QueryError>)
    ensures r == Parse(base, options)
  {
    var form := GetOptionsForm(QueryOptions(options.form));
    var reduced, presentKeys := ReduceWanted(form, Entries(base), options.keys);
    if reduced.Err? {
      return reduced;
    }
    var state := reduced.value;
    ParseDone(base, options, state);
    if options.keys.Some? && options.strict != Some(false) && |presentKeys| != |options.keys.value| {
      var missing := Difference(options.keys.value, presentKeys);
      return Err(MissingKeys(missing, MissingKeysMessage(missing)));
    } else if options.form.Some? {
      r := TransformQueryParams(state, QueryOptions(options.form));
      return r;
    }
    return Ok(state);
  }

  /** The loop of `parseQueryParams`: every entry with a wanted key goes through the
      reducer of `form`, and its key is recorded in `presentKeys`. */
  method ReduceWanted(form: Form, es: seq<(string, Value)>, keys: Option<seq<string>>)
    returns (r: Result<Params, QueryError>, presentKeys: seq<string>)
    ensures r == Fold(form, Initial(form), Selected(es, keys))
    ensures r.Ok? ==> presentKeys == KeysOf(Selected(es, keys))
  {
    var state := Initial(form);
    presentKeys := [];
    for i := 0 to |es|
      invariant FormOf(state) == form
      invariant Fold(form, Initial(form), Selected(es[..i], keys)) == Ok(state)
      invariant presentKeys == KeysOf(Selected(es[..i], keys))
    {
      var k, v := es[i].0, es[i].1;
      if Wanted(k, keys) {
        var next := ApplyReducer(form, state, k, v);
        ParseStep(form, es, i, keys, state, next);
        if next.Err? {
          return next, presentKeys;
        }
        state := next.value;
        presentKeys := presentKeys + [k];
      } else {
        SelectedSnoc(es, i, keys);
      }
    }
    assert es[..|es|] == es;
    return Ok(state), presentKeys;
  }

  /** One turn of the loop of `parseQueryParams` on an entry with a wanted key: the
      entry is reduced into the state and its key recorded. A reducer that throws makes
      the whole loop throw the same error. */
  lemma ParseStep(form: Form, es: seq<(string, Value)>, i: nat, keys: Option<seq<string>>, state: Params,
                  next: Result<Params, QueryError>)
    requires i < |es| && FormOf(state) == form && Wanted(es[i].0, keys)
    requires Fold(form, Initial(form), Selected(es[..i], keys)) == Ok(state)
    requires next == Reduce(form, state, es[i].0, es[i].1)
    ensures Fold(form, Initial(form), Selected(es[..i + 1], keys)) == next
    ensures KeysOf(Selected(es[..i + 1], keys)) == KeysOf(Selected(es[..i], keys)) + [es[i].0]
    ensures next.Ok? ==> FormOf(next.value) == form
    ensures next.Err? ==> Fold(form, Initial(form), Selected(es, keys)) == next
  {
    var before := Selected(es[..i], keys);
    SelectedSnoc(es, i, keys);
    FoldSnoc(form, Initial(form), before, es[i], state);
    KeysOfSnoc(before, es[i]);
    if next.Err? {
      assert es[i] in Selected(es, keys);
    }
  }

  /** One more entry is selected exactly when its key is wanted. */
  lemma SelectedSnoc(es: seq<(string, Value)>, i: nat, keys: Option<seq<string>>)
    requires i < |es|
    ensures Selected(es[..i + 1], keys)
      == if Wanted(es[i].0, keys) then Selected(es[..i], keys) + [es[i]] else Selected(es[..i], keys)
  {
    assert es[..i + 1][..i] == es[..i];
  }

  /** After the loop: the strict check, then the optional second transform. */
  lemma ParseDone(base: Params, options: ParseOptions, state: Params)
    requires var form := GetOptionsForm(QueryOptions(options.form));
      Fold(form, Initial(form), Selected(Entries(base), options.keys)) == Ok(state)
    ensures var kept := Selected(Entries(base), options.keys);
      options.keys.Some? && options.strict != Some(false) && |kept| != |options.keys.value| ==>
        var missing := Difference(options.keys.value, KeysOf(kept));
        Parse(base, options) == Err(MissingKeys(missing, MissingKeysMessage(missing)))
    ensures var kept := Selected(Entries(base), options.keys);
      !(options.keys.Some? && options.strict != Some(false) && |kept| != |options.keys.value|) ==>
        Parse(base, options) == if options.form.Some? then Transform(state, QueryOptions(options.form)) else Ok(state)
  {
  }

  /** Without `keys`, parsing is transforming into the requested form ("object" by
      default): the second transform changes nothing. */
  lemma ParseWithoutKeys(base: Params, options: ParseOptions)
    requires options.keys.None?
    ensures Parse(base, options) == Transform(base, QueryOptions(options.form))
  {
    var t := Transform(base, QueryOptions(options.form));
    if t.Ok? && options.form.Some? {
      TransformAgain(base, QueryOptions(options.form));
    }
  }

  /** With `keys` and `strict` not `false` (and a form other than "string"), parsing
      throws exactly when the number of selected entries differs from the number of keys,
      and the error lists, in the order of `keys`, every key no entry carried. */
  lemma ParseStrict(base: Params, options: ParseOptions)
    requires options.keys.Some? && options.strict != Some(false)
    requires GetOptionsForm(QueryOptions(options.form)) != StringForm
    ensures var kept := Selected(Entries(base), options.keys);
      && (Parse(base, options).Err? <==> |kept| != |options.keys.value|)
      && (Parse(base, options).Err? ==>
            var missing := Parse(base, options).error.missing;
            && Parse(base, options).error == MissingKeys(missing, MissingKeysMessage(missing))
            && missing == Difference(options.keys.value, KeysOf(kept))
            && forall k :: k in missing <==> k in options.keys.value && forall x :: x in kept ==> x.0 != k)
  {
    var form := GetOptionsForm(QueryOptions(options.form));
    var kept := Selected(Entries(base), options.keys);
    var state := Fold(form, Initial(form), kept).value;
    if options.form.Some? {
      TransformForm(state, QueryOptions(options.form));
    }
    forall k | k in KeysOf(kept)
      ensures exists x :: x in kept && x.0 == k
    {
      var i :| 0 <= i < |kept| && KeysOf(kept)[i] == k;
      assert kept[i] in kept;
    }
  }

  /** With `strict: false` a missing key never throws. */
  lemma ParseLenient(base: Params, options: ParseOptions)
    requires options.strict == Some(false)
    ensures Parse(base, options).Err? ==> Parse(base, options).error == DetachedReducer
  {
    var form := GetOptionsForm(QueryOptions(options.form));
    var kept := Selected(Entries(base), options.keys);
    var state := Fold(form, Initial(form), kept);
    if state.Ok? && options.form.Some? {
      TransformForm(state.value, QueryOptions(options.form));
    }
  }

  /** Into pairs, parsing keeps exactly the entries with a wanted key, in order. */
  lemma ParseToPairs(base: Params, options: ParseOptions)
    requires options.form == Some(PairsForm)
    requires Parse(base, options).Ok?
    ensures Parse(base, options) == Ok(PairsParams(Selected(Entries(base), options.keys)))
  {
    var kept := Selected(Entries(base), options.keys);
    var state := PairsParams(kept);
    assert Fold(PairsForm, Initial(PairsForm), kept) == Ok(state) by {
      FoldPairs([], kept);
      assert [] + kept == kept;
    }
    ParseDone(base, options, state);
    TransformToPairs(state);
  }

  /** Each repeated entry of a wanted key counts towards the number of keys: asking for
      `a` and `b` of pairs that carry `a` twice throws nothing, though `b` is absent. */
  lemma RepeatedKeyHidesMissingKey(a: string, b: string, v1: Value, v2: Value)
    requires a != b
    ensures var items := [(a, v1), (a, v2)];
      Parse(PairsParams(items), ParseOptions(Some([a, b]), None, Some(PairsForm))) == Ok(PairsParams(items))
  {
    var items := [(a, v1), (a, v2)];
    var options := ParseOptions(Some([a, b]), None, Some(PairsForm));
    assert items[..1][..0] == [] && items[..1] == [items[0]] && items[..2][..1] == items[..1];
    assert Selected(items, options.keys) == items;
    var state := PairsParams(items);
    assert Fold(PairsForm, Initial(PairsForm), items) == Ok(state) by {
      FoldPairs([], items);
      assert [] + items == items;
    }
    ParseDone(PairsParams(items), options, state);
    TransformToPairs(state);
  }

  /** Two missing keys are listed as "'a' and 'b'". */
  lemma TwoMissingKeys(a: string, b: string)
    ensures MissingKeysMessage([a, b])
      == MissingKeysPrefix + "'" + a + "' and '" + b + "'"
  {
    var items, options := KeyItems([a, b]), HumanizeOptions(Some(And), None, None, Some(Quoted));
    TwoItems(items, options);
    assert items[0] == Text(a) && items[1] == Text(b);
    assert FormatterOf(options)(items[0]) == "'" + a + "'";
    assert FormatterOf(options)(items[1]) == "'" + b + "'";
    QuotedPair(MissingKeysPrefix, a, b);
  }

  /** Regrouping the message of two quoted keys. */
  lemma QuotedPair(p: string, a: string, b: string)
    ensures p + (("'" + a + "'") + " " + "and" + " " + ("'" + b + "'")) == p + "'" + a + "' and '" + b + "'"
  {
  }
}
