/** src/query/merge-query-params.ts: `mergeQueryParams(arg0, arg1, ...rest)`, which folds
    the entries of each later argument into the first, in the first argument's form. */
module QueryMerge {
  import opened Wrappers
  import opened EntryLists
  import opened QueryTypes
  import opened QueryUtil

  /** The two-argument merge: the entries of `a1` folded into `a0` with the reducer of
      `a0`'s form. It never throws (no argument has the "string" form, a string first
      argument being a record); with nothing in `a1` it returns `a0` itself, and otherwise
      a container of `a0`'s form. */
  function Merge2(a0: Params, a1: Params): (r: Result<Params, QueryError>)
    ensures r.Ok?
    ensures Entries(a1) == [] ==> r.value == a0
    ensures Entries(a1) != [] ==> FormOf(r.value) == GetQueryParamForm(a0)
  {
    Fold(GetQueryParamForm(a0), a0, Entries(a1))
  }

  /** The variadic merge: `a0` merged with `a1`, then the result merged with each argument
      of `rest` from left to right. */
  function Merge(a0: Params, a1: Params, rest: seq<Params>): (r: Result<Params, QueryError>)
    ensures r.Ok? ==> r.value == a0 || FormOf(r.value) == GetQueryParamForm(a0)
    decreases |rest|
  {
    if rest == [] then Merge2(a0, a1)
    else
      var state :- Merge(a0, a1, rest[..|rest| - 1]);
      Merge2(state, rest[|rest| - 1])
  }

  method MergeQueryParams(a0: Params, a1: Params, rest: seq<Params>) returns (r: Result<Params, QueryError>)
    ensures r == Merge(a0, a1, rest)
    decreases |rest|
  {
    if |rest| == 0 {
      var form := GetQueryParamForm(a0);
      var state := a0;
      var es := Entries(a1);
      for i := 0 to |es|
        invariant Fits(form, state)
        invariant Fold(form, a0, es[..i]) == Ok(state)
      {
        FoldStep(form, a0, es, i, state);
        var next := ApplyReducer(form, state, es[i].0, es[i].1);
        state := next.value;
      }
      assert es[..|es|] == es;
      return Ok(state);
    }
    var first := MergeQueryParams(a0, a1, []);
    var state := first.value;
    for i := 0 to |rest|
      invariant Merge(a0, a1, rest[..i]) == Ok(state)
    {
      assert rest[..i + 1][..i] == rest[..i];
      MergeStep(a0, a1, rest[..i + 1]);
      var next := MergeQueryParams(state, rest[i], []);
      state := next.value;
    }
    assert rest[..|rest|] == rest;
    return Ok(state);
  }

  /** No merge throws, and each further argument is merged into the result so far. */
  lemma {:induction false} MergeStep(a0: Params, a1: Params, rest: seq<Params>)
    ensures Merge(a0, a1, rest).Ok?
    ensures rest != [] ==> Merge(a0, a1, rest) == Merge2(Merge(a0, a1, rest[..|rest| - 1]).value, rest[|rest| - 1])
    decreases |rest|
  {
    if rest != [] {
      MergeStep(a0, a1, rest[..|rest| - 1]);
    }
  }

  /** The entries of every argument of `rest`, in order. */
  function AllEntries(rest: seq<Params>): seq<(string, Value)>
    decreases |rest|
  {
    if rest == [] then [] else AllEntries(rest[..|rest| - 1]) + Entries(rest[|rest| - 1])
  }

  /** A merge result is classified like the first argument, so a further merge uses the
      same reducer. */
  lemma FoldKeepsClass(a0: Params, es: seq<(string, Value)>)
    ensures Fold(GetQueryParamForm(a0), a0, es).Ok?
    ensures GetQueryParamForm(Fold(GetQueryParamForm(a0), a0, es).value) == GetQueryParamForm(a0)
  {
  }

  /** The variadic merge is one fold, with the reducer of the first argument's form, over
      the entries of all later arguments in order. */
  lemma {:induction false} MergeIsOneFold(a0: Params, a1: Params, rest: seq<Params>)
    ensures Merge(a0, a1, rest) == Fold(GetQueryParamForm(a0), a0, Entries(a1) + AllEntries(rest))
    decreases |rest|
  {
    var form := GetQueryParamForm(a0);
    if rest == [] {
      assert Entries(a1) + AllEntries(rest) == Entries(a1);
    } else {
      var n := |rest| - 1;
      var before, more := Entries(a1) + AllEntries(rest[..n]), Entries(rest[n]);
      assert before + more == Entries(a1) + AllEntries(rest);
      MergeIsOneFold(a0, a1, rest[..n]);
      FoldKeepsClass(a0, before);
      var state := Fold(form, a0, before).value;
      calc {
        Merge(a0, a1, rest);
        { MergeStep(a0, a1, rest); }
        Merge2(state, rest[n]);
        Fold(form, state, more);
        { FoldAppend(form, a0, before, more); }
        Fold(form, a0, before + more);
      }
    }
  }

  /** Merging into a map: one run of `set` calls over the entries of every later argument,
      so a later argument's key overrides an earlier one. */
  lemma MergeMaps(e: seq<(string, Value)>, a1: Params, rest: seq<Params>)
    requires UniqueKeys(e)
    ensures Merge(MapParams(e), a1, rest) == Ok(MapParams(SetAll(e, Entries(a1) + AllEntries(rest))))
  {
    MergeIsOneFold(MapParams(e), a1, rest);
    FoldMap(e, Entries(a1) + AllEntries(rest));
  }

  /** Merging into a record: the same, with functional updates. */
  lemma MergeRecords(e: seq<(string, Value)>, a1: Params, rest: seq<Params>)
    requires UniqueKeys(e)
    ensures Merge(RecordParams(e), a1, rest) == Ok(RecordParams(SetAll(e, Entries(a1) + AllEntries(rest))))
  {
    MergeIsOneFold(RecordParams(e), a1, rest);
    FoldRecord(e, Entries(a1) + AllEntries(rest));
  }

  /** Merging into pairs concatenates the entries of every argument. */
  lemma MergePairs(items: seq<(string, Value)>, a1: Params, rest: seq<Params>)
    ensures Merge(PairsParams(items), a1, rest) == Ok(PairsParams(items + Entries(a1) + AllEntries(rest)))
  {
    MergeIsOneFold(PairsParams(items), a1, rest);
    FoldPairs(items, Entries(a1) + AllEntries(rest));
    assert items + (Entries(a1) + AllEntries(rest)) == items + Entries(a1) + AllEntries(rest);
  }

  /** Two-argument merge into a map: a key of `a1` takes its last value there, every other
      key keeps its value in `a0`. */
  lemma MergeOverrides(e: seq<(string, Value)>, a1: Params, k: string)
    requires UniqueKeys(e)
    ensures Merge2(MapParams(e), a1).value.entries == SetAll(e, Entries(a1))
    ensures Lookup(Merge2(MapParams(e), a1).value.entries, k)
      == if k in Keys(Entries(a1)) then LastValue(Entries(a1), k) else Lookup(e, k)
  {
    FoldMap(e, Entries(a1));
    SetAllSpec(e, Entries(a1));
  }

  /** Merging into a `URLSearchParams` collapses its repeated keys and then `set`s the
      text of every value of `a1` that is not null or undefined. */
  lemma MergeObject(pairs: seq<(string, string)>, a1: Params)
    requires Entries(a1) != []
    ensures Merge2(ObjectParams(pairs), a1) == Ok(ObjectParams(SetAll(SetAll([], pairs), Stored(Entries(a1)))))
  {
    FoldObject(pairs, Entries(a1));
  }

  /** A string first argument counts as a record: with entries to merge, the result is a
      record of the string's characters under their indices, then the merged entries. */
  lemma MergeIntoString(s: string, a1: Params)
    requires Entries(a1) != []
    ensures Merge2(StringParams(s), a1) == Ok(RecordParams(SetAll(SpreadString(s), Entries(a1))))
  {
    FoldRecordString(s, Entries(a1));
  }
}
