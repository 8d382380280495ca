/** src/query/util.ts: classifying a container, counting a character, iterating a
    container's entries, the per-form reducers that insert one entry, and the empty
    container of each form; plus the fold of a reducer over entries that every caller
    runs. */
module QueryUtil {
  import opened Wrappers
  import opened JsText
  import opened EntryLists
  import opened QueryTypes

  /** What the toolkit throws. */
  datatype QueryError =
    | NotOneCharacter                                 // `countCharsInString` with a longer or empty `char`
    | DetachedReducer                                 // the "string" reducer reads `this.object` without a receiver
    | MissingKeys(missing: seq<string>, message: string)  // `parseQueryParams` in strict mode

  /** Whether the reducer of `form` may be handed `state`: a container of that form, or,
      in a merge whose first argument is a string (which counts as a record), that string
      for the record reducer. */
  predicate Fits(form: Form, state: Params) {
    FormOf(state) == form || (form == RecordForm && state.StringParams?)
  }

  /** `getQueryParamForm`: Map, array and `URLSearchParams` are recognised; anything else,
      a string included, is treated as a record. */
  function GetQueryParamForm(p: Params): (r: Form)
    ensures r != StringForm
    ensures p.StringParams? ==> r == RecordForm
    ensures !p.StringParams? ==> r == FormOf(p)
    ensures Fits(r, p)
  {
    match p
    case MapParams(_) => MapForm
    case PairsParams(_) => PairsForm
    case ObjectParams(_) => ObjectForm
    case _ => RecordForm
  }

  /** `countCharsInString(value, char)`: throws unless `char` is one character, and
      otherwise counts the positions of `value` that hold it. */
  method CountCharsInString(value: string, ch: string) returns (r: Result<nat, QueryError>)
    ensures r.Err? <==> |ch| != 1
    ensures r.Ok? ==> r.value == Occurrences(value, ch[0])
  {
    if |ch| != 1 {
      return Err(NotOneCharacter);
    }
    var count := 0;
    for i := 0 to |value|
      invariant count == Occurrences(value[..i], ch[0])
    {
      OccurrencesConcat(value[..i], [value[i]], ch[0]);
      assert value[..i + 1] == value[..i] + [value[i]];
      if value[i] == ch[0] {
        count := count + 1;
      }
    }
    assert value[..|value|] == value;
    return Ok(count);
  }

  /** The entries of a `URLSearchParams`, each value a string. */
  function ObjectEntries(pairs: seq<(string, string)>): (r: seq<(string, Value)>)
    ensures |r| == |pairs|
    ensures forall i :: 0 <= i < |r| ==> r[i] == (pairs[i].0, VString(pairs[i].1))
    decreases |pairs|
  {
    if pairs == [] then []
    else [(pairs[0].0, VString(pairs[0].1))] + ObjectEntries(pairs[1..])
  }

  /** `searchParamsIterator(params)`: a map's and a `URLSearchParams`' entries and an
      array's `{ key, value }` items in order, repeats included, and a record's properties.
      A string yields nothing: its branch hands back an iterator with `return` instead of
      delegating to it with `yield*`, and what a generator returns is not iterated. */
  function Entries(p: Params): (r: seq<(string, Value)>)
    ensures p.StringParams? ==> r == []
    ensures p.ObjectParams? ==>
      |r| == |p.pairs| && forall i :: 0 <= i < |r| ==> r[i] == (p.pairs[i].0, VString(p.pairs[i].1))
  {
    match p
    case MapParams(e) => e
    case ObjectParams(pairs) => ObjectEntries(pairs)
    case RecordParams(e) => e
    case PairsParams(items) => items
    case StringParams(_) => []
  }

  /** `{ ...s }` for a string: one property per character, named by its index. */
  function SpreadString(s: string): seq<(string, Value)>
    decreases |s|
  {
    if s == [] then []
    else SpreadString(s[..|s| - 1]) + [(Digits(|s| - 1), VString([s[|s| - 1]]))]
  }

  /** The spread string holds each character under its index, and so no key twice. */
  lemma {:induction false} SpreadStringSpec(s: string)
    ensures |SpreadString(s)| == |s|
    ensures forall i :: 0 <= i < |s| ==> SpreadString(s)[i] == (Digits(i), VString([s[i]]))
    ensures UniqueKeys(SpreadString(s))
    decreases |s|
  {
    if s != [] {
      var n := |s| - 1;
      var init := SpreadString(s[..n]);
      SpreadStringSpec(s[..n]);
      if Digits(n) in Keys(init) {
        KeysMember(init, Digits(n));
        var i :| 0 <= i < |init| && init[i].0 == Digits(n);
        DigitsInjective(i, n);
      }
      KeysSnoc(init, (Digits(n), VString([s[n]])));
    }
  }

  /** The own properties `{ ...curr }` copies: a record's, or a string's characters. */
  function Spread(state: Params): (r: seq<(string, Value)>)
    requires state.RecordParams? || state.StringParams?
  {
    if state.RecordParams? then state.entries else SpreadString(state.text)
  }

  /** A record spreads to its own entries; a string to one entry per character, keyed by
      its index, and so with no key twice. */
  lemma SpreadSpec(state: Params)
    requires state.RecordParams? || state.StringParams?
    ensures state.RecordParams? ==> Spread(state) == state.entries
    ensures state.StringParams? ==>
      var r := Spread(state);
      && |r| == |state.text|
      && (forall i :: 0 <= i < |r| ==> r[i] == (Digits(i), VString([state.text[i]])))
      && UniqueKeys(r)
  {
    if state.StringParams? {
      SpreadStringSpec(state.text);
    }
  }

  /** The last step of the object reducer: `set(k, String(v))` for a number or boolean,
      `set(k, v)` for a string, and nothing for null or undefined. */
  function ObjectSet(pairs: seq<(string, string)>, k: string, v: Value): seq<(string, string)> {
    match StoredText(v)
    case Some(s) => SetEntry(pairs, k, s)
    case None => pairs
  }

  /** After the step, `k` reads the text stored for `v`, or what it read before when
      nothing is stored; every other key reads as before, and no key is repeated if none
      was. */
  lemma ObjectSetSpec(pairs: seq<(string, string)>, k: string, v: Value)
    ensures var r := ObjectSet(pairs, k, v);
      && Lookup(r, k) == (if StoredText(v).Some? then StoredText(v) else Lookup(pairs, k))
      && (forall k' :: k' != k ==> Lookup(r, k') == Lookup(pairs, k'))
      && (UniqueKeys(pairs) ==> UniqueKeys(r))
  {
    if StoredText(v).Some? {
      SetEntrySpec(pairs, k, StoredText(v).value);
    }
  }

  /** `getQueryParamsReducer(form)(state, k, v)`. The map and object reducers copy
      `state` into a fresh container with `set` and then set `k`; the record reducer is
      `{ ...state, [k]: v }`; the pairs reducer appends `{ key: k, value: v }`; the
      "string" reducer throws, because it is called without the receiver it reads
      `this.object` from. No reducer changes `state`. */
  function Reduce(form: Form, state: Params, k: string, v: Value): (r: Result<Params, QueryError>)
    requires Fits(form, state)
    ensures r.Err? <==> form == StringForm
    ensures r.Err? ==> r.error == DetachedReducer
    ensures r.Ok? ==> FormOf(r.value) == form
  {
    match form
    case MapForm => Ok(MapParams(SetEntry(SetAll([], state.entries), k, v)))
    case ObjectForm => Ok(ObjectParams(ObjectSet(SetAll([], state.pairs), k, v)))
    case RecordForm => Ok(RecordParams(SetEntry(Spread(state), k, v)))
    case PairsForm => Ok(PairsParams(state.items + [(k, v)]))
    case StringForm => Err(DetachedReducer)
  }

  /** The copy loop of the map and object reducers: every entry of `curr` is `set` into
      a fresh container, so a repeated key keeps its first position and its last value. */
  method CopyBySet<V>(curr: seq<(string, V)>) returns (r: seq<(string, V)>)
    ensures r == SetAll([], curr)
  {
    r := [];
    for i := 0 to |curr|
      invariant r == SetAll([], curr[..i])
    {
      assert curr[..i + 1][..i] == curr[..i];
      r := SetEntry(r, curr[i].0, curr[i].1);
    }
    assert curr[..|curr|] == curr;
  }

  /** The reducers as the source runs them, copy loops included. The object reducer's
      check that each copied value is a string cannot fail: a `URLSearchParams` holds
      strings only. */
  method ApplyReducer(form: Form, state: Params, k: string, v: Value) returns (r: Result<Params, QueryError>)
    requires Fits(form, state)
    ensures r == Reduce(form, state, k, v)
  {
    match form
    case MapForm =>
      var mp := CopyBySet(state.entries);
      r := Ok(MapParams(SetEntry(mp, k, v)));
    case ObjectForm =>
      var params := CopyBySet(state.pairs);
      if v.VBool? || v.VNumber? || v.VString? {
        params := SetEntry(params, k, StoredText(v).value);
      }
      r := Ok(ObjectParams(params));
    case RecordForm =>
      r := Ok(RecordParams(SetEntry(Spread(state), k, v)));
    case PairsForm =>
      r := Ok(PairsParams(state.items + [(k, v)]));
    case StringForm =>
      r := Err(DetachedReducer);
  }

  /** A reducer keeps a map or a record free of repeated keys: the copy loop collapses
      repeats, and a string spreads into distinct indices. */
  lemma ReduceWellFormed(form: Form, state: Params, k: string, v: Value)
    requires Fits(form, state) && WellFormed(state)
    requires form != StringForm
    ensures WellFormed(Reduce(form, state, k, v).value)
  {
    match form
    case MapForm =>
      SetAllSpec([], state.entries);
      SetEntrySpec(SetAll([], state.entries), k, v);
    case RecordForm =>
      if state.StringParams? {
        SpreadStringSpec(state.text);
      }
      SetEntrySpec(Spread(state), k, v);
    case _ =>
  }

  /** `getInitialQueryParamsState`: the empty container of a form. */
  function Initial(form: Form): (r: Params)
    ensures FormOf(r) == form
    ensures Entries(r) == []
    ensures WellFormed(r)
  {
    match form
    case MapForm => MapParams([])
    case ObjectForm => ObjectParams([])
    case RecordForm => RecordParams([])
    case PairsForm => PairsParams([])
    case StringForm => StringParams("")
  }

  /** The loop every caller runs: `state = reducer(state, k, v)` for each entry in turn;
      a throw ends it. */
  function Fold(form: Form, state: Params, es: seq<(string, Value)>): (r: Result<Params, QueryError>)
    requires Fits(form, state)
    ensures es == [] ==> r == Ok(state)
    ensures es != [] && r.Ok? ==> FormOf(r.value) == form
    ensures r.Err? <==> form == StringForm && es != []
    ensures r.Err? ==> r.error == DetachedReducer
    decreases |es|
  {
    if es == [] then Ok(state)
    else
      var s :- Fold(form, state, es[..|es| - 1]);
      Reduce(form, s, es[|es| - 1].0, es[|es| - 1].1)
  }

  /** One turn of a fold loop: the fold over one more entry reduces that entry into the
      fold so far. */
  lemma FoldStep(form: Form, start: Params, es: seq<(string, Value)>, i: nat, state: Params)
    requires i < |es| && Fits(form, start)
    requires Fold(form, start, es[..i]) == Ok(state)
    ensures Fits(form, state)
    ensures Fold(form, start, es[..i + 1]) == Reduce(form, state, es[i].0, es[i].1)
  {
    assert es[..i + 1][..i] == es[..i];
  }

  /** The fold over one more entry reduces that entry into the fold so far. */
  lemma FoldSnoc(form: Form, start: Params, es: seq<(string, Value)>, x: (string, Value), state: Params)
    requires Fits(form, start) && Fold(form, start, es) == Ok(state)
    ensures Fits(form, state)
    ensures Fold(form, start, es + [x]) == Reduce(form, state, x.0, x.1)
  {
    var e := es + [x];
    assert e[..|e| - 1] == es;
  }

  /** Folding over two lists in a row is folding over both. */
  lemma {:induction false} FoldAppend(form: Form, state: Params, a: seq<(string, Value)>, b: seq<(string, Value)>)
    requires Fits(form, state) && Fold(form, state, a).Ok?
    ensures Fits(form, Fold(form, state, a).value)
    ensures Fold(form, state, a + b) == Fold(form, Fold(form, state, a).value, b)
    decreases |b|
  {
    if b == [] {
      assert a + b == a;
    } else {
      var n := |b| - 1;
      FoldAppend(form, state, a, b[..n]);
      assert (a + b)[..|a + b| - 1] == a + b[..n];
      assert (a + b)[|a + b| - 1] == b[n];
    }
  }

  /** The pairs that a `URLSearchParams` receives from `set` calls with `es`: the text of
      each value, null and undefined skipped. */
  function Stored(es: seq<(string, Value)>): (r: seq<(string, string)>)
    ensures |r| <= |es|
    ensures (forall i :: 0 <= i < |es| ==> StoredText(es[i].1).Some?) ==>
      |r| == |es| && forall i :: 0 <= i < |es| ==> r[i] == (es[i].0, StoredText(es[i].1).value)
    decreases |es|
  {
    if es == [] then []
    else
      assert forall i :: 0 <= i < |es| - 1 ==> es[..|es| - 1][i] == es[i];
      var init := Stored(es[..|es| - 1]);
      match StoredText(es[|es| - 1].1)
      case Some(s) => init + [(es[|es| - 1].0, s)]
      case None => init
  }

  /** A key reaches a `URLSearchParams` exactly when some entry carries it with a value
      other than null and undefined. */
  lemma {:induction false} StoredKeys(es: seq<(string, Value)>, k: string)
    ensures k in Keys(Stored(es))
      <==> (exists i :: 0 <= i < |es| && es[i].0 == k && !es[i].1.VNull? && !es[i].1.VUndefined?)
    decreases |es|
  {
    if es != [] {
      var n := |es| - 1;
      var init := es[..n];
      StoredKeys(init, k);
      var sv := StoredText(es[n].1);
      if sv.Some? {
        KeysSnoc(Stored(init), (es[n].0, sv.value));
      }
      if exists i :: 0 <= i < |es| && es[i].0 == k && !es[i].1.VNull? && !es[i].1.VUndefined? {
        var i :| 0 <= i < |es| && es[i].0 == k && !es[i].1.VNull? && !es[i].1.VUndefined?;
        if i < n {
          assert init[i] == es[i];
        }
      }
      if exists i :: 0 <= i < |init| && init[i].0 == k && !init[i].1.VNull? && !init[i].1.VUndefined? {
        var i :| 0 <= i < |init| && init[i].0 == k && !init[i].1.VNull? && !init[i].1.VUndefined?;
        assert es[i] == init[i];
      }
    }
  }

  /** The entries of a `URLSearchParams` are stored back as they are. */
  lemma {:induction false} StoredObjectEntries(pairs: seq<(string, string)>)
    ensures Stored(ObjectEntries(pairs)) == pairs
    decreases |pairs|
  {
    if pairs != [] {
      var n := |pairs| - 1;
      var e := ObjectEntries(pairs);
      assert e[..n] == ObjectEntries(pairs[..n]);
      StoredObjectEntries(pairs[..n]);
      assert pairs == pairs[..n] + [pairs[n]];
    }
  }

  /** Folding into pairs appends every entry, in order. */
  lemma {:induction false} FoldPairs(items: seq<(string, Value)>, es: seq<(string, Value)>)
    ensures Fold(PairsForm, PairsParams(items), es) == Ok(PairsParams(items + es))
    decreases |es|
  {
    if es == [] {
      assert items + es == items;
    } else {
      var n := |es| - 1;
      FoldPairs(items, es[..n]);
      assert items + es[..n] + [es[n]] == items + es;
    }
  }

  /** Folding into a map is a run of `set` calls: the later entry for a key wins. */
  lemma {:induction false} FoldMap(e: seq<(string, Value)>, es: seq<(string, Value)>)
    requires UniqueKeys(e)
    ensures Fold(MapForm, MapParams(e), es) == Ok(MapParams(SetAll(e, es)))
    decreases |es|
  {
    if es != [] {
      var n := |es| - 1;
      FoldMap(e, es[..n]);
      SetAllSpec(e, es[..n]);
      SetAllCopies(SetAll(e, es[..n]));
    }
  }

  /** Folding into a record is a run of functional updates: the later entry wins. */
  lemma {:induction false} FoldRecord(e: seq<(string, Value)>, es: seq<(string, Value)>)
    requires UniqueKeys(e)
    ensures Fold(RecordForm, RecordParams(e), es) == Ok(RecordParams(SetAll(e, es)))
    decreases |es|
  {
    if es != [] {
      FoldRecord(e, es[..|es| - 1]);
    }
  }

  /** Folding into a string with the record reducer first spreads the string's characters
      into index-named properties. */
  lemma {:induction false} FoldRecordString(s: string, es: seq<(string, Value)>)
    requires es != []
    ensures Fold(RecordForm, StringParams(s), es) == Ok(RecordParams(SetAll(SpreadString(s), es)))
    decreases |es|
  {
    var n := |es| - 1;
    if n == 0 {
      assert es[..n] == [];
    } else {
      FoldRecordString(s, es[..n]);
      SpreadStringSpec(s);
      SetAllSpec(SpreadString(s), es[..n]);
    }
  }

  /** Folding into a `URLSearchParams` collapses its repeated keys once (the first copy
      loop), then `set`s the text of every entry whose value is not null or undefined. */
  lemma {:induction false} FoldObject(pairs: seq<(string, string)>, es: seq<(string, Value)>)
    ensures Fold(ObjectForm, ObjectParams(pairs), es)
      == Ok(ObjectParams(if es == [] then pairs else SetAll(SetAll([], pairs), Stored(es))))
    decreases |es|
  {
    if es != [] {
      var n := |es| - 1;
      var init, x := es[..n], es[n];
      FoldObject(pairs, init);
      var base := SetAll([], pairs);
      if init == [] {
        assert Stored(init) == [];
      } else {
        SetAllSpec([], pairs);
        SetAllSpec(base, Stored(init));
        SetAllCopies(SetAll(base, Stored(init)));
      }
      match StoredText(x.1)
      case Some(s) =>
        SetAllAppend(base, Stored(init), [(x.0, s)]);
        assert SetAll(SetAll(base, Stored(init)), [(x.0, s)]) == SetEntry(SetAll(base, Stored(init)), x.0, s) by {
          assert [(x.0, s)][..0] == [];
        }
      case None =>
    }
  }
}
