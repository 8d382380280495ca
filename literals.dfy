/** src/literals/index.ts: `enumeratedLiterals`, which turns a list of strings or of
    `{value, ...}` models into an immutable lookup object, and that object's methods. */
module Literals {
  import opened Wrappers
  import opened Lodash
  import opened HumanizeList
  import opened LiteralsCore
  import opened LiteralsOptions
  import opened LiteralsAccessors

  /** What construction throws. */
  datatype LiteralsError =
      // `TypeError`: reading `value` off a `null` or `undefined` entry
    | NullEntry
    | ShapeFailure(shape: ShapeError)
      // "Encountered duplicate literal values '<key>'! ..."
    | DuplicateValue(key: string)
      // "Encountered two literals, '<first>' and '<second>', that map to the same accessor, '<accessor>'! ..."
    | AccessorCollision(first: string, second: string, accessor: string)

  /** The object `enumeratedLiterals` returns, without its methods: the values, the
      models, the accessor table (accessor name to value) and the options it was given. */
  datatype LiteralSet = LiteralSet(
    values: seq<string>,
    models: seq<Json>,
    accessors: map<string, string>,
    options: LiteralsOptions)

  // ---------------------------------------------------------------------------------
  // Construction

  /** The state the `reduce` threads through: the `seen` list of (value, accessor) pairs
      and the accessor table built so far. */
  datatype Registry = Registry(seen: seq<(string, string)>, table: map<string, string>)

  /** `seen.findIndex(([a]) => a === x)`: the first pair whose FIRST slot is `x`, or -1.
      The first slot holds a value, not an accessor. */
  function FindFirstSlot(seen: seq<(string, string)>, x: string): (ind: int)
    ensures -1 <= ind < |seen|
    ensures ind == -1 <==> forall j :: 0 <= j < |seen| ==> seen[j].0 != x
    ensures ind != -1 ==> seen[ind].0 == x && forall j :: 0 <= j < ind ==> seen[j].0 != x
    decreases |seen|
  {
    if seen == [] then -1
    else if seen[0].0 == x then 0
    else
      var k := FindFirstSlot(seen[1..], x);
      assert forall j :: 0 < j < |seen| ==> seen[j] == seen[1..][j - 1];
      if k == -1 then -1 else k + 1
  }

  /** The error for a detected clash. The pair found has `accessor` in its first slot, so
      the "duplicate" message is chosen exactly when the accessor is the key itself. */
  function ClashError(key: string, accessor: string): LiteralsError {
    if accessor == key then DuplicateValue(key) else AccessorCollision(accessor, key, accessor)
  }

  /** One step of the `reduce`: derive the accessor of `key`, look it up among the earlier
      VALUES, and either throw or record the pair and the table entry. */
  function Register(reg: Registry, key: string, accessorOf: string -> string): Result<Registry, LiteralsError> {
    var accessor := accessorOf(key);
    var ind := FindFirstSlot(reg.seen, accessor);
    if ind != -1 then
      if reg.seen[ind].0 == key then Err(DuplicateValue(key))
      else Err(AccessorCollision(reg.seen[ind].0, key, accessor))
    else Ok(Registry(reg.seen + [(key, accessor)], reg.table[accessor := key]))
  }

  /** The whole `reduce` over the values, as a left fold; `accessorOf` is
      `toLiteralAccessor` with the list and the options fixed. */
  function Registered(keys: seq<string>, accessorOf: string -> string): (r: Result<Registry, LiteralsError>)
    ensures r.Err? ==> r.error.DuplicateValue? || r.error.AccessorCollision?
    decreases |keys|
  {
    if keys == [] then Ok(Registry([], map[]))
    else
      var reg :- Registered(keys[..|keys| - 1], accessorOf);
      Register(reg, keys[|keys| - 1], accessorOf)
  }

  /** Entry `i` clashes when an earlier VALUE equals its accessor. */
  predicate Clashes(keys: seq<string>, accessorOf: string -> string, i: int)
    requires 0 <= i < |keys|
  {
    exists j :: 0 <= j < i && keys[j] == accessorOf(keys[i])
  }

  /** `toLiteralAccessor` for a fixed list shape and options. */
  function AccessorFn(eff: AccessorOptions): string -> string {
    k => FormatAccessor(k, eff)
  }

  /** The effective accessor settings of an accepted list. */
  function EffectiveFor(literals: seq<Json>, options: LiteralsOptions): AccessorOptions
    requires WellShaped(literals)
  {
    Effective(DefaultAccessorOptions(literals).value, options)
  }

  /** An entry that `isLiteralModel` takes for a model but whose `value` cannot be read;
      an accepted list, of strings and objects only, has none. */
  predicate HasNullEntry(literals: seq<Json>)
    ensures WellShaped(literals) ==> !HasNullEntry(literals)
  {
    assert LiteralsAreModelArray(literals) ==> forall i :: 0 <= i < |literals| ==> literals[i].JObject?;
    exists i :: 0 <= i < |literals| && (literals[i].JNull? || literals[i].JUndefined?)
  }

  /** `enumeratedLiterals(literals, options)`, as a value: computing the values first
      throws on a `null` or `undefined` entry, a mixed list then throws the empty shape
      error, and otherwise the values are registered in order. */
  function Built(literals: seq<Json>, options: LiteralsOptions): (r: Result<LiteralSet, LiteralsError>)
    ensures r.Ok? ==> WellShaped(literals)
    ensures r.Ok? && WellShaped(literals) ==>
      r.value.values == Values(literals) && r.value.models == Models(literals) && r.value.options == options
    ensures r.Err? && WellShaped(literals) ==> r.error.DuplicateValue? || r.error.AccessorCollision?
  {
    if HasNullEntry(literals) then Err(NullEntry)
    else if !WellShaped(literals) then Err(ShapeFailure(EmptyMessageError))
    else
      var reg :- Registered(Values(literals), AccessorFn(EffectiveFor(literals, options)));
      Ok(LiteralSet(Values(literals), Models(literals), reg.table, options))
  }

  /** `enumeratedLiterals`: the `reduce` over the entries with the reassigned `seen` list. */
  method EnumeratedLiterals(literals: seq<Json>, options: LiteralsOptions) returns (r: Result<LiteralSet, LiteralsError>)
    ensures r == Built(literals, options)
  {
    // The `values` map reads `value` off every non-string entry.
    var k := 0;
    while k < |literals|
      invariant 0 <= k <= |literals|
      invariant forall j :: 0 <= j < k ==> !(literals[j].JNull? || literals[j].JUndefined?)
    {
      if literals[k].JNull? || literals[k].JUndefined? {
        assert HasNullEntry(literals);
        return Err(NullEntry);
      }
      k := k + 1;
    }
    assert !HasNullEntry(literals);
    var seen: seq<(string, string)> := [];
    var accessors: map<string, string> := map[];
    var i := 0;
    while i < |literals|
      invariant 0 <= i <= |literals|
      invariant i > 0 ==> WellShaped(literals)
      invariant WellShaped(literals) ==> Progress(literals, options, i, Registry(seen, accessors))
    {
      var curr := literals[i];
      // The value of a non-model entry is `undefined`; the accessor call below throws
      // before it is used.
      var key := if curr.JString? then curr.s else if IsBaseModel(curr) then ValueOf(curr) else "";
      var accessorOrError := ToLiteralAccessor(key, literals, options);
      if accessorOrError.Err? {
        return Err(ShapeFailure(accessorOrError.error));
      }
      var accessor := accessorOrError.value;
      LoopStep(literals, options, i, Registry(seen, accessors));
      var ind := FindFirstSlot(seen, accessor);
      if ind != -1 {
        if seen[ind].0 == key {
          return Err(DuplicateValue(key));
        }
        return Err(AccessorCollision(seen[ind].0, key, accessor));
      }
      seen := seen + [(key, accessor)];
      accessors := accessors[accessor := key];
      i := i + 1;
    }
    LoopDone(literals, options, Registry(seen, accessors));
    r := Ok(LiteralSet(Values(literals), Models(literals), accessors, options));
  }

  /** The loop's invariant: the first `i` values are registered, giving `reg`. */
  ghost predicate Progress(literals: seq<Json>, options: LiteralsOptions, i: int, reg: Registry)
    requires WellShaped(literals)
    requires 0 <= i <= |literals|
  {
    Registered(Values(literals)[..i], AccessorFn(EffectiveFor(literals, options))) == Ok(reg)
  }

  /** One turn of the loop, on an accepted list: entry `i` has its value as key and
      `toLiteralAccessor` gives its accessor; a found slot decides the thrown error, and
      otherwise one more value is registered. */
  lemma LoopStep(literals: seq<Json>, options: LiteralsOptions, i: int, reg: Registry)
    requires WellShaped(literals) && 0 <= i < |literals|
    requires Progress(literals, options, i, reg)
    ensures var curr := literals[i];
      var key := if curr.JString? then curr.s else if IsBaseModel(curr) then ValueOf(curr) else "";
      var accessor := FormatAccessor(key, EffectiveFor(literals, options));
      var ind := FindFirstSlot(reg.seen, accessor);
      && ToLiteralAccessor(key, literals, options) == Ok(accessor)
      && (ind != -1 && reg.seen[ind].0 == key ==> Built(literals, options) == Err(DuplicateValue(key)))
      && (ind != -1 && reg.seen[ind].0 != key ==> Built(literals, options) == Err(AccessorCollision(reg.seen[ind].0, key, accessor)))
      && (ind == -1 ==> Progress(literals, options, i + 1, Registry(reg.seen + [(key, accessor)], reg.table[accessor := key])))
  {
    var keys := Values(literals);
    var f := AccessorFn(EffectiveFor(literals, options));
    RegisteredStep(keys, f, i);
    if Registered(keys[..i + 1], f).Err? {
      RegisteredErrorSticks(keys, f, i + 1);
    }
  }

  /** After the loop every value is registered and the set is what construction gives. */
  lemma LoopDone(literals: seq<Json>, options: LiteralsOptions, reg: Registry)
    requires WellShaped(literals)
    requires Progress(literals, options, |literals|, reg)
    ensures Built(literals, options) == Ok(LiteralSet(Values(literals), Models(literals), reg.table, options))
  {
    assert Values(literals)[..|literals|] == Values(literals);
  }

  /** The fold over one more value takes one more `Register` step. */
  lemma RegisteredStep(keys: seq<string>, accessorOf: string -> string, i: nat)
    requires i < |keys|
    ensures Registered(keys[..i], accessorOf).Err? ==> Registered(keys[..i + 1], accessorOf) == Registered(keys[..i], accessorOf)
    ensures Registered(keys[..i], accessorOf).Ok?
      ==> Registered(keys[..i + 1], accessorOf) == Register(Registered(keys[..i], accessorOf).value, keys[i], accessorOf)
  {
    assert keys[..i + 1][..i] == keys[..i];
  }

  /** Once a prefix throws, the whole list throws the same error. */
  lemma {:induction false} RegisteredErrorSticks(keys: seq<string>, accessorOf: string -> string, k: nat)
    requires k <= |keys|
    requires Registered(keys[..k], accessorOf).Err?
    ensures Registered(keys, accessorOf) == Registered(keys[..k], accessorOf)
    decreases |keys|
  {
    if k < |keys| {
      var init := keys[..|keys| - 1];
      assert init[..k] == keys[..k];
      RegisteredErrorSticks(init, accessorOf, k);
    } else {
      assert keys[..k] == keys;
    }
    assert keys[..|keys|] == keys;
  }

  /** Dropping the last value does not change whether the others clash. */
  lemma ClashesOfPrefix(keys: seq<string>, accessorOf: string -> string)
    requires keys != []
    ensures forall i :: 0 <= i < |keys| - 1 ==>
      (Clashes(keys, accessorOf, i) <==> Clashes(keys[..|keys| - 1], accessorOf, i))
  {
    var init := keys[..|keys| - 1];
    forall i | 0 <= i < |keys| - 1
      ensures Clashes(keys, accessorOf, i) <==> Clashes(init, accessorOf, i)
    {
      assert forall j :: 0 <= j <= i ==> keys[j] == init[j];
    }
  }

  /** Construction succeeds exactly when no entry clashes, that is, when no earlier VALUE
      equals an entry's accessor; `seen` then pairs every value with its accessor. */
  lemma {:induction false} RegisteredOk(keys: seq<string>, accessorOf: string -> string)
    ensures Registered(keys, accessorOf).Ok? <==> forall i :: 0 <= i < |keys| ==> !Clashes(keys, accessorOf, i)
    ensures Registered(keys, accessorOf).Ok? ==>
      var seen := Registered(keys, accessorOf).value.seen;
      |seen| == |keys| && forall i :: 0 <= i < |keys| ==> seen[i] == (keys[i], accessorOf(keys[i]))
    decreases |keys|
  {
    if keys != [] {
      var n := |keys|;
      var init := keys[..n - 1];
      RegisteredOk(init, accessorOf);
      ClashesOfPrefix(keys, accessorOf);
      var prev := Registered(init, accessorOf);
      if prev.Ok? {
        assert forall i :: 0 <= i < n - 1 ==> init[i] == keys[i];
        RegisteredOkStep(keys, accessorOf);
      } else {
        var i :| 0 <= i < |init| && Clashes(init, accessorOf, i);
        assert Clashes(keys, accessorOf, i);
      }
    }
  }

  /** The last value, registered after the others went through: it goes through exactly
      when it does not clash, and `seen` then gains it with its accessor. */
  lemma RegisteredOkStep(keys: seq<string>, accessorOf: string -> string)
    requires keys != [] && Registered(keys[..|keys| - 1], accessorOf).Ok?
    requires var seen := Registered(keys[..|keys| - 1], accessorOf).value.seen;
      |seen| == |keys| - 1 && forall i :: 0 <= i < |keys| - 1 ==> seen[i] == (keys[i], accessorOf(keys[i]))
    ensures Registered(keys, accessorOf).Ok? <==> !Clashes(keys, accessorOf, |keys| - 1)
    ensures Registered(keys, accessorOf).Ok? ==>
      var seen := Registered(keys, accessorOf).value.seen;
      |seen| == |keys| && forall i :: 0 <= i < |keys| ==> seen[i] == (keys[i], accessorOf(keys[i]))
  {
    var n := |keys|;
    var seen := Registered(keys[..n - 1], accessorOf).value.seen;
    var acc := accessorOf(keys[n - 1]);
    var ind := FindFirstSlot(seen, acc);
    if ind != -1 {
      assert keys[ind] == acc;
      assert Clashes(keys, accessorOf, n - 1);
    } else {
      assert !Clashes(keys, accessorOf, n - 1) by {
        forall j | 0 <= j < n - 1
          ensures keys[j] != acc
        {
          assert seen[j].0 == keys[j];
        }
      }
      assert Registered(keys, accessorOf).value.seen == seen + [(keys[n - 1], acc)];
    }
  }

  /** When construction throws, it throws at the first clashing entry, with the
      "duplicate" message when that entry's accessor is its own value and the "collision"
      message otherwise. */
  lemma {:induction false} RegisteredError(keys: seq<string>, accessorOf: string -> string)
    requires Registered(keys, accessorOf).Err?
    ensures exists i :: (0 <= i < |keys| && Clashes(keys, accessorOf, i)
      && (forall j :: 0 <= j < i ==> !Clashes(keys, accessorOf, j))
      && Registered(keys, accessorOf).error == ClashError(keys[i], accessorOf(keys[i])))
    decreases |keys|
  {
    var n := |keys|;
    var init := keys[..n - 1];
    ClashesOfPrefix(keys, accessorOf);
    var prev := Registered(init, accessorOf);
    if prev.Ok? {
      RegisteredOk(init, accessorOf);
      var seen := prev.value.seen;
      var acc := accessorOf(keys[n - 1]);
      var ind := FindFirstSlot(seen, acc);
      assert ind != -1;
      assert keys[ind] == acc;
      assert Clashes(keys, accessorOf, n - 1);
      assert Registered(keys, accessorOf).error == ClashError(keys[n - 1], acc);
    } else {
      RegisteredError(init, accessorOf);
      var i :| 0 <= i < |init| && Clashes(init, accessorOf, i) && (forall j :: 0 <= j < i ==> !Clashes(init, accessorOf, j))
        && prev.error == ClashError(init[i], accessorOf(init[i]));
      assert keys[i] == init[i];
    }
  }

  /** On success the accessor table has exactly the accessors of the values as keys, and
      an accessor leads to the last value that has it: an undetected clash lets the later
      entry overwrite the earlier one. */
  lemma RegisteredTable(keys: seq<string>, accessorOf: string -> string)
    requires Registered(keys, accessorOf).Ok?
    ensures var table := Registered(keys, accessorOf).value.table;
      && (forall a :: a in table <==> exists i :: 0 <= i < |keys| && accessorOf(keys[i]) == a)
      && (forall i :: 0 <= i < |keys| && (forall j :: i < j < |keys| ==> accessorOf(keys[j]) != accessorOf(keys[i]))
            ==> table[accessorOf(keys[i])] == keys[i])
  {
    RegisteredTableKeys(keys, accessorOf);
    RegisteredTableLastWins(keys, accessorOf);
  }

  /** One more value adds its accessor to the table, pointing at it. */
  lemma RegisteredTableStep(keys: seq<string>, accessorOf: string -> string)
    requires keys != [] && Registered(keys, accessorOf).Ok?
    ensures Registered(keys[..|keys| - 1], accessorOf).Ok?
    ensures Registered(keys, accessorOf).value.table
      == Registered(keys[..|keys| - 1], accessorOf).value.table[accessorOf(keys[|keys| - 1]) := keys[|keys| - 1]]
  {
  }

  lemma {:induction false} RegisteredTableKeys(keys: seq<string>, accessorOf: string -> string)
    requires Registered(keys, accessorOf).Ok?
    ensures forall a :: (a in Registered(keys, accessorOf).value.table
      <==> exists i :: 0 <= i < |keys| && accessorOf(keys[i]) == a)
    decreases |keys|
  {
    if keys != [] {
      var n := |keys|;
      var init := keys[..n - 1];
      RegisteredTableStep(keys, accessorOf);
      RegisteredTableKeys(init, accessorOf);
      var table := Registered(keys, accessorOf).value.table;
      var acc := accessorOf(keys[n - 1]);
      forall a
        ensures a in table <==> exists i :: 0 <= i < n && accessorOf(keys[i]) == a
      {
        if a in table && a != acc {
          var i :| 0 <= i < |init| && accessorOf(init[i]) == a;
          assert keys[i] == init[i];
        }
        if exists i :: 0 <= i < n && accessorOf(keys[i]) == a {
          var i :| 0 <= i < n && accessorOf(keys[i]) == a;
          if i < n - 1 {
            assert init[i] == keys[i];
          }
        }
      }
    }
  }

  lemma RegisteredTableLastWins(keys: seq<string>, accessorOf: string -> string)
    requires Registered(keys, accessorOf).Ok?
    ensures forall i :: (0 <= i < |keys| && (forall j :: i < j < |keys| ==> accessorOf(keys[j]) != accessorOf(keys[i]))
      ==> (accessorOf(keys[i]) in Registered(keys, accessorOf).value.table
           && Registered(keys, accessorOf).value.table[accessorOf(keys[i])] == keys[i]))
  {
    forall i | 0 <= i < |keys| && (forall j :: i < j < |keys| ==> accessorOf(keys[j]) != accessorOf(keys[i]))
      ensures accessorOf(keys[i]) in Registered(keys, accessorOf).value.table
      ensures Registered(keys, accessorOf).value.table[accessorOf(keys[i])] == keys[i]
    {
      RegisteredTableLastWinsAt(keys, accessorOf, i);
    }
  }

  /** One value of `RegisteredTableLastWins`: a value whose accessor no later value
      shares is the one the table holds under that accessor. */
  lemma {:induction false} RegisteredTableLastWinsAt(keys: seq<string>, accessorOf: string -> string, i: nat)
    requires Registered(keys, accessorOf).Ok? && i < |keys|
    requires forall j :: i < j < |keys| ==> accessorOf(keys[j]) != accessorOf(keys[i])
    ensures accessorOf(keys[i]) in Registered(keys, accessorOf).value.table
    ensures Registered(keys, accessorOf).value.table[accessorOf(keys[i])] == keys[i]
    decreases |keys|
  {
    var n := |keys|;
    var init := keys[..n - 1];
    RegisteredTableStep(keys, accessorOf);
    if i < n - 1 {
      assert init[i] == keys[i];
      assert accessorOf(keys[n - 1]) != accessorOf(keys[i]);
      assert forall j :: i < j < n - 1 ==> accessorOf(init[j]) != accessorOf(init[i]) by {
        assert forall j :: i < j < n - 1 ==> init[j] == keys[j];
      }
      RegisteredTableLastWinsAt(init, accessorOf, i);
    }
  }

  /** The values of a pair of entries, registered: the first never clashes, the second
      clashes exactly when the first VALUE is its accessor. */
  lemma RegisteredPair(keys: seq<string>, accessorOf: string -> string)
    requires |keys| == 2
    ensures keys[0] == accessorOf(keys[1])
      ==> Registered(keys, accessorOf) == Err(ClashError(keys[1], accessorOf(keys[1])))
    ensures keys[0] != accessorOf(keys[1])
      ==> Registered(keys, accessorOf)
          == Ok(Registry([(keys[0], accessorOf(keys[0])), (keys[1], accessorOf(keys[1]))],
                         map[accessorOf(keys[0]) := keys[0]][accessorOf(keys[1]) := keys[1]]))
  {
    var f := accessorOf;
    var one := keys[..1];
    assert one[..|one| - 1] == [] && one[|one| - 1] == keys[0];
    assert Registered(one[..|one| - 1], f) == Ok(Registry([], map[]));
    var first := Registered(one, f);
    assert first == Register(Registry([], map[]), keys[0], f);
    assert FindFirstSlot([], f(keys[0])) == -1;
    assert [] + [(keys[0], f(keys[0]))] == [(keys[0], f(keys[0]))];
    assert first == Ok(Registry([(keys[0], f(keys[0]))], map[f(keys[0]) := keys[0]]));
    assert FindFirstSlot(first.value.seen, f(keys[1])) == (if keys[0] == f(keys[1]) then 0 else -1);
    assert keys[..|keys| - 1] == keys[..1];
    assert Registered(keys, f) == Register(first.value, keys[1], f);
    assert [(keys[0], f(keys[0]))] + [(keys[1], f(keys[1]))] == [(keys[0], f(keys[0])), (keys[1], f(keys[1]))];
  }

  /** A repeated value gets past construction only when its accessor differs from the
      value: the check looks for the accessor among the earlier values. */
  lemma RepeatedValueNeedsNewAccessor(keys: seq<string>, accessorOf: string -> string, i: int, j: int)
    requires 0 <= i < j < |keys| && keys[i] == keys[j]
    requires Registered(keys, accessorOf).Ok?
    ensures accessorOf(keys[j]) != keys[j]
  {
    RegisteredOk(keys, accessorOf);
    assert !Clashes(keys, accessorOf, j);
  }

  /** The outcome of construction, read off the registry: a `null` or `undefined` entry
      throws the `TypeError`, any other mixed list throws the shape error, a clash throws at the first clashing value, and otherwise the set holds the
      values, their models and the accessor table in which every value's accessor is a
      key and the last value with a given accessor wins. */
  lemma BuiltSpec(literals: seq<Json>, options: LiteralsOptions)
    ensures HasNullEntry(literals) ==> Built(literals, options) == Err(NullEntry)
    ensures !HasNullEntry(literals) && !WellShaped(literals) ==> Built(literals, options) == Err(ShapeFailure(EmptyMessageError))
    ensures WellShaped(literals) ==> !HasNullEntry(literals)
    ensures WellShaped(literals) ==>
      var keys, f := Values(literals), AccessorFn(EffectiveFor(literals, options));
      && (Built(literals, options).Ok? <==> forall i :: 0 <= i < |keys| ==> !Clashes(keys, f, i))
      && (Built(literals, options).Err? ==> exists i :: (0 <= i < |keys| && Clashes(keys, f, i)
            && (forall j :: 0 <= j < i ==> !Clashes(keys, f, j))
            && Built(literals, options).error == ClashError(keys[i], f(keys[i]))))
    ensures Built(literals, options).Ok? ==>
      var ls := Built(literals, options).value;
      var f := AccessorFn(EffectiveFor(literals, options));
      && ls.values == Values(literals) && ls.models == Models(literals) && ls.options == options
      && (forall a :: a in ls.accessors <==> exists i :: 0 <= i < |ls.values| && f(ls.values[i]) == a)
      && (forall i :: 0 <= i < |ls.values| && (forall j :: i < j < |ls.values| ==> f(ls.values[j]) != f(ls.values[i]))
            ==> ls.accessors[f(ls.values[i])] == ls.values[i])
  {
    if WellShaped(literals) {
      var keys, f := Values(literals), AccessorFn(EffectiveFor(literals, options));
      RegisteredOk(keys, f);
      if Registered(keys, f).Err? {
        RegisteredError(keys, f);
      } else {
        RegisteredTable(keys, f);
      }
    }
  }

  // ---------------------------------------------------------------------------------
  // The instance's methods

  /** What a built set always satisfies: one model per value, carrying that value. */
  predicate Valid(ls: LiteralSet) {
    && |ls.models| == |ls.values|
    && forall i :: 0 <= i < |ls.values| ==> Get(ls.models[i], "value") == JString(ls.values[i])
  }

  lemma BuiltValid(literals: seq<Json>, options: LiteralsOptions)
    requires Built(literals, options).Ok?
    ensures Valid(Built(literals, options).value)
  {
    ModelsCarryValues(literals);
  }

  /** `contains`: the union of string literals accepts exactly the strings among the values;
      numbers, objects and the rest never match. */
  predicate Contains(ls: LiteralSet, v: Json)
    ensures Contains(ls, v) <==> exists i :: 0 <= i < |ls.values| && v == JString(ls.values[i])
  {
    v.JString? && v.s in ls.values
  }

  /** The `Error` `throwInvalidValue` throws, by message. */
  datatype InvalidValue =
      /** The options' `invalidValueErrorMessage(values, v)`. */
    | CustomMessage(message: string)
      /** The `errorMessage` argument. */
    | GivenMessage(message: string)
      /** "The values on the literals instance are empty, ..." */
    | NoValues
      /** "The value <JSON of value> is not valid, it must be <allowed>." */
    | MustBe(value: Json, allowed: string)
      /** "The value <JSON of value> is not valid, it must be one of <allowed>." */
    | MustBeOneOf(value: Json, allowed: string)

  function Texts(values: seq<string>): (r: seq<Item>)
    ensures |r| == |values|
    ensures forall i :: 0 <= i < |values| ==> r[i] == Text(values[i])
  {
    seq(|values|, i requires 0 <= i < |values| => Text(values[i]))
  }

  /** `humanizeList(values, { conjunction: "or" })`. */
  const OrOptions := HumanizeOptions(Some(Or), None, None, None)

  /** `throwInvalidValue(v, errorMessage)`: the options' builder is used only when no
      `errorMessage` argument was given at all; a given but empty `errorMessage` is falsy
      and falls through to the default messages. */
  function ThrowInvalidValue(ls: LiteralSet, v: Json, errorMessage: Option<string>): (e: InvalidValue)
    ensures errorMessage.None? && ls.options.invalidValueErrorMessage.Some?
      ==> e == CustomMessage(ls.options.invalidValueErrorMessage.value(ls.values, v))
    ensures errorMessage.Some? && errorMessage.value != "" ==> e == GivenMessage(errorMessage.value)
    ensures e.CustomMessage? ==> errorMessage.None?
    ensures e.GivenMessage? ==> errorMessage.Some? && errorMessage.value != ""
    ensures e.NoValues? <==> !e.CustomMessage? && !e.GivenMessage? && ls.values == []
    ensures e.MustBe? ==> e == MustBe(v, ls.values[0]) && |ls.values| == 1
    ensures e.MustBeOneOf? ==> e == MustBeOneOf(v, Humanize(Texts(ls.values), OrOptions)) && |ls.values| >= 2
  {
    if errorMessage.None? && ls.options.invalidValueErrorMessage.Some? then
      CustomMessage(ls.options.invalidValueErrorMessage.value(ls.values, v))
    else if errorMessage.Some? && errorMessage.value != "" then GivenMessage(errorMessage.value)
    else if |ls.values| == 0 then NoValues
    else if |ls.values| == 1 then MustBe(v, ls.values[0])
    else MustBeOneOf(v, Humanize(Texts(ls.values), OrOptions))
  }

  /** An empty `errorMessage` turns the options' builder off and still yields a default
      message. */
  lemma EmptyMessageSkipsBuilder(ls: LiteralSet, v: Json)
    ensures !ThrowInvalidValue(ls, v, Some("")).CustomMessage?
    ensures !ThrowInvalidValue(ls, v, Some("")).GivenMessage?
    ensures ThrowInvalidValue(ls, v, Some("")) == ThrowInvalidValue(ls.(options := ls.options.(invalidValueErrorMessage := None)), v, None)
  {
  }

  /** Two values: "one of a or b", without a comma. */
  lemma TwoValuesMessage(ls: LiteralSet, v: Json)
    requires |ls.values| == 2 && ls.options.invalidValueErrorMessage.None?
    ensures ThrowInvalidValue(ls, v, None) == MustBeOneOf(v, ls.values[0] + " " + "or" + " " + ls.values[1])
  {
    TwoItems(Texts(ls.values), OrOptions);
  }

  /** Three values: "one of a, b, or c", with the Oxford comma. */
  lemma ThreeValuesMessage(ls: LiteralSet, v: Json)
    requires |ls.values| == 3 && ls.options.invalidValueErrorMessage.None?
    ensures ThrowInvalidValue(ls, v, None)
      == MustBeOneOf(v, ls.values[0] + ", " + ls.values[1] + "," + " " + "or" + " " + ls.values[2])
  {
    var items := Texts(ls.values);
    assert items == [Text(ls.values[0]), Text(ls.values[1]), Text(ls.values[2])];
    ThreeTexts(items, ls.values[0], ls.values[1], ls.values[2], Or);
  }

  /** `assert(v, errorMessage)`: passes exactly for contained values. */
  function Assert(ls: LiteralSet, v: Json, errorMessage: Option<string>): (r: Outcome<InvalidValue>)
    ensures r.Pass? <==> Contains(ls, v)
    ensures r.Fail? ==> r.error == ThrowInvalidValue(ls, v, errorMessage)
  {
    if !Contains(ls, v) then Fail(ThrowInvalidValue(ls, v, errorMessage)) else Pass
  }

  /** `parse(v, errorMessage)`: returns `v` itself, as one of the values, or throws. */
  function Parse(ls: LiteralSet, v: Json, errorMessage: Option<string>): (r: Result<string, InvalidValue>)
    ensures r.Ok? <==> Contains(ls, v)
    ensures r.Ok? ==> JString(r.value) == v && r.value in ls.values
    ensures r.Err? ==> r.error == ThrowInvalidValue(ls, v, errorMessage)
  {
    match Assert(ls, v, errorMessage)
    case Fail(e) => Err(e)
    case Pass => Ok(v.s)
  }

  /** Parsing a value that parsed gives it back unchanged. */
  lemma ParseIdempotent(ls: LiteralSet, v: Json, m1: Option<string>, m2: Option<string>)
    requires Parse(ls, v, m1).Ok?
    ensures Parse(ls, JString(Parse(ls, v, m1).value), m2) == Parse(ls, v, m1)
  {
  }

  /** `models.findIndex(l => l.value === s)`. */
  function FindModel(models: seq<Json>, s: string): (ind: int)
    ensures -1 <= ind < |models|
    ensures ind == -1 <==> forall j :: 0 <= j < |models| ==> Get(models[j], "value") != JString(s)
    ensures ind != -1 ==> Get(models[ind], "value") == JString(s)
    ensures ind != -1 ==> forall j :: 0 <= j < ind ==> Get(models[j], "value") != JString(s)
    decreases |models|
  {
    if models == [] then -1
    else if Get(models[0], "value") == JString(s) then 0
    else
      var k := FindModel(models[1..], s);
      assert forall j :: 0 < j < |models| ==> models[j] == models[1..][j - 1];
      if k == -1 then -1 else k + 1
  }

  /** `getModel(v)`: asserts `v`, then returns the first model carrying it; the
      not-found branch throws the default error. */
  function GetModel(ls: LiteralSet, v: Json): (r: Result<Json, InvalidValue>)
    ensures r.Err? ==> r.error == ThrowInvalidValue(ls, v, None)
    ensures r.Ok? ==> Contains(ls, v) && Get(r.value, "value") == v && r.value in ls.models
  {
    if !Contains(ls, v) then Err(ThrowInvalidValue(ls, v, None))
    else
      var ind := FindModel(ls.models, v.s);
      if ind == -1 then Err(ThrowInvalidValue(ls, v, None)) else Ok(ls.models[ind])
  }

  /** On a built set `getModel` finds a model for exactly the contained values: the model
      of the first entry with that value. */
  lemma GetModelComplete(ls: LiteralSet, v: Json)
    requires Valid(ls)
    ensures GetModel(ls, v).Ok? <==> Contains(ls, v)
    ensures GetModel(ls, v).Ok? ==> exists i :: (0 <= i < |ls.values| && ls.values[i] == v.s
      && GetModel(ls, v).value == ls.models[i] && forall j :: 0 <= j < i ==> ls.values[j] != v.s)
  {
    if Contains(ls, v) {
      var i :| 0 <= i < |ls.values| && ls.values[i] == v.s;
      assert Get(ls.models[i], "value") == JString(v.s);
      var ind := FindModel(ls.models, v.s);
      assert ind != -1;
      forall j | 0 <= j < ind
        ensures ls.values[j] != v.s
      {
        assert Get(ls.models[j], "value") == JString(ls.values[j]);
      }
    }
  }

  /** `getModelSafe(v, { strict })`: `null` for a value not contained, unless `strict` is
      `true`, which throws instead. */
  function GetModelSafe(ls: LiteralSet, v: Json, strict: Option<bool>): (r: Result<Option<Json>, InvalidValue>)
    ensures !Contains(ls, v) && strict == Some(true) ==> r == Err(ThrowInvalidValue(ls, v, None))
    ensures !Contains(ls, v) && strict != Some(true) ==> r == Ok(None)
    ensures Contains(ls, v) && GetModel(ls, v).Ok? ==> r == Ok(Some(GetModel(ls, v).value))
  {
    if !Contains(ls, v) then
      if strict == Some(true) then Err(ThrowInvalidValue(ls, v, None)) else Ok(None)
    else
      var m :- GetModel(ls, v);
      Ok(Some(m))
  }

  /** On a built set the safe lookup never throws unless `strict` is `true`, and it
      finds a model exactly for the contained values. */
  lemma GetModelSafeTotal(ls: LiteralSet, v: Json, strict: Option<bool>)
    requires Valid(ls)
    ensures strict != Some(true) ==> GetModelSafe(ls, v, strict).Ok?
    ensures GetModelSafe(ls, v, strict).Ok? ==> (GetModelSafe(ls, v, strict).value.Some? <==> Contains(ls, v))
    ensures Contains(ls, v) ==> GetModelSafe(ls, v, strict) == Ok(Some(GetModel(ls, v).value))
  {
    GetModelComplete(ls, v);
  }

  /** `getAttribute(v, attribute)`: the property of `v`'s model, `undefined` when the
      model does not have it. */
  function GetAttribute(ls: LiteralSet, v: Json, attribute: string): (r: Result<Json, InvalidValue>)
    ensures GetModel(ls, v).Err? ==> r == Err(GetModel(ls, v).error)
    ensures GetModel(ls, v).Ok? ==> r == Ok(Get(GetModel(ls, v).value, attribute))
    ensures r.Ok? && attribute == "value" ==> r.value == v
  {
    var m :- GetModel(ls, v);
    Ok(Get(m, attribute))
  }

  /** `getAttributes(attribute)`: the property of every model, in order, pushed in a loop.
      On a built set, the attribute "value" gives back the values. */
  method GetAttributes(ls: LiteralSet, attribute: string) returns (attrs: seq<Json>)
    ensures |attrs| == |ls.models|
    ensures forall i :: 0 <= i < |ls.models| ==> attrs[i] == Get(ls.models[i], attribute)
    ensures Valid(ls) && attribute == "value" ==> forall i :: 0 <= i < |attrs| ==> attrs[i] == JString(ls.values[i])
  {
    attrs := [];
    for k := 0 to |ls.models|
      invariant |attrs| == k
      invariant forall i :: 0 <= i < k ==> attrs[i] == Get(ls.models[i], attribute)
    {
      attrs := attrs + [Get(ls.models[k], attribute)];
    }
  }

  // ---------------------------------------------------------------------------------
  // Subsets

  /** A list of strings as literals. */
  function Strings(values: seq<string>): (r: seq<Json>)
    ensures |r| == |values|
    ensures forall i :: 0 <= i < |values| ==> r[i] == JString(values[i])
  {
    seq(|values|, i requires 0 <= i < |values| => JString(values[i]))
  }

  /** The values of a list of strings are the strings. */
  lemma StringsValues(values: seq<string>)
    ensures WellShaped(Strings(values))
    ensures Values(Strings(values)) == values
  {
  }

  /** `pick(vs, opts)`: a new set from the values that are also in `vs`, built from plain
      strings with the parent's accessor settings under `opts`. */
  function Pick(ls: LiteralSet, vs: seq<string>, opts: LiteralsOptions): (r: Result<LiteralSet, LiteralsError>)
    ensures r.Err? ==> r.error.DuplicateValue? || r.error.AccessorCollision?
  {
    StringsValues(Intersection(ls.values, vs));
    Built(Strings(Intersection(ls.values, vs)), SubsetOptions(ls.options, opts))
  }

  /** `omit(vs, opts)`: a new set from the values that are not in `vs`. */
  function Omit(ls: LiteralSet, vs: seq<string>, opts: LiteralsOptions): (r: Result<LiteralSet, LiteralsError>)
    ensures r.Err? ==> r.error.DuplicateValue? || r.error.AccessorCollision?
  {
    StringsValues(Difference(ls.values, vs));
    Built(Strings(Difference(ls.values, vs)), SubsetOptions(ls.options, opts))
  }

  /** A successful `pick` holds exactly the parent's values that are in `vs`, each once
      at its first place in the parent, so in the parent's order; its options drop the
      parent's message builder. */
  lemma PickContents(ls: LiteralSet, vs: seq<string>, opts: LiteralsOptions)
    requires Pick(ls, vs, opts).Ok?
    ensures var sub := Pick(ls, vs, opts).value;
      && (forall x :: x in sub.values <==> x in ls.values && x in vs)
      && Distinct(sub.values)
      && sub.values == Dedup(Kept(ls.values, vs))
      && (Distinct(ls.values) ==> sub.values == Kept(ls.values, vs))
      && sub.options == SubsetOptions(ls.options, opts)
      && sub.options.invalidValueErrorMessage == opts.invalidValueErrorMessage
  {
    StringsValues(Intersection(ls.values, vs));
    IntersectionIsDedupKept(ls.values, vs);
    if Distinct(ls.values) {
      IntersectionOfDistinct(ls.values, vs);
    }
  }

  /** A successful `omit` holds exactly the parent's values outside `vs`, in the parent's
      order, repeats kept. */
  lemma OmitContents(ls: LiteralSet, vs: seq<string>, opts: LiteralsOptions)
    requires Omit(ls, vs, opts).Ok?
    ensures var sub := Omit(ls, vs, opts).value;
      && sub.values == Difference(ls.values, vs)
      && (forall x :: x in sub.values <==> x in ls.values && x !in vs)
      && sub.options == SubsetOptions(ls.options, opts)
  {
    StringsValues(Difference(ls.values, vs));
  }

  /** Omitting nothing keeps every value. */
  lemma {:induction false} DifferenceOfNothing(a: seq<string>)
    ensures Difference(a, []) == a
    decreases |a|
  {
    if a != [] {
      DifferenceOfNothing(a[1..]);
      assert a == [a[0]] + a[1..];
    }
  }

  /** The subsets are always lists of strings, so they take the string-list defaults
      (upper case) unless a setting is given, even when the parent held models. */
  lemma SubsetUsesStringDefaults(values: seq<string>, options: LiteralsOptions)
    requires values != []
    ensures EffectiveFor(Strings(values), options) == Effective(DefaultArrayOptions, options)
  {
    StringsValues(values);
    assert !IsBaseModel(Strings(values)[0]);
  }

  // ---------------------------------------------------------------------------------
  // Construction at work (each list is a parameter so that the verifier does not unfold
  // every function on a literal)

  /** Two strings without options: the second throws exactly when the first value is its
      accessor; otherwise both accessors go into the table, the second last. */
  lemma StringPairBuilt(l: seq<Json>, a: string, b: string)
    requires l == [JString(a), JString(b)]
    ensures var fa, fb := FormatAccessor(a, DefaultArrayOptions), FormatAccessor(b, DefaultArrayOptions);
      && (a == fb ==> Built(l, EmptyOptions) == Err(ClashError(b, fb)))
      && (a != fb ==> Built(l, EmptyOptions) == Ok(LiteralSet([a, b], Models(l), map[fa := a][fb := b], EmptyOptions)))
  {
    assert !IsBaseModel(l[0]);
    assert Values(l) == [a, b];
    RegisteredPair([a, b], AccessorFn(DefaultArrayOptions));
  }

  /** Two models without options, under the model defaults. */
  lemma ModelPairBuilt(l: seq<Json>, a: string, b: string)
    requires ' ' !in a && ' ' !in b
    requires l == [JObject(map["value" := JString(a)]), JObject(map["value" := JString(b)])]
    ensures a == b ==> Built(l, EmptyOptions) == Err(DuplicateValue(a))
    ensures a != b ==> Built(l, EmptyOptions) == Ok(LiteralSet([a, b], l, map[a := a][b := b], EmptyOptions))
  {
    assert LiteralsAreModelArray(l);
    assert Values(l) == [a, b];
    assert Models(l) == l;
    ModelDefaultsKeep(a);
    ModelDefaultsKeep(b);
    RegisteredPair([a, b], AccessorFn(DefaultModelArrayOptions));
  }

  /** Two models carrying the same value are rejected as duplicates when the value has no
      space: the model defaults leave such a value as its own accessor. */
  lemma RepeatedModelsRejected(l: seq<Json>, a: string)
    requires ' ' !in a
    requires l == [JObject(map["value" := JString(a)]), JObject(map["value" := JString(a)])]
    ensures Built(l, EmptyOptions) == Err(DuplicateValue(a))
  {
    ModelPairBuilt(l, a, a);
  }

  /** The same string twice is accepted: "admin" is checked against the accessor "ADMIN",
      which no earlier value equals, and the table holds the one accessor. */
  lemma RepeatedStringsAccepted(l: seq<Json>, a: string)
    requires a == "admin" && l == [JString(a), JString(a)]
    ensures Built(l, EmptyOptions).Ok?
    ensures Built(l, EmptyOptions).value.values == [a, a]
    ensures Built(l, EmptyOptions).value.accessors == map["ADMIN" := a]
  {
    AdminAccessor(a);
    StringPairBuilt(l, a, a);
  }

  lemma HyphenValueAccessor(a: string)
    requires a == "a-b"
    ensures FormatAccessor(a, DefaultArrayOptions) == "A_B"
  {
    AccessorByPosition(a, DefaultArrayOptions);
  }

  lemma UnderscoreValueAccessor(b: string)
    requires b == "a_b"
    ensures FormatAccessor(b, DefaultArrayOptions) == "A_B"
  {
    AccessorByPosition(b, DefaultArrayOptions);
  }

  lemma SmallXAccessor(b: string)
    requires b == "x"
    ensures FormatAccessor(b, DefaultArrayOptions) == "X"
  {
    AccessorByPosition(b, DefaultArrayOptions);
  }

  /** Two different strings with the same accessor go unnoticed when the first is not
      itself that accessor: the later value silently takes the accessor. */
  lemma SharedAccessorUndetected(l: seq<Json>, a: string, b: string, acc: string)
    requires l == [JString(a), JString(b)]
    requires FormatAccessor(a, DefaultArrayOptions) == acc && FormatAccessor(b, DefaultArrayOptions) == acc
    requires a != acc
    ensures Built(l, EmptyOptions).Ok?
    ensures Built(l, EmptyOptions).value.accessors == map[acc := b]
  {
    assert Built(l, EmptyOptions) == Ok(LiteralSet([a, b], Models(l), map[acc := b], EmptyOptions)) by {
      StringPairBuilt(l, a, b);
      assert map[acc := a][acc := b] == map[acc := b];
    }
  }

  /** "a-b" and "a_b" both have the accessor "A_B", and the clash goes unnoticed. */
  lemma HyphenClashUndetected(l: seq<Json>, a: string, b: string)
    requires a == "a-b" && b == "a_b" && l == [JString(a), JString(b)]
    ensures Built(l, EmptyOptions).Ok?
    ensures Built(l, EmptyOptions).value.accessors == map["A_B" := b]
  {
    HyphenValueAccessor(a);
    UnderscoreValueAccessor(b);
    assert a != "A_B" by { assert a[0] != 'A'; }
    SharedAccessorUndetected(l, a, b, "A_B");
  }

  /** "X" and "x" are caught: the accessor of "x" is "X", an earlier value. */
  lemma CaseCollisionDetected(l: seq<Json>, a: string, b: string)
    requires a == "X" && b == "x" && l == [JString(a), JString(b)]
    ensures Built(l, EmptyOptions) == Err(AccessorCollision(a, b, a))
  {
    SmallXAccessor(b);
    StringPairBuilt(l, a, b);
  }

  /** `intersection` of two distinct values with themselves. */
  lemma IntersectionOfPair(a: string, b: string)
    requires a != b
    ensures Intersection([a, b], [a, b]) == [a, b]
  {
    assert [a, b][..1] == [a];
    assert [a][..0] == [];
    assert Intersection([a], [a, b]) == [a];
  }

  /** Two model values without spaces build a set; when the string-list accessor of the
      second is the first, picking both rebuilds them as strings, under the upper-case
      defaults, and the pick throws. */
  lemma PickOfModelPairThrows(l: seq<Json>, a: string, b: string)
    requires ' ' !in a && ' ' !in b && a != b
    requires FormatAccessor(b, DefaultArrayOptions) == a
    requires l == [JObject(map["value" := JString(a)]), JObject(map["value" := JString(b)])]
    ensures Built(l, EmptyOptions).Ok?
    ensures Pick(Built(l, EmptyOptions).value, [a, b], EmptyOptions) == Err(AccessorCollision(a, b, a))
  {
    ModelPairBuilt(l, a, b);
    var ls := Built(l, EmptyOptions).value;
    IntersectionOfPair(a, b);
    assert SubsetOptions(ls.options, EmptyOptions) == EmptyOptions;
    StringPairBuilt(Strings([a, b]), a, b);
  }

  /** Models "ADMIN" and "admin" keep their values as accessors, so the set builds, and
      picking both throws. */
  lemma PickCanThrow(l: seq<Json>, a: string, b: string)
    requires a == "ADMIN" && b == "admin"
    requires l == [JObject(map["value" := JString(a)]), JObject(map["value" := JString(b)])]
    ensures Built(l, EmptyOptions).Ok?
    ensures Pick(Built(l, EmptyOptions).value, [a, b], EmptyOptions) == Err(AccessorCollision(a, b, a))
  {
    AdminAccessor(b);
    assert a != b by { assert a[0] != b[0]; }
    PickOfModelPairThrows(l, a, b);
  }

  // ---------------------------------------------------------------------------------
  // Property lookup on the returned object

  /** The names the returned object defines after spreading the accessors; an accessor
      with one of these names is overwritten. */
  const ReservedNames: seq<string> := ["options", "values", "models", "getAttributes", "getAttribute",
    "getModel", "getModelSafe", "schema", "throwInvalidValue", "contains", "parse", "assert", "pick", "omit"]

  /** What reading a property of the returned object gives. */
  datatype Property = AccessorValue(value: string) | BuiltIn(name: string) | NoProperty

  /** `instance[name]`: the properties listed after `...accessors` win. */
  function PropertyOf(ls: LiteralSet, name: string): (r: Property)
    ensures r.AccessorValue? <==> name !in ReservedNames && name in ls.accessors
    ensures r.AccessorValue? ==> r.value == ls.accessors[name]
    ensures r.BuiltIn? <==> name in ReservedNames
  {
    if name in ReservedNames then BuiltIn(name)
    else if name in ls.accessors then AccessorValue(ls.accessors[name])
    else NoProperty
  }

  /** Upper-cased accessors are never shadowed: every accessor of the table reads back
      its value. */
  lemma UpperCaseAccessorsVisible(literals: seq<Json>, options: LiteralsOptions, a: string)
    requires Built(literals, options).Ok?
    requires EffectiveFor(literals, options).accessorCase == UpperCase
    requires a in Built(literals, options).value.accessors
    ensures PropertyOf(Built(literals, options).value, a) == AccessorValue(Built(literals, options).value.accessors[a])
  {
    var keys, f := Values(literals), AccessorFn(EffectiveFor(literals, options));
    RegisteredTable(keys, f);
    var i :| 0 <= i < |keys| && f(keys[i]) == a;
    UpperCaseNotReserved(a);
  }

  /** A name without lower-case letters is none of the reserved names. */
  lemma UpperCaseNotReserved(name: string)
    requires forall c :: c in name ==> !('a' <= c <= 'z')
    ensures name !in ReservedNames
  {
    if name != [] {
      assert name[0] in name;
    }
  }

  /** With lower case asked for, a value "values" gets the accessor "values", which the
      returned object's own `values` property hides. */
  lemma LowerCaseAccessorShadowed(l: seq<Json>, a: string)
    requires a == "values" && l == [JString(a)]
    ensures var options := LiteralsOptions(None, None, None, Some(LowerCase));
      && Built(l, options).Ok?
      && a in Built(l, options).value.accessors
      && PropertyOf(Built(l, options).value, a) == BuiltIn(a)
  {
    var options := LiteralsOptions(None, None, None, Some(LowerCase));
    assert !IsBaseModel(l[0]);
    assert Values(l) == [a];
    var eff := EffectiveFor(l, options);
    assert eff == AccessorOptions(SpaceUnderscore, HyphenUnderscore, LowerCase);
    FormatAccessorKeeps(a, eff);
    BuiltSpec(l, options);
    assert !Clashes([a], AccessorFn(eff), 0);
  }
}
