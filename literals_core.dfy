/** src/literals/core.ts at run time: the values a literal list may hold and the two
    shape predicates that decide which defaults the accessors get. */
module LiteralsCore {

  /** The JavaScript values that reach the literals code: strings, integral numbers,
      booleans, `null`, `undefined` and plain objects. */
  datatype Json =
    | JString(s: string)
    | JNumber(n: int)
    | JBool(b: bool)
    | JNull
    | JUndefined
    | JObject(fields: map<string, Json>)

  /** `obj[name]`: a missing property reads as `undefined`, and so does any property
      of a value that is not an object. */
  function Get(v: Json, name: string): (r: Json)
    ensures v.JObject? && name in v.fields ==> r == v.fields[name]
    ensures !(v.JObject? && name in v.fields) ==> r == JUndefined
  {
    if v.JObject? && name in v.fields then v.fields[name] else JUndefined
  }

  /** `isLiteralModel`: anything that is not a string counts as a model. */
  predicate IsLiteralModel(v: Json) {
    !v.JString?
  }

  /** `LiteralsBaseModelSchema`: an object whose `value` is a string and whose `accessor`
      is a string or left out; further properties are allowed. */
  predicate IsBaseModel(v: Json) {
    && v.JObject?
    && "value" in v.fields && v.fields["value"].JString?
    && ("accessor" in v.fields ==> v.fields["accessor"].JString? || v.fields["accessor"].JUndefined?)
  }

  /** `literalsAreModelArray`. */
  predicate LiteralsAreModelArray(l: seq<Json>) {
    forall i :: 0 <= i < |l| ==> IsBaseModel(l[i])
  }

  /** `literalsAreArray`. */
  predicate LiteralsAreArray(l: seq<Json>) {
    forall i :: 0 <= i < |l| ==> l[i].JString?
  }

  /** A list the literals code accepts: all strings or all base models. */
  predicate WellShaped(l: seq<Json>) {
    LiteralsAreModelArray(l) || LiteralsAreArray(l)
  }

  /** A base model is a literal model, and so is every other non-string. */
  lemma BaseModelIsLiteralModel(v: Json)
    ensures IsBaseModel(v) ==> IsLiteralModel(v)
    ensures IsLiteralModel(v) <==> !v.JString?
  {
  }

  /** The two shape predicates hold together exactly for the empty list. */
  lemma ShapesOverlapOnlyWhenEmpty(l: seq<Json>)
    ensures LiteralsAreModelArray(l) && LiteralsAreArray(l) <==> l == []
  {
    if l != [] && LiteralsAreModelArray(l) {
      assert IsBaseModel(l[0]);
    }
  }

  /** The value an entry stands for: the string itself, or the model's `value`. */
  function ValueOf(l: Json): (r: string)
    requires l.JString? || IsBaseModel(l)
    ensures l.JString? ==> r == l.s
    ensures IsBaseModel(l) ==> l.fields["value"] == JString(r)
  {
    if IsLiteralModel(l) then l.fields["value"].s else l.s
  }

  /** `values`: the entries' values, in input order. */
  function Values(l: seq<Json>): (r: seq<string>)
    requires WellShaped(l)
    ensures |r| == |l|
    ensures forall i :: 0 <= i < |l| ==> r[i] == ValueOf(l[i])
  {
    seq(|l|, i requires 0 <= i < |l| && WellShaped(l) => ValueOf(l[i]))
  }

  /** An entry as a model: records are kept, a bare string `s` becomes `{value: s}`. */
  function ModelOf(l: Json): (r: Json)
    ensures l.JString? ==> r == JObject(map["value" := l])
    ensures !l.JString? ==> r == l
  {
    if IsLiteralModel(l) then l else JObject(map["value" := l])
  }

  /** `models`: every entry as a model, in input order. */
  function Models(l: seq<Json>): (r: seq<Json>)
    ensures |r| == |l|
    ensures forall i :: 0 <= i < |l| ==> r[i] == ModelOf(l[i])
  {
    seq(|l|, i requires 0 <= i < |l| => ModelOf(l[i]))
  }

  /** For an accepted list, every model's `value` property is the matching value. */
  lemma ModelsCarryValues(l: seq<Json>)
    requires WellShaped(l)
    ensures forall i :: 0 <= i < |l| ==> Get(Models(l)[i], "value") == JString(Values(l)[i])
  {
    forall i | 0 <= i < |l|
      ensures Get(Models(l)[i], "value") == JString(Values(l)[i])
    {
      if l[i].JString? {
        assert Models(l)[i] == JObject(map["value" := l[i]]);
      } else {
        assert IsBaseModel(l[i]);
      }
    }
  }
}
