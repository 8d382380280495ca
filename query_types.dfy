/** src/query/types.ts at run time: the values a query parameter may hold, the five
    container forms, and `getOptionsForm`. */
module QueryTypes {
  import opened Wrappers
  import opened JsText
  import opened EntryLists

  /** `QueryParamValue`: string, number (integral here), boolean, null or undefined. */
  datatype Value = VString(s: string) | VNumber(n: int) | VBool(b: bool) | VNull | VUndefined

  /** `QueryParamsForm`: exactly five forms. */
  datatype Form = MapForm | ObjectForm | RecordForm | PairsForm | StringForm

  /** A container of one of the five forms.
      - `MapParams`: a `Map<string, V>`, its entries in insertion order (no key twice).
      - `ObjectParams`: a `URLSearchParams`, its string pairs in order (keys may repeat).
      - `RecordParams`: a `Record<string, V>`, its own properties in order (no key twice).
      - `PairsParams`: a `{ key, value }[]`, in array order (keys may repeat).
      - `StringParams`: a query string or path. */
  datatype Params =
    | MapParams(entries: seq<(string, Value)>)
    | ObjectParams(pairs: seq<(string, string)>)
    | RecordParams(entries: seq<(string, Value)>)
    | PairsParams(items: seq<(string, Value)>)
    | StringParams(text: string)

  /** The form a container has (`InferQueryParamsForm`). */
  function FormOf(p: Params): Form {
    match p
    case MapParams(_) => MapForm
    case ObjectParams(_) => ObjectForm
    case RecordParams(_) => RecordForm
    case PairsParams(_) => PairsForm
    case StringParams(_) => StringForm
  }

  /** A map or a record never holds a key twice. */
  predicate WellFormed(p: Params) {
    match p
    case MapParams(e) => UniqueKeys(e)
    case RecordParams(e) => UniqueKeys(e)
    case _ => true
  }

  /** `QueryParamOptions`: the `form` field may be left out. */
  datatype QueryOptions = QueryOptions(form: Option<Form>)

  /** `getOptionsForm`: the form asked for, "object" when none is. */
  function GetOptionsForm(options: QueryOptions): (r: Form)
    ensures options.form.Some? ==> r == options.form.value
    ensures options.form.None? ==> r == ObjectForm
  {
    options.form.GetOr(ObjectForm)
  }

  /** The text a `URLSearchParams` stores for a value: `String(v)` for a number or a
      boolean, the string itself, and nothing for null or undefined. */
  function StoredText(v: Value): (r: Option<string>)
    ensures r.None? <==> v.VNull? || v.VUndefined?
    ensures v.VString? ==> r == Some(v.s)
    ensures v.VNumber? ==> r == Some(DecimalString(v.n))
    ensures v.VBool? ==> r == Some(if v.b then "true" else "false")
  {
    match v
    case VString(s) => Some(s)
    case VNumber(n) => Some(DecimalString(n))
    case VBool(b) => Some(if b then "true" else "false")
    case VNull => None
    case VUndefined => None
  }
}
