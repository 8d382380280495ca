/** src/literals/options.ts at run time: the three accessor settings, their two sets of
    defaults, and the options object an enumerated-literals instance carries. */
module LiteralsOptions {
  import opened Wrappers
  import opened LiteralsCore

  /** `AccessorCase`: "upper", "lower" or `null`. */
  datatype AccessorCase = UpperCase | LowerCase | NoCase

  /** `AccessorSpaceReplacement`: "_", "-" or "". */
  datatype SpaceReplacement = SpaceUnderscore | SpaceHyphen | SpaceEmpty

  /** `AccessorHyphenReplacement`: "_", "" or `null`. */
  datatype HyphenReplacement = HyphenUnderscore | HyphenEmpty | HyphenNull

  function SpaceText(r: SpaceReplacement): (t: string)
    ensures ' ' !in t && |t| <= 1
  {
    match r
    case SpaceUnderscore => "_"
    case SpaceHyphen => "-"
    case SpaceEmpty => ""
  }

  /** Only "_" is truthy: both "" and `null` are falsy in JavaScript. */
  predicate HyphenTruthy(r: HyphenReplacement) {
    r == HyphenUnderscore
  }

  /** The three accessor settings with every one decided. */
  datatype AccessorOptions = AccessorOptions(
    accessorSpaceReplacement: SpaceReplacement,
    accessorHyphenReplacement: HyphenReplacement,
    accessorCase: AccessorCase)

  /** `DEFAULT_ACCESSOR_ARRAY_OPTIONS`, for lists of strings. */
  const DefaultArrayOptions := AccessorOptions(SpaceUnderscore, HyphenUnderscore, UpperCase)

  /** `DEFAULT_ACCESSOR_MODEL_ARRAY_OPTIONS`, for lists of models: leave a given value as
      it is, apart from its spaces. */
  const DefaultModelArrayOptions := AccessorOptions(SpaceUnderscore, HyphenNull, NoCase)

  /** `getDefaultLiteralsAccessorOptions` throws an `Error` with an empty message. */
  datatype ShapeError = EmptyMessageError

  /** `getDefaultLiteralsAccessorOptions`: the model test comes first, so the empty list
      gets the model defaults; a mixed list throws. */
  function DefaultAccessorOptions(literals: seq<Json>): (r: Result<AccessorOptions, ShapeError>)
    ensures r.Err? <==> !WellShaped(literals)
    ensures LiteralsAreModelArray(literals) ==> r == Ok(DefaultModelArrayOptions)
    ensures !LiteralsAreModelArray(literals) && LiteralsAreArray(literals) ==> r == Ok(DefaultArrayOptions)
  {
    if LiteralsAreModelArray(literals) then Ok(DefaultModelArrayOptions)
    else if LiteralsAreArray(literals) then Ok(DefaultArrayOptions)
    else Err(EmptyMessageError)
  }

  /** `EnumeratedLiteralsInvalidValueErrorMessage`: builds a message from the values and
      the offending value. */
  type MessageBuilder = (seq<string>, Json) -> string

  /** `EnumeratedLiteralsOptions`: every property may be left out (`None`). */
  datatype LiteralsOptions = LiteralsOptions(
    invalidValueErrorMessage: Option<MessageBuilder>,
    accessorSpaceReplacement: Option<SpaceReplacement>,
    accessorHyphenReplacement: Option<HyphenReplacement>,
    accessorCase: Option<AccessorCase>)

  /** The empty options object `{}`. */
  const EmptyOptions := LiteralsOptions(None, None, None, None)

  /** `{ ...defaults, ...options }` over the accessor settings: a setting the caller gave
      wins over the default. */
  function Effective(defaults: AccessorOptions, options: LiteralsOptions): (r: AccessorOptions)
    ensures r.accessorSpaceReplacement
      == (if options.accessorSpaceReplacement.Some? then options.accessorSpaceReplacement.value
          else defaults.accessorSpaceReplacement)
    ensures r.accessorHyphenReplacement
      == (if options.accessorHyphenReplacement.Some? then options.accessorHyphenReplacement.value
          else defaults.accessorHyphenReplacement)
    ensures r.accessorCase
      == (if options.accessorCase.Some? then options.accessorCase.value else defaults.accessorCase)
  {
    AccessorOptions(
      options.accessorSpaceReplacement.GetOr(defaults.accessorSpaceReplacement),
      options.accessorHyphenReplacement.GetOr(defaults.accessorHyphenReplacement),
      options.accessorCase.GetOr(defaults.accessorCase))
  }

  /** Giving all three settings makes the defaults, and so the list's shape, irrelevant. */
  lemma EffectiveIgnoresDefaults(d1: AccessorOptions, d2: AccessorOptions, options: LiteralsOptions)
    requires options.accessorSpaceReplacement.Some?
    requires options.accessorHyphenReplacement.Some?
    requires options.accessorCase.Some?
    ensures Effective(d1, options) == Effective(d2, options)
  {
  }

  /** `ENUMERATED_LITERALS_STATIC_OPTIONS`. */
  const StaticOptionNames: seq<string> := ["accessorSpaceReplacement", "accessorHyphenReplacement", "accessorCase"]

  /** `pick(options, ENUMERATED_LITERALS_STATIC_OPTIONS)`: the three accessor settings that
      are present, and nothing else. */
  function PickStatic(options: LiteralsOptions): (r: LiteralsOptions)
    ensures r.invalidValueErrorMessage == None
    ensures r.accessorSpaceReplacement == options.accessorSpaceReplacement
    ensures r.accessorHyphenReplacement == options.accessorHyphenReplacement
    ensures r.accessorCase == options.accessorCase
  {
    options.(invalidValueErrorMessage := None)
  }

  /** `{ ...base, ...over }`: every property `over` has wins. */
  function Spread(base: LiteralsOptions, over: LiteralsOptions): (r: LiteralsOptions)
    ensures over.invalidValueErrorMessage.Some? ==> r.invalidValueErrorMessage == over.invalidValueErrorMessage
    ensures over.invalidValueErrorMessage.None? ==> r.invalidValueErrorMessage == base.invalidValueErrorMessage
    ensures over.accessorSpaceReplacement.Some? ==> r.accessorSpaceReplacement == over.accessorSpaceReplacement
    ensures over.accessorSpaceReplacement.None? ==> r.accessorSpaceReplacement == base.accessorSpaceReplacement
    ensures over.accessorHyphenReplacement.Some? ==> r.accessorHyphenReplacement == over.accessorHyphenReplacement
    ensures over.accessorHyphenReplacement.None? ==> r.accessorHyphenReplacement == base.accessorHyphenReplacement
    ensures over.accessorCase.Some? ==> r.accessorCase == over.accessorCase
    ensures over.accessorCase.None? ==> r.accessorCase == base.accessorCase
  {
    LiteralsOptions(
      if over.invalidValueErrorMessage.Some? then over.invalidValueErrorMessage else base.invalidValueErrorMessage,
      if over.accessorSpaceReplacement.Some? then over.accessorSpaceReplacement else base.accessorSpaceReplacement,
      if over.accessorHyphenReplacement.Some? then over.accessorHyphenReplacement else base.accessorHyphenReplacement,
      if over.accessorCase.Some? then over.accessorCase else base.accessorCase)
  }

  /** The options a `pick`/`omit` subset is built with: the parent's static settings
      under the caller's `opts`. The message builder never comes from the parent. */
  function SubsetOptions(parent: LiteralsOptions, opts: LiteralsOptions): (r: LiteralsOptions)
    ensures r.invalidValueErrorMessage == opts.invalidValueErrorMessage
    ensures opts.accessorCase.None? ==> r.accessorCase == parent.accessorCase
    ensures opts.accessorSpaceReplacement.None? ==> r.accessorSpaceReplacement == parent.accessorSpaceReplacement
    ensures opts.accessorHyphenReplacement.None? ==> r.accessorHyphenReplacement == parent.accessorHyphenReplacement
  {
    Spread(PickStatic(parent), opts)
  }
}
