# util: enumerated literals, `humanizeList` and the query-parameter toolkit

A Dafny model of three parts of the `util` TypeScript library:

- **Enumerated literals** (`src/literals`). `enumeratedLiterals(literals, options)` turns a list of
  strings, or of `{ value, accessor? }` models, into an immutable object. The object holds:
  - the values and the models;
  - an accessor table, in which every value is exposed under a derived property name (by default
    upper-cased, with spaces and hyphens turned into `_`);
  - `contains`, `parse`, `assert`, `throwInvalidValue`, `getModel`, `getModelSafe`,
    `getAttribute`, `getAttributes`, `pick` and `omit`.
- **`humanizeList`** (`src/formatters/humanize-list.ts`) renders a list as English text, such as
  "a, b, and c".
- **Query parameters** (`src/query`, and the older copy in `src/urls.ts`). Query parameters come in
  five forms:
  - a `Map`;
  - a `URLSearchParams` (the "object" form);
  - a plain record;
  - an array of `{ key, value }` pairs;
  - a query string.

  `transformQueryParams`, `mergeQueryParams`, `parseQueryParams` and `addQueryParamsToUrl` work by
  folding a form-specific reducer over the entries that an iterator yields.

Module by module:

| module | file | models |
|---|---|---|
| `Wrappers` | wrappers.dfy | `Option`, `Result` and `Outcome`, which stand in for thrown errors and `null`. |
| `JsText` | js_text.dfy | The JavaScript string operations that the code calls: `toUpperCase` and `toLowerCase`, `replaceAll`, `trim`, `join`, `split`, `String(n)`. It also holds character counting. |
| `Lodash` | lodash.dfy | lodash's `intersection` (which removes repeats) and `difference` (which keeps them). |
| `HumanizeList` | humanize_list.dfy | `humanizeList`. |
| `LiteralsCore` | literals_core.dfy | The run-time half of `core.ts`: literal values as JSON-like data, the shape predicates, and values and models. |
| `LiteralsOptions` | literals_options.dfy | `options.ts`: accessor settings, the two default sets, and option spreading. |
| `LiteralsAccessors` | literals_accessors.dfy | `toLiteralAccessor`. |
| `Literals` | literals.dfy | `enumeratedLiterals` and the methods of the object it returns. |
| `EntryLists` | entry_lists.dfy | Ordered association lists with `set` semantics. These are the model of a `Map`, of a record and of a `URLSearchParams` that is built by `set`. |
| `QueryTypes` | query_types.dfy | Values, forms, the five containers and `getOptionsForm`. |
| `QueryUtil` | query_util.dfy | `getQueryParamForm`, `countCharsInString`, the iterator, the reducers, the initial states and the reducer fold. |
| `QueryTransform`, `QueryMerge`, `QueryParse`, `QueryAddToUrl` | query_*.dfy | The four public query operations. |
| `LegacyUrls` | legacy_urls.dfy | The older copies in `src/urls.ts`, where they differ. |

**Imperative parts.** The source's loops are methods, each proved equal to the function that
specifies it:
- `Literals.EnumeratedLiterals`: the `reduce`, with its reassigned `seen` list;
- `Literals.GetAttributes`;
- `QueryUtil.CountCharsInString`;
- `QueryUtil.CopyBySet` and `QueryUtil.ApplyReducer`: the copy loops in the map and object reducers;
- `QueryTransform.TransformQueryParams`;
- `QueryMerge.MergeQueryParams`;
- `QueryParse.ParseQueryParams`.

The older copies in src/urls.ts are mostly the same code as the newer ones, and they share the newer
ones' members. This covers `getQueryParamForm` (lines 50-60), `countCharsInString` (62-73), the
reducers (107-150, without the "string" one), `transformQueryParams` (168-184) and
`mergeQueryParams` (239-273). `LegacyUrls` models only what differs: `parseQueryParams` and
`addQueryParamsToUrl`.

**Everything else** is a pure function. The properties are proved about those functions.

## Model

| member | source | states |
|---|---|---|
| JsText.ToUpperCase | src/literals/accessors.ts:147-148 | `toUpperCase` keeps the length, maps each character through the ASCII upper-casing, and leaves no lower-case ASCII letter. |
| JsText.ToLowerCase | src/literals/accessors.ts:149-150 | `toLowerCase` keeps the length, maps each character, and leaves no upper-case ASCII letter. |
| JsText.ReplaceAll | src/literals/accessors.ts:152-155 | `replaceAll(pat, rep)` removes every `pat` when `rep` does not contain it, introduces only characters of the input or of `rep`, and leaves text without `pat` unchanged. On "" it gives "", and on one character it gives `rep` for `pat` and the character otherwise; with ReplaceAllAppend this fixes the result for every `rep`. |
| JsText.ReplaceAllSingle | src/literals/accessors.ts:153 | Replacing a character by one character rewrites the text position by position. |
| JsText.ReplaceAllAppend | src/literals/accessors.ts:155 | `replaceAll` distributes over concatenation. |
| JsText.Trim | src/formatters/humanize-list.ts:28 | `trim()` leaves no white space at either end, and returns text that has none at either end unchanged. |
| JsText.TrimKeepsSlice | src/formatters/humanize-list.ts:28 | `trim()` returns the slice of the input between its leading and its trailing white space: everything it drops is white space at the ends. |
| JsText.TrimStart | src/formatters/humanize-list.ts:28 | Dropping leading white space leaves a suffix that starts with non-white space, and every dropped character is white space. |
| JsText.TrimEnd | src/formatters/humanize-list.ts:28 | Dropping trailing white space leaves a prefix that ends with non-white space, and every dropped character is white space. |
| JsText.Join | src/formatters/humanize-list.ts:28 | `join` of no parts is "", and of one part is that part. |
| JsText.JoinSnoc | src/formatters/humanize-list.ts:28 | Joining one more part appends the separator and that part, so together with Join every join is fixed. |
| JsText.JoinThree | src/formatters/humanize-list.ts:32 | `[a, b, c].join(sep)` is `a + sep + b + sep + c`. |
| JsText.Occurrences | src/query/util.ts:23-34 | The count of a character is at most the length, and it is zero exactly when the character is absent. |
| JsText.OccurrencesConcat | src/query/util.ts:28-32 | Counts add up over concatenation. This is the loop's invariant step. |
| JsText.Split | src/query/util.ts:57 | `split(c)` gives one more piece than there are `c`s. No piece contains `c`, and joining the pieces with `c` gives back the text. |
| JsText.SplitAround | src/query/util.ts:53-57 | A text with exactly one `?` splits into the parts before and after it. |
| JsText.BeforeFirst | src/query/add-query-params-to-url.ts:48 | `split("?")[0]` is the longest prefix without `?`: it is followed by `?` or is the whole text. |
| JsText.DecimalString | src/query/util.ts:113-114 | `String(n)` is non-empty: the digits of `n` for `n >= 0`, and "-" followed by the digits of `-n` otherwise. |
| JsText.DecimalStringDenotes | src/query/util.ts:113-114 | `String(n)` reads back as `n`: for `n >= 0` its digits have decimal value `n`; for negative `n` the digits after the "-" have value `-n`. |
| JsText.Digits | src/query/util.ts:113-114 | The decimal digits of `n` are non-empty, all digits and, for `n > 0`, without a leading zero. |
| JsText.DigitsDenote | src/query/util.ts:113-114 | The decimal digits of `n` have decimal value `n`. |
| JsText.DigitsInjective | src/query/util.ts:61-62 | Different indices give different decimal keys. |
| Lodash.Intersection | src/literals/index.ts:192 | `intersection(a, b)` holds exactly the values in both lists, each once, and is no longer than `a`. |
| Lodash.IntersectionOfDistinct | src/literals/index.ts:192 | On a list without repeats, `intersection` keeps the order of `a`. |
| Lodash.Dedup | src/literals/index.ts:192 | Keeping each value at its first occurrence keeps the same values and leaves no repeat. |
| Lodash.IntersectionIsDedupKept | src/literals/index.ts:192 | `intersection(a, b)` is the values of `a` found in `b`, each at its first occurrence, so it follows `a`'s order even when `a` repeats values. |
| Lodash.Difference | src/literals/index.ts:210 | `difference(a, b)` holds exactly the values of `a` not in `b`, and is no longer than `a`. |
| Lodash.DifferenceAppend | src/query/parse-query-params.ts:111 | `difference` is a filter: it distributes over concatenation of `a`. |
| Lodash.KeptAppend | src/literals/index.ts:192 | The order-keeping filter distributes over concatenation. |
| HumanizeList.Humanize | src/formatters/humanize-list.ts:10-24 | No items give "", and one item gives that item formatted. |
| HumanizeList.Formatted | src/formatters/humanize-list.ts:27 | `map(formatter)` has one text per item: the formatted item at the same index. |
| HumanizeList.Separator | src/formatters/humanize-list.ts:28 | The separator ends with one space and, when longer than that, starts with non-white space, because the delimiter is trimmed. |
| HumanizeList.Leading | src/formatters/humanize-list.ts:25-31 | With two items the leading part is the first item formatted, with no delimiter. |
| HumanizeList.ConjunctionTrimmed | src/formatters/humanize-list.ts:32 | Trimming "and" or "or" changes nothing. |
| HumanizeList.Tail | src/formatters/humanize-list.ts:25-32 | Two or more items give the leading part, a space, the conjunction, a space and the last item. |
| HumanizeList.TwoItems | src/formatters/humanize-list.ts:25-32 | Two items give "a and b" with no delimiter: the Oxford comma needs three items. |
| HumanizeList.LeadingThree | src/formatters/humanize-list.ts:25-31 | For three items, the leading part is the first item, the trimmed delimiter and a space, the second item, and the trimmed delimiter exactly when the Oxford comma is on. |
| HumanizeList.ThreeItems | src/formatters/humanize-list.ts:25-32 | Three items are rendered in full, with the Oxford comma when it is on. |
| HumanizeList.ThreeTexts | src/formatters/humanize-list.ts:14-32 | Three strings with only a conjunction given render as "a, b, <conjunction> c". |
| HumanizeList.LeadingDropFirst | src/formatters/humanize-list.ts:25-28 | With four or more items, the leading part is the first item and a separator, then the leading part of the rest. |
| HumanizeList.DropFirst | src/formatters/humanize-list.ts:25-32 | Four or more items give the first item and a separator, then the rendering of the rest. Together with ThreeItems this fixes every length. |
| HumanizeList.Defaults | src/formatters/humanize-list.ts:14-19 | Leaving the options out is the same as passing "and", the Oxford comma, "," and `toString`. |
| HumanizeList.DefaultSeparator | src/formatters/humanize-list.ts:17 | The default separator is ", ". |
| HumanizeList.DefaultDropFirst | src/formatters/humanize-list.ts:25-32 | Without options, four or more items give the first, ", " and the rendering of the rest. |
| HumanizeList.DefaultThreeItems | src/formatters/humanize-list.ts:25-32 | Without options, three items give "a, b, and c". |
| HumanizeList.FruitExample | src/__tests__/formatters/humanize-list.test.ts:3-10 | The seven fruits render as "apple, banana, cherry, durian, elderberry, fig, and grape". |
| LiteralsCore.Get | src/literals/index.ts:110 | Reading a property gives its value when the object has it, and `undefined` otherwise. |
| LiteralsCore.BaseModelIsLiteralModel | src/literals/core.ts:15-17 | Every base model is a literal model, and a value is a literal model exactly when it is not a string. |
| LiteralsCore.ShapesOverlapOnlyWhenEmpty | src/literals/core.ts:23-31 | Only the empty list passes both shape tests. |
| LiteralsCore.ValueOf | src/literals/index.ts:71 | The value of an entry is the string, or the model's `value`. |
| LiteralsCore.Values | src/literals/index.ts:71 | `values` has one value per entry, in order. |
| LiteralsCore.ModelOf | src/literals/index.ts:72-74 | A string `s` becomes `{ value: s }`, and a model is kept. |
| LiteralsCore.Models | src/literals/index.ts:72-74 | `models` has one model per entry, in order. |
| LiteralsCore.ModelsCarryValues | src/literals/index.ts:71-74 | For an accepted list, every model's `value` is the matching value. |
| LiteralsOptions.SpaceText | src/literals/accessors.ts:33 | A space replacement contains no space and is at most one character long. |
| LiteralsOptions.DefaultAccessorOptions | src/literals/options.ts:48-57 | Model lists get the model defaults (checked first, so the empty list gets them too), string lists get the array defaults, and a mixed list throws. |
| LiteralsOptions.Effective | src/literals/accessors.ts:144 | In `{ ...defaults, ...options }`, every given setting wins over the default. |
| LiteralsOptions.EffectiveIgnoresDefaults | src/literals/accessors.ts:144 | With all three settings given, the defaults, and so the list's shape, do not matter. |
| LiteralsOptions.PickStatic | src/literals/index.ts:194 | Picking the static options keeps the three accessor settings and drops the message builder. |
| LiteralsOptions.Spread | src/literals/index.ts:193-196 | In `{ ...base, ...over }`, every property that `over` has wins. |
| LiteralsOptions.SubsetOptions | src/literals/index.ts:193-196 | A subset takes its message builder from `opts` only, and each accessor setting from `opts` or else from the parent. |
| LiteralsAccessors.CaseApplied | src/literals/accessors.ts:146-151 | The case step maps each character. |
| LiteralsAccessors.HyphensApplied | src/literals/accessors.ts:152-154 | A truthy ("_") hyphen replacement removes every hyphen. "" and `null` leave the text alone. |
| LiteralsAccessors.FormatAccessor | src/literals/accessors.ts:146-156 | An accessor never contains a space. It contains no hyphen when hyphens are replaced and spaces do not become hyphens. Upper-casing leaves no lower-case letter, and lower-casing no upper-case one. |
| LiteralsAccessors.ToLiteralAccessor | src/literals/accessors.ts:135-157 | `toLiteralAccessor` applies the defaults for the list's shape under the caller's options. It throws exactly for a mixed list. |
| LiteralsAccessors.FormatAccessorByChar | src/literals/accessors.ts:146-156 | The three passes (case, hyphens, spaces) equal a one-pass rewrite character by character, so a hyphen made from a space survives. |
| LiteralsAccessors.AccessorByPosition | src/literals/accessors.ts:146-156 | With a one-character space replacement, the accessor is as long as the value and rewrites it position by position. |
| LiteralsAccessors.DefaultArrayAccessor | src/literals/options.ts:29-33 | Under the string-list defaults, no lower-case letter, space or hyphen is left. |
| LiteralsAccessors.AdminAccessor | src/literals/options.ts:29-33 | "admin" becomes "ADMIN". |
| LiteralsAccessors.OrderExample | src/literals/accessors.ts:152-155 | With spaces becoming "-" and hyphens becoming "_", "a b-c" becomes "A-B_C". |
| LiteralsAccessors.EmptyHyphenReplacementKeepsHyphens | src/literals/accessors.ts:152 | A hyphen replacement of "" is falsy, so the hyphens stay. |
| LiteralsAccessors.FormatAccessorKeeps | src/literals/accessors.ts:146-156 | A value that no step touches is its own accessor. |
| LiteralsAccessors.ModelDefaultsKeep | src/literals/options.ts:41-46 | The model defaults keep every value that has no space. |
| Literals.FindFirstSlot | src/literals/index.ts:82 | `seen.findIndex` gives the first pair whose FIRST slot (a value) equals the accessor, or -1 when there is none. |
| Literals.Registered | src/literals/index.ts:76-98 | The `reduce` throws only the "duplicate" or the "two literals" error. |
| Literals.HasNullEntry | src/literals/index.ts:71 | An accepted list, of strings or of base models only, has no `null` or `undefined` entry. |
| Literals.Built | src/literals/index.ts:65-104 | A built set exists only for an accepted list, and holds its values, its models and the given options. An accepted list can fail only with the "duplicate" or the "two literals" error. |
| Literals.EnumeratedLiterals | src/literals/index.ts:65-98 | The two loops (the `values` map, then the `reduce` with the reassigned `seen`) compute exactly `Built`: the `TypeError` for a `null` or `undefined` entry, the shape error, the first clash, or the values, models and accessor table. |
| Literals.LoopStep | src/literals/index.ts:79-95 | One turn of the `reduce`: a found slot decides the error (duplicate when the slot holds the key itself, otherwise collision), and otherwise one more pair is recorded. |
| Literals.RegisteredOk | src/literals/index.ts:76-98 | Construction succeeds exactly when no entry's accessor equals an EARLIER VALUE. On success, `seen` pairs every value with its accessor. |
| Literals.RegisteredError | src/literals/index.ts:82-93 | A failed construction throws at the first clashing entry: the "duplicate" message when the accessor is its own value, and the "two literals" message otherwise. |
| Literals.RegisteredTable | src/literals/index.ts:95 | The table's keys are exactly the values' accessors, and each accessor leads to the last value that has it. |
| Literals.RegisteredPair | src/literals/index.ts:76-98 | For two values, the second throws exactly when the first value is its accessor. Otherwise both accessors are in the table. |
| Literals.RepeatedValueNeedsNewAccessor | src/literals/index.ts:82-88 | A repeated value gets through only when its accessor differs from the value. |
| Literals.BuiltSpec | src/literals/index.ts:65-104 | The whole outcome of construction: a `null` or `undefined` entry throws the `TypeError` (the values are read first), any other mixed list the shape error; then the first clash when one exists (both directions); otherwise the values, the models, the options and the table's keys and values. |
| Literals.BuiltValid | src/literals/index.ts:71-74 | A built set has one model per value, carrying that value. |
| Literals.ThrowInvalidValue | src/literals/index.ts:149-168 | The options' builder is used only when no message is given. A non-empty message wins. Otherwise the message depends on the values: none; exactly one ("it must be x"); or several ("one of" the humanized list with "or"). |
| Literals.Contains | src/literals/index.ts:169-171 | `contains(v)` holds exactly when `v` is a string equal to one of the values. |
| Literals.EmptyMessageSkipsBuilder | src/literals/index.ts:150-155 | An empty message is given but falsy: it turns the builder off and still falls through to a default message. |
| Literals.TwoValuesMessage | src/literals/index.ts:164-167 | Two values give "one of a or b". |
| Literals.ThreeValuesMessage | src/literals/index.ts:164-167 | Three values give "one of a, b, or c". |
| Literals.Assert | src/literals/index.ts:176-180 | `assert` passes exactly for contained values, and otherwise throws `throwInvalidValue`'s error. |
| Literals.Parse | src/literals/index.ts:172-175 | `parse` returns `v` itself exactly when it is one of the values, and otherwise throws. |
| Literals.ParseIdempotent | src/literals/index.ts:172-175 | Parsing a parsed value again returns it unchanged. |
| Literals.FindModel | src/literals/index.ts:126 | `find` gives the first model carrying the value, or none when no model carries it. |
| Literals.GetModel | src/literals/index.ts:121-131 | `getModel` returns a model of the set carrying `v`, and otherwise throws the default error. |
| Literals.GetModelComplete | src/literals/index.ts:121-131 | On a built set, `getModel` finds a model exactly for contained values: the model of the first entry with that value. |
| Literals.GetModelSafe | src/literals/index.ts:132-145 | A missing value gives `null`, or throws when `strict` is `true`. A contained value gives its model. |
| Literals.GetModelSafeTotal | src/literals/index.ts:132-145 | On a built set, `getModelSafe` throws only with `strict: true`, and finds a model exactly for contained values. |
| Literals.GetAttribute | src/literals/index.ts:114-120 | `getAttribute` is the model's property, `undefined` when missing, and throws when `getModel` does. The attribute "value" gives `v` back. |
| Literals.GetAttributes | src/literals/index.ts:105-113 | The loop pushes every model's property, in order. On a built set, "value" gives the values. |
| Literals.Strings | src/literals/index.ts:192 | A list of strings as literals, one per value. |
| Literals.StringsValues | src/literals/index.ts:192-197 | A list of strings is accepted, and its values are the strings. |
| Literals.Pick | src/literals/index.ts:181-198 | `pick` rebuilds the set from strings, so it can throw only the "duplicate" or the "two literals" error, never the shape error. |
| Literals.Omit | src/literals/index.ts:199-215 | `omit` likewise can throw only the "duplicate" or the "two literals" error. |
| Literals.PickContents | src/literals/index.ts:181-198 | A successful `pick` holds exactly the parent's values that are in `vs`, each once, at its first place in the parent, so in the parent's order whether or not the parent repeats values. Its message builder comes from `opts` only. |
| Literals.OmitContents | src/literals/index.ts:199-215 | A successful `omit` holds exactly the parent's values outside `vs`, in order, with repeats kept. |
| Literals.DifferenceOfNothing | src/literals/index.ts:210 | Omitting nothing keeps every value. |
| Literals.SubsetUsesStringDefaults | src/literals/index.ts:192-197 | Subsets are rebuilt from strings, so they take the upper-case string defaults, even when the parent held models. |
| Literals.StringPairBuilt | src/literals/index.ts:76-98 | Two strings without options: the clash condition, and otherwise the exact set. |
| Literals.ModelPairBuilt | src/literals/index.ts:76-98 | Two models without spaces: rejected exactly when they are equal, and otherwise each value is its own accessor. |
| Literals.RepeatedModelsRejected | src/literals/index.ts:84-87 | The same model value twice throws the "duplicate" error. |
| Literals.RepeatedStringsAccepted | src/literals/index.ts:82 | The same string twice is accepted: "admin" is checked against "ADMIN", and the table holds one accessor. |
| Literals.SharedAccessorUndetected | src/literals/index.ts:82 | Two strings sharing an accessor that is not the first value get through, and the later one takes the accessor. |
| Literals.HyphenClashUndetected | src/literals/index.ts:82 | "a-b" and "a_b" both map to "A_B", and the clash goes unnoticed. |
| Literals.CaseCollisionDetected | src/literals/index.ts:89-92 | "X" and "x" are caught as two literals with the same accessor "X". |
| Literals.PickOfModelPairThrows | src/literals/index.ts:181-198 | A model set can build, and picking from it can throw, because the pick is rebuilt under the string defaults. |
| Literals.PickCanThrow | src/literals/index.ts:181-198 | Models "ADMIN" and "admin" build a set, and picking both throws. |
| Literals.PropertyOf | src/literals/index.ts:100-104 | A name reads as an accessor exactly when it is in the table and is not one of the object's own names, which are listed after `...accessors`. |
| Literals.UpperCaseAccessorsVisible | src/literals/index.ts:100-104 | Upper-cased accessors are never shadowed. |
| Literals.UpperCaseNotReserved | src/literals/index.ts:100-215 | A name without lower-case letters is not a method or property name of the object. |
| Literals.LowerCaseAccessorShadowed | src/literals/index.ts:100-104 | With lower case, a value "values" is hidden by the `values` property. |
| EntryLists.KeysCons | src/query/util.ts:81-88 | The keys of a list with one more entry at the front. Unique keys hold exactly when the new key is new. |
| EntryLists.KeysMember | src/query/util.ts:81-88 | A key is in the list exactly when some entry has it. |
| EntryLists.KeysSnoc | src/query/util.ts:81-88 | The keys of a list with one more entry at the end. |
| EntryLists.Lookup | src/query/util.ts:81-88 | Lookup finds nothing exactly for keys that are absent. |
| EntryLists.WithoutKey | src/query/util.ts:120-124 | Removing a key removes only it. Other lookups are unchanged, and unique keys are kept. |
| EntryLists.SetEntrySpec | src/query/util.ts:86 | `set(k, v)` makes `k` look up `v` and leaves other keys alone. It adds `k` to the keys, keeps keys unique, and appends when `k` is new. |
| EntryLists.SetEntry | src/query/util.ts:86 | After `set(k, v)` the entry `(k, v)` is in the container, and at most one entry was added. |
| EntryLists.SetEntryInPlace | src/query/util.ts:86 | With unique keys, setting a present key changes that entry's value where it stands; every entry keeps its position. |
| EntryLists.KeysOf | src/query/parse-query-params.ts:103 | The keys in iteration order: one per entry, repeats included. |
| EntryLists.FirstSeenSnoc | src/query/util.ts:83-86 | One more entry adds its key to the newly seen keys exactly when the key is new. |
| EntryLists.SetEntryKeyOrder | src/query/util.ts:86 | The key order after `set(k, v)`: the old keys where they were, then `k` when it is new. |
| EntryLists.SetAllSpec | src/query/util.ts:83-86 | A run of `set` calls: a key takes its last value in the run, and other keys keep theirs. The keys are the union, and unique keys are kept. |
| EntryLists.SetAll | src/query/util.ts:83-86 | A run of `set` calls adds at most one entry per call, and the last call's entry is in the result. |
| EntryLists.SetAllOrder | src/query/util.ts:83-86 | The order a run of `set` calls leaves: the old keys where they were, then the new keys in the order they first occur. |
| EntryLists.SetAllAppend | src/query/util.ts:83-86 | Two runs of `set` are one run. |
| EntryLists.SetAllCopies | src/query/util.ts:83-85 | Copying a container with unique keys by `set` gives it back. |
| EntryLists.LastValueFound | src/query/util.ts:83-86 | A key has a last value exactly when it occurs. |
| EntryLists.Snoc | src/query/util.ts:83-86 | A non-empty list is its front and its last entry. |
| QueryTypes.GetOptionsForm | src/query/types.ts:59-60 | The requested form, or "object" when none is requested. |
| QueryTypes.StoredText | src/query/util.ts:113-117 | `null` and `undefined` are not stored. A string is stored as it is, a number as its decimal text, and a boolean as "true" or "false". |
| QueryUtil.GetQueryParamForm | src/query/util.ts:11-21 | `Map` gives "map", an array "pairs", `URLSearchParams` "object", and anything else, a string included, "record". The form is never "string". |
| QueryUtil.CountCharsInString | src/query/util.ts:23-34 | Throws exactly when the character argument is not one character long. Otherwise the loop counts the occurrences. |
| QueryUtil.ObjectEntries | src/query/util.ts:48-51 | `URLSearchParams` yields its pairs in order, as strings. |
| QueryUtil.Entries | src/query/util.ts:36-65 | A `URLSearchParams` yields its pairs in order, each value as a string, and a string yields nothing. |
| QueryUtil.SpreadSpec | src/query/util.ts:120-124 | A record spreads to its own entries; `{ ...s }` of a string has one property per character, named by its decimal index, with no key twice. |
| QueryUtil.ObjectSetSpec | src/query/util.ts:113-117 | The object reducer's last step makes `k` read the value's text, or what it read before for `null` and `undefined`. Other keys are unchanged, and unique keys stay unique. |
| QueryUtil.SpreadStringSpec | src/query/util.ts:120-124 | `{ ...s }` of a string has one property per character, named by its decimal index, all different. |
| QueryUtil.Reduce | src/query/util.ts:80-130 | Every reducer returns the container of its form. The "string" reducer throws, because it is called without the object it reads `this.object` from. |
| QueryUtil.CopyBySet | src/query/util.ts:82-85 | The copy loop is a run of `set` calls into an empty container. |
| QueryUtil.ApplyReducer | src/query/util.ts:81-126 | The reducer's own loops compute `Reduce`. |
| QueryUtil.ReduceWellFormed | src/query/util.ts:81-124 | A reducer never gives a map or a record a repeated key. |
| QueryUtil.Initial | src/query/util.ts:132-147 | The initial state has the requested form, yields no entries, and is well formed. |
| QueryUtil.Fold | src/query/transform-query-params.ts:41-46 | Folding a reducer changes nothing on no entries, and otherwise gives the form. It throws exactly for the "string" form with entries. |
| QueryUtil.FoldStep | src/query/transform-query-params.ts:41-46 | One more entry means one more reducer call. |
| QueryUtil.FoldAppend | src/query/merge-query-params.ts:38-48 | Folding over two lists in turn is one fold. |
| QueryUtil.StoredKeys | src/query/util.ts:113-117 | A key is stored exactly when it has an entry that is not `null` or `undefined`. |
| QueryUtil.Stored | src/query/util.ts:113-117 | At most one stored pair per entry. When no value is `null` or `undefined`, one pair per entry: its key and text at the same index. |
| QueryUtil.StoredObjectEntries | src/query/util.ts:103-112 | Strings are always stored, so the copy loop's check never fails. |
| QueryUtil.FoldPairs | src/query/util.ts:125-126 | The pairs reducer appends the entries in order. |
| QueryUtil.FoldMap | src/query/util.ts:81-88 | The map reducer is a run of `set` calls on the start. |
| QueryUtil.FoldRecord | src/query/util.ts:120-124 | The record reducer is a run of key updates on the start. |
| QueryUtil.FoldRecordString | src/query/util.ts:120-124 | A record fold started from a string first spreads its characters into index keys. |
| QueryUtil.FoldObject | src/query/util.ts:98-119 | The object reducer `set`s the start's pairs into a fresh container, then the stored entries. |
| QueryTransform.TransformQueryParams | src/query/transform-query-params.ts:32-48 | The loop computes `Transform`: the reducer folded from the initial state. |
| QueryTransform.Transform | src/query/transform-query-params.ts:32-48 | Throws exactly for the "string" form with entries. Otherwise the result has the requested form. |
| QueryTransform.TransformForm | src/query/transform-query-params.ts:32-48 | Throws exactly for "string" with entries. Otherwise the result has the requested form and is well formed. |
| QueryTransform.TransformEmpty | src/query/transform-query-params.ts:37-47 | No entries give the initial state. |
| QueryTransform.TransformToPairs | src/query/util.ts:125-126 | "pairs" lists every entry in order, repeats included. |
| QueryTransform.TransformToMap | src/query/util.ts:81-88 | "map" keeps the last value of each key. |
| QueryTransform.TransformToRecord | src/query/util.ts:120-124 | "record" keeps the last value of each key. |
| QueryTransform.TransformToObject | src/query/util.ts:98-119 | "object", the default, keeps the last stored value of each key and drops `null` and `undefined`. |
| QueryTransform.TransformAgain | src/query/transform-query-params.ts:32-48 | Transforming a result again gives it back. |
| QueryMerge.Merge2 | src/query/merge-query-params.ts:24-37 | Two arguments never throw. The first is returned when the second has no entries, and otherwise the first's form is kept. |
| QueryMerge.MergeQueryParams | src/query/merge-query-params.ts:15-49 | The two loops, and the recursion, compute `Merge`. |
| QueryMerge.Merge | src/query/merge-query-params.ts:15-49 | A merge returns the first argument itself or a container of the first argument's form. |
| QueryMerge.MergeStep | src/query/merge-query-params.ts:42-47 | Merging never throws, and each further argument is one two-argument merge. |
| QueryMerge.FoldKeepsClass | src/query/merge-query-params.ts:25-35 | Folding with the first argument's reducer never throws and keeps its form. |
| QueryMerge.MergeIsOneFold | src/query/merge-query-params.ts:15-49 | Any number of arguments is one fold over all their entries into the first. |
| QueryMerge.MergeMaps | src/query/merge-query-params.ts:15-49 | Merging into a `Map` is a run of `set` calls. |
| QueryMerge.MergeRecords | src/query/merge-query-params.ts:15-49 | Merging into a record is a run of key updates. |
| QueryMerge.MergePairs | src/query/merge-query-params.ts:15-49 | Merging into pairs concatenates the entries. |
| QueryMerge.MergeOverrides | src/query/merge-query-params.ts:24-37 | A key of the second argument takes its last value there, and other keys keep the first's value. |
| QueryMerge.MergeObject | src/query/merge-query-params.ts:24-37 | Merging into `URLSearchParams` copies its pairs, then sets the stored entries. |
| QueryMerge.MergeIntoString | src/query/merge-query-params.ts:24-37 | A string first argument becomes a record of its characters, updated by the entries. |
| QueryParse.Selected | src/query/parse-query-params.ts:97-98 | Only entries with a wanted key are reduced, in order; without `keys`, all of them. |
| QueryParse.KeyItems | src/query/parse-query-params.ts:112 | The missing keys as list items. |
| QueryParse.ParseQueryParams | src/query/parse-query-params.ts:87-120 | The loop, the strict check and the final transform compute `Parse`. |
| QueryParse.Parse | src/query/parse-query-params.ts:87-120 | The missing-keys error comes only with `keys` given and `strict` not `false`; any other error is the detached "string" reducer. With a form requested, the result has that form. |
| QueryParse.ReduceWanted | src/query/parse-query-params.ts:96-105 | The loop reduces exactly the entries with a wanted key, in order, from the initial state. When no reducer throws, it pushes exactly their keys, in order. |
| QueryParse.ParseStep | src/query/parse-query-params.ts:97-105 | A wanted entry is reduced into the state and its key pushed. A reducer that throws makes the whole loop throw that error. |
| QueryParse.ParseDone | src/query/parse-query-params.ts:106-119 | After the loop: the strict check, then the optional transform. |
| QueryParse.ParseWithoutKeys | src/query/parse-query-params.ts:87-120 | Without `keys`, parsing is a transform. |
| QueryParse.ParseStrict | src/query/parse-query-params.ts:106-115 | With `keys` and not `strict: false`, parsing throws exactly when the number of reduced entries differs from the number of keys. The error lists exactly the keys with no reduced entry. |
| QueryParse.ParseLenient | src/query/parse-query-params.ts:106-110 | With `strict: false`, parsing never throws a missing-keys error. |
| QueryParse.ParseToPairs | src/query/parse-query-params.ts:116-119 | "pairs" gives the selected entries. |
| QueryParse.RepeatedKeyHidesMissingKey | src/query/parse-query-params.ts:106-110 | A repeated key can make up for a missing one, because the check compares counts. |
| QueryParse.TwoMissingKeys | src/query/parse-query-params.ts:111-114 | Two missing keys are listed as "'a' and 'b'". |
| QueryAddToUrl.WithSearch | src/query/add-query-params-to-url.ts:46-58 | An empty serialisation leaves the URL alone. A string becomes its part before `?`, then `?`, then the serialisation. An object keeps its fields and gets the serialisation as `query` and `search`. |
| QueryAddToUrl.UrlParams | src/query/add-query-params-to-url.ts:38-44 | Collecting the parameters never throws and gives a `URLSearchParams`. |
| QueryAddToUrl.UrlParamsIgnoreExisting | src/query/add-query-params-to-url.ts:38-44 | The URL's own query never contributes, because the iterator's string branch yields nothing. The parameters are `query`'s stored entries `set` into an empty container. |
| QueryAddToUrl.ParseText | src/query/util.ts:52-59 | Parsing a string gives an empty `URLSearchParams`. |
| QueryAddToUrl.MergeIntoEmpty | src/query/add-query-params-to-url.ts:44 | Merging into an empty `URLSearchParams` keeps the last stored value of each key. |
| QueryAddToUrl.NullsNeverAppear | src/query/util.ts:113-117 | A key appears exactly when it has a non-null, non-undefined value. |
| QueryAddToUrl.AddQueryParamsToUrl | src/query/add-query-params-to-url.ts:33-59 | The result is the URL rewritten with the serialisation of `query`'s stored entries. |
| QueryAddToUrl.ReplaceExistingIrrelevant | src/query/add-query-params-to-url.ts:40-43 | `replaceExisting` makes no difference. |
| LegacyUrls.SearchPairs | src/urls.ts:214-222 | No `?` and more than one `?` both give no parameters. |
| LegacyUrls.SingleQuestionMark | src/urls.ts:217-218 | With one `?`, the text after it is parsed. |
| LegacyUrls.LegacyParse | src/urls.ts:205-226 | Parsing never throws. Without a form it returns the `URLSearchParams`. |
| LegacyUrls.LegacyParseToObject | src/urls.ts:223-225 | With the "object" form, the pairs are copied by `set`. |
| LegacyUrls.LegacyUrlParams | src/urls.ts:306-312 | Collecting the parameters never throws and gives a `URLSearchParams`. The query is never a string, as the file's `QueryParams` type demands. |
| LegacyUrls.LegacyMergesExisting | src/urls.ts:306-312 | The existing query and `query` are one run of `set` calls: `query`'s keys take their last stored value, and every other key keeps its last existing value. |
| LegacyUrls.LegacyAddQueryParamsToUrl | src/urls.ts:301-327 | The URL rewritten with the serialisation of the merged parameters. |

## Left out

- Type-level code: the conditional types of `exposed.ts`, `core.ts` and `accessors.ts`, the `UniqueArray` checks, and the `schema` zod union. Only its effect is modelled, in `Contains`.
- zod parsing is modelled by predicates over JSON-like values (`IsBaseModel`). Unknown keys and `accessor` are accepted as zod accepts them. A model's own `accessor` property is ignored by the run-time code, as in the source.
- Letter case is ASCII only. JavaScript's full Unicode case mapping is not modelled.
- Numbers are integers. Floating point, `NaN` and the decimal form of fractions are not modelled.
- `JSON.stringify` of the offending value is kept as the value itself inside the error (`MustBe`, `MustBeOneOf`). The text of the message built around it is not modelled.
- A non-model entry in a model list is registered under the placeholder key "" in `LoopStep`. A mixed list is rejected before that matters.
- Options given as explicit `undefined` are treated like options left out.
- `URLSearchParams` parsing and serialisation (`new URLSearchParams(text)`, `toString()`) are function parameters (`parseQuery`, `serialize`). Percent-encoding is not modelled.
- A `Map`, a record and a `URLSearchParams` built by `set` are modelled as ordered lists with unique keys (EntryLists), not as `map`, because their iteration order feeds the folds. JavaScript's ordering of integer-like record keys first, and `for…in` over inherited properties, are not modelled.
- The object reducer's check that a copied value is a string is not modelled: its values are strings by construction (StoredObjectEntries).
- The `enforceValidUrl` branch of the older `parseQueryParams` (`new URL(path)`) is not modelled; it needs a URL parser.
- QueryUtil.Reduce: the "string" reducer is modelled as throwing. The source calls it detached from its object, so `this.object` is undefined.
- QueryUtil.Entries: yields nothing for a string. The source's generator `return`s a nested iterator instead of delegating to it, so the string branch of `searchParamsIterator` yields no entry.
- HumanizeList.Humanize: its own contract covers zero and one items. The longer cases are in `Tail`, `TwoItems`, `ThreeItems` and `DropFirst`.
- QueryUtil.CountCharsInString: strings are sequences of characters (code points). The source's `length` counts UTF-16 code units, so a character outside the Basic Multilingual Plane passed as `char` is one character here and two units there, where it throws.
- Literals.PropertyOf: only the object's own property names shadow an accessor. Names inherited from `Object.prototype` (`toString`, `constructor`, `hasOwnProperty` and the rest) are not modelled.
