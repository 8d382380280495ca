/** src/urls.ts, the older standalone copy of the query toolkit. Its reducers,
    `getQueryParamForm`, `countCharsInString`, `transformQueryParams` and
    `mergeQueryParams` do what the newer ones in src/query do for the four forms it knows
    (there is no "string" form), so the model shares them. What differs is
    `parseQueryParams`, which takes a path and really reads the text after its `?`
    (form-urlencoded parsing, a built-in, is passed in as `parseQuery`), and therefore
    `addQueryParamsToUrl`, which really merges a URL's existing query. */
module LegacyUrls {
  import opened Wrappers
  import opened JsText
  import opened EntryLists
  import opened QueryTypes
  import opened QueryUtil
  import opened QueryTransform
  import opened QueryMerge
  import opened QueryAddToUrl

  /** The four forms of src/urls.ts. */
  type LegacyForm = f: Form | f != StringForm witness MapForm

  /** The pairs `parseQueryParams` reads from a path: none without a `?` or with more than
      one, and otherwise the parsed text after the `?`. */
  function SearchPairs(path: string, parseQuery: string -> seq<(string, string)>): (r: seq<(string, string)>)
    ensures '?' !in path ==> r == []
    ensures Occurrences(path, '?') > 1 ==> r == []
  {
    if '?' in path then
      if Occurrences(path, '?') > 1 then []
      else parseQuery(Split(path, '?')[1])
    else []
  }

  /** With a single `?`, exactly the text after it is parsed. */
  lemma SingleQuestionMark(before: string, after: string, parseQuery: string -> seq<(string, string)>)
    requires '?' !in before && '?' !in after
    ensures SearchPairs(before + "?" + after, parseQuery) == parseQuery(after)
  {
    SplitAround(before, after, '?');
    OccurrencesConcat(before, "?", '?');
    OccurrencesConcat(before + "?", after, '?');
    assert Occurrences("?", '?') == 1;
    assert '?' in before + "?" + after by {
      assert (before + "?" + after)[|before|] == '?';
    }
  }

  /** `parseQueryParams(path, options)` without `enforceValidUrl`: the pairs read from
      the path as a `URLSearchParams`, transformed into `form` when one is given. It never
      throws, since there is no "string" form. */
  function LegacyParse(path: string, form: Option<LegacyForm>, parseQuery: string -> seq<(string, string)>): (r: Result<Params, QueryError>)
    ensures r.Ok?
    ensures form.None? ==> r == Ok(ObjectParams(SearchPairs(path, parseQuery)))
  {
    var searchParams := ObjectParams(SearchPairs(path, parseQuery));
    if form.Some? then
      TransformForm(searchParams, QueryOptions(Some(form.value)));
      Transform(searchParams, QueryOptions(Some(form.value)))
    else Ok(searchParams)
  }

  /** Parsing into a `URLSearchParams` collapses repeated keys of the path's query. */
  lemma LegacyParseToObject(path: string, parseQuery: string -> seq<(string, string)>)
    ensures LegacyParse(path, Some(ObjectForm), parseQuery) == Ok(ObjectParams(SetAll([], SearchPairs(path, parseQuery))))
  {
    var sp := SearchPairs(path, parseQuery);
    TransformToObject(ObjectParams(sp), QueryOptions(Some(ObjectForm)));
    StoredObjectEntries(sp);
  }

  /** The pairs of the URL's own query that `addQueryParamsToUrl` starts from. */
  function ExistingPairs(url: Url, replaceExisting: Option<bool>, parseQuery: string -> seq<(string, string)>): seq<(string, string)> {
    if replaceExisting == Some(true) then [] else SearchPairs(SearchText(url), parseQuery)
  }

  /** The parameters put on the URL: the existing query parsed into a `URLSearchParams`
      (or an empty one with `replaceExisting: true`), merged with `query`. The
      `QueryParams` type of src/urls.ts has no string form, so `query` is never a string. */
  function LegacyUrlParams(url: Url, query: Params, replaceExisting: Option<bool>,
                           parseQuery: string -> seq<(string, string)>): (r: Result<Params, QueryError>)
    requires !query.StringParams?
    ensures r.Ok? && r.value.ObjectParams?
  {
    var existing := if replaceExisting == Some(true) then ObjectParams([])
                    else LegacyParse(SearchText(url), Some(ObjectForm), parseQuery).value;
    Merge(existing, query, [])
  }

  /** The existing query and `query` are one run of `set` calls: a key of `query` takes
      its last value there (null and undefined skipped), every other key keeps its last
      value in the existing query. */
  lemma LegacyMergesExisting(url: Url, query: Params, replaceExisting: Option<bool>,
                             parseQuery: string -> seq<(string, string)>, k: string)
    requires !query.StringParams?
    ensures var existing, added := ExistingPairs(url, replaceExisting, parseQuery), Stored(Entries(query));
      && LegacyUrlParams(url, query, replaceExisting, parseQuery) == Ok(ObjectParams(SetAll(SetAll([], existing), added)))
      && Lookup(SetAll(SetAll([], existing), added), k)
           == if k in Keys(added) then LastValue(added, k) else LastValue(existing, k)
  {
    var existing, added := ExistingPairs(url, replaceExisting, parseQuery), Stored(Entries(query));
    var e := SetAll([], existing);
    if replaceExisting != Some(true) {
      LegacyParseToObject(SearchText(url), parseQuery);
    }
    SetAllSpec([], existing);
    if Entries(query) == [] {
      assert added == [];
    } else {
      MergeObject(e, query);
      SetAllCopies(e);
    }
    SetAllSpec(e, added);
    LastValueFound(existing, k);
  }

  /** `addQueryParamsToUrl(url, query, opts)` of src/urls.ts. */
  function LegacyAddQueryParamsToUrl(url: Url, query: Params, replaceExisting: Option<bool>,
                                     parseQuery: string -> seq<(string, string)>,
                                     serialize: seq<(string, string)> -> string): (r: Result<Url, QueryError>)
    requires !query.StringParams?
    ensures r == Ok(WithSearch(url, serialize(SetAll(SetAll([], ExistingPairs(url, replaceExisting, parseQuery)),
                                                     Stored(Entries(query))))))
  {
    LegacyMergesExisting(url, query, replaceExisting, parseQuery, "");
    var params := LegacyUrlParams(url, query, replaceExisting, parseQuery).value;
    Ok(WithSearch(url, serialize(params.pairs)))
  }
}
