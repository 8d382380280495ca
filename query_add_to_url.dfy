/** src/query/add-query-params-to-url.ts: `addQueryParamsToUrl`, which puts query
    parameters on a path or a URL object. Serialising a `URLSearchParams`
    (`toString()`, the application/x-www-form-urlencoded serializer of the WHATWG URL
    Standard) is a built-in and is passed in as `serialize`. */
module QueryAddToUrl {
  import opened Wrappers
  import opened JsText
  import opened EntryLists
  import opened QueryTypes
  import opened QueryUtil
  import opened QueryTransform
  import opened QueryMerge
  import opened QueryParse

  /** The URL argument: a path or URL string, or a `UrlObject` whose `search` and `query`
      fields may be absent and whose other fields are carried along as they are. */
  datatype Url =
    | UrlText(text: string)
    | UrlObject(search: Option<string>, query: Option<string>, others: map<string, string>)

  /** `typeof url === "string" ? url : url.search || ""`. */
  function SearchText(url: Url): string {
    if url.UrlText? then url.text else url.search.GetOr("")
  }

  /** The final step shared with the older copy in src/urls.ts: nothing changes when the
      parameters serialise to ""; a string becomes its text before the first `?`, then `?`,
      then the serialisation; an object keeps its other fields and gets the serialisation
      as both `query` and `search`. */
  function WithSearch(url: Url, serialized: string): (r: Url)
    ensures serialized == "" ==> r == url
    ensures serialized != "" && url.UrlText? ==> r == UrlText(BeforeFirst(url.text, '?') + "?" + serialized)
    ensures serialized != "" && url.UrlObject? ==> r == url.(query := Some(serialized), search := Some(serialized))
  {
    if serialized == "" then url
    else if url.UrlText? then UrlText(BeforeFirst(url.text, '?') + "?" + serialized)
    else url.(query := Some(serialized), search := Some(serialized))
  }

  /** The parameters put on the URL: the URL's own query parsed into a
      `URLSearchParams` (or an empty one with `replaceExisting: true`), merged with
      `query`. */
  function UrlParams(url: Url, query: Params, replaceExisting: Option<bool>): (r: Result<Params, QueryError>)
    ensures r.Ok? && r.value.ObjectParams?
  {
    ParseText(SearchText(url));
    var existing := if replaceExisting == Some(true) then ObjectParams([])
                    else Parse(StringParams(SearchText(url)), ParseOptions(None, None, Some(ObjectForm))).value;
    Merge(existing, query, [])
  }

  /** As written, the URL's own query never contributes: it is parsed from a string, and
      a string yields no entries. The parameters are `query`'s entries `set` into an empty
      `URLSearchParams`, with or without `replaceExisting`, so for a repeated key the last
      value wins. */
  lemma UrlParamsIgnoreExisting(url: Url, query: Params, replaceExisting: Option<bool>)
    ensures UrlParams(url, query, replaceExisting) == Ok(ObjectParams(SetAll([], Stored(Entries(query)))))
  {
    ParseText(SearchText(url));
    MergeIntoEmpty(query);
  }

  /** Parsing a string yields an empty `URLSearchParams`. */
  lemma ParseText(s: string)
    ensures Parse(StringParams(s), ParseOptions(None, None, Some(ObjectForm))) == Ok(ObjectParams([]))
  {
    TransformToObject(ObjectParams([]), QueryOptions(Some(ObjectForm)));
  }

  /** Merging into an empty `URLSearchParams` `set`s the stored entries. */
  lemma MergeIntoEmpty(query: Params)
    ensures Merge(ObjectParams([]), query, []) == Ok(ObjectParams(SetAll([], Stored(Entries(query)))))
  {
    var es := Entries(query);
    FoldObject([], es);
    if es == [] {
      assert Stored(es) == [];
    }
  }

  /** A key of `query` reaches the URL exactly when one of its entries has a value other
      than null and undefined. */
  lemma NullsNeverAppear(query: Params, k: string)
    ensures var es := Entries(query);
      (k in Keys(SetAll([], Stored(es))))
        <==> (exists i :: 0 <= i < |es| && es[i].0 == k && !es[i].1.VNull? && !es[i].1.VUndefined?)
  {
    SetAllSpec([], Stored(Entries(query)));
    StoredKeys(Entries(query), k);
  }

  /** `addQueryParamsToUrl(url, query, opts)`. It never throws (`UrlParams` is never an
      error), and the URL it returns depends only on `query`. */
  function AddQueryParamsToUrl(url: Url, query: Params, replaceExisting: Option<bool>,
                               serialize: seq<(string, string)> -> string): (r: Result<Url, QueryError>)
    ensures r == Ok(WithSearch(url, serialize(SetAll([], Stored(Entries(query))))))
  {
    UrlParamsIgnoreExisting(url, query, replaceExisting);
    var params := UrlParams(url, query, replaceExisting).value;
    Ok(WithSearch(url, serialize(params.pairs)))
  }

  /** `replaceExisting` makes no difference. */
  lemma ReplaceExistingIrrelevant(url: Url, query: Params, serialize: seq<(string, string)> -> string)
    ensures AddQueryParamsToUrl(url, query, None, serialize) == AddQueryParamsToUrl(url, query, Some(true), serialize)
  {
  }
}
