/** src/literals/accessors.ts at run time: `toLiteralAccessor`, which derives the
    property name under which a literal value is exposed. */
module LiteralsAccessors {
  import opened Wrappers
  import opened JsText
  import opened LiteralsCore
  import opened LiteralsOptions

  /** The case step for one character. */
  function CaseChar(c: char, k: AccessorCase): char {
    match k
    case UpperCase => UpperChar(c)
    case LowerCase => LowerChar(c)
    case NoCase => c
  }

  /** The case step: `toUpperCase()`, `toLowerCase()` or nothing. */
  function CaseApplied(v: string, k: AccessorCase): (r: string)
    ensures |r| == |v|
    ensures forall i :: 0 <= i < |v| ==> r[i] == CaseChar(v[i], k)
  {
    match k
    case UpperCase => ToUpperCase(v)
    case LowerCase => ToLowerCase(v)
    case NoCase => v
  }

  /** The hyphen step: every "-" becomes "_" when the replacement is truthy ("_");
      with "" or `null` hyphens stay. */
  function HyphensApplied(v: string, h: HyphenReplacement): (r: string)
    ensures HyphenTruthy(h) ==> '-' !in r
    ensures !HyphenTruthy(h) ==> r == v
  {
    if HyphenTruthy(h) then ReplaceAll(v, '-', "_") else v
  }

  /** The three steps of `toLiteralAccessor` in their order: case, hyphens, spaces. The
      result never holds a space; it holds no hyphen when hyphens are replaced and spaces
      do not become hyphens; upper-casing leaves no lower-case letter and lower-casing no
      upper-case one. */
  function FormatAccessor(v: string, opts: AccessorOptions): (r: string)
    ensures ' ' !in r
    ensures HyphenTruthy(opts.accessorHyphenReplacement) && opts.accessorSpaceReplacement != SpaceHyphen
      ==> '-' !in r
    ensures opts.accessorCase == UpperCase ==> forall c :: c in r ==> !('a' <= c <= 'z')
    ensures opts.accessorCase == LowerCase ==> forall c :: c in r ==> !('A' <= c <= 'Z')
  {
    var cased := CaseApplied(v, opts.accessorCase);
    var hyphened := HyphensApplied(cased, opts.accessorHyphenReplacement);
    ReplaceAll(hyphened, ' ', SpaceText(opts.accessorSpaceReplacement))
  }

  /** `toLiteralAccessor(v, literals, options)`: the defaults for the list's shape under the
      caller's options, applied to `v`. Only the shape of `literals` matters, and a
      mixed list throws. */
  function ToLiteralAccessor(v: string, literals: seq<Json>, options: LiteralsOptions): (r: Result<string, ShapeError>)
    ensures r.Err? <==> !WellShaped(literals)
    ensures LiteralsAreModelArray(literals)
      ==> r == Ok(FormatAccessor(v, Effective(DefaultModelArrayOptions, options)))
    ensures !LiteralsAreModelArray(literals) && LiteralsAreArray(literals)
      ==> r == Ok(FormatAccessor(v, Effective(DefaultArrayOptions, options)))
  {
    var defaults :- DefaultAccessorOptions(literals);
    Ok(FormatAccessor(v, Effective(defaults, options)))
  }

  /** What the pipeline makes of one character, read off directly: a space becomes the
      space replacement, a hyphen (after casing) becomes "_" when hyphens are replaced,
      and every other character is only re-cased. */
  function CharAccessor(c: char, opts: AccessorOptions): string {
    var cased := CaseChar(c, opts.accessorCase);
    if cased == ' ' then SpaceText(opts.accessorSpaceReplacement)
    else if cased == '-' && HyphenTruthy(opts.accessorHyphenReplacement) then "_"
    else [cased]
  }

  /** A one-pass, character-by-character reference for the accessor. */
  function AccessorByChar(v: string, opts: AccessorOptions): string
    decreases |v|
  {
    if v == [] then [] else CharAccessor(v[0], opts) + AccessorByChar(v[1..], opts)
  }

  lemma CaseAppliedCons(v: string, k: AccessorCase)
    requires v != []
    ensures CaseApplied(v, k) == [CaseChar(v[0], k)] + CaseApplied(v[1..], k)
  {
    var r := CaseApplied(v, k);
    assert r == [r[0]] + r[1..];
  }

  /** The three-pass pipeline equals the one-pass reference: in particular a hyphen that
      space replacement produces is never rewritten by the hyphen step. */
  lemma {:induction false} FormatAccessorByChar(v: string, opts: AccessorOptions)
    ensures FormatAccessor(v, opts) == AccessorByChar(v, opts)
    decreases |v|
  {
    if v != [] {
      var k, h := opts.accessorCase, opts.accessorHyphenReplacement;
      var sp := SpaceText(opts.accessorSpaceReplacement);
      var c := CaseChar(v[0], k);
      var rest := CaseApplied(v[1..], k);
      CaseAppliedCons(v, k);
      var h0: string := if HyphenTruthy(h) && c == '-' then "_" else [c];
      assert HyphensApplied([c] + rest, h) == h0 + HyphensApplied(rest, h) by {
        if HyphenTruthy(h) {
          assert ([c] + rest)[0] == c && ([c] + rest)[1..] == rest;
        }
      }
      ReplaceAllAppend(h0, HyphensApplied(rest, h), ' ', sp);
      assert ReplaceAll(h0, ' ', sp) == CharAccessor(v[0], opts) by {
        assert h0[1..] == [];
      }
      FormatAccessorByChar(v[1..], opts);
    }
  }

  /** With a one-character space replacement the accessor is as long as the value and
      rewrites it position by position. */
  lemma {:induction false} AccessorByPosition(v: string, opts: AccessorOptions)
    requires opts.accessorSpaceReplacement != SpaceEmpty
    ensures |FormatAccessor(v, opts)| == |v|
    ensures forall i :: 0 <= i < |v| ==> [FormatAccessor(v, opts)[i]] == CharAccessor(v[i], opts)
    decreases |v|
  {
    FormatAccessorByChar(v, opts);
    if v != [] {
      FormatAccessorByChar(v[1..], opts);
      AccessorByPosition(v[1..], opts);
      var r := FormatAccessor(v, opts);
      assert r == CharAccessor(v[0], opts) + FormatAccessor(v[1..], opts);
      forall i | 0 < i < |v|
        ensures [r[i]] == CharAccessor(v[i], opts)
      {
        assert r[i] == FormatAccessor(v[1..], opts)[i - 1];
      }
    }
  }

  /** With the defaults for string lists, letters are upper-cased and spaces and hyphens
      both become "_": no lower-case letter, space or hyphen is left. */
  lemma DefaultArrayAccessor(v: string)
    ensures var r := FormatAccessor(v, DefaultArrayOptions);
      && ' ' !in r && '-' !in r
      && forall c :: c in r ==> !('a' <= c <= 'z')
  {
  }

  /** "admin" becomes "ADMIN" under the defaults for string lists. (The value is a
      parameter so that the verifier does not unfold every function on the literal.) */
  lemma AdminAccessor(v: string)
    requires v == "admin"
    ensures FormatAccessor(v, DefaultArrayOptions) == "ADMIN"
  {
    AccessorByPosition(v, DefaultArrayOptions);
  }

  /** Order matters: with spaces becoming "-" and hyphens becoming "_", "a b-c" becomes
      "A-B_C"; the hyphen the space step introduces survives. */
  lemma OrderExample(v: string)
    requires v == "a b-c"
    ensures FormatAccessor(v, AccessorOptions(SpaceHyphen, HyphenUnderscore, UpperCase)) == "A-B_C"
  {
    var opts := AccessorOptions(SpaceHyphen, HyphenUnderscore, UpperCase);
    AccessorByPosition(v, opts);
    assert v == ['a', ' ', 'b', '-', 'c'];
    SpelledOut(FormatAccessor(v, opts), CharAccessor('a', opts), CharAccessor(' ', opts),
      CharAccessor('b', opts), CharAccessor('-', opts), CharAccessor('c', opts));
  }

  /** A five-character text, each of whose characters is given as a one-character text. */
  lemma SpelledOut(r: string, c0: string, c1: string, c2: string, c3: string, c4: string)
    requires |r| == 5
    requires [r[0]] == c0 && [r[1]] == c1 && [r[2]] == c2 && [r[3]] == c3 && [r[4]] == c4
    ensures r == c0 + c1 + c2 + c3 + c4
  {
  }

  /** An empty hyphen replacement is falsy: hyphens stay. */
  lemma EmptyHyphenReplacementKeepsHyphens(v: string, opts: AccessorOptions)
    requires opts.accessorHyphenReplacement == HyphenEmpty
    requires opts.accessorSpaceReplacement != SpaceHyphen
    ensures Occurrences(FormatAccessor(v, opts), '-') == Occurrences(v, '-')
  {
    FormatAccessorByChar(v, opts);
    HyphenCount(v, opts);
  }

  lemma {:induction false} HyphenCount(v: string, opts: AccessorOptions)
    requires !HyphenTruthy(opts.accessorHyphenReplacement)
    requires opts.accessorSpaceReplacement != SpaceHyphen
    ensures Occurrences(AccessorByChar(v, opts), '-') == Occurrences(v, '-')
    decreases |v|
  {
    if v != [] {
      HyphenCount(v[1..], opts);
      OccurrencesConcat(CharAccessor(v[0], opts), AccessorByChar(v[1..], opts), '-');
    }
  }

  /** A value that the case step leaves alone and that holds no space, nor a hyphen when
      hyphens are replaced, is its own accessor. */
  lemma FormatAccessorKeeps(v: string, opts: AccessorOptions)
    requires ' ' !in v
    requires HyphenTruthy(opts.accessorHyphenReplacement) ==> '-' !in v
    requires forall i :: 0 <= i < |v| ==> CaseChar(v[i], opts.accessorCase) == v[i]
    ensures FormatAccessor(v, opts) == v
  {
    assert CaseApplied(v, opts.accessorCase) == v;
  }

  /** In particular the model-list defaults keep every value without a space. */
  lemma ModelDefaultsKeep(v: string)
    requires ' ' !in v
    ensures FormatAccessor(v, DefaultModelArrayOptions) == v
  {
    FormatAccessorKeeps(v, DefaultModelArrayOptions);
  }
}
