/** `humanizeList` (src/formatters/humanize-list.ts): renders a list as English text,
    "a, b, and c", with the Oxford comma on by default and the one- and two-item
    cases special-cased. */
module HumanizeList {
  import opened Wrappers
  import opened JsText

  /** `HumanizeListIteree`: the items are strings or (integral) numbers. */
  datatype Item = Text(s: string) | Number(n: int)

  /** `value.toString()`, the default formatter. */
  function ItemToString(v: Item): string {
    match v
    case Text(s) => s
    case Number(n) => DecimalString(n)
  }

  datatype Conjunction = And | Or

  function ConjunctionText(c: Conjunction): string {
    match c
    case And => "and"
    case Or => "or"
  }

  /** `HumanizeListOptions`: every field may be left out (`None`). */
  datatype HumanizeOptions = HumanizeOptions(
    conjunction: Option<Conjunction>,
    oxfordComma: Option<bool>,
    delimiter: Option<string>,
    formatter: Option<Item -> string>)

  /** `humanizeList(values)` called without options. */
  const NoOptions := HumanizeOptions(None, None, None, None)

  /** The defaults the destructuring fills in: "and", Oxford comma on, "," and `toString`. */
  const DefaultOptions := HumanizeOptions(Some(And), Some(true), Some(","), Some(ItemToString))

  function FormatterOf(options: HumanizeOptions): Item -> string {
    options.formatter.GetOr(ItemToString)
  }

  /** The text that separates leading items: the trimmed delimiter and one space. */
  function Separator(options: HumanizeOptions): (r: string)
    ensures |r| >= 1 && r[|r| - 1] == ' '
    ensures |r| == 1 || !IsWhiteSpace(r[0])
  {
    Trim(options.delimiter.GetOr(",")) + " "
  }

  /** `vs.map(f)`. */
  function Formatted(f: Item -> string, vs: seq<Item>): (r: seq<string>)
    ensures |r| == |vs|
    ensures forall i :: 0 <= i < |vs| ==> r[i] == f(vs[i])
    decreases |vs|
  {
    if vs == [] then []
    else
      var rest := Formatted(f, vs[1..]);
      assert forall i :: 0 < i < |vs| ==> rest[i - 1] == f(vs[i]) by {
        forall i | 0 < i < |vs| ensures rest[i - 1] == f(vs[i]) {
          assert vs[1..][i - 1] == vs[i];
        }
      }
      [f(vs[0])] + rest
  }

  /** The items before the conjunction, joined by the separator; with the Oxford comma
      and three or more items, the trimmed delimiter follows them. */
  function Leading(values: seq<Item>, options: HumanizeOptions): (r: string)
    requires |values| >= 2
    ensures |values| == 2 ==> r == FormatterOf(options)(values[0])
  {
    var n := |values|;
    var items := Formatted(FormatterOf(options), values[..n - 1]);
    assert n == 2 ==> |items| == 1 && items[0] == FormatterOf(options)(values[0]);
    var leading := Join(items, Separator(options));
    if n >= 3 && options.oxfordComma.GetOr(true) then leading + Trim(options.delimiter.GetOr(",")) else leading
  }

  function Humanize(values: seq<Item>, options: HumanizeOptions): (r: string)
    ensures |values| == 0 ==> r == ""
    ensures |values| == 1 ==> r == FormatterOf(options)(values[0])
  {
    var n := |values|;
    if n == 0 then ""
    else if n == 1 then FormatterOf(options)(values[0])
    else Join([Leading(values, options), Trim(ConjunctionText(options.conjunction.GetOr(And))),
               FormatterOf(options)(values[n - 1])], " ")
  }

  /** "and" and "or" carry no white space for `trim` to remove. */
  lemma ConjunctionTrimmed(c: Conjunction)
    ensures Trim(ConjunctionText(c)) == ConjunctionText(c)
  {
    var t := ConjunctionText(c);
    assert t[0] in "ao" && t[|t| - 1] in "dr";
    assert !IsWhiteSpace(t[0]) && !IsWhiteSpace(t[|t| - 1]);
  }

  /** One space, the conjunction, one space and the last item. */
  function Ending(values: seq<Item>, options: HumanizeOptions): string
    requires |values| >= 2
  {
    " " + ConjunctionText(options.conjunction.GetOr(And)) + " " + FormatterOf(options)(values[|values| - 1])
  }

  /** Two or more items: the leading items, then the conjunction and the last item. */
  lemma Tail(values: seq<Item>, options: HumanizeOptions)
    requires |values| >= 2
    ensures Humanize(values, options) == Leading(values, options) + Ending(values, options)
  {
    var c := options.conjunction.GetOr(And);
    ConjunctionTrimmed(c);
    JoinThree(Leading(values, options), ConjunctionText(c), FormatterOf(options)(values[|values| - 1]), " ");
  }

  /** Two items: "a <conjunction> b", no delimiter at all. */
  lemma TwoItems(values: seq<Item>, options: HumanizeOptions)
    requires |values| == 2
    ensures Humanize(values, options)
      == FormatterOf(options)(values[0]) + " " + ConjunctionText(options.conjunction.GetOr(And))
         + " " + FormatterOf(options)(values[1])
  {
    Tail(values, options);
  }

  /** Three items: the leading part is the first item, the separator, the second item and,
      with the Oxford comma, the trimmed delimiter. */
  lemma LeadingThree(values: seq<Item>, options: HumanizeOptions)
    requires |values| == 3
    ensures var f, d := FormatterOf(options), Trim(options.delimiter.GetOr(","));
      Leading(values, options)
      == f(values[0]) + Separator(options) + f(values[1]) + (if options.oxfordComma.GetOr(true) then d else "")
  {
    var f := FormatterOf(options);
    var items := Formatted(f, values[..2]);
    assert items == [f(values[0]), f(values[1])] by {
      assert values[..2][1..] == [values[1]];
      assert Formatted(f, [values[1]]) == [f(values[1])];
    }
    assert items[1..] == [f(values[1])];
    assert Join(items, Separator(options)) == f(values[0]) + Separator(options) + f(values[1]);
  }

  /** Three items: the trimmed delimiter follows the first item, and follows the second
      one too exactly when the Oxford comma is on. */
  lemma ThreeItems(values: seq<Item>, options: HumanizeOptions)
    requires |values| == 3
    ensures var f, d := FormatterOf(options), Trim(options.delimiter.GetOr(","));
      Humanize(values, options)
      == f(values[0]) + Separator(options) + f(values[1]) + (if options.oxfordComma.GetOr(true) then d else "")
         + Ending(values, options)
  {
    Tail(values, options);
    LeadingThree(values, options);
  }

  /** Four or more items: dropping the first item drops it and one separator from the
      leading part. */
  lemma LeadingDropFirst(values: seq<Item>, options: HumanizeOptions)
    requires |values| >= 4
    ensures Leading(values, options)
      == (FormatterOf(options)(values[0]) + Separator(options)) + Leading(values[1..], options)
  {
    var f := FormatterOf(options);
    var n := |values|;
    var sep := Separator(options);
    var rest := values[1..];
    var items := Formatted(f, values[..n - 1]);
    var restItems := Formatted(f, rest[..n - 2]);
    assert items == [f(values[0])] + restItems by {
      assert values[..n - 1] == [values[0]] + rest[..n - 2];
      assert ([values[0]] + rest[..n - 2])[1..] == rest[..n - 2];
    }
    assert Join(items, sep) == (f(values[0]) + sep) + Join(restItems, sep) by {
      assert items[1..] == restItems;
    }
    var d := if options.oxfordComma.GetOr(true) then Trim(options.delimiter.GetOr(",")) else "";
    assert Leading(values, options) == Join(items, sep) + d;
    assert Leading(rest, options) == Join(restItems, sep) + d;
    SplitFront(Leading(values, options), Leading(rest, options), f(values[0]) + sep, Join(restItems, sep), d);
  }

  /** Four or more items: the first item and the separator come before what the rest
      of the list renders to. With ThreeItems this fixes the output for every length. */
  lemma DropFirst(values: seq<Item>, options: HumanizeOptions)
    requires |values| >= 4
    ensures Humanize(values, options)
      == FormatterOf(options)(values[0]) + Separator(options) + Humanize(values[1..], options)
  {
    var rest := values[1..];
    LeadingDropFirst(values, options);
    Tail(values, options);
    Tail(rest, options);
    assert rest[|rest| - 1] == values[|values| - 1];
    SplitFront(Humanize(values, options), Humanize(rest, options),
      FormatterOf(options)(values[0]) + Separator(options), Leading(rest, options), Ending(values, options));
  }

  /** A text built as `head`, `middle` and `tail` is `head` followed by the text built as
      `middle` and `tail`. */
  lemma SplitFront(whole: string, rest: string, head: string, middle: string, tail: string)
    requires whole == (head + middle) + tail
    requires rest == middle + tail
    ensures whole == head + rest
  {
  }

  /** Leaving the options out is the same as passing the documented defaults. */
  lemma Defaults(values: seq<Item>)
    ensures Humanize(values, NoOptions) == Humanize(values, DefaultOptions)
  {
  }

  /** Without options the delimiter is "," and the separator ", ". */
  lemma DefaultSeparator()
    ensures Trim(NoOptions.delimiter.GetOr(",")) == ","
    ensures Separator(NoOptions) == ", "
  {
  }

  /** With the default options, four or more items render as the first one, ", " and
      the rendering of the rest. */
  lemma DefaultDropFirst(v: seq<Item>, first: string, rest: string)
    requires |v| >= 4
    requires v[0] == Text(first)
    requires Humanize(v[1..], NoOptions) == rest
    ensures Humanize(v, NoOptions) == first + ", " + rest
  {
    DropFirst(v, NoOptions);
    DefaultSeparator();
  }

  /** With the default options, three items render as "a, b, and c". */
  lemma DefaultThreeItems(v: seq<Item>, a: string, b: string, c: string)
    requires v == [Text(a), Text(b), Text(c)]
    ensures Humanize(v, NoOptions) == a + ", " + b + "," + " " + "and" + " " + c
  {
    ThreeItems(v, NoOptions);
    DefaultSeparator();
    var front := a + ", " + b + ",";
    assert Humanize(v, NoOptions) == front + Ending(v, NoOptions);
    AppendEnding(front, " ", "and", c);
  }

  /** Three strings with only a conjunction chosen: "a, b, <conjunction> c". */
  lemma ThreeTexts(v: seq<Item>, a: string, b: string, c: string, conj: Conjunction)
    requires v == [Text(a), Text(b), Text(c)]
    ensures Humanize(v, HumanizeOptions(Some(conj), None, None, None))
      == a + ", " + b + "," + " " + ConjunctionText(conj) + " " + c
  {
    var options := HumanizeOptions(Some(conj), None, None, None);
    var f := FormatterOf(options);
    ThreeItems(v, options);
    DefaultSeparator();
    assert Separator(options) == ", " by {
      assert Separator(options) == Separator(NoOptions);
    }
    assert f(v[0]) == a && f(v[1]) == b && f(v[2]) == c;
    var front := a + ", " + b + ",";
    assert Humanize(v, options) == front + Ending(v, options);
    AppendEnding(front, " ", ConjunctionText(conj), c);
  }

  /** Appending an ending of the form " <word> <last>" part by part. */
  lemma AppendEnding(front: string, space: string, word: string, last: string)
    ensures front + (space + word + space + last) == front + space + word + space + last
  {
  }

  /** The default rendering of the seven fruits in the test suite,
      "apple, banana, cherry, durian, elderberry, fig, and grape", written as the
      concatenation the rendering builds. (The list is a parameter so that the verifier
      does not unfold every function on a literal.) */
  lemma FruitExample(v: seq<Item>)
    requires v == [Text("apple"), Text("banana"), Text("cherry"), Text("durian"),
                   Text("elderberry"), Text("fig"), Text("grape")]
    ensures Humanize(v, NoOptions)
      == "apple" + ", " + ("banana" + ", " + ("cherry" + ", " + ("durian" + ", "
         + ("elderberry" + ", " + "fig" + "," + " " + "and" + " " + "grape"))))
  {
    assert v[4..] == [Text("elderberry"), Text("fig"), Text("grape")];
    DefaultThreeItems(v[4..], "elderberry", "fig", "grape");
    assert v[3..][1..] == v[4..];
    DefaultDropFirst(v[3..], "durian", Humanize(v[4..], NoOptions));
    assert v[2..][1..] == v[3..];
    DefaultDropFirst(v[2..], "cherry", Humanize(v[3..], NoOptions));
    assert v[1..][1..] == v[2..];
    DefaultDropFirst(v[1..], "banana", Humanize(v[2..], NoOptions));
    DefaultDropFirst(v, "apple", Humanize(v[1..], NoOptions));
  }
}
