/** The JavaScript string built-ins the source relies on, over `seq<char>`:
    case mapping (ASCII letters only), `replaceAll` with a one-character pattern,
    `trim`, `Array.prototype.join`, `split` on one character, `String(n)` for
    integers, and counting a character. */
module JsText {

  function UpperChar(c: char): (u: char)
    ensures 'a' <= c <= 'z' ==> 'A' <= u <= 'Z'
    ensures !('a' <= c <= 'z') ==> u == c
  {
    if 'a' <= c <= 'z' then (c as int - 32) as char else c
  }

  function LowerChar(c: char): (l: char)
    ensures 'A' <= c <= 'Z' ==> 'a' <= l <= 'z'
    ensures !('A' <= c <= 'Z') ==> l == c
  {
    if 'A' <= c <= 'Z' then (c as int + 32) as char else c
  }

  /** `s.toUpperCase()` for ASCII text: no lower-case ASCII letter survives. */
  function ToUpperCase(s: string): (r: string)
    ensures |r| == |s|
    ensures forall i :: 0 <= i < |s| ==> r[i] == UpperChar(s[i])
    ensures forall i :: 0 <= i < |r| ==> !('a' <= r[i] <= 'z')
  {
    seq(|s|, i requires 0 <= i < |s| => UpperChar(s[i]))
  }

  /** `s.toLowerCase()` for ASCII text: no upper-case ASCII letter survives. */
  function ToLowerCase(s: string): (r: string)
    ensures |r| == |s|
    ensures forall i :: 0 <= i < |s| ==> r[i] == LowerChar(s[i])
    ensures forall i :: 0 <= i < |r| ==> !('A' <= r[i] <= 'Z')
  {
    seq(|s|, i requires 0 <= i < |s| => LowerChar(s[i]))
  }

  /** `s.replaceAll(pat, rep)` for a one-character pattern: every occurrence is replaced,
      so the pattern is gone unless the replacement brings it back, and every character
      of the result comes from `s` (other than `pat`) or from `rep`. The empty text stays
      empty and a single character becomes `rep` exactly when it is `pat`; with
      ReplaceAllAppend this fixes the result of every text, whatever `rep` is. */
  function ReplaceAll(s: string, pat: char, rep: string): (r: string)
    ensures pat !in rep ==> pat !in r
    ensures forall c :: c in r ==> (c in s && c != pat) || c in rep
    ensures pat !in s ==> r == s
    ensures s == [] ==> r == []
    ensures |s| == 1 ==> r == (if s[0] == pat then rep else s)
    decreases |s|
  {
    if s == [] then []
    else (if s[0] == pat then rep else [s[0]]) + ReplaceAll(s[1..], pat, rep)
  }

  /** With a one-character replacement, `replaceAll` rewrites position by position. */
  lemma {:induction false} ReplaceAllSingle(s: string, pat: char, rep: char)
    ensures |ReplaceAll(s, pat, [rep])| == |s|
    ensures forall i :: 0 <= i < |s| ==>
      ReplaceAll(s, pat, [rep])[i] == (if s[i] == pat then rep else s[i])
    decreases |s|
  {
    if s != [] {
      ReplaceAllSingle(s[1..], pat, rep);
      var r := ReplaceAll(s, pat, [rep]);
      assert r == (if s[0] == pat then [rep] else [s[0]]) + ReplaceAll(s[1..], pat, [rep]);
      forall i | 0 < i < |s|
        ensures r[i] == (if s[i] == pat then rep else s[i])
      {
        assert s[i] == s[1..][i - 1];
      }
    }
  }

  /** `replaceAll` works piece by piece: it distributes over concatenation. */
  lemma {:induction false} ReplaceAllAppend(a: string, b: string, pat: char, rep: string)
    ensures ReplaceAll(a + b, pat, rep) == ReplaceAll(a, pat, rep) + ReplaceAll(b, pat, rep)
    decreases |a|
  {
    if a == [] {
      assert a + b == b;
    } else {
      assert (a + b)[0] == a[0] && (a + b)[1..] == a[1..] + b;
      ReplaceAllAppend(a[1..], b, pat, rep);
      var h := if a[0] == pat then rep else [a[0]];
      calc {
        ReplaceAll(a + b, pat, rep);
        h + ReplaceAll(a[1..] + b, pat, rep);
        h + (ReplaceAll(a[1..], pat, rep) + ReplaceAll(b, pat, rep));
        (h + ReplaceAll(a[1..], pat, rep)) + ReplaceAll(b, pat, rep);
      }
    }
  }

  /** The characters `String.prototype.trim` removes: WhiteSpace and LineTerminator of
      ECMA-262 (section 12.2 and 12.3 of the ECMAScript language specification). */
  predicate IsWhiteSpace(c: char) {
    c == ' ' || c == '\t' || c == '\n' || c == '\r' || c == '\U{B}' || c == '\U{C}'
    || c == '\U{A0}' || c == '\U{FEFF}' || c == '\U{1680}' || ('\U{2000}' <= c <= '\U{200A}')
    || c == '\U{2028}' || c == '\U{2029}' || c == '\U{202F}' || c == '\U{205F}' || c == '\U{3000}'
  }

  /** `s.trimStart()`: drops leading white space; text that does not start with white
      space is returned as it is. */
  function TrimStart(s: string): (r: string)
    ensures r == [] || !IsWhiteSpace(r[0])
    ensures |r| <= |s| && r == s[|s| - |r|..]
    ensures forall i :: 0 <= i < |s| - |r| ==> IsWhiteSpace(s[i])
    ensures s == [] || !IsWhiteSpace(s[0]) ==> r == s
    decreases |s|
  {
    if s != [] && IsWhiteSpace(s[0]) then TrimStart(s[1..]) else s
  }

  /** `s.trimEnd()`: drops trailing white space; text that does not end with white space
      is returned as it is. */
  function TrimEnd(s: string): (r: string)
    ensures r == [] || !IsWhiteSpace(r[|r| - 1])
    ensures |r| <= |s| && r == s[..|r|]
    ensures forall i :: |r| <= i < |s| ==> IsWhiteSpace(s[i])
    ensures s == [] || !IsWhiteSpace(s[|s| - 1]) ==> r == s
    decreases |s|
  {
    if s != [] && IsWhiteSpace(s[|s| - 1]) then TrimEnd(s[..|s| - 1]) else s
  }

  /** `s.trim()`: the result neither starts nor ends with white space, and text that
      neither starts nor ends with white space is left alone; TrimKeepsSlice shows it is
      the slice of `s` between the leading and the trailing white space. */
  function Trim(s: string): (r: string)
    ensures r == [] || (!IsWhiteSpace(r[0]) && !IsWhiteSpace(r[|r| - 1]))
    ensures s == [] || (!IsWhiteSpace(s[0]) && !IsWhiteSpace(s[|s| - 1])) ==> r == s
  {
    var t := TrimStart(s);
    var r := TrimEnd(t);
    assert r == [] || !IsWhiteSpace(r[0]) by {
      if r != [] { assert r[0] == t[0]; }
    }
    r
  }

  /** `trim` keeps a slice of `s` that has only white space around it: it drops the
      leading and the trailing white space and nothing else. */
  lemma TrimKeepsSlice(s: string)
    ensures TrimmedAt(s, Trim(s), |s| - |TrimStart(s)|)
  {
    var t := TrimStart(s);
    var r := TrimEnd(t);
    assert Trim(s) == r;
    SliceOfSuffix(s, t, r);
  }

  /** Dropping white space from the end of a suffix that followed white space leaves a
      slice with white space only around it. */
  lemma SliceOfSuffix(s: string, t: string, r: string)
    requires |t| <= |s| && t == s[|s| - |t|..]
    requires forall k :: 0 <= k < |s| - |t| ==> IsWhiteSpace(s[k])
    requires |r| <= |t| && r == t[..|r|]
    requires forall k :: |r| <= k < |t| ==> IsWhiteSpace(t[k])
    ensures TrimmedAt(s, r, |s| - |t|)
  {
    var i := |s| - |t|;
    forall k | i + |r| <= k < |s|
      ensures IsWhiteSpace(s[k])
    {
      assert s[k] == t[k - i];
    }
  }

  /** `r` is `s` with white space dropped before index `i` and after `r` ends. */
  predicate TrimmedAt(s: string, r: string, i: int) {
    && 0 <= i <= i + |r| <= |s|
    && r == s[i..i + |r|]
    && (forall k :: 0 <= k < i ==> IsWhiteSpace(s[k]))
    && (forall k :: i + |r| <= k < |s| ==> IsWhiteSpace(s[k]))
  }

  /** `parts.join(sep)`: no parts give "", one part is itself, and JoinSnoc adds one
      part at a time. */
  function Join(parts: seq<string>, sep: string): (r: string)
    ensures parts == [] ==> r == ""
    ensures |parts| == 1 ==> r == parts[0]
    decreases |parts|
  {
    if |parts| == 0 then ""
    else if |parts| == 1 then parts[0]
    else parts[0] + sep + Join(parts[1..], sep)
  }

  lemma JoinThree(a: string, b: string, c: string, sep: string)
    ensures Join([a, b, c], sep) == a + sep + b + sep + c
  {
    assert [a, b, c][1..] == [b, c];
    assert [b, c][1..] == [c];
  }

  /** One more part adds the separator and that part at the end. */
  lemma {:induction false} JoinSnoc(p: seq<string>, x: string, sep: string)
    ensures Join(p + [x], sep) == if p == [] then x else Join(p, sep) + sep + x
    decreases |p|
  {
    if |p| == 1 {
      assert (p + [x])[1..] == [x];
    } else if |p| > 1 {
      assert (p + [x])[1..] == p[1..] + [x];
      JoinSnoc(p[1..], x, sep);
    }
  }

  lemma {:induction false} JoinPrependToFirst(x: string, y: string, rest: seq<string>, sep: string)
    ensures Join([x + y] + rest, sep) == x + Join([y] + rest, sep)
  {
    if |rest| > 0 {
      assert ([x + y] + rest)[1..] == rest;
      assert ([y] + rest)[1..] == rest;
    }
  }

  /** The number of positions of `s` holding `c`. */
  function Occurrences(s: string, c: char): (n: nat)
    ensures n <= |s|
    ensures n == 0 <==> c !in s
    decreases |s|
  {
    if s == [] then 0 else (if s[0] == c then 1 else 0) + Occurrences(s[1..], c)
  }

  /** Counting distributes over concatenation. */
  lemma {:induction false} OccurrencesConcat(a: string, b: string, c: char)
    ensures Occurrences(a + b, c) == Occurrences(a, c) + Occurrences(b, c)
    decreases |a|
  {
    if a == [] {
      assert a + b == b;
    } else {
      assert (a + b)[0] == a[0] && (a + b)[1..] == a[1..] + b;
      OccurrencesConcat(a[1..], b, c);
    }
  }

  /** `s.split(c)` for a one-character separator: the pieces hold no `c`, there is one
      more piece than there are separators, and joining the pieces with `c` gives back `s`. */
  function Split(s: string, c: char): (r: seq<string>)
    ensures |r| == Occurrences(s, c) + 1
    ensures forall i :: 0 <= i < |r| ==> c !in r[i]
    ensures Join(r, [c]) == s
    decreases |s|
  {
    if s == [] then [""]
    else
      var rest := Split(s[1..], c);
      if s[0] == c then
        assert ([""] + rest)[1..] == rest;
        [""] + rest
      else
        JoinPrependToFirst([s[0]], rest[0], rest[1..], [c]);
        assert [rest[0]] + rest[1..] == rest;
        [[s[0]] + rest[0]] + rest[1..]
  }

  /** `s.split(c)[0]`: the text before the first `c`, or all of `s`. */
  function BeforeFirst(s: string, c: char): (r: string)
    ensures c !in r
    ensures r <= s
    ensures |r| < |s| ==> s[|r|] == c
    ensures c !in s ==> r == s
  {
    var parts := Split(s, c);
    if |parts| == 1 then parts[0]
    else
      assert s == parts[0] + [c] + Join(parts[1..], [c]);
      parts[0]
  }

  /** The number a text of decimal digits denotes, read from the last digit back. */
  function DigitsValue(s: string): nat
    requires forall i :: 0 <= i < |s| ==> '0' <= s[i] <= '9'
    decreases |s|
  {
    if s == [] then 0
    else 10 * DigitsValue(s[..|s| - 1]) + (s[|s| - 1] as int - '0' as int)
  }

  /** The decimal digits of `n`, most significant first; for a positive number they do
      not start with "0", and DigitsDenote shows they read back as `n`. */
  function Digits(n: nat): (r: string)
    ensures |r| > 0
    ensures forall i :: 0 <= i < |r| ==> '0' <= r[i] <= '9'
    ensures n > 0 ==> r[0] != '0'
  {
    if n < 10 then [('0' as int + n) as char]
    else Digits(n / 10) + [('0' as int + n % 10) as char]
  }

  /** The digits of `n` denote `n`. */
  lemma {:induction false} DigitsDenote(n: nat)
    ensures DigitsValue(Digits(n)) == n
    decreases n
  {
    if n >= 10 {
      var d := Digits(n);
      assert d[..|d| - 1] == Digits(n / 10);
      DigitsDenote(n / 10);
    }
  }

  /** `String(n)` for an integral number: a minus sign exactly for a negative number,
      then the digits of its magnitude. */
  function DecimalString(n: int): (r: string)
    ensures |r| > 0
    ensures n >= 0 ==> r == Digits(n)
    ensures n < 0 ==> r[0] == '-' && r[1..] == Digits(-n)
  {
    if n < 0 then "-" + Digits(-n) else Digits(n)
  }

  /** `String(n)` reads back as `n`: the digits of a non-negative number denote it, and a
      negative number is "-" followed by digits that denote its magnitude. */
  lemma DecimalStringDenotes(n: int)
    ensures n >= 0 ==> DigitsValue(DecimalString(n)) == n
    ensures n < 0 ==> DecimalString(n)[0] == '-' && DigitsValue(DecimalString(n)[1..]) == -n
  {
    if n >= 0 {
      DigitsDenote(n);
    } else {
      DigitsDenote(-n);
    }
  }

  /** Different numbers have different decimal texts. */
  lemma {:induction false} DigitsInjective(n: nat, m: nat)
    requires Digits(n) == Digits(m)
    ensures n == m
    decreases n
  {
    var dn, dm := Digits(n), Digits(m);
    if n >= 10 && m >= 10 {
      assert dn[..|dn| - 1] == Digits(n / 10);
      assert dm[..|dm| - 1] == Digits(m / 10);
      DigitsInjective(n / 10, m / 10);
      assert dn[|dn| - 1] == dm[|dm| - 1];
    }
  }

  /** A text with exactly one `c` splits into the part before it and the part after it. */
  lemma SplitAround(before: string, after: string, c: char)
    requires c !in before && c !in after
    ensures Split(before + [c] + after, c) == [before, after]
  {
    var s := before + [c] + after;
    var r := Split(s, c);
    OccurrencesConcat(before, [c], c);
    OccurrencesConcat(before + [c], after, c);
    assert Occurrences([c], c) == 1;
    assert |r| == 2;
    assert r[1..] == [r[1]];
    assert s == r[0] + [c] + r[1];
    FirstSeparatorUnique(before, after, r[0], r[1], c);
  }

  /** A text splits around its first `c` in only one way. */
  lemma FirstSeparatorUnique(x: string, y: string, u: string, v: string, c: char)
    requires c !in x && c !in u
    requires x + [c] + y == u + [c] + v
    ensures x == u && y == v
  {
    var s := x + [c] + y;
    assert s[|x|] == c && s[|u|] == c;
    assert forall i :: 0 <= i < |x| ==> s[i] == x[i];
    assert forall i :: 0 <= i < |u| ==> s[i] == u[i];
    assert |x| == |u|;
    assert x == s[..|x|] && u == s[..|u|];
    assert y == s[|x| + 1..] && v == s[|u| + 1..];
  }
}
