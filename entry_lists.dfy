/** Ordered lists of (key, value) entries and the `set` operation that both JavaScript's
    `Map.prototype.set` and `URLSearchParams.prototype.set` perform (section 6.2 of the
    WHATWG URL Standard): the first entry with the key gets the new value, later entries
    with the key are removed, and a key not present is appended. On a list without repeated
    keys this is exactly `Map.set`, and also what `{ ...obj, [k]: v }` does to an object's
    own properties. */
module EntryLists {
  import opened Wrappers

  /** The keys occurring in `l`. */
  function Keys<V>(l: seq<(string, V)>): set<string>
    decreases |l|
  {
    if l == [] then {} else {l[0].0} + Keys(l[1..])
  }

  /** No key occurs twice: the shape of a `Map` or of an object's properties. */
  predicate UniqueKeys<V>(l: seq<(string, V)>)
    decreases |l|
  {
    l == [] || (l[0].0 !in Keys(l[1..]) && UniqueKeys(l[1..]))
  }

  lemma KeysCons<V>(x: (string, V), l: seq<(string, V)>)
    ensures Keys([x] + l) == {x.0} + Keys(l)
    ensures UniqueKeys([x] + l) <==> x.0 !in Keys(l) && UniqueKeys(l)
  {
    assert ([x] + l)[1..] == l;
  }

  /** A key occurs exactly when some entry has it. */
  lemma {:induction false} KeysMember<V>(l: seq<(string, V)>, k: string)
    ensures k in Keys(l) <==> exists i :: 0 <= i < |l| && l[i].0 == k
    decreases |l|
  {
    if l != [] {
      KeysMember(l[1..], k);
      if k in Keys(l[1..]) {
        var i :| 0 <= i < |l[1..]| && l[1..][i].0 == k;
        assert l[i + 1] == l[1..][i];
      }
      if exists i :: 0 <= i < |l| && l[i].0 == k {
        var i :| 0 <= i < |l| && l[i].0 == k;
        if i > 0 {
          assert l[1..][i - 1] == l[i];
        }
      }
    }
  }

  /** Appending an entry adds its key, and keeps the keys unique exactly when it is new. */
  lemma {:induction false} KeysSnoc<V>(l: seq<(string, V)>, x: (string, V))
    ensures Keys(l + [x]) == Keys(l) + {x.0}
    ensures UniqueKeys(l + [x]) <==> UniqueKeys(l) && x.0 !in Keys(l)
    decreases |l|
  {
    if l == [] {
      assert l + [x] == [x] + [];
      KeysCons(x, []);
    } else {
      KeysSnoc(l[1..], x);
      assert l + [x] == [l[0]] + (l[1..] + [x]);
      assert l == [l[0]] + l[1..];
      KeysCons(l[0], l[1..] + [x]);
      KeysCons(l[0], l[1..]);
    }
  }

  /** `get(k)`: the value of the first entry with key `k`. */
  function Lookup<V>(l: seq<(string, V)>, k: string): (r: Option<V>)
    ensures r.None? <==> k !in Keys(l)
    decreases |l|
  {
    if l == [] then None
    else if l[0].0 == k then Some(l[0].1)
    else Lookup(l[1..], k)
  }

  /** `l` without its entries for `k`, in order. */
  function WithoutKey<V>(l: seq<(string, V)>, k: string): (r: seq<(string, V)>)
    ensures |r| <= |l|
    ensures Keys(r) == Keys(l) - {k}
    ensures UniqueKeys(l) ==> UniqueKeys(r)
    ensures k !in Keys(l) ==> r == l
    ensures forall k' :: k' != k ==> Lookup(r, k') == Lookup(l, k')
    decreases |l|
  {
    if l == [] then []
    else
      var rest := WithoutKey(l[1..], k);
      if l[0].0 == k then rest
      else
        KeysCons(l[0], rest);
        assert l == [l[0]] + l[1..];
        [l[0]] + rest
  }

  /** `set(k, v)`: the first entry with key `k` takes `v` and the others are dropped, or
      `(k, v)` is appended. */
  function SetEntry<V>(l: seq<(string, V)>, k: string, v: V): (r: seq<(string, V)>)
    ensures (k, v) in r
    ensures |r| <= |l| + 1
    decreases |l|
  {
    if l == [] then [(k, v)]
    else if l[0].0 == k then [(k, v)] + WithoutKey(l[1..], k)
    else [l[0]] + SetEntry(l[1..], k, v)
  }

  /** After `set(k, v)`, `k` reads `v`, every other key reads what it did, the keys are
      the old ones and `k`, and a list without repeated keys keeps none. */
  lemma {:induction false} SetEntrySpec<V>(l: seq<(string, V)>, k: string, v: V)
    ensures Lookup(SetEntry(l, k, v), k) == Some(v)
    ensures forall k' :: k' != k ==> Lookup(SetEntry(l, k, v), k') == Lookup(l, k')
    ensures Keys(SetEntry(l, k, v)) == Keys(l) + {k}
    ensures UniqueKeys(l) ==> UniqueKeys(SetEntry(l, k, v))
    ensures k !in Keys(l) ==> SetEntry(l, k, v) == l + [(k, v)]
    decreases |l|
  {
    if l == [] {
      KeysCons((k, v), []);
      assert [(k, v)] == [(k, v)] + [];
    } else {
      assert l == [l[0]] + l[1..];
      KeysCons(l[0], l[1..]);
      if l[0].0 == k {
        KeysCons((k, v), WithoutKey(l[1..], k));
      } else {
        SetEntrySpec(l[1..], k, v);
        KeysCons(l[0], SetEntry(l[1..], k, v));
        assert k !in Keys(l) ==> [l[0]] + (l[1..] + [(k, v)]) == l + [(k, v)];
      }
    }
  }

  /** With no repeated keys, `set(k, v)` on a present key changes that entry's value in
      place: every entry keeps its position. */
  lemma {:induction false} SetEntryInPlace<V>(l: seq<(string, V)>, k: string, v: V)
    requires UniqueKeys(l) && k in Keys(l)
    ensures |SetEntry(l, k, v)| == |l|
    ensures forall i :: 0 <= i < |l| ==> SetEntry(l, k, v)[i] == (if l[i].0 == k then (k, v) else l[i])
    decreases |l|
  {
    var r := SetEntry(l, k, v);
    assert l == [l[0]] + l[1..];
    KeysCons(l[0], l[1..]);
    if l[0].0 == k {
      assert r == [(k, v)] + l[1..];
      forall i | 0 < i < |l|
        ensures r[i] == l[i] && l[i].0 != k
      {
        KeysMember(l[1..], k);
        assert l[1..][i - 1] == l[i];
      }
    } else {
      SetEntryInPlace(l[1..], k, v);
      assert r == [l[0]] + SetEntry(l[1..], k, v);
      forall i | 0 < i < |l|
        ensures r[i] == (if l[i].0 == k then (k, v) else l[i])
      {
        assert r[i] == SetEntry(l[1..], k, v)[i - 1] && l[1..][i - 1] == l[i];
      }
    }
  }

  /** `presentKeys`, or the keys of a container in iteration order: the key of every
      entry, repeats included. */
  function KeysOf<V>(es: seq<(string, V)>): (r: seq<string>)
    ensures |r| == |es|
    ensures forall i :: 0 <= i < |es| ==> r[i] == es[i].0
    decreases |es|
  {
    if es == [] then [] else KeysOf(es[..|es| - 1]) + [es[|es| - 1].0]
  }

  /** One more entry adds its key at the end. */
  lemma KeysOfSnoc<V>(es: seq<(string, V)>, x: (string, V))
    ensures KeysOf(es + [x]) == KeysOf(es) + [x.0]
  {
    var e := es + [x];
    assert e[..|e| - 1] == es;
  }

  /** The keys of `es` that are not in `known`, each once, in the order they first occur. */
  function FirstSeen<V>(known: set<string>, es: seq<(string, V)>): seq<string>
    decreases |es|
  {
    if es == [] then []
    else if es[0].0 in known then FirstSeen(known, es[1..])
    else [es[0].0] + FirstSeen(known + {es[0].0}, es[1..])
  }

  /** One more entry at the end adds its key exactly when it is new. */
  lemma {:induction false} FirstSeenSnoc<V>(known: set<string>, es: seq<(string, V)>, x: (string, V))
    ensures FirstSeen(known, es + [x])
      == FirstSeen(known, es) + (if x.0 in known + Keys(es) then [] else [x.0])
    decreases |es|
  {
    if es == [] {
      assert es + [x] == [x];
      assert [x][1..] == [];
    } else {
      assert (es + [x])[0] == es[0] && (es + [x])[1..] == es[1..] + [x];
      assert es == [es[0]] + es[1..];
      KeysCons(es[0], es[1..]);
      if es[0].0 in known {
        FirstSeenSnoc(known, es[1..], x);
      } else {
        FirstSeenSnoc(known + {es[0].0}, es[1..], x);
      }
    }
  }

  /** With no repeated keys, `set` leaves the order of the present keys alone and puts a
      new key last. */
  lemma SetEntryKeyOrder<V>(l: seq<(string, V)>, k: string, v: V)
    requires UniqueKeys(l)
    ensures KeysOf(SetEntry(l, k, v)) == KeysOf(l) + (if k in Keys(l) then [] else [k])
  {
    SetEntrySpec(l, k, v);
    if k in Keys(l) {
      SetEntryInPlace(l, k, v);
    }
  }

  /** The `set` calls of a loop over `es`, in order. */
  function SetAll<V>(l: seq<(string, V)>, es: seq<(string, V)>): (r: seq<(string, V)>)
    ensures |r| <= |l| + |es|
    ensures es != [] ==> es[|es| - 1] in r
    decreases |es|
  {
    if es == [] then l
    else SetEntry(SetAll(l, es[..|es| - 1]), es[|es| - 1].0, es[|es| - 1].1)
  }

  /** The value of the last entry of `es` with key `k`. */
  function LastValue<V>(es: seq<(string, V)>, k: string): Option<V>
    decreases |es|
  {
    if es == [] then None
    else if es[|es| - 1].0 == k then Some(es[|es| - 1].1)
    else LastValue(es[..|es| - 1], k)
  }

  /** `es` is its entries but the last, then the last. */
  lemma Snoc<V>(es: seq<(string, V)>)
    requires es != []
    ensures es == es[..|es| - 1] + [es[|es| - 1]]
    ensures Keys(es) == Keys(es[..|es| - 1]) + {es[|es| - 1].0}
  {
    var init, last := es[..|es| - 1], es[|es| - 1];
    assert es == init + [last];
    KeysSnoc(init, last);
  }

  /** A key has a last value exactly when it occurs. */
  lemma {:induction false} LastValueFound<V>(es: seq<(string, V)>, k: string)
    ensures LastValue(es, k).None? <==> k !in Keys(es)
    decreases |es|
  {
    if es != [] {
      Snoc(es);
      LastValueFound(es[..|es| - 1], k);
    }
  }

  /** After the `set` calls a key reads its last value in `es`, and a key that `es` does
      not mention reads what it did before: later entries win. The keys are the old keys
      and those of `es`, and no key is repeated if none was. */
  lemma {:induction false} SetAllSpec<V>(l: seq<(string, V)>, es: seq<(string, V)>)
    ensures forall k :: Lookup(SetAll(l, es), k) == if k in Keys(es) then LastValue(es, k) else Lookup(l, k)
    ensures Keys(SetAll(l, es)) == Keys(l) + Keys(es)
    ensures UniqueKeys(l) ==> UniqueKeys(SetAll(l, es))
    decreases |es|
  {
    if es != [] {
      var init := es[..|es| - 1];
      Snoc(es);
      SetAllSpec(l, init);
      SetEntrySpec(SetAll(l, init), es[|es| - 1].0, es[|es| - 1].1);
    }
  }

  /** The order the `set` calls leave: the old keys where they were, then the new keys
      of `es` in the order they first occur. */
  lemma {:induction false} SetAllOrder<V>(l: seq<(string, V)>, es: seq<(string, V)>)
    requires UniqueKeys(l)
    ensures KeysOf(SetAll(l, es)) == KeysOf(l) + FirstSeen(Keys(l), es)
    decreases |es|
  {
    if es != [] {
      var init, last := es[..|es| - 1], es[|es| - 1];
      var prev := SetAll(l, init);
      var extra := if last.0 in Keys(l) + Keys(init) then [] else [last.0];
      assert KeysOf(SetAll(l, es)) == KeysOf(prev) + extra by {
        assert Keys(prev) == Keys(l) + Keys(init) && UniqueKeys(prev) by {
          SetAllSpec(l, init);
        }
        SetEntryKeyOrder(prev, last.0, last.1);
      }
      assert FirstSeen(Keys(l), es) == FirstSeen(Keys(l), init) + extra by {
        Snoc(es);
        FirstSeenSnoc(Keys(l), init, last);
      }
      SetAllOrder(l, init);
      Regroup(KeysOf(SetAll(l, es)), FirstSeen(Keys(l), es), KeysOf(l), FirstSeen(Keys(l), init), extra);
    }
  }

  /** Splitting off the front of a list built from three parts. */
  lemma Regroup<T>(whole: seq<T>, rest: seq<T>, a: seq<T>, b: seq<T>, c: seq<T>)
    requires whole == (a + b) + c
    requires rest == b + c
    ensures whole == a + rest
  {
  }

  /** Two loops of `set` calls in a row are one loop over both lists. */
  lemma {:induction false} SetAllAppend<V>(l: seq<(string, V)>, a: seq<(string, V)>, b: seq<(string, V)>)
    ensures SetAll(l, a + b) == SetAll(SetAll(l, a), b)
    decreases |b|
  {
    if b == [] {
      assert a + b == a;
    } else {
      var binit := b[..|b| - 1];
      SetAllAppend(l, a, binit);
      assert (a + b)[..|a + b| - 1] == a + binit;
      assert (a + b)[|a + b| - 1] == b[|b| - 1];
    }
  }

  /** Copying a list without repeated keys by `set` calls into an empty container gives
      the same list back. */
  lemma {:induction false} SetAllCopies<V>(e: seq<(string, V)>)
    requires UniqueKeys(e)
    ensures SetAll([], e) == e
    decreases |e|
  {
    if e != [] {
      var init := e[..|e| - 1];
      Snoc(e);
      KeysSnoc(init, e[|e| - 1]);
      SetAllCopies(init);
      SetEntrySpec(init, e[|e| - 1].0, e[|e| - 1].1);
    }
  }
}
