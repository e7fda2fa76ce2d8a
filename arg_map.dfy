/** The `collections.OrderedDict` from argument name to value that the
    tokenizer fills and the argument transformer copies: a value made of
    the keys in insertion order and the map from each key to its value,
    `None` standing for a flag given without a value. */
module ArgMaps {
  import opened Wrappers

  /** The keys of `s` that are not in `drop`, in their order. */
  function Without(s: seq<string>, drop: set<string>): (r: seq<string>)
    ensures forall x :: x in r <==> x in s && x !in drop
    ensures Distinct(s) ==> Distinct(r)
    ensures |r| <= |s|
    decreases |s|
  {
    if s == [] then []
    else (if s[0] in drop then [] else [s[0]]) + Without(s[1..], drop)
  }

  /** Filtering a longer list filters its front, then its last key. */
  lemma {:induction false} WithoutSnoc(s: seq<string>, x: string, drop: set<string>)
    ensures Without(s + [x], drop) == Without(s, drop) + (if x in drop then [] else [x])
    decreases |s|
  {
    if s == [] {
      assert [x][1..] == [];
    } else {
      SnocParts(s, x);
      WithoutSnoc(s[1..], x, drop);
      ConcatAssoc(if s[0] in drop then [] else [s[0]], Without(s[1..], drop), if x in drop then [] else [x]);
    }
  }

  /** The head and the tail of a list with one more key at the end. */
  lemma SnocParts(s: seq<string>, x: string)
    requires s != []
    ensures (s + [x])[0] == s[0] && (s + [x])[1..] == s[1..] + [x]
  {
  }

  /** A non-empty list is its front followed by its last key. */
  lemma FrontLast(s: seq<string>)
    requires s != []
    ensures s == s[..|s| - 1] + [s[|s| - 1]]
  {
  }

  /** Concatenation is associative. */
  lemma ConcatAssoc(a: seq<string>, b: seq<string>, c: seq<string>)
    ensures a + (b + c) == (a + b) + c
  {
  }

  predicate Distinct(s: seq<string>) {
    forall i, j :: 0 <= i < j < |s| ==> s[i] != s[j]
  }

  /** Dropping two sets of keys one after the other is dropping their union. */
  lemma {:induction false} WithoutWithout(s: seq<string>, a: set<string>, b: set<string>)
    ensures Without(Without(s, a), b) == Without(s, a + b)
    decreases |s|
  {
    if s != [] {
      WithoutWithout(s[1..], a, b);
      if s[0] !in a {
        assert Without(s, a) == [s[0]] + Without(s[1..], a);
        var w := Without(s, a);
        assert w[0] == s[0] && w[1..] == Without(s[1..], a);
        assert Without(w, b) == (if s[0] in b then [] else [s[0]]) + Without(w[1..], b);
      } else {
        assert Without(s, a) == Without(s[1..], a);
        assert Without(s, a + b) == Without(s[1..], a + b);
      }
    }
  }

  /** Dropping keys that do not occur changes nothing. */
  lemma {:induction false} WithoutAbsent(s: seq<string>, drop: set<string>)
    requires forall x :: x in drop ==> x !in s
    ensures Without(s, drop) == s
    decreases |s|
  {
    if s != [] {
      WithoutAbsent(s[1..], drop);
      assert [s[0]] + s[1..] == s;
    }
  }

  datatype ArgMap = ArgMap(keys: seq<string>, vals: map<string, Option<string>>) {

    /** Every key once, and the keys are exactly those of the map. */
    ghost predicate Valid() {
      && Distinct(keys)
      && (forall k :: k in vals <==> k in keys)
    }

    /** `d[k] = v`: a new key goes to the end, an existing key keeps its
        position and only its value changes. */
    function Set(k: string, v: Option<string>): (m: ArgMap)
      requires Valid()
      ensures m.Valid()
      ensures m.vals == vals[k := v]
      ensures k in vals ==> m.keys == keys
      ensures k !in vals ==> m.keys == keys + [k]
    {
      if k in vals then ArgMap(keys, vals[k := v]) else ArgMap(keys + [k], vals[k := v])
    }

    /** `del d[k]`, `None` when it raises `KeyError`. */
    function Delete(k: string): (m: Option<ArgMap>)
      requires Valid()
      ensures m.None? <==> k !in vals
      ensures m.Some? ==> m.value.Valid() && m.value.vals == vals - {k} && m.value.keys == Without(keys, {k})
    {
      if k in vals then Some(ArgMap(Without(keys, {k}), vals - {k})) else None
    }
  }

  /** The empty `OrderedDict()`. */
  function Empty(): (m: ArgMap)
    ensures m.Valid() && m.keys == []
  {
    ArgMap([], map[])
  }
}
