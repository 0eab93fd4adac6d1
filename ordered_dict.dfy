/** An insertion-ordered dictionary, the way a Python `dict` behaves: the keys
    keep the order in which they were first inserted, assigning to an existing
    key keeps its place, and deleting a key removes it from the order. */
module OrderedDict {

  /** No element occurs twice. */
  predicate Distinct<K(==)>(s: seq<K>)
  {
    forall i, j :: 0 <= i < j < |s| ==> s[i] != s[j]
  }

  /** The elements of `s` that are not in `gone`, in their order. */
  function WithoutAll<K(==,!new)>(s: seq<K>, gone: set<K>): (r: seq<K>)
    ensures forall x :: x in r <==> x in s && x !in gone
    ensures |r| <= |s|
    ensures Distinct(s) ==> Distinct(r)
  {
    if s == [] then []
    else
      var tail := WithoutAll(s[1..], gone);
      (if s[0] in gone then [] else [s[0]]) + tail
  }

  /** Removing one more element after a set of them is removing the union. */
  lemma {:induction false} WithoutAllStep<K(!new)>(s: seq<K>, gone: set<K>, k: K)
    ensures WithoutAll(WithoutAll(s, gone), {k}) == WithoutAll(s, gone + {k})
  {
    if s != [] {
      WithoutAllStep(s[1..], gone, k);
      var tail := WithoutAll(s[1..], gone);
      if s[0] in gone {
        assert WithoutAll(s, gone) == tail;
      } else {
        assert WithoutAll(s, gone) == [s[0]] + tail;
        assert ([s[0]] + tail)[1..] == tail;
      }
    }
  }

  /** Removing nothing keeps the sequence. */
  lemma {:induction false} WithoutNothing<K(!new)>(s: seq<K>)
    ensures WithoutAll(s, {}) == s
  {
    if s != [] {
      WithoutNothing(s[1..]);
    }
  }

  /** Removal works element by element: removing from two sequences in a row
      is removing from each, so the survivors keep their relative order. */
  lemma {:induction false} WithoutAllAppend<K(!new)>(s: seq<K>, t: seq<K>, gone: set<K>)
    ensures WithoutAll(s + t, gone) == WithoutAll(s, gone) + WithoutAll(t, gone)
  {
    if s == [] {
      assert s + t == t;
    } else {
      var head := if s[0] in gone then [] else [s[0]];
      assert WithoutAll(s + t, gone) == head + WithoutAll(s[1..] + t, gone) by {
        assert (s + t)[0] == s[0];
        assert (s + t)[1..] == s[1..] + t;
      }
      WithoutAllAppend(s[1..], t, gone);
    }
  }

  /** Removing elements that do not occur keeps the sequence. */
  lemma {:induction false} WithoutAbsent<K(!new)>(s: seq<K>, gone: set<K>)
    requires forall j :: 0 <= j < |s| ==> s[j] !in gone
    ensures WithoutAll(s, gone) == s
  {
    if s != [] {
      WithoutAbsent(s[1..], gone);
      assert s == [s[0]] + s[1..];
    }
  }

  /** Removing an element that occurs once cuts out exactly its position. */
  lemma WithoutOne<K(!new)>(s: seq<K>, i: nat)
    requires Distinct(s) && i < |s|
    ensures WithoutAll(s, {s[i]}) == s[..i] + s[i + 1..]
  {
    var k, pre, post := s[i], s[..i], s[i + 1..];
    WithoutAbsent(pre, {k});
    WithoutAbsent(post, {k});
    assert WithoutAll([k] + post, {k}) == post by {
      WithoutAllAppend([k], post, {k});
    }
    assert WithoutAll(s, {k}) == pre + post by {
      SplitAt(s, i);
      WithoutAllAppend(pre, [k] + post, {k});
    }
  }

  lemma WithoutMissing<K(!new)>(s: seq<K>, k: K)
    requires k !in s
    ensures WithoutAll(s, {k}) == s
  {
    WithoutAbsent(s, {k});
  }

  lemma SplitAt<K>(s: seq<K>, i: nat)
    requires i < |s|
    ensures s == s[..i] + ([s[i]] + s[i + 1..])
  {
    assert s[i..] == [s[i]] + s[i + 1..];
    assert s == s[..i] + s[i..];
  }

  /** The elements of a sequence. */
  ghost function Elements<K>(s: seq<K>): set<K>
  {
    if s == [] then {} else Elements(s[..|s| - 1]) + {s[|s| - 1]}
  }

  lemma {:induction false} ElementsMembers<K>(s: seq<K>)
    ensures forall x :: x in Elements(s) <==> x in s
  {
    if s != [] {
      ElementsMembers(s[..|s| - 1]);
      assert s == s[..|s| - 1] + [s[|s| - 1]];
    }
  }

  /** A dictionary: `keys` is the iteration order, `entries` the mapping. */
  datatype Dict<K(==,!new), V(!new)> = Dict(keys: seq<K>, entries: map<K, V>)
  {
    /** The order lists exactly the mapping's keys, each once. */
    ghost predicate WellFormed()
    {
      (forall k :: k in entries <==> k in keys) && Distinct(keys)
    }

    /** `d[k] = v`: an existing key keeps its place, a new key goes last. */
    function Put(k: K, v: V): (d: Dict<K, V>)
      requires WellFormed()
      ensures d.WellFormed()
      ensures keys <= d.keys
      ensures forall x :: x in d.entries <==> x in entries || x == k
      ensures d.entries[k] == v
      ensures forall x :: x in entries && x != k ==> d.entries[x] == entries[x]
      ensures k in entries ==> d.keys == keys
      ensures k !in entries ==> d.keys == keys + [k]
    {
      if k in entries then Dict(keys, entries[k := v])
      else Dict(keys + [k], entries[k := v])
    }

    /** `del d[k]` for a key that may or may not be present: a present key
        leaves its place in the order, the other keys keep theirs and their
        values, and an absent key changes nothing. */
    function Delete(k: K): (d: Dict<K, V>)
      requires WellFormed()
      ensures d.WellFormed()
      ensures forall x :: x in d.entries <==> x in entries && x != k
      ensures forall x :: x in d.entries ==> d.entries[x] == entries[x]
      ensures k in entries ==> d.keys == keys[..IndexOf(keys, k)] + keys[IndexOf(keys, k) + 1..]
      ensures k !in entries ==> d == this
    {
      if k in entries then
        WithoutOne(keys, IndexOf(keys, k));
        Dict(WithoutAll(keys, {k}), entries - {k})
      else
        WithoutMissing(keys, k);
        assert entries - {k} == entries;
        Dict(WithoutAll(keys, {k}), entries - {k})
    }

    /** `list(d.values())`: one value per key, in key order. */
    function Values(): (vs: seq<V>)
      requires WellFormed()
      ensures |vs| == |keys|
      ensures forall i :: 0 <= i < |keys| ==> vs[i] == entries[keys[i]]
      ensures forall v :: v in vs <==> exists k :: k in entries && entries[k] == v
    {
      var vs := seq(|keys|, i requires 0 <= i < |keys| => entries[keys[i]]);
      assert forall k :: k in entries ==> vs[IndexOf(keys, k)] == entries[k];
      vs
    }
  }

  /** The position of an element of `s`. */
  function IndexOf<K(==)>(s: seq<K>, k: K): (i: nat)
    requires k in s
    ensures i < |s| && s[i] == k
  {
    if s[0] == k then 0 else 1 + IndexOf(s[1..], k)
  }
}
