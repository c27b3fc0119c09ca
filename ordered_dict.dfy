/**
 * Python's insertion-ordered `dict`: a map together with the order in which its keys were
 * first inserted. Assigning to a key that is already present keeps its position; deleting a
 * key removes it from the order; iteration follows the order.
 */
module OrderedDict {

  /** No element is listed twice. */
  predicate Distinct<K(==)>(s: seq<K>) {
    forall i, j :: 0 <= i < j < |s| ==> s[i] != s[j]
  }

  /** Dropping the last element keeps a sequence distinct, and that element is not in what remains. */
  lemma DistinctPrefix<K>(s: seq<K>)
    requires Distinct(s) && s != []
    ensures Distinct(s[..|s| - 1]) && s[|s| - 1] !in s[..|s| - 1]
  {
    var init := s[..|s| - 1];
    forall i | 0 <= i < |init|
      ensures init[i] != s[|s| - 1]
    {
      assert init[i] == s[i];
    }
  }

  datatype Dict<K(!new), V> = Dict(keys: seq<K>, entries: map<K, V>) {
    /** The keys are listed once each, and exactly the keys of the map are listed. */
    ghost predicate Valid() {
      && Distinct(keys)
      && (forall k :: k in entries <==> k in keys)
    }

    predicate IsEmpty() {
      keys == []
    }
  }

  /** `{}` */
  function Empty<K(==, !new), V>(): (d: Dict<K, V>)
    ensures d.Valid() && d.IsEmpty() && d.entries == map[]
  {
    Dict([], map[])
  }

  /** `d[k] = v` */
  function Put<K(==, !new), V>(d: Dict<K, V>, k: K, v: V): (r: Dict<K, V>)
    requires d.Valid()
    ensures r.Valid()
    ensures r.entries == d.entries[k := v]
    ensures k in d.entries ==> r.keys == d.keys
    ensures k !in d.entries ==> r.keys == d.keys + [k]
  {
    if k in d.entries then Dict(d.keys, d.entries[k := v]) else Dict(d.keys + [k], d.entries[k := v])
  }

  /** The entries of `m` whose keys are listed in `ks`. */
  function Restrict<K, V>(m: map<K, V>, ks: seq<K>): map<K, V> {
    map k | k in ks && k in m :: m[k]
  }

  /** Listing one more key adds its entry. */
  lemma RestrictStep<K, V>(m: map<K, V>, ks: seq<K>, i: nat)
    requires i < |ks| && ks[i] in m
    ensures Restrict(m, ks[..i + 1]) == Restrict(m, ks[..i])[ks[i] := m[ks[i]]]
  {
    assert ks[..i + 1] == ks[..i] + [ks[i]];
  }

  /** Updating the right operand of a merge updates the merge. */
  lemma MergeUpdate<K, V>(a: map<K, V>, b: map<K, V>, k: K, v: V)
    ensures a + b[k := v] == (a + b)[k := v]
  {
  }

  /** Restricted to all of its keys, a dictionary's map is itself. */
  lemma RestrictAll<K(!new), V>(d: Dict<K, V>)
    requires d.Valid()
    ensures Restrict(d.entries, d.keys) == d.entries
  {
  }

  /** The sequence `s` without the element `x`. */
  function Without<K(==, !new)>(s: seq<K>, x: K): (r: seq<K>)
    ensures forall y :: y in r <==> y in s && y != x
    ensures |r| <= |s|
  {
    if s == [] then []
    else if s[0] == x then Without(s[1..], x)
    else [s[0]] + Without(s[1..], x)
  }

  /** Removing a listed key from a list without repetitions closes the gap it leaves. */
  lemma {:induction false} WithoutAt<K(!new)>(s: seq<K>, i: nat)
    requires i < |s|
    requires Distinct(s)
    ensures Without(s, s[i]) == s[..i] + s[i + 1..]
  {
    if i == 0 {
      WithoutAbsent(s[1..], s[0]);
      assert s[..0] + s[1..] == s[1..];
    } else {
      assert s[1..][i - 1] == s[i];
      WithoutAt(s[1..], i - 1);
      assert s[..i] + s[i + 1..] == [s[0]] + (s[1..][..i - 1] + s[1..][i..]);
    }
  }

  /** Removing an element that is not there changes nothing. */
  lemma {:induction false} WithoutAbsent<K(!new)>(s: seq<K>, x: K)
    requires x !in s
    ensures Without(s, x) == s
  {
    if s != [] {
      assert s[1..] + [] == s[1..];
      WithoutAbsent(s[1..], x);
    }
  }

  /** Removing an element keeps a list without repetitions so. */
  lemma {:induction false} WithoutDistinct<K(!new)>(s: seq<K>, x: K)
    requires Distinct(s)
    ensures Distinct(Without(s, x))
  {
    if s != [] {
      WithoutDistinct(s[1..], x);
      var t := Without(s[1..], x);
      if s[0] != x {
        var r := [s[0]] + t;
        assert Without(s, x) == r;
        forall a, b | 0 <= a < b < |r|
          ensures r[a] != r[b]
        {
          if a == 0 {
            assert r[b] == t[b - 1] && t[b - 1] in s[1..];
            var j :| 0 <= j < |s[1..]| && s[1..][j] == t[b - 1];
            assert s[j + 1] == r[b] && s[0] != s[j + 1];
          } else {
            assert r[a] == t[a - 1] && r[b] == t[b - 1];
          }
        }
      }
    }
  }

  /** `del d[k]` when `k` is present; nothing when it is not. */
  function Remove<K(==, !new), V>(d: Dict<K, V>, k: K): (r: Dict<K, V>)
    requires d.Valid()
    ensures r.Valid()
    ensures r.entries == d.entries - {k}
    ensures k !in d.entries ==> r == d
  {
    WithoutDistinct(d.keys, k);
    if k in d.entries then Dict(Without(d.keys, k), d.entries - {k})
    else
      WithoutAbsent(d.keys, k);
      d
  }

  /** `del` closes the gap: the other keys keep their relative order. */
  lemma RemoveKeepsOrder<K(!new), V>(d: Dict<K, V>, i: nat)
    requires d.Valid() && i < |d.keys|
    ensures Remove(d, d.keys[i]).keys == d.keys[..i] + d.keys[i + 1..]
  {
    WithoutAt(d.keys, i);
  }

  /** Assigning a key twice leaves what the second assignment alone would: the key's place, the last value. */
  lemma PutTwice<K(!new), V>(d: Dict<K, V>, k: K, v1: V, v2: V)
    requires d.Valid()
    ensures Put(Put(d, k, v1), k, v2) == Put(d, k, v2)
  {
    assert d.entries[k := v1][k := v2] == d.entries[k := v2];
  }
}
