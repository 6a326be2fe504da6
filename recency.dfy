/**
  Recency lists: the operations the cache applies to its list of keys,
  least recently used first. The list behaves like a Python list: `remove`
  takes out the first occurrence of a key that is present, `append` adds
  a key at the most recently used end.
 */
module Recency {

  /** The set of keys a list holds. */
  function Elements<K(==)>(s: seq<K>): set<K>
  {
    set x | x in s
  }

  /** No key occurs twice in the list. */
  predicate NoDuplicates<K(==)>(s: seq<K>)
  {
    s == [] || (s[0] !in s[1..] && NoDuplicates(s[1..]))
  }

  /** The position of the first occurrence of `k`. */
  function FirstIndex<K(==)>(s: seq<K>, k: K): (i: nat)
    requires k in s
    ensures i < |s| && s[i] == k
    ensures k !in s[..i]
  {
    if s[0] == k then 0 else 1 + FirstIndex(s[1..], k)
  }

  /**
    `s.remove(k)`: drop the first occurrence of `k`. Python raises an error
    when `k` is absent, so the key must be present.
   */
  function RemoveFirst<K(==)>(s: seq<K>, k: K): (r: seq<K>)
    requires k in s
    ensures |r| == |s| - 1
  {
    if s[0] == k then s[1..] else [s[0]] + RemoveFirst(s[1..], k)
  }

  /** `remove` splices out exactly the first occurrence and keeps everything else in place. */
  lemma {:induction false} RemoveFirstSplit<K>(s: seq<K>, k: K)
    requires k in s
    ensures RemoveFirst(s, k) == s[..FirstIndex(s, k)] + s[FirstIndex(s, k) + 1..]
  {
    if s[0] != k {
      var tail := s[1..];
      var i := FirstIndex(tail, k);
      RemoveFirstSplit(tail, k);
      assert FirstIndex(s, k) == i + 1;
      assert s[..i + 1] == [s[0]] + tail[..i];
      assert s[i + 2..] == tail[i + 1..];
    }
  }

  /**
    The list with every key of `ks` taken out and the others kept in
    their order: the reference definition of what a series of removals
    does to the recency list.
   */
  function Without<K(==)>(s: seq<K>, ks: set<K>): (r: seq<K>)
    ensures Elements(r) == Elements(s) - ks
    ensures |r| <= |s|
    ensures NoDuplicates(s) ==> NoDuplicates(r)
  {
    if s == [] then []
    else
      assert Elements(s) == {s[0]} + Elements(s[1..]);
      var rest := Without(s[1..], ks);
      if s[0] in ks then rest
      else
        assert Elements([s[0]] + rest) == {s[0]} + Elements(rest);
        assert NoDuplicates(s) ==> s[0] !in Elements(s[1..]);
        [s[0]] + rest
  }

  /**
    `Precedes(s, a, b)`: both keys are in the list and the first
    occurrence of `a` comes before the first occurrence of `b`.
   */
  predicate Precedes<K(==)>(s: seq<K>, a: K, b: K)
  {
    |s| > 0 && s[0] != b &&
    if s[0] == a then b in s[1..] else Precedes(s[1..], a, b)
  }

  /** On a list without duplicates, `remove` is the same as filtering the key out. */
  lemma {:induction false} RemoveFirstIsWithout<K>(s: seq<K>, k: K)
    requires NoDuplicates(s) && k in s
    ensures RemoveFirst(s, k) == Without(s, {k})
  {
    if s[0] == k {
      WithoutDisjoint(s[1..], {k});
    } else {
      RemoveFirstIsWithout(s[1..], k);
    }
  }

  /** Removing keys the list does not hold leaves it as it is. */
  lemma {:induction false} WithoutDisjoint<K>(s: seq<K>, ks: set<K>)
    requires forall x :: x in ks ==> x !in s
    ensures Without(s, ks) == s
  {
    if s != [] {
      WithoutDisjoint(s[1..], ks);
      assert s == [s[0]] + s[1..];
    }
  }

  /** Two rounds of removal are one round with the union of the keys. */
  lemma {:induction false} WithoutWithout<K>(s: seq<K>, a: set<K>, b: set<K>)
    ensures Without(Without(s, a), b) == Without(s, a + b)
  {
    if s != [] {
      WithoutWithout(s[1..], a, b);
      if s[0] !in a {
        assert Without(s, a)[1..] == Without(s[1..], a);
      }
    }
  }

  /** Dropping the head of a list without duplicates is filtering the head out. */
  lemma WithoutHead<K>(s: seq<K>)
    requires NoDuplicates(s) && s != []
    ensures Without(s, {s[0]}) == s[1..]
  {
    RemoveFirstIsWithout(s, s[0]);
  }

  /** A list without duplicates has as many keys as entries. */
  lemma {:induction false} NoDuplicatesCardinality<K>(s: seq<K>)
    requires NoDuplicates(s)
    ensures |Elements(s)| == |s|
  {
    if s != [] {
      NoDuplicatesCardinality(s[1..]);
      assert Elements(s) == {s[0]} + Elements(s[1..]);
    }
  }

  /** Extending a prefix by one entry adds that entry's key. */
  lemma PrefixElements<K>(s: seq<K>, i: nat)
    requires i < |s|
    ensures Elements(s[..i + 1]) == Elements(s[..i]) + {s[i]}
  {
    assert s[..i + 1] == s[..i] + [s[i]];
  }

  /** Appending a key the list does not hold keeps it free of duplicates. */
  lemma {:induction false} AppendNoDuplicates<K>(s: seq<K>, k: K)
    requires NoDuplicates(s) && k !in s
    ensures NoDuplicates(s + [k])
    ensures Elements(s + [k]) == Elements(s) + {k}
  {
    if s != [] {
      AppendNoDuplicates(s[1..], k);
      assert (s + [k])[1..] == s[1..] + [k];
    }
  }

  /** Filtering keys out does not change the relative order of the keys kept. */
  lemma {:induction false} WithoutKeepsPrecedes<K>(s: seq<K>, ks: set<K>, a: K, b: K)
    requires a !in ks && b !in ks
    ensures Precedes(Without(s, ks), a, b) == Precedes(s, a, b)
  {
    if s != [] {
      WithoutKeepsPrecedes(s[1..], ks, a, b);
      var rest := Without(s[1..], ks);
      if s[0] !in ks {
        assert Without(s, ks) == [s[0]] + rest;
        assert ([s[0]] + rest)[1..] == rest;
        assert b in rest <==> b in Elements(rest);
        assert b in s[1..] <==> b in Elements(s[1..]);
      }
    }
  }

  /** Appending a third key does not change the relative order of two others. */
  lemma {:induction false} AppendKeepsPrecedes<K>(s: seq<K>, k: K, a: K, b: K)
    requires a != k && b != k
    ensures Precedes(s + [k], a, b) == Precedes(s, a, b)
  {
    if s != [] {
      AppendKeepsPrecedes(s[1..], k, a, b);
      assert (s + [k])[1..] == s[1..] + [k];
    }
  }

  /**
    Taking keys out and appending another key at the end keeps the
    relative order of every key that stays.
   */
  lemma TouchKeepsPrecedes<K>(s: seq<K>, ks: set<K>, k: K, a: K, b: K)
    requires a !in ks && b !in ks && a != k && b != k
    ensures Precedes(Without(s, ks) + [k], a, b) == Precedes(s, a, b)
  {
    AppendKeepsPrecedes(Without(s, ks), k, a, b);
    WithoutKeepsPrecedes(s, ks, a, b);
  }

  /**
    `TouchKeepsPrecedes` for every pair of keys of the touched list other
    than the appended one.
   */
  lemma TouchKeepsAllPrecedes<K>(s: seq<K>, ks: set<K>, k: K, keys: set<K>)
    requires keys == Elements(Without(s, ks) + [k])
    ensures forall a, b :: a in keys && b in keys && a != k && b != k ==>
              (Precedes(Without(s, ks) + [k], a, b) <==> Precedes(s, a, b))
  {
    forall a, b | a in keys && b in keys && a != k && b != k
      ensures Precedes(Without(s, ks) + [k], a, b) <==> Precedes(s, a, b)
    {
      assert a in Elements(Without(s, ks)) && b in Elements(Without(s, ks));
      TouchKeepsPrecedes(s, ks, k, a, b);
    }
  }
}
