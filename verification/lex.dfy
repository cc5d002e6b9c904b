/** Go compares strings byte by byte (`<=` on `string`, and bbolt orders the
    keys of a bucket with `bytes.Compare`). Strings here are sequences of
    Unicode scalar values, and UTF-8 encoding preserves code-point order, so
    comparing characters by code point gives the same order as comparing the
    UTF-8 bytes. Dafny's own `<` on sequences means "proper prefix", so the
    order is written out here and proved to be a total order. */
module Lex {

  /** `a <= b` in the lexicographic order on strings. A prefix comes first:
      "2024" <= "2024.5". */
  predicate Le(a: string, b: string): (r: bool)
    ensures a <= b ==> r
    decreases |a|
  {
    if |a| == 0 then true
    else if |b| == 0 then false
    else if a[0] != b[0] then a[0] < b[0]
    else Le(a[1..], b[1..])
  }

  /** `a < b`: strictly before. */
  predicate Lt(a: string, b: string) {
    Le(a, b) && a != b
  }

  /** The keys of `ks` are listed in strictly ascending order. */
  predicate Ascending(ks: seq<string>) {
    forall i, j :: 0 <= i < j < |ks| ==> Lt(ks[i], ks[j])
  }

  /** An independent description of the order: `a <= b` iff `a` is a prefix
      of `b`, or the first position where they differ holds a smaller
      character in `a`. */
  ghost predicate PrefixOrFirstDifferenceSmaller(a: string, b: string) {
    || (|a| <= |b| && a == b[..|a|])
    || (exists i :: 0 <= i < |a| && i < |b| && a[..i] == b[..i] && a[i] < b[i])
  }

  lemma {:induction false} LeMeansPrefixOrSmallerAt(a: string, b: string)
    ensures Le(a, b) <==> PrefixOrFirstDifferenceSmaller(a, b)
    decreases |a|
  {
    if |a| == 0 {
      assert a == b[..0];
    } else if |b| == 0 {
      assert !PrefixOrFirstDifferenceSmaller(a, b);
    } else if a[0] != b[0] {
      if a[0] < b[0] {
        assert a[..0] == b[..0];
      }
    } else {
      LeMeansPrefixOrSmallerAt(a[1..], b[1..]);
      if PrefixOrFirstDifferenceSmaller(a[1..], b[1..]) {
        PrefixOrSmallerFromTail(a, b);
      }
      if PrefixOrFirstDifferenceSmaller(a, b) {
        PrefixOrSmallerOfTail(a, b);
      }
    }
  }

  /** Putting the same character in front keeps the relation. */
  lemma PrefixOrSmallerFromTail(a: string, b: string)
    requires |a| > 0 && |b| > 0 && a[0] == b[0]
    requires PrefixOrFirstDifferenceSmaller(a[1..], b[1..])
    ensures PrefixOrFirstDifferenceSmaller(a, b)
  {
    if |a[1..]| <= |b[1..]| && a[1..] == b[1..][..|a[1..]|] {
      assert a == [a[0]] + a[1..];
      assert b[..|a|] == [b[0]] + b[1..][..|a| - 1];
    } else {
      var i :| 0 <= i < |a[1..]| && i < |b[1..]| && a[1..][..i] == b[1..][..i] && a[1..][i] < b[1..][i];
      assert a[..i + 1] == [a[0]] + a[1..][..i];
      assert b[..i + 1] == [b[0]] + b[1..][..i];
    }
  }

  /** Removing the same first character keeps the relation. */
  lemma PrefixOrSmallerOfTail(a: string, b: string)
    requires |a| > 0 && |b| > 0 && a[0] == b[0]
    requires PrefixOrFirstDifferenceSmaller(a, b)
    ensures PrefixOrFirstDifferenceSmaller(a[1..], b[1..])
  {
    if |a| <= |b| && a == b[..|a|] {
      assert a[1..] == b[1..][..|a| - 1];
    } else {
      var i :| 0 <= i < |a| && i < |b| && a[..i] == b[..i] && a[i] < b[i];
      assert i > 0;
      assert a[1..][..i - 1] == a[..i][1..] == b[..i][1..] == b[1..][..i - 1];
      assert a[1..][i - 1] < b[1..][i - 1];
    }
  }

  lemma {:induction false} LeReflexive(a: string)
    ensures Le(a, a)
    decreases |a|
  {
    if |a| > 0 {
      LeReflexive(a[1..]);
    }
  }

  lemma {:induction false} LeAntisymmetric(a: string, b: string)
    requires Le(a, b) && Le(b, a)
    ensures a == b
    decreases |a|
  {
    if |a| > 0 {
      LeAntisymmetric(a[1..], b[1..]);
      assert a == [a[0]] + a[1..];
      assert b == [b[0]] + b[1..];
    }
  }

  lemma {:induction false} LeTransitive(a: string, b: string, c: string)
    requires Le(a, b) && Le(b, c)
    ensures Le(a, c)
    decreases |a|
  {
    if |a| > 0 && a[0] == b[0] && b[0] == c[0] {
      LeTransitive(a[1..], b[1..], c[1..]);
    }
  }

  lemma {:induction false} LeTotal(a: string, b: string)
    ensures Le(a, b) || Le(b, a)
    decreases |a|
  {
    if |a| > 0 && |b| > 0 && a[0] == b[0] {
      LeTotal(a[1..], b[1..]);
    }
  }

  /** Two strings compare like their remainders after a shared prefix. */
  lemma {:induction false} LeCommonPrefix(p: string, a: string, b: string)
    ensures Le(p + a, p + b) <==> Le(a, b)
    decreases |p|
  {
    if |p| == 0 {
      assert p + a == a && p + b == b;
    } else {
      assert (p + a)[0] == p[0] == (p + b)[0];
      assert (p + a)[1..] == p[1..] + a;
      assert (p + b)[1..] == p[1..] + b;
      LeCommonPrefix(p[1..], a, b);
    }
  }

  /** Lt is a strict total order: exactly one of a < b, a == b, b < a. */
  lemma LtTrichotomy(a: string, b: string)
    ensures Lt(a, b) || a == b || Lt(b, a)
    ensures !(Lt(a, b) && Lt(b, a))
  {
    LeTotal(a, b);
    if Le(a, b) && Le(b, a) {
      LeAntisymmetric(a, b);
    }
  }

  lemma LtTransitive(a: string, b: string, c: string)
    requires Lt(a, b) && Le(b, c)
    ensures Lt(a, c)
  {
    LeTransitive(a, b, c);
    if a == c {
      LeAntisymmetric(a, b);
    }
  }

  /** Sanity instance: `<` on sequences (proper prefix) is not the order the
      store uses, since "b" sorts after "ab" although neither is a prefix. */
  lemma PrefixOrderDiffers()
    ensures Lt("ab", "b") && !("ab" < "b")
  {
  }

  /** `ks` lists the set `keys` in ascending order, each key once: the order
      in which a bbolt bucket hands its keys to `ForEach` or a cursor. */
  ghost predicate Listing(ks: seq<string>, keys: set<string>) {
    Ascending(ks) && (forall k :: k in ks <==> k in keys)
  }

  /** Places `k` in the ascending sequence `ks`. */
  function InsertInOrder(ks: seq<string>, k: string): (r: seq<string>)
    requires Ascending(ks) && k !in ks
    ensures Ascending(r)
    ensures forall x :: x in r <==> x in ks || x == k
    ensures |r| == |ks| + 1
  {
    if |ks| == 0 then [k]
    else if Le(k, ks[0]) then
      assert forall j :: 0 < j < |ks| ==> Lt(k, ks[j]) by {
        forall j | 0 < j < |ks| ensures Lt(k, ks[j]) {
          LtTransitive(k, ks[0], ks[j]);
        }
      }
      [k] + ks
    else
      LtTrichotomy(k, ks[0]);
      var rest := InsertInOrder(ks[1..], k);
      assert forall x :: x in rest ==> Lt(ks[0], x);
      [ks[0]] + rest
  }

  /** Lists a set of keys in ascending order. */
  method ListKeys(keys: set<string>) returns (ks: seq<string>)
    ensures Listing(ks, keys)
    ensures |ks| == |keys|
  {
    ks := [];
    var rest := keys;
    while rest != {}
      invariant rest <= keys
      invariant Ascending(ks)
      invariant forall k :: k in ks <==> k in keys && k !in rest
      invariant |ks| + |rest| == |keys|
      decreases |rest|
    {
      var k :| k in rest;
      ks := InsertInOrder(ks, k);
      rest := rest - {k};
    }
  }

  /** A set has exactly one ascending listing, so "the keys of a bucket in
      order" is well defined whatever produced it. */
  lemma {:induction false} ListingUnique(a: seq<string>, b: seq<string>, keys: set<string>)
    requires Listing(a, keys) && Listing(b, keys)
    ensures a == b
    decreases |a|
  {
    if |a| == 0 {
      assert keys == {};
      EmptyOrHasFirst(b);
    } else {
      assert |b| > 0 by { assert a[0] in keys; }
      if a[0] != b[0] {
        assert b[0] in keys && b[0] in a;
        assert a[0] in keys && a[0] in b;
        var i :| 0 <= i < |a| && a[i] == b[0];
        var j :| 0 <= j < |b| && b[j] == a[0];
        assert Lt(a[0], b[0]);
        assert Lt(b[0], a[0]);
        LtTrichotomy(a[0], b[0]);
      }
      var rest := keys - {a[0]};
      assert forall k :: k in a[1..] <==> k in rest by {
        assert forall i :: 0 < i < |a| ==> Lt(a[0], a[i]);
      }
      assert forall k :: k in b[1..] <==> k in rest by {
        assert forall i :: 0 < i < |b| ==> Lt(b[0], b[i]);
      }
      ListingUnique(a[1..], b[1..], rest);
      assert a == [a[0]] + a[1..];
      assert b == [b[0]] + b[1..];
    }
  }


  lemma EmptyOrHasFirst(b: seq<string>)
    ensures b == [] || b[0] in b
  {
  }
}
