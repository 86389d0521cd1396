/**
 * Queries over tables held as sequences of rows.  Keys and conditions are passed as
 * named functions, so that the same function value appears in a contract and in the
 * code that meets it.
 */
module Seqs {
  import opened Common

  /** LINQ `Where(p)`. */
  function Filter<T(!new)>(s: seq<T>, p: T -> bool): (r: seq<T>)
    ensures |r| <= |s|
    ensures forall x :: x in r <==> x in s && p(x)
    ensures multiset(r) <= multiset(s)
  {
    if s == [] then []
    else
      assert s == [s[0]] + s[1..];
      if p(s[0]) then [s[0]] + Filter(s[1..], p) else Filter(s[1..], p)
  }

  lemma {:induction false} FilterAppend<T(!new)>(a: seq<T>, b: seq<T>, p: T -> bool)
    ensures Filter(a + b, p) == Filter(a, p) + Filter(b, p)
  {
    if a == [] {
      assert a + b == b;
    } else {
      assert (a + b)[1..] == a[1..] + b;
      FilterAppend(a[1..], b, p);
    }
  }

  /** Replacing one element changes the filtered count by what the old and new elements contribute. */
  lemma FilterReplaceCount<T(!new)>(s: seq<T>, i: nat, x: T, p: T -> bool)
    requires i < |s|
    ensures |Filter(s[i := x], p)| == |Filter(s, p)| - (if p(s[i]) then 1 else 0) + (if p(x) then 1 else 0)
  {
    var pre, post := s[..i], s[i + 1..];
    assert s == pre + [s[i]] + post;
    assert s[i := x] == pre + [x] + post;
    FilterAppend(pre + [s[i]], post, p);
    FilterAppend(pre, [s[i]], p);
    FilterAppend(pre + [x], post, p);
    FilterAppend(pre, [x], p);
    assert Filter([s[i]], p) == (if p(s[i]) then [s[i]] else []);
    assert Filter([x], p) == (if p(x) then [x] else []);
  }

  lemma {:induction false} FilterAll<T(!new)>(s: seq<T>, p: T -> bool)
    requires forall x :: x in s ==> p(x)
    ensures Filter(s, p) == s
  {
    if s != [] {
      FilterAll(s[1..], p);
    }
  }

  /** The rows whose key is `k`: `Where(x => key(x) == k)`. */
  function Where<T(!new), K(==)>(s: seq<T>, key: T -> K, k: K): (r: seq<T>)
    ensures |r| <= |s|
    ensures forall x :: x in r <==> x in s && key(x) == k
  {
    if s == [] then []
    else if key(s[0]) == k then [s[0]] + Where(s[1..], key, k)
    else Where(s[1..], key, k)
  }

  /** The rows whose key is not `k`: what is left after removing every row keyed `k`. */
  function Without<T(!new), K(==)>(s: seq<T>, key: T -> K, k: K): (r: seq<T>)
    ensures |r| <= |s|
    ensures forall x :: x in r <==> x in s && key(x) != k
  {
    if s == [] then []
    else if key(s[0]) != k then [s[0]] + Without(s[1..], key, k)
    else Without(s[1..], key, k)
  }

  /** The rows whose key is in none of `ks`. */
  function WithoutAll<T(!new), K(==)>(s: seq<T>, key: T -> K, ks: set<K>): (r: seq<T>)
    ensures |r| <= |s|
    ensures forall x :: x in r <==> x in s && key(x) !in ks
  {
    if s == [] then []
    else if key(s[0]) !in ks then [s[0]] + WithoutAll(s[1..], key, ks)
    else WithoutAll(s[1..], key, ks)
  }

  /** `r` is `s` with some elements dropped and the rest kept in their order. */
  ghost predicate Subsequence<T>(r: seq<T>, s: seq<T>)
    decreases |s|
  {
    if r == [] then true
    else if s == [] then false
    else (r[0] == s[0] && Subsequence(r[1..], s[1..])) || Subsequence(r, s[1..])
  }

  /** Selecting the rows keyed `k` keeps them in table order ... */
  lemma {:induction false} WhereSubsequence<T(!new), K>(s: seq<T>, key: T -> K, k: K)
    ensures Subsequence(Where(s, key, k), s)
  {
    if s != [] {
      WhereSubsequence(s[1..], key, k);
      var r := Where(s, key, k);
      if key(s[0]) == k {
        assert r == [s[0]] + Where(s[1..], key, k);
        assert r[0] == s[0] && r[1..] == Where(s[1..], key, k);
      }
    }
  }

  /** ... each as often as in the table. */
  lemma {:induction false} WhereCount<T(!new), K>(s: seq<T>, key: T -> K, k: K)
    ensures forall x :: multiset(Where(s, key, k))[x] == if key(x) == k then multiset(s)[x] else 0
  {
    if s != [] {
      WhereCount(s[1..], key, k);
      assert s == [s[0]] + s[1..];
      if key(s[0]) == k {
        assert Where(s, key, k) == [s[0]] + Where(s[1..], key, k);
      }
    }
  }

  /** Removing the rows keyed `k` keeps the others in order ... */
  lemma {:induction false} WithoutSubsequence<T(!new), K>(s: seq<T>, key: T -> K, k: K)
    ensures Subsequence(Without(s, key, k), s)
  {
    if s != [] {
      WithoutSubsequence(s[1..], key, k);
      var r := Without(s, key, k);
      if key(s[0]) != k {
        assert r == [s[0]] + Without(s[1..], key, k);
        assert r[0] == s[0] && r[1..] == Without(s[1..], key, k);
      }
    }
  }

  /** ... and with every one of them as often as before. */
  lemma {:induction false} WithoutCount<T(!new), K>(s: seq<T>, key: T -> K, k: K)
    ensures forall x :: multiset(Without(s, key, k))[x] == if key(x) == k then 0 else multiset(s)[x]
  {
    if s != [] {
      WithoutCount(s[1..], key, k);
      assert s == [s[0]] + s[1..];
      if key(s[0]) != k {
        assert Without(s, key, k) == [s[0]] + Without(s[1..], key, k);
      }
    }
  }

  lemma {:induction false} WhereAppend<T(!new), K>(a: seq<T>, b: seq<T>, key: T -> K, k: K)
    ensures Where(a + b, key, k) == Where(a, key, k) + Where(b, key, k)
  {
    if a == [] {
      assert a + b == b;
    } else {
      var ab := a + b;
      assert ab[0] == a[0] && ab[1..] == a[1..] + b;
      WhereAppend(a[1..], b, key, k);
      if key(a[0]) == k {
        assert Where(ab, key, k) == [a[0]] + Where(a[1..] + b, key, k);
        assert Where(a, key, k) == [a[0]] + Where(a[1..], key, k);
      } else {
        assert Where(ab, key, k) == Where(a[1..] + b, key, k);
        assert Where(a, key, k) == Where(a[1..], key, k);
      }
    }
  }

  lemma {:induction false} WithoutAppend<T(!new), K>(a: seq<T>, b: seq<T>, key: T -> K, k: K)
    ensures Without(a + b, key, k) == Without(a, key, k) + Without(b, key, k)
  {
    if a == [] {
      assert a + b == b;
    } else {
      assert (a + b)[1..] == a[1..] + b;
      WithoutAppend(a[1..], b, key, k);
    }
  }

  /** Removing one more key after a set of keys is removing the larger set. */
  lemma {:induction false} WithoutAllStep<T(!new), K>(s: seq<T>, key: T -> K, ks: set<K>, k: K)
    ensures Without(WithoutAll(s, key, ks), key, k) == WithoutAll(s, key, ks + {k})
  {
    if s != [] {
      WithoutAllStep(s[1..], key, ks, k);
    }
  }

  /** Where a key was removed, selecting another key sees the same rows as before. */
  lemma {:induction false} WhereWithout<T(!new), K>(s: seq<T>, key: T -> K, d: K, c: K)
    ensures Where(Without(s, key, d), key, c) == if c == d then [] else Where(s, key, c)
  {
    if s != [] {
      WhereWithout(s[1..], key, d, c);
    }
  }

  /** `FirstOrDefault(x => key(x) == k)` as the index of the first such row. */
  function FindKey<T(!new), K(==)>(s: seq<T>, key: T -> K, k: K): (r: Option<nat>)
    ensures r.Some? ==> r.value < |s| && key(s[r.value]) == k
    ensures r.Some? ==> forall j :: 0 <= j < r.value ==> key(s[j]) != k
    ensures r.None? <==> forall j :: 0 <= j < |s| ==> key(s[j]) != k
  {
    if s == [] then None
    else if key(s[0]) == k then Some(0)
    else match FindKey(s[1..], key, k)
      case None => None
      case Some(i) => Some(i + 1)
  }

  /** FindKey is the first index holding the key. */
  lemma FindKeyAt<T(!new), K>(s: seq<T>, key: T -> K, k: K, i: nat)
    requires i < |s| && key(s[i]) == k && forall j :: 0 <= j < i ==> key(s[j]) != k
    ensures FindKey(s, key, k) == Some(i)
  {
  }

  /** The set of keys of a table. */
  function Keys<T, K>(s: seq<T>, key: T -> K): (r: set<K>)
    ensures forall i :: 0 <= i < |s| ==> key(s[i]) in r
  {
    set i | 0 <= i < |s| :: key(s[i])
  }

  /** A table has no more distinct keys than rows. */
  lemma {:induction false} KeysBound<T, K>(s: seq<T>, key: T -> K)
    ensures |Keys(s, key)| <= |s|
    decreases |s|
  {
    if s != [] {
      var m := |s| - 1;
      assert s == s[..m] + [s[m]];
      AppendKeys(s[..m], key, s[m]);
      KeysBound(s[..m], key);
    }
  }

  /** The set of a sequence's elements. */
  function Elements<T(!new)>(s: seq<T>): (r: set<T>)
    ensures forall x :: x in r <==> x in s
  {
    set x | x in s
  }

  /** How many entries of `s` lie in `ks`. */
  function CountIn<T>(s: seq<T>, ks: set<T>): (n: nat)
    ensures n <= |s|
  {
    if s == [] then 0 else CountIn(s[..|s| - 1], ks) + (if s[|s| - 1] in ks then 1 else 0)
  }

  /** No two entries of `s` are equal. */
  ghost predicate Distinct<T>(s: seq<T>) {
    forall i, j :: 0 <= i < j < |s| ==> s[i] != s[j]
  }

  /** A key missing from the set of keys is carried by no row. */
  lemma NotInKeys<T, K>(s: seq<T>, key: T -> K, k: K)
    requires k !in Keys(s, key)
    ensures NoKey(s, key, k)
  {
    forall x | x in s ensures key(x) != k {
      var i :| 0 <= i < |s| && s[i] == x;
    }
  }

  /** A key that no two rows share (a primary key or a unique index). */
  ghost predicate UniqueBy<T, K>(s: seq<T>, key: T -> K) {
    forall i, j :: 0 <= i < j < |s| ==> key(s[i]) != key(s[j])
  }

  /** With unique keys, removing a key removes exactly the one row that carries it. */
  lemma {:induction false} WithoutUniqueKey<T(!new), K>(s: seq<T>, key: T -> K, i: nat)
    requires i < |s| && UniqueBy(s, key)
    ensures Without(s, key, key(s[i])) == s[..i] + s[i + 1..]
  {
    var k := key(s[i]);
    var a, b := s[..i], s[i + 1..];
    KeyOnlyAt(s, key, i);
    assert s == a + [s[i]] + b;
    WithoutAppend(a + [s[i]], b, key, k);
    WithoutAppend(a, [s[i]], key, k);
    WithoutNoMatch(a, key, k);
    WithoutNoMatch(b, key, k);
    assert Without([s[i]], key, k) == [];
    assert Without(a + [s[i]], key, k) == a;
  }

  /** With unique keys, the rows before and after row `i` do not carry its key. */
  lemma KeyOnlyAt<T, K>(s: seq<T>, key: T -> K, i: nat)
    requires i < |s| && UniqueBy(s, key)
    ensures NoKey(s[..i], key, key(s[i])) && NoKey(s[i + 1..], key, key(s[i]))
  {
    var k, a, b := key(s[i]), s[..i], s[i + 1..];
    forall x | x in a ensures key(x) != k {
      var j :| 0 <= j < |a| && a[j] == x;
      assert s[j] == x;
    }
    forall x | x in b ensures key(x) != k {
      var j :| 0 <= j < |b| && b[j] == x;
      assert s[i + 1 + j] == x;
    }
  }

  /** No row of `s` has key `k`. */
  ghost predicate NoKey<T, K>(s: seq<T>, key: T -> K, k: K) {
    forall x :: x in s ==> key(x) != k
  }

  lemma {:induction false} WithoutNoMatch<T(!new), K>(s: seq<T>, key: T -> K, k: K)
    requires NoKey(s, key, k)
    ensures Without(s, key, k) == s
  {
    if s != [] {
      WithoutNoMatch(s[1..], key, k);
    }
  }

  lemma {:induction false} WhereNoMatch<T(!new), K>(s: seq<T>, key: T -> K, k: K)
    requires NoKey(s, key, k)
    ensures Where(s, key, k) == []
  {
    if s != [] {
      WhereNoMatch(s[1..], key, k);
    }
  }

  lemma {:induction false} WithoutAllNoMatch<T(!new), K>(s: seq<T>, key: T -> K, ks: set<K>)
    requires forall x :: x in s ==> key(x) !in ks
    ensures WithoutAll(s, key, ks) == s
  {
    if s != [] {
      WithoutAllNoMatch(s[1..], key, ks);
    }
  }

  /** Unique keys stay unique when the rows with some other key `k` are dropped. */
  lemma {:induction false} WithoutKeepsUnique<T(!new), K, J>(s: seq<T>, sel: T -> J, k: J, key: T -> K)
    requires UniqueBy(s, key)
    ensures UniqueBy(Without(s, sel, k), key)
  {
    if s != [] {
      assert UniqueBy(s[1..], key) by {
        forall a, b | 0 <= a < b < |s[1..]| ensures key(s[1..][a]) != key(s[1..][b]) {
          assert s[1..][a] == s[a + 1] && s[1..][b] == s[b + 1];
        }
      }
      WithoutKeepsUnique(s[1..], sel, k, key);
      if sel(s[0]) != k {
        var r := Without(s[1..], sel, k);
        forall j | 0 <= j < |r| ensures key(s[0]) != key(r[j]) {
          assert r[j] in s[1..];
          var m :| 0 <= m < |s[1..]| && s[1..][m] == r[j];
          assert s[m + 1] == r[j];
        }
        assert UniqueBy([s[0]] + r, key) by {
          forall a, b | 0 <= a < b < |[s[0]] + r| ensures key(([s[0]] + r)[a]) != key(([s[0]] + r)[b]) {
            if a == 0 {
              assert ([s[0]] + r)[b] == r[b - 1];
            } else {
              assert ([s[0]] + r)[a] == r[a - 1] && ([s[0]] + r)[b] == r[b - 1];
            }
          }
        }
      }
    }
  }

  /** Dropping the rows keyed `k` drops exactly the key `k`. */
  lemma KeysWithout<T(!new), K>(s: seq<T>, key: T -> K, k: K)
    ensures Keys(Without(s, key, k), key) == Keys(s, key) - {k}
  {
    var r := Without(s, key, k);
    forall x | x in Keys(s, key) - {k} ensures x in Keys(r, key) {
      var i :| 0 <= i < |s| && key(s[i]) == x;
      assert s[i] in r;
      var j :| 0 <= j < |r| && r[j] == s[i];
    }
    forall x | x in Keys(r, key) ensures x in Keys(s, key) - {k} {
      var j :| 0 <= j < |r| && key(r[j]) == x;
      assert r[j] in s;
    }
  }

  /** Dropping the rows keyed in `ks` drops exactly the keys `ks`. */
  lemma KeysWithoutAll<T(!new), K>(s: seq<T>, key: T -> K, ks: set<K>)
    ensures Keys(WithoutAll(s, key, ks), key) == Keys(s, key) - ks
  {
    var r := WithoutAll(s, key, ks);
    forall x | x in Keys(s, key) - ks ensures x in Keys(r, key) {
      var i :| 0 <= i < |s| && key(s[i]) == x;
      assert s[i] in r;
      var j :| 0 <= j < |r| && r[j] == s[i];
    }
    forall x | x in Keys(r, key) ensures x in Keys(s, key) - ks {
      var j :| 0 <= j < |r| && key(r[j]) == x;
      assert r[j] in s;
    }
  }

  /** Replacing a row by one with the same key keeps the set of keys. */
  lemma UpdateSameKeys<T, K>(s: seq<T>, key: T -> K, i: nat, v: T)
    requires i < |s| && key(v) == key(s[i])
    ensures Keys(s[i := v], key) == Keys(s, key)
  {
    var r := s[i := v];
    forall x | x in Keys(s, key) ensures x in Keys(r, key) {
      var j :| 0 <= j < |s| && key(s[j]) == x;
      assert key(r[j]) == x;
    }
  }

  /** Appending a row adds exactly its key. */
  lemma AppendKeys<T, K>(s: seq<T>, key: T -> K, v: T)
    ensures Keys(s + [v], key) == Keys(s, key) + {key(v)}
  {
    var r := s + [v];
    assert key(r[|s|]) == key(v);
    forall x | x in Keys(s, key) ensures x in Keys(r, key) {
      var j :| 0 <= j < |s| && key(s[j]) == x;
      assert key(r[j]) == x;
    }
  }

  /** Unique keys stay unique when one row is replaced by another with the same key. */
  lemma UpdateKeepsUnique<T(!new), K>(s: seq<T>, key: T -> K, i: nat, v: T)
    requires i < |s| && UniqueBy(s, key) && key(v) == key(s[i])
    ensures UniqueBy(s[i := v], key)
  {
  }

  /** Unique keys stay unique when a row with a fresh key is appended. */
  lemma AppendKeepsUnique<T(!new), K>(s: seq<T>, key: T -> K, v: T)
    requires UniqueBy(s, key) && key(v) !in Keys(s, key)
    ensures UniqueBy(s + [v], key)
  {
    assert forall i :: 0 <= i < |s| ==> (s + [v])[i] == s[i];
  }

  /** Dropping the element at `i` takes exactly one copy of it out of the multiset. */
  lemma MultisetRemoveAt<T>(s: seq<T>, i: nat)
    requires i < |s|
    ensures multiset(s) == multiset(s[..i] + s[i + 1..]) + multiset{s[i]}
  {
    assert s == s[..i] + [s[i]] + s[i + 1..];
  }

  /** Two orderings of the same elements stay so once the same element is taken out of each. */
  lemma PermutationRemove<T>(a: seq<T>, b: seq<T>, i: nat)
    requires multiset(a) == multiset(b) && a != [] && i < |b| && b[i] == a[0]
    ensures multiset(a[1..]) == multiset(b[..i] + b[i + 1..])
  {
    MultisetRemoveAt(b, i);
    assert a == [a[0]] + a[1..];
    assert multiset(a) == multiset{a[0]} + multiset(a[1..]);
    assert multiset(a[1..]) == multiset(a) - multiset{a[0]};
  }

  /** `Select` of a (possibly partial) function over a sequence. */
  function Map<T, U>(s: seq<T>, f: T --> U): (r: seq<U>)
    requires forall x :: x in s ==> f.requires(x)
    ensures |r| == |s|
    ensures forall i :: 0 <= i < |s| ==> r[i] == f(s[i])
  {
    if s == [] then [] else [f(s[0])] + Map(s[1..], f)
  }

  /** Mapping two orderings of the same elements gives two orderings of the same images. */
  lemma {:induction false} MapPermutation<T, U>(a: seq<T>, b: seq<T>, f: T --> U)
    requires multiset(a) == multiset(b)
    requires forall x :: x in b ==> f.requires(x)
    ensures forall x :: x in a ==> f.requires(x)
    ensures multiset(Map(a, f)) == multiset(Map(b, f))
    decreases |a|
  {
    forall x | x in a ensures f.requires(x) {
      assert x in multiset(a);
    }
    if a != [] {
      var i :| 0 <= i < |b| && b[i] == a[0] by {
        assert a[0] in multiset(b);
      }
      var b' := b[..i] + b[i + 1..];
      PermutationRemove(a, b, i);
      MultisetRemoveAt(b, i);
      forall x | x in b' ensures f.requires(x) {
        assert x in multiset(b');
      }
      MapPermutation(a[1..], b', f);
      MapRemoveAt(b, i, f);
    }
  }

  /** Taking the element at `i` out before mapping takes its image out after. */
  lemma MapRemoveAt<T, U>(s: seq<T>, i: nat, f: T --> U)
    requires i < |s|
    requires forall x :: x in s ==> f.requires(x)
    ensures forall x :: x in s[..i] + s[i + 1..] ==> f.requires(x)
    ensures multiset(Map(s, f)) == multiset(Map(s[..i] + s[i + 1..], f)) + multiset{f(s[i])}
  {
    var r := s[..i] + s[i + 1..];
    var m := Map(s, f);
    var t := Map(r, f);
    var n := m[..i] + m[i + 1..];
    assert |t| == |n|;
    forall k | 0 <= k < |t| ensures t[k] == n[k] {
      if k < i {
        assert r[k] == s[k] && n[k] == m[k];
      } else {
        assert r[k] == s[k + 1] && n[k] == m[k + 1];
      }
    }
    assert t == n;
    MultisetRemoveAt(m, i);
  }

  /** LINQ `Take(n)` (a negative `n` takes nothing). */
  function Take<T>(s: seq<T>, n: int): (r: seq<T>)
    ensures |r| == if n <= 0 then 0 else if n < |s| then n else |s|
    ensures forall i :: 0 <= i < |r| ==> r[i] == s[i]
  {
    if n <= 0 then [] else if n < |s| then s[..n] else s
  }

  /** A prefix holds no more of any element than the whole. */
  lemma TakeMultiset<T>(s: seq<T>, n: int)
    ensures multiset(Take(s, n)) <= multiset(s)
  {
    var r := Take(s, n);
    assert r == s[..|r|];
    assert s == r + s[|r|..];
  }

  /** Every element of a sub-multiset is an element of the larger sequence. */
  lemma SubMultisetMembers<T>(a: seq<T>, b: seq<T>)
    requires multiset(a) <= multiset(b)
    ensures forall x :: x in a ==> x in b
  {
    forall x | x in a ensures x in b {
      assert x in multiset(a);
    }
  }

  /** LINQ `Skip(n)` (a negative `n` skips nothing). */
  function Skip<T>(s: seq<T>, n: int): (r: seq<T>)
    ensures |r| == if n <= 0 then |s| else if n < |s| then |s| - n else 0
    ensures forall i :: 0 <= i < |r| ==> r[i] == s[i + (if n <= 0 then 0 else n)]
  {
    if n <= 0 then s else if n < |s| then s[n..] else []
  }
}
