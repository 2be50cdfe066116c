/** A collection of the document store, held as a sequence in natural
    (insertion) order, with the id-keyed lookups the controllers use:
    `findById`, `findByIdAndUpdate`, `findByIdAndDelete` and `find(filter)`. */
module Store {
  import opened Common

  /** No two documents share a key (the `_id` index, or a `unique` index). */
  predicate UniqueKeys<T, K(==)>(s: seq<T>, key: T -> K)
  {
    forall i, j :: 0 <= i < j < |s| ==> key(s[i]) != key(s[j])
  }

  /** The first document whose key is `k`. */
  function Find<T(==), K(==)>(s: seq<T>, key: T -> K, k: K): (r: Option<T>)
    ensures r.Some? ==> r.value in s && key(r.value) == k
    ensures r.None? <==> forall x :: x in s ==> key(x) != k
  {
    if |s| == 0 then None
    else if key(s[0]) == k then Some(s[0])
    else Find(s[1..], key, k)
  }

  /** With unique keys, the document found is THE document with that key. */
  lemma FindUnique<T, K>(s: seq<T>, key: T -> K, i: int)
    requires UniqueKeys(s, key) && 0 <= i < |s|
    ensures Find(s, key, key(s[i])) == Some(s[i])
  {
    if i > 0 && key(s[0]) != key(s[i]) {
      FindUnique(s[1..], key, i - 1);
    }
  }

  /** The documents satisfying `p`, in store order (`find(filter)`). */
  function Keep<T(==)>(s: seq<T>, p: T -> bool): (r: seq<T>)
    ensures |r| <= |s|
    ensures forall x :: x in r ==> x in s && p(x)
    ensures forall x :: x in s && p(x) ==> x in r
    ensures forall k :: 0 <= k < |r| ==> p(r[k])
  {
    if |s| == 0 then []
    else if p(s[0]) then [s[0]] + Keep(s[1..], p)
    else Keep(s[1..], p)
  }

  /** One step of `Keep`: the first document is kept exactly when it
      satisfies the predicate, ahead of what the rest keeps. */
  lemma KeepStep<T>(s: seq<T>, p: T -> bool)
    requires |s| > 0
    ensures Keep(s, p) == if p(s[0]) then [s[0]] + Keep(s[1..], p) else Keep(s[1..], p)
  {
  }

  /** Keeping what already all qualifies changes nothing. */
  lemma {:induction false} KeepAll<T>(s: seq<T>, p: T -> bool)
    requires forall k :: 0 <= k < |s| ==> p(s[k])
    ensures Keep(s, p) == s
    decreases |s|
  {
    if |s| > 0 {
      KeepAll(s[1..], p);
      assert [s[0]] + s[1..] == s;
    }
  }

  /** Keeping distributes over concatenation. */
  lemma {:induction false} KeepConcat<T>(a: seq<T>, b: seq<T>, p: T -> bool)
    ensures Keep(a + b, p) == Keep(a, p) + Keep(b, p)
    decreases |a|
  {
    if |a| > 0 {
      assert (a + b)[1..] == a[1..] + b;
      KeepConcat(a[1..], b, p);
    } else {
      assert a + b == b;
    }
  }

  /** The documents whose key is not `k`. */
  function KeyIsNot<T, K(==)>(key: T -> K, k: K): T -> bool
  {
    (x: T) => key(x) != k
  }

  /** The store without the document(s) keyed `k` (`findByIdAndDelete`). */
  function Remove<T(==), K(==)>(s: seq<T>, key: T -> K, k: K): (r: seq<T>)
    ensures forall x :: x in r ==> x in s && key(x) != k
    ensures forall x :: x in s && key(x) != k ==> x in r
    ensures Find(s, key, k).Some? ==> |r| < |s|
  {
    var p := KeyIsNot(key, k);
    var found := Find(s, key, k);
    if found.Some? then
      KeepShrinks(s, p, found.value);
      Keep(s, p)
    else Keep(s, p)
  }

  /** The store with the document keyed `k` replaced by `v`. */
  function Replace<T, K(==)>(s: seq<T>, key: T -> K, k: K, v: T): (r: seq<T>)
    ensures |r| == |s|
    ensures forall i :: 0 <= i < |s| && key(s[i]) != k ==> r[i] == s[i]
    ensures forall i :: 0 <= i < |s| && key(s[i]) == k ==> r[i] == v
  {
    seq(|s|, i requires 0 <= i < |s| => if key(s[i]) == k then v else s[i])
  }

  /** `a` is `b` with some elements left out, order kept. */
  ghost predicate IsSubsequence<T>(a: seq<T>, b: seq<T>)
    decreases |b|
  {
    if |a| == 0 then true
    else if |b| == 0 then false
    else if a[0] == b[0] then IsSubsequence(a[1..], b[1..])
    else IsSubsequence(a, b[1..])
  }

  lemma {:induction false} KeepIsSubsequence<T>(s: seq<T>, p: T -> bool)
    ensures IsSubsequence(Keep(s, p), s)
    decreases |s|
  {
    if |s| > 0 {
      KeepIsSubsequence(s[1..], p);
      var r := Keep(s[1..], p);
      if p(s[0]) {
        assert ([s[0]] + r)[1..] == r;
      } else if |r| > 0 {
        assert p(r[0]);  // so r[0] is not s[0]
      }
    }
  }

  /** A prefix of a subsequence is a subsequence. */
  lemma {:induction false} PrefixIsSubsequence<T>(a: seq<T>, b: seq<T>, n: nat)
    requires IsSubsequence(a, b) && n <= |a|
    ensures IsSubsequence(a[..n], b)
    decreases |b|
  {
    if n > 0 {
      if a[0] == b[0] {
        PrefixIsSubsequence(a[1..], b[1..], n - 1);
        assert a[..n][1..] == a[1..][..n - 1];
      } else {
        PrefixIsSubsequence(a, b[1..], n);
      }
    }
  }

  /** Every element of a subsequence comes from the bigger sequence. */
  lemma {:induction false} SubsequenceMembers<T>(a: seq<T>, b: seq<T>, x: T)
    requires IsSubsequence(a, b) && x in a
    ensures x in b
    decreases |b|
  {
    if a[0] == b[0] {
      if x != a[0] {
        assert x in a[1..];
        SubsequenceMembers(a[1..], b[1..], x);
      }
    } else {
      SubsequenceMembers(a, b[1..], x);
    }
  }

  /** Keeping the elements of a sequence without duplicates keeps it so. */
  lemma {:induction false} KeepUnique<T, K>(s: seq<T>, key: T -> K, p: T -> bool)
    requires UniqueKeys(s, key)
    ensures UniqueKeys(Keep(s, p), key)
    decreases |s|
  {
    if |s| > 0 {
      KeepUnique(s[1..], key, p);
      var r := Keep(s[1..], p);
      if p(s[0]) {
        forall j | 0 < j < |[s[0]] + r| ensures key(s[0]) != key(([s[0]] + r)[j]) {
          assert r[j - 1] in s[1..];
        }
      }
    }
  }

  /** Replacing a document by one with the same key keeps keys unique. */
  lemma ReplaceUnique<T, K>(s: seq<T>, key: T -> K, k: K, v: T)
    requires UniqueKeys(s, key) && key(v) == k
    ensures UniqueKeys(Replace(s, key, k, v), key)
  {
  }

  /** Two predicates that agree on every element keep the same documents. */
  lemma {:induction false} KeepSame<T>(s: seq<T>, p: T -> bool, q: T -> bool)
    requires forall k :: 0 <= k < |s| ==> p(s[k]) == q(s[k])
    ensures Keep(s, p) == Keep(s, q)
    decreases |s|
  {
    if |s| > 0 {
      KeepSame(s[1..], p, q);
    }
  }

  /** Leaving out a document that is there makes the store shorter. */
  lemma {:induction false} KeepShrinks<T>(s: seq<T>, p: T -> bool, x: T)
    requires x in s && !p(x)
    ensures |Keep(s, p)| < |s|
    decreases |s|
  {
    if s[0] != x {
      KeepShrinks(s[1..], p, x);
    }
  }

  /** A document appended under a new key is the one found by that key. */
  lemma {:induction false} FindAppended<T, K>(s: seq<T>, key: T -> K, x: T)
    requires Find(s, key, key(x)).None?
    ensures Find(s + [x], key, key(x)) == Some(x)
    decreases |s|
  {
    if |s| > 0 {
      assert (s + [x])[1..] == s[1..] + [x];
      FindAppended(s[1..], key, x);
    }
  }

  /** Appending a document under a new key keeps keys unique. */
  lemma AppendUnique<T, K>(s: seq<T>, key: T -> K, x: T)
    requires UniqueKeys(s, key) && Find(s, key, key(x)).None?
    ensures UniqueKeys(s + [x], key)
  {
    var r := s + [x];
    forall i, j | 0 <= i < j < |r| ensures key(r[i]) != key(r[j]) {
      assert r[i] == s[i] && s[i] in s;
      if j < |s| {
        assert r[j] == s[j];
      }
    }
  }
}
