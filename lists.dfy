/** The two list operations of the .NET base library the order book relies on:
    `List<T>.Remove` (drop the first occurrence) and `Enumerable.Union`
    (concatenate, keeping the first occurrence of each element). Elements are
    compared by identity, as the default equality of a reference type does. */
module Lists {

  /** No element occurs twice. The pairwise comparison is named by `Differ`,
      so a proof about a particular pair says which pair it needs. */
  predicate Distinct<T(==)>(s: seq<T>)
  {
    forall i, j :: 0 <= i < j < |s| ==> Differ(s, i, j)
  }

  predicate Differ<T(==)>(s: seq<T>, i: int, j: int)
  {
    0 <= i < |s| && 0 <= j < |s| && s[i] != s[j]
  }

  lemma DistinctAt<T>(s: seq<T>, i: nat, j: nat)
    requires Distinct(s) && i < |s| && j < |s| && i != j
    ensures s[i] != s[j]
  {
    if i < j {
      assert Differ(s, i, j);
    } else {
      assert Differ(s, j, i);
    }
  }

  /** The tail of a list without duplicates has none and lacks the head. */
  lemma DistinctTail<T>(s: seq<T>)
    requires Distinct(s) && s != []
    ensures Distinct(s[1..]) && s[0] !in s[1..]
  {
    forall i, j | 0 <= i < j < |s[1..]| ensures Differ(s[1..], i, j) {
      DistinctAt(s, i + 1, j + 1);
    }
    forall j | 0 <= j < |s[1..]| ensures s[1..][j] != s[0] {
      DistinctAt(s, 0, j + 1);
    }
  }

  /** Consing an element that does not occur keeps a list free of duplicates. */
  lemma DistinctCons<T>(x: T, s: seq<T>)
    requires Distinct(s) && x !in s
    ensures Distinct([x] + s)
  {
    var t := [x] + s;
    forall i, j | 0 <= i < j < |t| ensures Differ(t, i, j) {
      if i > 0 {
        DistinctAt(s, i - 1, j - 1);
      } else {
        assert t[j] == s[j - 1];
      }
    }
  }

  /** Appending an element that does not occur keeps a list free of duplicates. */
  lemma DistinctSnoc<T>(s: seq<T>, x: T)
    requires Distinct(s) && x !in s
    ensures Distinct(s + [x])
  {
    var t := s + [x];
    forall i, j | 0 <= i < j < |t| ensures Differ(t, i, j) {
      if j < |s| {
        DistinctAt(s, i, j);
      } else {
        assert t[i] == s[i];
      }
    }
  }

  /** A prefix of a list without duplicates has none and lacks the next element. */
  lemma DistinctFront<T>(s: seq<T>)
    requires Distinct(s) && s != []
    ensures Distinct(s[..|s| - 1]) && s[|s| - 1] !in s[..|s| - 1]
  {
    var p := s[..|s| - 1];
    forall i, j | 0 <= i < j < |p| ensures Differ(p, i, j) {
      DistinctAt(s, i, j);
    }
    forall i | 0 <= i < |p| ensures p[i] != s[|s| - 1] {
      DistinctAt(s, i, |s| - 1);
    }
  }

  /** Position of the first occurrence of `x` in `s`, or `|s|` when it does not occur. */
  function IndexOf<T(==)>(s: seq<T>, x: T): (k: nat)
    ensures k <= |s|
    ensures x in s ==> k < |s| && s[k] == x
  {
    if s == [] then 0 else if s[0] == x then 0 else 1 + IndexOf(s[1..], x)
  }

  /** No occurrence of `x` comes before its first one. */
  lemma {:induction false} IndexOfFirst<T>(s: seq<T>, x: T)
    ensures x !in s[..IndexOf(s, x)]
  {
    if s != [] && s[0] != x {
      IndexOfFirst(s[1..], x);
      assert s[..IndexOf(s, x)] == [s[0]] + s[1..][..IndexOf(s[1..], x)];
    }
  }

  /** In a list without duplicates every element's first occurrence is its position. */
  lemma {:induction false} DistinctIndexOf<T>(s: seq<T>, j: nat)
    requires Distinct(s) && j < |s|
    ensures IndexOf(s, s[j]) == j
  {
    if j > 0 {
      assert s[1..][j - 1] == s[j];
      DistinctTail(s);
      DistinctAt(s, 0, j);
      DistinctIndexOf(s[1..], j - 1);
    }
  }

  /** `List<T>.Remove`: the list without the first occurrence of `x`, or the
      list itself when `x` does not occur. */
  function RemoveFirst<T(==)>(s: seq<T>, x: T): (r: seq<T>)
    ensures x !in s ==> r == s
    ensures x in s ==> r == s[..IndexOf(s, x)] + s[IndexOf(s, x) + 1..]
  {
    if s == [] then []
    else if s[0] == x then s[1..]
    else
      assert s == [s[0]] + s[1..];
      [s[0]] + RemoveFirst(s[1..], x)
  }

  /** The elements of `s` that do not occur in `xs`, in their order in `s`. */
  function Without<T(==)>(s: seq<T>, xs: seq<T>): (r: seq<T>)
    ensures |r| <= |s|
  {
    if s == [] then []
    else (if s[0] in xs then [] else [s[0]]) + Without(s[1..], xs)
  }

  lemma {:induction false} WithoutMember<T>(s: seq<T>, xs: seq<T>, x: T)
    ensures x in Without(s, xs) <==> x in s && x !in xs
  {
    if s != [] {
      WithoutMember(s[1..], xs, x);
      assert s == [s[0]] + s[1..];
    }
  }

  lemma {:induction false} WithoutDistinct<T>(s: seq<T>, xs: seq<T>)
    requires Distinct(s)
    ensures Distinct(Without(s, xs))
  {
    if s != [] {
      DistinctTail(s);
      WithoutDistinct(s[1..], xs);
      WithoutMember(s[1..], xs, s[0]);
      if s[0] !in xs {
        DistinctCons(s[0], Without(s[1..], xs));
      } else {
        assert Without(s, xs) == Without(s[1..], xs);
      }
    }
  }

  /** On a list without duplicates, removing the first occurrence removes every occurrence. */
  lemma {:induction false} RemoveFirstDistinct<T>(s: seq<T>, x: T)
    requires Distinct(s)
    ensures RemoveFirst(s, x) == Without(s, [x])
  {
    if s != [] {
      DistinctTail(s);
      RemoveFirstDistinct(s[1..], x);
      if s[0] == x {
        assert Without(s[1..], [x]) == s[1..] by { WithoutNothing(s[1..], [x]); }
      }
    }
  }

  lemma {:induction false} WithoutNothing<T>(s: seq<T>, xs: seq<T>)
    requires forall x :: x in s ==> x !in xs
    ensures Without(s, xs) == s
  {
    if s != [] {
      WithoutNothing(s[1..], xs);
      assert s == [s[0]] + s[1..];
    }
  }

  /** Removing `xs` and then `x` is removing `xs + [x]`. */
  lemma {:induction false} WithoutWithout<T>(s: seq<T>, xs: seq<T>, x: T)
    ensures Without(Without(s, xs), [x]) == Without(s, xs + [x])
  {
    if s != [] {
      WithoutWithout(s[1..], xs, x);
      var h := if s[0] in xs then [] else [s[0]];
      WithoutConcat(h, Without(s[1..], xs), [x]);
    }
  }

  lemma {:induction false} WithoutConcat<T>(a: seq<T>, b: seq<T>, xs: seq<T>)
    ensures Without(a + b, xs) == Without(a, xs) + Without(b, xs)
  {
    if a == [] {
      assert a + b == b;
    } else {
      assert (a + b)[0] == a[0] && (a + b)[1..] == a[1..] + b;
      WithoutConcat(a[1..], b, xs);
    }
  }

  /** `Enumerable.Union`: the elements of `a + b`, each kept at its first occurrence. */
  function Union<T(==)>(a: seq<T>, b: seq<T>): (r: seq<T>)
    ensures Distinct(r)
  {
    Dedup(a + b)
  }

  lemma UnionMember<T>(a: seq<T>, b: seq<T>, x: T)
    ensures x in Union(a, b) <==> x in a || x in b
  {
    DedupMember(a + b, x);
  }

  /** Two lists that together hold no duplicate are simply concatenated. */
  lemma UnionDisjoint<T>(a: seq<T>, b: seq<T>)
    requires Distinct(a + b)
    ensures Union(a, b) == a + b
  {
    DedupDistinct(a + b);
  }

  /** The list with every later repetition dropped. */
  function Dedup<T(==)>(s: seq<T>): (r: seq<T>)
    ensures Distinct(r)
  {
    if s == [] then []
    else
      var d, x := Dedup(s[..|s| - 1]), s[|s| - 1];
      if x in d then d
      else
        DistinctSnoc(d, x);
        d + [x]
  }

  lemma {:induction false} DedupMember<T>(s: seq<T>, x: T)
    ensures x in Dedup(s) <==> x in s
  {
    if s != [] {
      var n := |s| - 1;
      DedupMember(s[..n], x);
      DedupMember(s[..n], s[n]);
      assert s == s[..n] + [s[n]];
    }
  }

  /** A list without duplicates is its own deduplication. */
  lemma {:induction false} DedupDistinct<T>(s: seq<T>)
    requires Distinct(s)
    ensures Dedup(s) == s
  {
    if s != [] {
      var n := |s| - 1;
      DistinctFront(s);
      DedupDistinct(s[..n]);
      DedupMember(s[..n], s[n]);
      assert s == s[..n] + [s[n]];
    }
  }
}
