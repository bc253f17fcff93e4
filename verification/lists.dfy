/**
 The two array updates the store applies to reference lists: `$addToSet`
 (append unless present) and `$pull` / `Array.filter(v => v !== x)` (drop
 every occurrence, keep the order of the rest), plus the order-preserving
 intersection used for mutual followers.
 */
module Lists {

  /** No element occurs twice. */
  predicate NoDuplicates<T(==,!new)>(s: seq<T>) {
    forall i, j :: 0 <= i < j < |s| ==> s[i] != s[j]
  }

  /** `$addToSet`: append `x` at the end unless it is already present. */
  function AddToSet<T(==,!new)>(s: seq<T>, x: T): (r: seq<T>)
    ensures x in r
    ensures forall y :: y in r <==> y in s || y == x
    ensures |s| <= |r| <= |s| + 1
    ensures r[..|s|] == s
    ensures x in s ==> r == s
    ensures x !in s ==> r == s + [x]
  {
    if x in s then s else s + [x]
  }

  /** `$addToSet` never introduces a duplicate. */
  lemma AddToSetKeepsNoDuplicates<T(!new)>(s: seq<T>, x: T)
    requires NoDuplicates(s)
    ensures NoDuplicates(AddToSet(s, x))
  {
  }

  /** `$pull`: remove every occurrence of `x`, keeping the others in order. */
  function RemoveAll<T(==,!new)>(s: seq<T>, x: T): (r: seq<T>)
    ensures forall y :: y in r <==> y in s && y != x
    ensures multiset(r) == multiset(s)[x := 0]
  {
    if s == [] then []
    else
      assert s == [s[0]] + s[1..];
      if s[0] == x then RemoveAll(s[1..], x) else [s[0]] + RemoveAll(s[1..], x)
  }

  /** Removing distributes over concatenation: the order of the kept elements
      is the order they had. */
  lemma {:induction false} RemoveAllConcat<T(!new)>(a: seq<T>, b: seq<T>, x: T)
    ensures RemoveAll(a + b, x) == RemoveAll(a, x) + RemoveAll(b, x)
    decreases |a|
  {
    if a == [] {
      assert a + b == b;
    } else {
      assert (a + b)[0] == a[0];
      assert (a + b)[1..] == a[1..] + b;
      RemoveAllConcat(a[1..], b, x);
    }
  }

  /** Removing an absent element is a no-op. */
  lemma {:induction false} RemoveAllAbsent<T(!new)>(s: seq<T>, x: T)
    requires x !in s
    ensures RemoveAll(s, x) == s
    decreases |s|
  {
    if s != [] {
      assert x !in s[1..];
      RemoveAllAbsent(s[1..], x);
    }
  }

  /** Removing twice is removing once. */
  lemma RemoveAllIdempotent<T(!new)>(s: seq<T>, x: T)
    ensures RemoveAll(RemoveAll(s, x), x) == RemoveAll(s, x)
  {
    RemoveAllAbsent(RemoveAll(s, x), x);
  }

  /** Removing after appending an absent element gives back the original list. */
  lemma AddToSetThenRemoveAll<T(!new)>(s: seq<T>, x: T)
    requires x !in s
    ensures RemoveAll(AddToSet(s, x), x) == s
  {
    RemoveAllConcat(s, [x], x);
    RemoveAllAbsent(s, x);
    assert RemoveAll([x], x) == [];
  }

  /** Removing keeps a duplicate-free list duplicate-free. */
  lemma {:induction false} RemoveAllKeepsNoDuplicates<T(!new)>(s: seq<T>, x: T)
    requires NoDuplicates(s)
    ensures NoDuplicates(RemoveAll(s, x))
    decreases |s|
  {
    if s != [] {
      assert NoDuplicates(s[1..]);
      RemoveAllKeepsNoDuplicates(s[1..], x);
      assert s[0] !in s[1..];
    }
  }

  /** `xs.filter(y => ys.includes(y))`: the elements of `xs` that also occur
      in `ys`, in the order of `xs`. */
  function KeepIn<T(==,!new)>(xs: seq<T>, ys: seq<T>): (r: seq<T>)
    ensures forall y :: y in r <==> y in xs && y in ys
    ensures |r| <= |xs|
  {
    if xs == [] then []
    else
      assert xs == [xs[0]] + xs[1..];
      if xs[0] in ys then [xs[0]] + KeepIn(xs[1..], ys) else KeepIn(xs[1..], ys)
  }

  /** The intersection keeps the order of its first argument. */
  lemma {:induction false} KeepInConcat<T(!new)>(a: seq<T>, b: seq<T>, ys: seq<T>)
    ensures KeepIn(a + b, ys) == KeepIn(a, ys) + KeepIn(b, ys)
    decreases |a|
  {
    if a == [] {
      assert a + b == b;
    } else {
      assert (a + b)[0] == a[0];
      assert (a + b)[1..] == a[1..] + b;
      KeepInConcat(a[1..], b, ys);
    }
  }
}
